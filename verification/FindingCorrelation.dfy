/** Correlating the findings of several AI results by key. */
module FindingCorrelation {
  import opened Collections
  import opened Findings
  import opened Sorting

  datatype Result = Result(runId: string, taskId: string, modelId: string, input: string, findings: seq<Reported>)

  datatype Group = Group(key: string, conclusions: seq<string>, taskIds: seq<string>, references: seq<string>, confidence: real)

  datatype Correlation = Correlation(group: Group, requiresHumanReview: bool)

  /** A deduplicated finding with the task it came from. */
  datatype Tagged = Tagged(taskId: string, finding: Finding)

  /** The deduplicated findings of one result; None where `correlateFindings` throws. Findings are
      normalized once with the result and once more by the deduplication. */
  function Contribution(t: Texts, r: Result): Option<seq<Tagged>> {
    var runId, taskId, modelId := BoundedId(t, r.runId), BoundedId(t, r.taskId), BoundedId(t, r.modelId);
    if runId.None? || taskId.None? || modelId.None? || |r.input| > MAX_TEXT || |r.findings| > MAX_FINDINGS then None
    else
      var normalized := NormalizeAll(t, r.findings);
      if normalized.None? then None
      else
        var entries := Deduplicated(t, AllReported(normalized.value));
        if entries.None? then None else Some(seq(|entries.value|, i requires 0 <= i < |entries.value| => Tagged(taskId.value, entries.value[i])))
  }

  /** A result is refused if one of its ids has not 1 to 256 characters after trimming, its input is longer than
      16,384, it has more than 100 findings, or one of them is refused. */
  lemma {:induction false} ContributionRefusedIff(t: Texts, r: Result)
    ensures Contribution(t, r).None? <==>
      || !(1 <= |t.trim(r.runId)| <= 256) || !(1 <= |t.trim(r.taskId)| <= 256) || !(1 <= |t.trim(r.modelId)| <= 256)
      || |r.input| > 16_384 || |r.findings| > 100
      || NormalizeAll(t, r.findings).None? || Deduplicated(t, AllReported(NormalizeAll(t, r.findings).value)).None?
  {
  }

  /** It contributes its deduplicated findings under its trimmed task id. */
  lemma {:induction false} ContributionAnswers(t: Texts, r: Result)
    requires Contribution(t, r).Some?
    ensures NormalizeAll(t, r.findings).Some? && Deduplicated(t, AllReported(NormalizeAll(t, r.findings).value)).Some?
    ensures var entries := Deduplicated(t, AllReported(NormalizeAll(t, r.findings).value)).value;
      && |Contribution(t, r).value| == |entries|
      && forall i :: 0 <= i < |entries| ==> Contribution(t, r).value[i] == Tagged(t.trim(r.taskId), entries[i])
  {
  }

  function Contributions(t: Texts, results: seq<Result>): Option<seq<Tagged>> {
    if results == [] then Some([])
    else
      var n := |results| - 1;
      var front, last := Contributions(t, results[..n]), Contribution(t, results[n]);
      if front.None? || last.None? then None else Some(front.value + last.value)
  }

  function GroupIndex(groups: seq<Group>, key: string): (i: nat)
    ensures i <= |groups| && (i < |groups| ==> groups[i].key == key)
    ensures forall j :: 0 <= j < i ==> groups[j].key != key
  {
    IndexWhere(groups, (g: Group) => g.key == key)
  }

  /** Some listed conclusion is the same after folding. */
  predicate Known(t: Texts, conclusions: seq<string>, conclusion: string) {
    exists i :: 0 <= i < |conclusions| && t.fold(conclusions[i]) == t.fold(conclusion)
  }

  function Joined(t: Texts, g: Group, x: Tagged): Group {
    Group(g.key,
          if Known(t, g.conclusions, x.finding.conclusion) then g.conclusions else g.conclusions + [x.finding.conclusion],
          g.taskIds + [x.taskId],
          Take(Distinct(g.references + x.finding.references), MAX_REFERENCES),
          if x.finding.confidence > g.confidence then x.finding.confidence else g.confidence)
  }

  function Empty(key: string): Group {
    Group(key, [], [], [], 0.0)
  }

  function AddTo(t: Texts, groups: seq<Group>, x: Tagged): seq<Group> {
    var i := GroupIndex(groups, x.finding.key);
    if i == |groups| then groups + [Joined(t, Empty(x.finding.key), x)] else groups[i := Joined(t, groups[i], x)]
  }

  function Grouped(t: Texts, tagged: seq<Tagged>): seq<Group> {
    if tagged == [] then [] else AddTo(t, Grouped(t, tagged[..|tagged| - 1]), tagged[|tagged| - 1])
  }

  function Finish(g: Group): Correlation {
    Correlation(g.(taskIds := Distinct(g.taskIds)), |g.conclusions| > 1 || g.confidence < 0.6)
  }

  function Sooner(t: Texts): (Correlation, Correlation) -> bool {
    (a: Correlation, b: Correlation) => !t.atMost(b.group.key, a.group.key)
  }

  function Finished(groups: seq<Group>): (r: seq<Correlation>)
    ensures |r| == |groups| && forall i :: 0 <= i < |r| ==> r[i] == Finish(groups[i])
  {
    seq(|groups|, i requires 0 <= i < |groups| => Finish(groups[i]))
  }

  /** Finished and sorted by key. */
  function FinishAll(t: Texts, groups: seq<Group>): (r: seq<Correlation>)
    ensures forall x :: x in r <==> exists i :: 0 <= i < |groups| && x == Finish(groups[i])
    ensures |r| == |groups|
  {
    var finished := Finished(groups);
    assert forall i :: 0 <= i < |groups| ==> finished[i] == Finish(groups[i]);
    SortBy(Sooner(t), finished)
  }

  function Correlated(t: Texts, results: seq<Result>): Option<seq<Correlation>> {
    var tagged := Contributions(t, results);
    if tagged.None? then None else Some(FinishAll(t, Grouped(t, tagged.value)))
  }

  lemma {:induction false} GroupedAppend(t: Texts, tagged: seq<Tagged>, n: nat)
    requires n < |tagged|
    ensures Grouped(t, tagged[..n + 1]) == AddTo(t, Grouped(t, tagged[..n]), tagged[n])
  {
    assert tagged[..n + 1][..n] == tagged[..n];
  }

  method AddFinding(t: Texts, groups: seq<Group>, x: Tagged) returns (r: seq<Group>)
    ensures r == AddTo(t, groups, x)
  {
    var i := GroupIndex(groups, x.finding.key);
    var group := if i < |groups| then groups[i] else Empty(x.finding.key);
    var conclusions := group.conclusions;
    if !Known(t, conclusions, x.finding.conclusion) {
      conclusions := conclusions + [x.finding.conclusion];
    }
    var references := Take(Distinct(group.references + x.finding.references), MAX_REFERENCES);
    var confidence := if x.finding.confidence > group.confidence then x.finding.confidence else group.confidence;
    group := Group(group.key, conclusions, group.taskIds + [x.taskId], references, confidence);
    r := if i < |groups| then groups[i := group] else groups + [group];
  }

  method CorrelateFindings(t: Texts, results: seq<Result>) returns (r: Option<seq<Correlation>>)
    ensures r == Correlated(t, results)
  {
    var contributions := Contributions(t, results);
    if contributions.None? {
      return None;
    }
    var tagged := contributions.value;
    var groups: seq<Group> := [];
    for n := 0 to |tagged|
      invariant groups == Grouped(t, tagged[..n])
    {
      GroupedAppend(t, tagged, n);
      groups := AddFinding(t, groups, tagged[n]);
    }
    assert tagged[..|tagged|] == tagged;
    return Some(FinishAll(t, groups));
  }

  // ---------- What a group says ----------

  function Confidences(tagged: seq<Tagged>, key: string): set<real> {
    set i | 0 <= i < |tagged| && tagged[i].finding.key == key :: tagged[i].finding.confidence
  }

  /** The different conclusions about the key, after folding. */
  function Opinions(t: Texts, tagged: seq<Tagged>, key: string): set<string> {
    set i | 0 <= i < |tagged| && tagged[i].finding.key == key :: t.fold(tagged[i].finding.conclusion)
  }

  function Keys(tagged: seq<Tagged>): set<string> {
    set i | 0 <= i < |tagged| :: tagged[i].finding.key
  }

  function TasksOf(tagged: seq<Tagged>, key: string): seq<string> {
    if tagged == [] then []
    else
      var front, x := TasksOf(tagged[..|tagged| - 1], key), tagged[|tagged| - 1];
      if x.finding.key == key then front + [x.taskId] else front
  }

  function ReferencesOf(tagged: seq<Tagged>, key: string): seq<string> {
    if tagged == [] then []
    else
      var front, x := ReferencesOf(tagged[..|tagged| - 1], key), tagged[|tagged| - 1];
      if x.finding.key == key then front + x.finding.references else front
  }

  predicate DistinctFolds(t: Texts, conclusions: seq<string>) {
    forall i, j :: 0 <= i < j < |conclusions| ==> t.fold(conclusions[i]) != t.fold(conclusions[j])
  }

  function Folds(t: Texts, conclusions: seq<string>): set<string> {
    set i | 0 <= i < |conclusions| :: t.fold(conclusions[i])
  }

  predicate IsMaximum(x: real, values: set<real>) {
    x in values && forall y :: y in values ==> y <= x
  }

  /** The group lists one conclusion per opinion, the highest confidence, the tasks, and the first fifty
      distinct references. */
  ghost predicate Summarizes(t: Texts, g: Group, tagged: seq<Tagged>) {
    && DistinctFolds(t, g.conclusions) && Folds(t, g.conclusions) == Opinions(t, tagged, g.key)
    && IsMaximum(g.confidence, Confidences(tagged, g.key))
    && g.taskIds == TasksOf(tagged, g.key)
    && g.references == Take(Distinct(ReferencesOf(tagged, g.key)), 50)
  }

  predicate UniqueGroups(groups: seq<Group>) {
    forall i, j :: 0 <= i < j < |groups| ==> groups[i].key != groups[j].key
  }

  /** One group per key, and every group summarizes the findings of its key. */
  ghost predicate IsGrouping(t: Texts, groups: seq<Group>, tagged: seq<Tagged>) {
    && UniqueGroups(groups)
    && (forall key :: key in Keys(tagged) <==> GroupIndex(groups, key) < |groups|)
    && (forall i :: 0 <= i < |groups| ==> Summarizes(t, groups[i], tagged))
  }

  predicate NoNegative(tagged: seq<Tagged>) {
    forall i :: 0 <= i < |tagged| ==> tagged[i].finding.confidence >= 0.0
  }

  lemma {:induction false} AppendedSets(t: Texts, tagged: seq<Tagged>, x: Tagged, key: string)
    ensures Opinions(t, tagged + [x], key)
      == Opinions(t, tagged, key) + if x.finding.key == key then {t.fold(x.finding.conclusion)} else {}
    ensures Confidences(tagged + [x], key)
      == Confidences(tagged, key) + if x.finding.key == key then {x.finding.confidence} else {}
    ensures Keys(tagged + [x]) == Keys(tagged) + {x.finding.key}
  {
    var all := tagged + [x];
    assert all[|tagged|] == x && forall i :: 0 <= i < |tagged| ==> all[i] == tagged[i];
  }

  lemma {:induction false} AppendedLists(tagged: seq<Tagged>, x: Tagged, key: string)
    ensures TasksOf(tagged + [x], key) == if x.finding.key == key then TasksOf(tagged, key) + [x.taskId] else TasksOf(tagged, key)
    ensures ReferencesOf(tagged + [x], key)
      == if x.finding.key == key then ReferencesOf(tagged, key) + x.finding.references else ReferencesOf(tagged, key)
  {
    assert (tagged + [x])[..|tagged|] == tagged;
  }

  lemma {:induction false} NothingListed(tagged: seq<Tagged>, key: string)
    requires forall i :: 0 <= i < |tagged| ==> tagged[i].finding.key != key
    ensures TasksOf(tagged, key) == [] && ReferencesOf(tagged, key) == []
  {
    if tagged != [] {
      NothingListed(tagged[..|tagged| - 1], key);
    }
  }

  lemma {:induction false} JoinedFolds(t: Texts, g: Group, x: Tagged)
    requires DistinctFolds(t, g.conclusions)
    ensures DistinctFolds(t, Joined(t, g, x).conclusions)
    ensures Folds(t, Joined(t, g, x).conclusions) == Folds(t, g.conclusions) + {t.fold(x.finding.conclusion)}
  {
    var joined := Joined(t, g, x).conclusions;
    if Known(t, g.conclusions, x.finding.conclusion) {
      var i :| 0 <= i < |g.conclusions| && t.fold(g.conclusions[i]) == t.fold(x.finding.conclusion);
      assert t.fold(x.finding.conclusion) in Folds(t, g.conclusions);
    } else {
      assert joined[|g.conclusions|] == x.finding.conclusion;
      assert forall i :: 0 <= i < |g.conclusions| ==> joined[i] == g.conclusions[i];
    }
  }

  lemma {:induction false} KeyIsAbsent(tagged: seq<Tagged>, key: string)
    requires key !in Keys(tagged)
    ensures TasksOf(tagged, key) == [] && ReferencesOf(tagged, key) == []
  {
    forall i | 0 <= i < |tagged|
      ensures tagged[i].finding.key != key
    {
      assert tagged[i].finding.key in Keys(tagged);
    }
    NothingListed(tagged, key);
  }

  /** An empty group says as little as a key without findings. */
  lemma {:induction false} EmptyIsAbsent(t: Texts, tagged: seq<Tagged>, key: string)
    requires key !in Keys(tagged)
    ensures Opinions(t, tagged, key) == {} && Confidences(tagged, key) == {} && Folds(t, []) == {}
    ensures TasksOf(tagged, key) == [] && Take(Distinct(ReferencesOf(tagged, key)), MAX_REFERENCES) == []
  {
    KeyIsAbsent(tagged, key);
    forall i | 0 <= i < |tagged|
      ensures tagged[i].finding.key != key
    {
      assert tagged[i].finding.key in Keys(tagged);
    }
  }

  lemma {:induction false} JoinedLists(t: Texts, g: Group, tagged: seq<Tagged>, x: Tagged)
    requires x.finding.key == g.key && g.taskIds == TasksOf(tagged, g.key)
    requires g.references == Take(Distinct(ReferencesOf(tagged, g.key)), MAX_REFERENCES)
    ensures Joined(t, g, x).taskIds == TasksOf(tagged + [x], g.key)
    ensures Joined(t, g, x).references == Take(Distinct(ReferencesOf(tagged + [x], g.key)), MAX_REFERENCES)
  {
    AppendedLists(tagged, x, g.key);
    TakeDistinctJoin(ReferencesOf(tagged, g.key), x.finding.references, MAX_REFERENCES);
  }

  lemma {:induction false} JoinSummarizes(t: Texts, g: Group, tagged: seq<Tagged>, x: Tagged)
    requires x.finding.key == g.key
    requires Summarizes(t, g, tagged) || (g == Empty(g.key) && g.key !in Keys(tagged) && x.finding.confidence >= 0.0)
    ensures Summarizes(t, Joined(t, g, x), tagged + [x])
  {
    if g == Empty(g.key) && g.key !in Keys(tagged) {
      EmptyIsAbsent(t, tagged, g.key);
    }
    JoinedLists(t, g, tagged, x);
    JoinedFolds(t, g, x);
    AppendedSets(t, tagged, x, g.key);
  }

  lemma {:induction false} AddedKeys(t: Texts, groups: seq<Group>, x: Tagged, key: string)
    requires UniqueGroups(groups)
    ensures UniqueGroups(AddTo(t, groups, x))
    ensures GroupIndex(AddTo(t, groups, x), key) < |AddTo(t, groups, x)| <==> key == x.finding.key || GroupIndex(groups, key) < |groups|
  {
    var added, at := AddTo(t, groups, x), GroupIndex(groups, x.finding.key);
    assert forall i :: 0 <= i < |groups| ==> added[i].key == groups[i].key;
    assert added[at].key == x.finding.key;
    if GroupIndex(groups, key) < |groups| {
      assert added[GroupIndex(groups, key)].key == key;
    }
  }

  lemma {:induction false} AddSummarizes(t: Texts, groups: seq<Group>, tagged: seq<Tagged>, x: Tagged, i: nat)
    requires IsGrouping(t, groups, tagged) && x.finding.confidence >= 0.0 && i < |AddTo(t, groups, x)|
    ensures Summarizes(t, AddTo(t, groups, x)[i], tagged + [x])
  {
    var at := GroupIndex(groups, x.finding.key);
    if i == at {
      JoinSummarizes(t, if at < |groups| then groups[at] else Empty(x.finding.key), tagged, x);
    } else {
      assert AddTo(t, groups, x)[i] == groups[i] && Summarizes(t, groups[i], tagged);
      AppendedSets(t, tagged, x, groups[i].key);
      AppendedLists(tagged, x, groups[i].key);
    }
  }

  lemma {:induction false} GroupingStep(t: Texts, groups: seq<Group>, tagged: seq<Tagged>, x: Tagged)
    requires IsGrouping(t, groups, tagged) && x.finding.confidence >= 0.0
    ensures IsGrouping(t, AddTo(t, groups, x), tagged + [x])
  {
    forall key
      ensures key in Keys(tagged + [x]) <==> GroupIndex(AddTo(t, groups, x), key) < |AddTo(t, groups, x)|
    {
      AddedKeys(t, groups, x, key);
      AppendedSets(t, tagged, x, key);
    }
    AddedKeys(t, groups, x, x.finding.key);
    forall i | 0 <= i < |AddTo(t, groups, x)|
      ensures Summarizes(t, AddTo(t, groups, x)[i], tagged + [x])
    {
      AddSummarizes(t, groups, tagged, x, i);
    }
  }

  lemma {:induction false} GroupedIsGrouping(t: Texts, tagged: seq<Tagged>)
    requires NoNegative(tagged)
    ensures IsGrouping(t, Grouped(t, tagged), tagged)
  {
    if tagged != [] {
      var n := |tagged| - 1;
      var front, x := tagged[..n], tagged[n];
      assert tagged[..n + 1] == tagged == front + [x];
      GroupedIsGrouping(t, front);
      GroupedAppend(t, tagged, n);
      GroupingStep(t, Grouped(t, front), front, x);
    }
  }

  // ---------- The listing ----------

  predicate SortedByKey(t: Texts, listing: seq<Correlation>) {
    forall i :: 0 < i < |listing| ==> t.atMost(listing[i - 1].group.key, listing[i].group.key)
  }

  /** The correlations are listed by key. */
  lemma {:induction false} FinishedIsSorted(t: Texts, groups: seq<Group>)
    requires Lawful(t)
    ensures SortedByKey(t, FinishAll(t, groups))
  {
    var before, listing := Sooner(t), FinishAll(t, groups);
    forall a, b | before(a, b)
      ensures !before(b, a)
    {
      assert t.atMost(a.group.key, b.group.key) || t.atMost(b.group.key, a.group.key);
    }
    SortIsOrdered(before, Finished(groups));
    forall i | 0 < i < |listing|
      ensures t.atMost(listing[i - 1].group.key, listing[i].group.key)
    {
      assert !before(listing[i], listing[i - 1]);
    }
  }

  // ---------- Order does not matter ----------

  ghost predicate SameSet(a: seq<Tagged>, b: seq<Tagged>) {
    forall x :: x in a <==> x in b
  }

  ghost predicate Gives(t: Texts, r: Result, x: Tagged) {
    Contribution(t, r).Some? && x in Contribution(t, r).value
  }

  lemma {:induction false} ContributionsStep(t: Texts, front: seq<Result>, last: Result)
    ensures Contributions(t, front + [last]).Some? <==> Contributions(t, front).Some? && Contribution(t, last).Some?
    ensures Contributions(t, front + [last]).Some? ==>
      Contributions(t, front + [last]).value == Contributions(t, front).value + Contribution(t, last).value
  {
    assert (front + [last])[..|front|] == front;
  }

  lemma {:induction false} ContributionsAre(t: Texts, results: seq<Result>)
    ensures Contributions(t, results).Some? <==> forall r :: r in results ==> Contribution(t, r).Some?
    ensures Contributions(t, results).Some? ==>
      forall x :: x in Contributions(t, results).value <==> exists r :: r in results && Gives(t, r, x)
  {
    if results != [] {
      var front, last := results[..|results| - 1], results[|results| - 1];
      assert results == front + [last];
      ContributionsAre(t, front);
      ContributionsStep(t, front, last);
      if Contributions(t, results).Some? {
        forall x
          ensures x in Contributions(t, results).value <==> exists r :: r in results && Gives(t, r, x)
        {
          assert x in Contribution(t, last).value <==> Gives(t, last, x);
          assert last in results && forall r :: r in front ==> r in results;
        }
      }
    }
  }

  lemma {:induction false} SetsAgree(t: Texts, a: seq<Tagged>, b: seq<Tagged>, key: string)
    requires forall x :: x in a ==> x in b
    ensures Opinions(t, a, key) <= Opinions(t, b, key)
    ensures Confidences(a, key) <= Confidences(b, key)
    ensures Keys(a) <= Keys(b)
  {
    forall i | 0 <= i < |a|
      ensures exists j :: 0 <= j < |b| && b[j] == a[i]
    {
      assert a[i] in b;
    }
  }

  lemma {:induction false} CountFolds(t: Texts, conclusions: seq<string>)
    requires DistinctFolds(t, conclusions)
    ensures |Folds(t, conclusions)| == |conclusions|
  {
    if conclusions != [] {
      var front, last := conclusions[..|conclusions| - 1], conclusions[|conclusions| - 1];
      CountFolds(t, front);
      assert forall i :: 0 <= i < |front| ==> front[i] == conclusions[i];
      assert Folds(t, conclusions) == Folds(t, front) + {t.fold(last)};
      assert t.fold(last) !in Folds(t, front);
    }
  }

  lemma {:induction false} ContributionIsNonNegative(t: Texts, r: Result, i: nat)
    requires Contribution(t, r).Some? && i < |Contribution(t, r).value|
    ensures Contribution(t, r).value[i].finding.confidence >= 0.0
  {
    var reported := AllReported(NormalizeAll(t, r.findings).value);
    var entries := Deduplicated(t, reported).value;
    DeduplicationKeepsTheBest(t, reported);
    var normalized := NormalizeAll(t, reported).value;
    assert entries[i] in entries;
    var k :| FirstMaximum(OfKey(normalized, entries[i].key), k)
      && entries[i] == OfKey(normalized, entries[i].key)[k].(references := entries[i].references);
    var j := OfKeyFrom(normalized, entries[i].key, k);
    assert Normalize(t, reported[j]) == Some(normalized[j]);
  }

  lemma {:induction false} OfKeyFrom(findings: seq<Finding>, key: string, k: nat) returns (j: nat)
    requires k < |OfKey(findings, key)|
    ensures j < |findings| && findings[j] == OfKey(findings, key)[k]
  {
    var n := |findings| - 1;
    if k < |OfKey(findings[..n], key)| {
      j := OfKeyFrom(findings[..n], key, k);
    } else {
      j := n;
    }
  }

  lemma {:induction false} ContributionsAreNonNegative(t: Texts, results: seq<Result>)
    requires Contributions(t, results).Some?
    ensures NoNegative(Contributions(t, results).value)
  {
    var tagged := Contributions(t, results).value;
    ContributionsAre(t, results);
    forall i | 0 <= i < |tagged|
      ensures tagged[i].finding.confidence >= 0.0
    {
      assert tagged[i] in tagged;
      var r :| r in results && Gives(t, r, tagged[i]);
      var k :| 0 <= k < |Contribution(t, r).value| && Contribution(t, r).value[k] == tagged[i];
      ContributionIsNonNegative(t, r, k);
    }
  }

  /** Equal in key, confidence, number of conclusions and review. */
  predicate Alike(c: Correlation, d: Correlation) {
    && c.group.key == d.group.key && c.group.confidence == d.group.confidence
    && |c.group.conclusions| == |d.group.conclusions| && c.requiresHumanReview == d.requiresHumanReview
  }

  lemma {:induction false} SummariesAgree(t: Texts, g: Group, h: Group, a: seq<Tagged>, b: seq<Tagged>)
    requires SameSet(a, b) && g.key == h.key && Summarizes(t, g, a) && Summarizes(t, h, b)
    ensures Alike(Finish(g), Finish(h))
  {
    SetsAgree(t, a, b, g.key);
    SetsAgree(t, b, a, g.key);
    assert Opinions(t, a, g.key) == Opinions(t, b, g.key) && Confidences(a, g.key) == Confidences(b, g.key);
    CountFolds(t, g.conclusions);
    CountFolds(t, h.conclusions);
    assert Folds(t, g.conclusions) == Folds(t, h.conclusions);
  }

  lemma {:induction false} GroupsAgree(t: Texts, a: seq<Tagged>, b: seq<Tagged>, i: nat) returns (j: nat)
    requires SameSet(a, b) && NoNegative(a) && NoNegative(b) && i < |Grouped(t, a)|
    ensures j < |Grouped(t, b)| && Alike(Finish(Grouped(t, a)[i]), Finish(Grouped(t, b)[j]))
  {
    var groups, others := Grouped(t, a), Grouped(t, b);
    GroupedIsGrouping(t, a);
    GroupedIsGrouping(t, b);
    SetsAgree(t, a, b, groups[i].key);
    assert GroupIndex(groups, groups[i].key) < |groups|;
    j := GroupIndex(others, groups[i].key);
    SummariesAgree(t, groups[i], others[j], a, b);
  }

  /** Permuting or repeating results changes neither whether the correlation succeeds, nor the keys, nor
      their confidences, nor the numbers of different conclusions, nor the need for human review. */
  lemma {:induction false} OrderDoesNotMatter(t: Texts, a: seq<Result>, b: seq<Result>)
    requires forall r :: r in a <==> r in b
    ensures Correlated(t, a).Some? <==> Correlated(t, b).Some?
    ensures Correlated(t, a).Some? ==> forall c :: c in Correlated(t, a).value ==> exists d :: d in Correlated(t, b).value && Alike(c, d)
  {
    ContributionsAre(t, a);
    ContributionsAre(t, b);
    if Correlated(t, a).Some? {
      var x, y := Contributions(t, a).value, Contributions(t, b).value;
      assert SameSet(x, y);
      ContributionsAreNonNegative(t, a);
      ContributionsAreNonNegative(t, b);
      forall c | c in Correlated(t, a).value
        ensures exists d :: d in Correlated(t, b).value && Alike(c, d)
      {
        var i :| 0 <= i < |Grouped(t, x)| && c == Finish(Grouped(t, x)[i]);
        var j := GroupsAgree(t, x, y, i);
        assert Finish(Grouped(t, y)[j]) in Correlated(t, b).value;
      }
    }
  }

  lemma {:induction false} TasksOfContents(tagged: seq<Tagged>, key: string, taskId: string)
    ensures taskId in TasksOf(tagged, key) <==> exists i :: 0 <= i < |tagged| && tagged[i].finding.key == key && tagged[i].taskId == taskId
  {
    if tagged != [] {
      var n := |tagged| - 1;
      TasksOfContents(tagged[..n], key, taskId);
      assert forall i :: 0 <= i < n ==> tagged[..n][i] == tagged[i];
    }
  }

  lemma {:induction false} ReferencesOfContents(tagged: seq<Tagged>, key: string, x: string)
    ensures x in ReferencesOf(tagged, key) <==> exists i :: 0 <= i < |tagged| && tagged[i].finding.key == key && x in tagged[i].finding.references
  {
    if tagged != [] {
      var n := |tagged| - 1;
      ReferencesOfContents(tagged[..n], key, x);
      assert forall i :: 0 <= i < n ==> tagged[..n][i] == tagged[i];
    }
  }

  predicate Cites(tagged: seq<Tagged>, key: string, x: string) {
    exists i :: 0 <= i < |tagged| && tagged[i].finding.key == key && x in tagged[i].finding.references
  }

  ghost function CitedFor(tagged: seq<Tagged>, key: string): iset<string> {
    iset x | Cites(tagged, key, x)
  }

  /** A correlation is about a key with findings. It names every task with a finding of the key once, the
      highest of their confidences, and up to fifty of their references. */
  lemma {:induction false} CorrelationSummarizes(t: Texts, results: seq<Result>, c: Correlation)
    requires Correlated(t, results).Some? && c in Correlated(t, results).value
    ensures var tagged, g := Contributions(t, results).value, c.group;
      && (forall taskId :: taskId in g.taskIds
            <==> exists i :: 0 <= i < |tagged| && tagged[i].finding.key == g.key && tagged[i].taskId == taskId)
      && (forall i, j :: 0 <= i < j < |g.taskIds| ==> g.taskIds[i] != g.taskIds[j])
      && (exists i :: 0 <= i < |tagged| && tagged[i].finding.key == g.key && tagged[i].finding.confidence == g.confidence)
      && (forall i :: 0 <= i < |tagged| && tagged[i].finding.key == g.key ==> tagged[i].finding.confidence <= g.confidence)
      && ListsDistinct(g.references, CitedFor(tagged, g.key))
  {
    var tagged := Contributions(t, results).value;
    ContributionsAreNonNegative(t, results);
    GroupedIsGrouping(t, tagged);
    var k :| 0 <= k < |Grouped(t, tagged)| && c == Finish(Grouped(t, tagged)[k]);
    var g := Grouped(t, tagged)[k];
    assert Summarizes(t, g, tagged);
    SummaryLists(t, g, tagged);
    assert g.confidence in Confidences(tagged, g.key);
    forall i | 0 <= i < |tagged| && tagged[i].finding.key == g.key
      ensures tagged[i].finding.confidence <= g.confidence
    {
      assert tagged[i].finding.confidence in Confidences(tagged, g.key);
    }
  }

  lemma {:induction false} SummaryLists(t: Texts, g: Group, tagged: seq<Tagged>)
    requires Summarizes(t, g, tagged)
    ensures var taskIds := Finish(g).group.taskIds;
      && (forall taskId :: taskId in taskIds
            <==> exists i :: 0 <= i < |tagged| && tagged[i].finding.key == g.key && tagged[i].taskId == taskId)
      && (forall i, j :: 0 <= i < j < |taskIds| ==> taskIds[i] != taskIds[j])
    ensures ListsDistinct(g.references, CitedFor(tagged, g.key))
  {
    SameElements(g.taskIds);
    DistinctElements(g.taskIds);
    forall taskId: string {
      TasksOfContents(tagged, g.key, taskId);
    }
    forall x
      ensures x in ReferencesOf(tagged, g.key) <==> x in CitedFor(tagged, g.key)
    {
      ReferencesOfContents(tagged, g.key, x);
    }
    TakenAreDistinct(ReferencesOf(tagged, g.key), CitedFor(tagged, g.key));
  }

  /** Every key with findings has exactly one correlation. */
  lemma {:induction false} KeysAreCorrelatedOnce(t: Texts, results: seq<Result>, key: string)
    requires Correlated(t, results).Some?
    ensures var tagged, listing := Contributions(t, results).value, Correlated(t, results).value;
      && ((exists c :: c in listing && c.group.key == key) <==> exists i :: 0 <= i < |tagged| && tagged[i].finding.key == key)
      && |listing| == |Keys(tagged)|
  {
    var tagged := Contributions(t, results).value;
    ContributionsAreNonNegative(t, results);
    GroupedIsGrouping(t, tagged);
    GroupsCount(Grouped(t, tagged), Keys(tagged));
    GroupsAreListed(t, Grouped(t, tagged), key);
    assert key in Keys(tagged) <==> GroupIndex(Grouped(t, tagged), key) < |Grouped(t, tagged)|;
  }

  lemma {:induction false} GroupsAreListed(t: Texts, groups: seq<Group>, key: string)
    ensures (exists c :: c in FinishAll(t, groups) && c.group.key == key) <==> GroupIndex(groups, key) < |groups|
  {
    if GroupIndex(groups, key) < |groups| {
      assert Finish(groups[GroupIndex(groups, key)]) in FinishAll(t, groups);
    }
    if c :| c in FinishAll(t, groups) && c.group.key == key {
      var k :| 0 <= k < |groups| && c == Finish(groups[k]);
      assert groups[k].key == key;
    }
  }

  lemma {:induction false} GroupsCount(groups: seq<Group>, keys: set<string>)
    requires UniqueGroups(groups) && forall key :: key in keys <==> GroupIndex(groups, key) < |groups|
    ensures |groups| == |keys|
  {
    if groups == [] {
      assert keys == {};
    } else {
      var n := |groups| - 1;
      var key := groups[n].key;
      assert GroupIndex(groups, key) < |groups|;
      forall other
        ensures other in keys - {key} <==> GroupIndex(groups[..n], other) < n
      {
        var i := GroupIndex(groups, other);
        assert i < n ==> groups[..n][i].key == other;
        var j := GroupIndex(groups[..n], other);
        assert j < n ==> groups[j].key == other && groups[j].key != key;
      }
      GroupsCount(groups[..n], keys - {key});
    }
  }

  /** Two findings of the key have conclusions that differ after folding. */
  ghost predicate Disagree(t: Texts, tagged: seq<Tagged>, key: string) {
    exists i, j :: 0 <= i < j < |tagged| && tagged[i].finding.key == tagged[j].finding.key == key
      && t.fold(tagged[i].finding.conclusion) != t.fold(tagged[j].finding.conclusion)
  }

  /** A correlation needs human review exactly when its key has two conclusions that differ after
      folding, or nobody was at least 60 percent confident. */
  lemma {:induction false} ReviewIsNeededIff(t: Texts, results: seq<Result>, c: Correlation)
    requires Correlated(t, results).Some? && c in Correlated(t, results).value
    ensures var tagged := Contributions(t, results).value;
      c.requiresHumanReview <==>
        || Disagree(t, tagged, c.group.key)
        || (forall i :: 0 <= i < |tagged| && tagged[i].finding.key == c.group.key ==> tagged[i].finding.confidence < 0.6)
  {
    var tagged := Contributions(t, results).value;
    ContributionsAreNonNegative(t, results);
    GroupedIsGrouping(t, tagged);
    var k :| 0 <= k < |Grouped(t, tagged)| && c == Finish(Grouped(t, tagged)[k]);
    var g := Grouped(t, tagged)[k];
    assert Summarizes(t, g, tagged);
    ManyOpinions(t, g, tagged);
    ConfidenceIsLow(g.confidence, tagged, g.key);
  }

  lemma {:induction false} ManyOpinions(t: Texts, g: Group, tagged: seq<Tagged>)
    requires Summarizes(t, g, tagged)
    ensures |g.conclusions| > 1 <==> Disagree(t, tagged, g.key)
  {
    if |g.conclusions| > 1 {
      var a, b := t.fold(g.conclusions[0]), t.fold(g.conclusions[1]);
      assert a in Folds(t, g.conclusions) && b in Folds(t, g.conclusions) && a != b;
      assert a in Opinions(t, tagged, g.key) && b in Opinions(t, tagged, g.key);
      var i :| 0 <= i < |tagged| && tagged[i].finding.key == g.key && t.fold(tagged[i].finding.conclusion) == a;
      var j :| 0 <= j < |tagged| && tagged[j].finding.key == g.key && t.fold(tagged[j].finding.conclusion) == b;
      if i < j {
        assert Disagree(t, tagged, g.key);
      } else {
        assert j < i;
        assert Disagree(t, tagged, g.key);
      }
    }
    if Disagree(t, tagged, g.key) {
      var i, j :| 0 <= i < j < |tagged| && tagged[i].finding.key == tagged[j].finding.key == g.key
        && t.fold(tagged[i].finding.conclusion) != t.fold(tagged[j].finding.conclusion);
      var a, b := t.fold(tagged[i].finding.conclusion), t.fold(tagged[j].finding.conclusion);
      assert a in Opinions(t, tagged, g.key) && b in Opinions(t, tagged, g.key);
      var k :| 0 <= k < |g.conclusions| && t.fold(g.conclusions[k]) == a;
      var m :| 0 <= m < |g.conclusions| && t.fold(g.conclusions[m]) == b;
    }
  }

  lemma {:induction false} ConfidenceIsLow(x: real, tagged: seq<Tagged>, key: string)
    requires IsMaximum(x, Confidences(tagged, key))
    ensures x < 0.6 <==> forall i :: 0 <= i < |tagged| && tagged[i].finding.key == key ==> tagged[i].finding.confidence < 0.6
  {
    forall i | 0 <= i < |tagged| && tagged[i].finding.key == key
      ensures tagged[i].finding.confidence <= x
    {
      assert tagged[i].finding.confidence in Confidences(tagged, key);
    }
    var i :| 0 <= i < |tagged| && tagged[i].finding.key == key && tagged[i].finding.confidence == x;
  }
}
