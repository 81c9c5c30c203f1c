/** Deduplication and correlation of the findings that AI runs report. */
module Findings {
  import opened Collections
  import opened Sorting

  const MAX_TEXT: nat := 16_384
  const MAX_FINDINGS: nat := 100
  const MAX_REFERENCES: nat := 50
  const MAX_REFERENCE_LENGTH: nat := 512
  const MAX_ID: nat := 256

  /** The text functions of the platform: trimming, lower-casing, the folding of conclusions for
      comparison, and the comparison of keys for sorting ("not after"). */
  datatype Texts = Texts(trim: string -> string, lower: string -> string, fold: string -> string, atMost: (string, string) -> bool)

  ghost predicate Lawful(t: Texts) {
    && (forall s :: t.trim(t.trim(s)) == t.trim(s))
    && (forall s :: t.lower(t.lower(s)) == t.lower(s))
    && (forall s :: t.trim(t.lower(t.trim(s))) == t.lower(t.trim(s)))
    && (forall s :: t.lower(s) == "" ==> s == "")
    && (forall a, b :: t.atMost(a, b) || t.atMost(b, a))
  }

  /** A finding as reported; the confidence is absent when it is not finite. */
  datatype Reported = Reported(key: string, conclusion: string, confidence: Option<real>, references: seq<string>)

  datatype Finding = Finding(key: string, conclusion: string, confidence: real, references: seq<string>)

  function AsReported(f: Finding): Reported {
    Reported(f.key, f.conclusion, Some(f.confidence), f.references)
  }

  // ---------- Normalization ----------

  function Kept(t: Texts, values: seq<string>): seq<string> {
    if values == [] then []
    else
      var n := |values| - 1;
      var front, value := Kept(t, values[..n]), t.trim(values[n]);
      if value == "" || |value| > MAX_REFERENCE_LENGTH then front else front + [value]
  }

  function NormalizeReferences(t: Texts, values: seq<string>): seq<string> {
    Take(Distinct(Kept(t, values)), MAX_REFERENCES)
  }

  function BoundedId(t: Texts, value: string): Option<string> {
    var normalized := t.trim(value);
    if normalized == "" || |normalized| > MAX_ID then None else Some(normalized)
  }

  /** None where `normalizeFinding` throws. */
  function Normalize(t: Texts, f: Reported): Option<Finding> {
    var key, conclusion := BoundedId(t, f.key), t.trim(f.conclusion);
    if key.None? || conclusion == "" || |conclusion| > MAX_TEXT then None
    else if f.confidence.None? || f.confidence.value < 0.0 || f.confidence.value > 1.0 then None
    else Some(Finding(t.lower(key.value), conclusion, f.confidence.value, NormalizeReferences(t, f.references)))
  }

  function NormalizeAll(t: Texts, findings: seq<Reported>): (r: Option<seq<Finding>>)
    ensures r.Some? <==> forall i :: 0 <= i < |findings| ==> Normalize(t, findings[i]).Some?
    ensures r.Some? ==> |r.value| == |findings| && forall i :: 0 <= i < |findings| ==> Normalize(t, findings[i]) == Some(r.value[i])
  {
    if findings == [] then Some([])
    else
      var n := |findings| - 1;
      var front, last := NormalizeAll(t, findings[..n]), Normalize(t, findings[n]);
      if front.None? || last.None? then None else Some(front.value + [last.value])
  }

  /** `r` lists elements of `values` without repetition, all of them unless that would be more than fifty. */
  ghost predicate ListsDistinct(r: seq<string>, values: iset<string>) {
    && |r| <= 50
    && (forall x :: x in r ==> x in values)
    && (forall i, j :: 0 <= i < j < |r| ==> r[i] != r[j])
    && (|r| < 50 ==> forall x :: x in values ==> x in r)
  }

  /** A reference is kept if it has 1 to 512 characters after trimming. */
  ghost function UsableReferences(t: Texts, values: seq<string>): iset<string> {
    iset x | (exists i :: 0 <= i < |values| && t.trim(values[i]) == x) && 1 <= |x| <= 512
  }

  lemma {:induction false} KeptContents(t: Texts, values: seq<string>)
    ensures forall x :: x in Kept(t, values) <==> x in UsableReferences(t, values)
  {
    if values != [] {
      var n := |values| - 1;
      KeptContents(t, values[..n]);
      forall x
        ensures x in Kept(t, values) <==> x in UsableReferences(t, values)
      {
        assert x in UsableReferences(t, values[..n]) <==> x in Kept(t, values[..n]);
        if x in UsableReferences(t, values) {
          var i :| 0 <= i < |values| && t.trim(values[i]) == x;
          assert i < n ==> values[..n][i] == values[i];
        }
      }
    }
  }

  lemma {:induction false} TakenAreDistinct(values: seq<string>, all: iset<string>)
    requires forall x :: x in values <==> x in all
    ensures ListsDistinct(Take(Distinct(values), 50), all)
  {
    DistinctElements(values);
    SameElements(values);
    var r := Take(Distinct(values), 50);
    forall x | x in r
      ensures x in all
    {
      var i :| 0 <= i < |r| && r[i] == x;
      assert Distinct(values)[i] == x;
    }
  }

  /** A finding is refused unless its key has 1 to 256 characters and its conclusion 1 to 16,384 after
      trimming and its confidence is between zero and one; its key is then lower-cased. */
  lemma {:induction false} NormalizeAnswers(t: Texts, f: Reported)
    ensures Normalize(t, f).Some? <==>
      && 1 <= |t.trim(f.key)| <= 256 && 1 <= |t.trim(f.conclusion)| <= 16_384
      && f.confidence.Some? && 0.0 <= f.confidence.value <= 1.0
    ensures Normalize(t, f).Some? ==>
      var r := Normalize(t, f).value;
      && r == Finding(t.lower(t.trim(f.key)), t.trim(f.conclusion), f.confidence.value, r.references)
      && ListsDistinct(r.references, UsableReferences(t, f.references))
  {
    KeptContents(t, f.references);
    TakenAreDistinct(Kept(t, f.references), UsableReferences(t, f.references));
  }

  // ---------- Deduplication ----------

  /** The position of the entry with the key, or the length. */
  function IndexOf(findings: seq<Finding>, key: string): (i: nat)
    ensures i <= |findings| && (i < |findings| ==> findings[i].key == key)
    ensures forall j :: 0 <= j < i ==> findings[j].key != key
  {
    IndexWhere(findings, (f: Finding) => f.key == key)
  }

  function Combine(existing: Finding, f: Finding): Finding {
    var references := Take(Distinct(existing.references + f.references), MAX_REFERENCES);
    if f.confidence > existing.confidence then f.(references := references) else existing.(references := references)
  }

  /** One entry per key, in order of first occurrence. */
  function Absorb(entries: seq<Finding>, f: Finding): seq<Finding> {
    var i := IndexOf(entries, f.key);
    if i == |entries| then entries + [f] else entries[i := Combine(entries[i], f)]
  }

  function Merged(findings: seq<Finding>): seq<Finding> {
    if findings == [] then [] else Absorb(Merged(findings[..|findings| - 1]), findings[|findings| - 1])
  }

  function Earlier(t: Texts): (Finding, Finding) -> bool {
    (a: Finding, b: Finding) => !t.atMost(b.key, a.key)
  }

  /** The stable sort by key. */
  function SortByKey(t: Texts, findings: seq<Finding>): (r: seq<Finding>)
    ensures multiset(r) == multiset(findings)
  {
    SortBy(Earlier(t), findings)
  }

  function Deduplicated(t: Texts, findings: seq<Reported>): Option<seq<Finding>> {
    var normalized := NormalizeAll(t, findings);
    if normalized.None? then None else Some(SortByKey(t, Merged(normalized.value)))
  }

  method DeduplicateFindings(t: Texts, findings: seq<Reported>) returns (result: Option<seq<Finding>>)
    ensures result == Deduplicated(t, findings)
  {
    var normalized := NormalizeAll(t, findings);
    if normalized.None? {
      return None;
    }
    var entries: seq<Finding> := [];
    for n := 0 to |normalized.value|
      invariant entries == Merged(normalized.value[..n])
    {
      var finding := normalized.value[n];
      var i := IndexOf(entries, finding.key);
      assert normalized.value[..n + 1][..n] == normalized.value[..n];
      if i == |entries| {
        entries := entries + [finding];
        continue;
      }
      var existing := entries[i];
      var references := Take(Distinct(existing.references + finding.references), MAX_REFERENCES);
      if finding.confidence > existing.confidence {
        entries := entries[i := finding.(references := references)];
      } else {
        entries := entries[i := existing.(references := references)];
      }
    }
    assert normalized.value[..|normalized.value|] == normalized.value;
    return Some(SortByKey(t, entries));
  }

  // ---------- What an entry holds ----------

  predicate UniqueKeys(entries: seq<Finding>) {
    forall i, j :: 0 <= i < j < |entries| ==> entries[i].key != entries[j].key
  }

  function OfKey(findings: seq<Finding>, key: string): (r: seq<Finding>)
    ensures forall i :: 0 <= i < |r| ==> r[i].key == key
  {
    if findings == [] then []
    else
      var n := |findings| - 1;
      var front := OfKey(findings[..n], key);
      if findings[n].key == key then front + [findings[n]] else front
  }

  function References(findings: seq<Finding>): seq<string> {
    if findings == [] then [] else References(findings[..|findings| - 1]) + findings[|findings| - 1].references
  }

  /** Position `i` holds the highest confidence, and is the first to do so. */
  predicate FirstMaximum(findings: seq<Finding>, i: int) {
    && 0 <= i < |findings|
    && (forall j :: 0 <= j < i ==> findings[j].confidence < findings[i].confidence)
    && (forall j :: i < j < |findings| ==> findings[j].confidence <= findings[i].confidence)
  }

  /** The entry carries the conclusion and confidence of the first most confident finding, and the
      first fifty distinct references of all of them. */
  ghost predicate Represents(entry: Finding, findings: seq<Finding>) {
    && (exists i :: FirstMaximum(findings, i) && entry == findings[i].(references := entry.references))
    && entry.references == Take(Distinct(References(findings)), 50)
  }

  // ---------- Distinct elements ----------

  lemma {:induction false} DistinctAppend<T>(s: seq<T>, x: T)
    ensures Distinct(s + [x]) == if x in Distinct(s) then Distinct(s) else Distinct(s) + [x]
  {
    assert (s + [x])[..|s|] == s;
  }

  lemma {:induction false} PrefixExtends<T>(p: seq<T>, s: seq<T>, x: T)
    requires p <= s
    ensures p <= s + [x]
  {
  }

  lemma {:induction false} Regroup<T>(a: seq<T>, front: seq<T>, x: T)
    ensures a + (front + [x]) == (a + front) + [x]
  {
  }

  lemma {:induction false} DistinctGrows<T>(a: seq<T>, b: seq<T>)
    ensures Distinct(a) <= Distinct(a + b)
  {
    if b == [] {
      assert a + b == a;
    } else {
      var front, x := b[..|b| - 1], b[|b| - 1];
      DistinctGrows(a, front);
      DistinctAppend(a + front, x);
      PrefixExtends(Distinct(a), Distinct(a + front), x);
      Regroup(a, front, x);
      assert b == front + [x];
    }
  }

  /** The distinct elements of a join depend only on the distinct elements of its parts. */
  lemma {:induction false} DistinctJoin<T>(a: seq<T>, d: seq<T>, b: seq<T>)
    requires Distinct(a) == Distinct(d)
    ensures Distinct(a + b) == Distinct(d + b)
  {
    if b == [] {
      assert a + b == a;
      assert d + b == d;
    } else {
      var front, x := b[..|b| - 1], b[|b| - 1];
      DistinctJoin(a, d, front);
      assert b == front + [x];
      Regroup(a, front, x);
      Regroup(d, front, x);
      DistinctAppend(a + front, x);
      DistinctAppend(d + front, x);
    }
  }

  lemma {:induction false} TakeDistinctJoin<T>(a: seq<T>, b: seq<T>, n: nat)
    ensures Take(Distinct(Take(Distinct(a), n) + b), n) == Take(Distinct(a + b), n)
  {
    var front := Take(Distinct(a), n);
    DistinctElements(a);
    DistinctIsIdentity(front);
    if |Distinct(a)| > n {
      DistinctGrows(a, b);
      DistinctGrows(front, b);
      PrefixTaken(front, Distinct(front + b));
      PrefixTaken(front, Distinct(a + b));
    } else {
      DistinctJoin(a, front, b);
    }
  }

  lemma {:induction false} PrefixTaken<T>(front: seq<T>, s: seq<T>)
    requires front <= s
    ensures Take(s, |front|) == front
  {
  }

  // ---------- Merging ----------

  lemma {:induction false} MaximumMoves(findings: seq<Finding>, i: int, f: Finding)
    requires FirstMaximum(findings, i)
    ensures FirstMaximum(findings + [f], if f.confidence > findings[i].confidence then |findings| else i)
  {
    var all := findings + [f];
    assert forall j :: 0 <= j < |findings| ==> all[j] == findings[j];
    assert forall j :: 0 <= j < |findings| ==> findings[j].confidence <= findings[i].confidence;
  }

  lemma {:induction false} ReferencesAppend(findings: seq<Finding>, f: Finding)
    ensures References(findings + [f]) == References(findings) + f.references
  {
    assert (findings + [f])[..|findings|] == findings;
  }

  lemma {:induction false} CombineRepresents(entry: Finding, findings: seq<Finding>, f: Finding)
    requires Represents(entry, findings)
    ensures Represents(Combine(entry, f), findings + [f])
  {
    var i :| FirstMaximum(findings, i) && entry == findings[i].(references := entry.references);
    var best := if f.confidence > findings[i].confidence then |findings| else i;
    ReferencesAppend(findings, f);
    TakeDistinctJoin(References(findings), f.references, MAX_REFERENCES);
    MaximumMoves(findings, i, f);
    assert FirstMaximum(findings + [f], best);
    assert Combine(entry, f) == (findings + [f])[best].(references := Combine(entry, f).references);
  }

  lemma {:induction false} AloneRepresents(f: Finding)
    requires Take(Distinct(f.references), MAX_REFERENCES) == f.references
    ensures Represents(f, [f])
  {
    assert [f][..0] == [];
    assert References([f]) == [] + f.references == f.references;
    assert FirstMaximum([f], 0);
  }

  predicate HasKey(entries: seq<Finding>, key: string) {
    IndexOf(entries, key) < |entries|
  }

  /** What merging achieves: unique keys, and every entry represents the findings of its key. */
  ghost predicate IsMergeOf(entries: seq<Finding>, findings: seq<Finding>) {
    && UniqueKeys(entries)
    && (forall k :: 0 <= k < |findings| ==> HasKey(entries, findings[k].key))
    && (forall i :: 0 <= i < |entries| ==> Represents(entries[i], OfKey(findings, entries[i].key)))
  }

  lemma {:induction false} OfKeyEmpty(findings: seq<Finding>, key: string)
    requires forall k :: 0 <= k < |findings| ==> findings[k].key != key
    ensures OfKey(findings, key) == []
  {
    if findings != [] {
      OfKeyEmpty(findings[..|findings| - 1], key);
    }
  }

  lemma {:induction false} OfKeyAppend(findings: seq<Finding>, f: Finding, key: string)
    ensures OfKey(findings + [f], key) == if f.key == key then OfKey(findings, key) + [f] else OfKey(findings, key)
  {
    assert (findings + [f])[..|findings|] == findings;
  }

  lemma {:induction false} NewKeyHasNoFindings(entries: seq<Finding>, findings: seq<Finding>, f: Finding)
    requires IsMergeOf(entries, findings) && IndexOf(entries, f.key) == |entries|
    ensures OfKey(findings, f.key) == []
  {
    forall k | 0 <= k < |findings|
      ensures findings[k].key != f.key
    {
      assert HasKey(entries, findings[k].key);
    }
    OfKeyEmpty(findings, f.key);
  }

  lemma {:induction false} NewEntry(entries: seq<Finding>, findings: seq<Finding>, f: Finding)
    requires IsMergeOf(entries, findings) && Take(Distinct(f.references), MAX_REFERENCES) == f.references
    requires IndexOf(entries, f.key) == |entries|
    ensures Represents(f, OfKey(findings + [f], f.key))
  {
    NewKeyHasNoFindings(entries, findings, f);
    OfKeyAppend(findings, f, f.key);
    assert [] + [f] == [f];
    AloneRepresents(f);
  }

  lemma {:induction false} AbsorbedEntry(entries: seq<Finding>, findings: seq<Finding>, f: Finding, j: nat)
    requires IsMergeOf(entries, findings) && Take(Distinct(f.references), MAX_REFERENCES) == f.references
    requires j < |Absorb(entries, f)|
    ensures Represents(Absorb(entries, f)[j], OfKey(findings + [f], Absorb(entries, f)[j].key))
  {
    var i := IndexOf(entries, f.key);
    if j != i {
      assert Absorb(entries, f)[j] == entries[j];
      OfKeyAppend(findings, f, entries[j].key);
    } else if i == |entries| {
      NewEntry(entries, findings, f);
    } else {
      OfKeyAppend(findings, f, f.key);
      CombineRepresents(entries[i], OfKey(findings, f.key), f);
    }
  }

  lemma {:induction false} AbsorbMerges(entries: seq<Finding>, findings: seq<Finding>, f: Finding)
    requires IsMergeOf(entries, findings) && Take(Distinct(f.references), MAX_REFERENCES) == f.references
    ensures IsMergeOf(Absorb(entries, f), findings + [f])
  {
    forall j | 0 <= j < |Absorb(entries, f)|
      ensures Represents(Absorb(entries, f)[j], OfKey(findings + [f], Absorb(entries, f)[j].key))
    {
      AbsorbedEntry(entries, findings, f, j);
    }
    AbsorbedKeys(entries, f);
    forall k | 0 <= k < |findings + [f]|
      ensures HasKey(Absorb(entries, f), (findings + [f])[k].key)
    {
      assert k < |findings| ==> HasKey(entries, findings[k].key);
    }
  }

  lemma {:induction false} AbsorbedKeys(entries: seq<Finding>, f: Finding)
    requires UniqueKeys(entries)
    ensures UniqueKeys(Absorb(entries, f)) && HasKey(Absorb(entries, f), f.key)
    ensures forall key :: HasKey(entries, key) ==> HasKey(Absorb(entries, f), key)
  {
    var absorbed, at := Absorb(entries, f), IndexOf(entries, f.key);
    assert forall i :: 0 <= i < |entries| ==> absorbed[i].key == entries[i].key;
    assert absorbed[at].key == f.key;
    forall key | HasKey(entries, key)
      ensures HasKey(absorbed, key)
    {
      assert absorbed[IndexOf(entries, key)].key == key;
    }
  }

  predicate TidyReferences(findings: seq<Finding>) {
    forall k :: 0 <= k < |findings| ==> Take(Distinct(findings[k].references), MAX_REFERENCES) == findings[k].references
  }

  lemma {:induction false} MergeStep(front: seq<Finding>, f: Finding)
    requires IsMergeOf(Merged(front), front) && Take(Distinct(f.references), MAX_REFERENCES) == f.references
    ensures IsMergeOf(Merged(front + [f]), front + [f])
  {
    AbsorbMerges(Merged(front), front, f);
    assert (front + [f])[..|front|] == front;
  }

  lemma {:induction false} MergedIsMerge(findings: seq<Finding>)
    requires TidyReferences(findings)
    ensures IsMergeOf(Merged(findings), findings)
  {
    if findings != [] {
      var front, f := findings[..|findings| - 1], findings[|findings| - 1];
      assert findings == front + [f];
      MergedIsMerge(front);
      MergeStep(front, f);
    }
  }

  // ---------- Deduplication: main results ----------

  lemma {:induction false} NormalizedIsTidy(t: Texts, values: seq<string>)
    ensures var r := NormalizeReferences(t, values); Take(Distinct(r), MAX_REFERENCES) == r
  {
    var r := NormalizeReferences(t, values);
    DistinctElements(Kept(t, values));
    DistinctIsIdentity(r);
  }

  /** One entry per key; every entry carries the conclusion and confidence of the first most confident
      finding of its key and the first fifty distinct references of all of them; no key is lost. */
  lemma {:induction false} DeduplicationKeepsTheBest(t: Texts, findings: seq<Reported>)
    requires Deduplicated(t, findings).Some?
    ensures var normalized, entries := NormalizeAll(t, findings).value, Deduplicated(t, findings).value;
      && UniqueKeys(entries)
      && (forall e :: e in entries ==> Represents(e, OfKey(normalized, e.key)))
      && (forall f :: f in normalized ==> exists e :: e in entries && e.key == f.key)
  {
    var normalized, entries := NormalizeAll(t, findings).value, Deduplicated(t, findings).value;
    var merged := Merged(normalized);
    forall k | 0 <= k < |normalized|
      ensures Take(Distinct(normalized[k].references), MAX_REFERENCES) == normalized[k].references
    {
      assert Normalize(t, findings[k]) == Some(normalized[k]);
      NormalizedIsTidy(t, findings[k].references);
    }
    MergedIsMerge(normalized);
    SameMembers(merged, entries);
    UniqueAsMultiset(merged, entries);
    forall e | e in entries
      ensures Represents(e, OfKey(normalized, e.key))
    {
      assert e in merged;
    }
    forall f | f in normalized
      ensures exists e :: e in entries && e.key == f.key
    {
      assert HasKey(merged, f.key);
      assert merged[IndexOf(merged, f.key)] in entries;
    }
  }

  lemma {:induction false} SameMembers<T>(a: seq<T>, b: seq<T>)
    requires multiset(a) == multiset(b)
    ensures |a| == |b| && forall x :: x in a <==> x in b
  {
    assert |a| == |multiset(a)| && |b| == |multiset(b)|;
    assert forall x :: x in a <==> x in multiset(a);
    assert forall x :: x in b <==> x in multiset(b);
  }

  lemma {:induction false} UniqueAsMultiset(a: seq<Finding>, b: seq<Finding>)
    requires multiset(a) == multiset(b) && UniqueKeys(a)
    ensures UniqueKeys(b)
  {
    SameMembers(a, b);
    forall i, j | 0 <= i < j < |b|
      ensures b[i].key != b[j].key
    {
      if b[i] == b[j] {
        CountTwice(b, i, j);
        CountOnce(a, b[i]);
      } else {
        assert b[i] in a && b[j] in a;
      }
    }
  }

  lemma {:induction false} CountTwice(s: seq<Finding>, i: nat, j: nat)
    requires i < j < |s| && s[i] == s[j]
    ensures multiset(s)[s[i]] >= 2
  {
    assert s == s[..j] + s[j..];
    assert s[i] in s[..j];
    assert s[j] == s[j..][0];
    assert s[i] in multiset(s[..j]) && s[i] in multiset(s[j..]);
  }

  lemma {:induction false} CountOnce(s: seq<Finding>, x: Finding)
    requires UniqueKeys(s)
    ensures multiset(s)[x] <= 1
  {
    if s != [] {
      var n := |s| - 1;
      CountOnce(s[..n], x);
      assert s == s[..n] + [s[n]];
      assert x in multiset(s[..n]) <==> x in s[..n];
    }
  }

  // ---------- Deduplicating twice ----------

  ghost predicate CleanReferences(t: Texts, values: seq<string>) {
    forall i :: 0 <= i < |values| ==> t.trim(values[i]) == values[i] != "" && |values[i]| <= MAX_REFERENCE_LENGTH
  }

  /** What normalization gives, and what normalizing again leaves alone if the key is not too long. */
  ghost predicate Tidy(t: Texts, f: Finding) {
    && t.trim(f.key) == f.key != "" && t.lower(f.key) == f.key
    && t.trim(f.conclusion) == f.conclusion != "" && |f.conclusion| <= MAX_TEXT
    && 0.0 <= f.confidence <= 1.0
    && CleanReferences(t, f.references) && Take(Distinct(f.references), MAX_REFERENCES) == f.references
  }

  lemma {:induction false} KeptIsClean(t: Texts, values: seq<string>)
    requires Lawful(t)
    ensures CleanReferences(t, Kept(t, values))
  {
    if values != [] {
      KeptIsClean(t, values[..|values| - 1]);
    }
  }

  lemma {:induction false} CleanIsKept(t: Texts, values: seq<string>)
    requires CleanReferences(t, values)
    ensures Kept(t, values) == values
  {
    if values != [] {
      var n := |values| - 1;
      CleanIsKept(t, values[..n]);
      assert values == values[..n] + [values[n]];
    }
  }

  lemma {:induction false} DistinctStaysClean(t: Texts, values: seq<string>)
    requires CleanReferences(t, values)
    ensures CleanReferences(t, Take(Distinct(values), MAX_REFERENCES))
    ensures var r := Take(Distinct(values), MAX_REFERENCES); Take(Distinct(r), MAX_REFERENCES) == r
  {
    var r := Take(Distinct(values), MAX_REFERENCES);
    DistinctElements(values);
    DistinctIsIdentity(r);
    forall i | 0 <= i < |r|
      ensures t.trim(r[i]) == r[i] != "" && |r[i]| <= MAX_REFERENCE_LENGTH
    {
      assert r[i] == Distinct(values)[i];
      var k :| 0 <= k < |values| && values[k] == r[i];
    }
  }

  lemma {:induction false} NormalizedIsTidyFinding(t: Texts, f: Reported)
    requires Lawful(t) && Normalize(t, f).Some?
    ensures Tidy(t, Normalize(t, f).value)
  {
    KeptIsClean(t, f.references);
    DistinctStaysClean(t, Kept(t, f.references));
  }

  lemma {:induction false} CombineIsTidy(t: Texts, entry: Finding, f: Finding)
    requires Tidy(t, entry) && Tidy(t, f)
    ensures Tidy(t, Combine(entry, f))
  {
    assert CleanReferences(t, entry.references + f.references);
    DistinctStaysClean(t, entry.references + f.references);
  }

  ghost predicate AllTidy(t: Texts, findings: seq<Finding>) {
    forall i :: 0 <= i < |findings| ==> Tidy(t, findings[i])
  }

  lemma {:induction false} MergedIsTidy(t: Texts, findings: seq<Finding>)
    requires AllTidy(t, findings)
    ensures AllTidy(t, Merged(findings))
  {
    if findings != [] {
      var front, f := findings[..|findings| - 1], findings[|findings| - 1];
      MergedIsTidy(t, front);
      var i := IndexOf(Merged(front), f.key);
      if i < |Merged(front)| {
        CombineIsTidy(t, Merged(front)[i], f);
      }
    }
  }

  /** Normalizing a tidy finding again changes nothing, unless lower-casing made the key too long. */
  lemma {:induction false} TidyNormalizes(t: Texts, f: Finding)
    requires Tidy(t, f)
    ensures Normalize(t, AsReported(f)) == if |f.key| <= MAX_ID then Some(f) else None
  {
    CleanIsKept(t, f.references);
  }

  lemma {:induction false} NewKeyIsAppended(front: seq<Finding>, f: Finding)
    requires forall i :: 0 <= i < |front| ==> front[i].key != f.key
    ensures Absorb(front, f) == front + [f]
  {
    assert IndexOf(front, f.key) == |front|;
  }

  lemma {:induction false} MergedIsIdentity(findings: seq<Finding>)
    requires UniqueKeys(findings)
    ensures Merged(findings) == findings
  {
    if findings != [] {
      var front, f := findings[..|findings| - 1], findings[|findings| - 1];
      MergedIsIdentity(front);
      NewKeyIsAppended(front, f);
      assert Merged(findings) == Absorb(front, f);
    }
  }

  predicate KeysAscend(t: Texts, entries: seq<Finding>) {
    forall i :: 0 < i < |entries| ==> t.atMost(entries[i - 1].key, entries[i].key)
  }

  lemma {:induction false} SortOrders(t: Texts, findings: seq<Finding>)
    requires Lawful(t)
    ensures KeysAscend(t, SortByKey(t, findings))
  {
    var before, sorted := Earlier(t), SortByKey(t, findings);
    forall a, b | before(a, b)
      ensures !before(b, a)
    {
      assert t.atMost(a.key, b.key) || t.atMost(b.key, a.key);
    }
    SortIsOrdered(before, findings);
    forall i | 0 < i < |sorted|
      ensures t.atMost(sorted[i - 1].key, sorted[i].key)
    {
      assert !before(sorted[i], sorted[i - 1]);
    }
  }

  lemma {:induction false} SortAgain(t: Texts, findings: seq<Finding>)
    requires KeysAscend(t, findings)
    ensures SortByKey(t, findings) == findings
  {
    SortIsIdentity(Earlier(t), findings);
  }

  function AllReported(findings: seq<Finding>): (r: seq<Reported>)
    ensures |r| == |findings| && forall i :: 0 <= i < |r| ==> r[i] == AsReported(findings[i])
  {
    seq(|findings|, i requires 0 <= i < |findings| => AsReported(findings[i]))
  }

  lemma {:induction false} NormalizeAllAgain(t: Texts, entries: seq<Finding>)
    requires AllTidy(t, entries)
    ensures NormalizeAll(t, AllReported(entries))
      == if forall i :: 0 <= i < |entries| ==> |entries[i].key| <= MAX_ID then Some(entries) else None
  {
    forall i | 0 <= i < |entries|
      ensures Normalize(t, AllReported(entries)[i]) == if |entries[i].key| <= MAX_ID then Some(entries[i]) else None
    {
      TidyNormalizes(t, entries[i]);
    }
    var again := NormalizeAll(t, AllReported(entries));
    if again.Some? {
      forall i | 0 <= i < |entries|
        ensures again.value[i] == entries[i] && |entries[i].key| <= MAX_ID
      {
        assert Normalize(t, AllReported(entries)[i]) == Some(again.value[i]);
      }
      assert again.value == entries;
    }
  }

  lemma {:induction false} EntriesAreTidy(t: Texts, findings: seq<Reported>)
    requires Lawful(t) && Deduplicated(t, findings).Some?
    ensures AllTidy(t, Deduplicated(t, findings).value)
  {
    var normalized, entries := NormalizeAll(t, findings).value, Deduplicated(t, findings).value;
    forall k | 0 <= k < |normalized|
      ensures Tidy(t, normalized[k])
    {
      NormalizedIsTidyFinding(t, findings[k]);
    }
    MergedIsTidy(t, normalized);
    TidyTransfers(t, Merged(normalized), entries);
  }

  lemma {:induction false} TidyTransfers(t: Texts, a: seq<Finding>, b: seq<Finding>)
    requires AllTidy(t, a) && multiset(a) == multiset(b)
    ensures AllTidy(t, b)
  {
    SameMembers(a, b);
    forall i | 0 <= i < |b|
      ensures Tidy(t, b[i])
    {
      assert b[i] in a;
    }
  }

  /** Deduplicating the result again gives it back exactly when lower-casing left every key within 256
      characters; otherwise the second pass throws. */
  lemma {:induction false} DeduplicatingTwice(t: Texts, findings: seq<Reported>)
    requires Lawful(t) && Deduplicated(t, findings).Some?
    ensures var entries := Deduplicated(t, findings).value;
      Deduplicated(t, AllReported(entries))
      == if forall i :: 0 <= i < |entries| ==> |entries[i].key| <= MAX_ID then Some(entries) else None
  {
    var entries := Deduplicated(t, findings).value;
    EntriesAreTidy(t, findings);
    NormalizeAllAgain(t, entries);
    DeduplicationKeepsTheBest(t, findings);
    MergedIsIdentity(entries);
    SortOrders(t, Merged(NormalizeAll(t, findings).value));
    SortAgain(t, entries);
  }
}
