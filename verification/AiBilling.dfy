/** Billing of AI runs. A run is found by its auto-increment id, which is its position in the table. */
module AiBilling {
  import opened Collections

  datatype Status = Queued | Running | Completed | Partial | Failed | Cancelled

  datatype Run = Run(workspaceId: int, modelKey: string, status: Status, inputTokens: int, outputTokens: int, costCents: int)

  /** Prices per million tokens. */
  datatype Rates = Rates(input: Option<real>, output: Option<real>)

  /** `spent` has an entry for every workspace. */
  datatype Db = Db(runs: seq<Run>, spent: map<int, int>, models: map<string, Rates>)

  datatype Update = Update(runId: int, status: Status, inputTokens: Option<real>, outputTokens: Option<real>, costCents: Option<int>)

  const MILLION: int := 1_000_000

  predicate IsTerminal(status: Status) {
    status in {Completed, Partial, Failed, Cancelled}
  }

  predicate IsBilled(status: Status) {
    status == Completed || status == Partial
  }

  function AtLeastZero(n: int): nat {
    if n < 0 then 0 else n
  }

  function Truncated(x: real): int {
    if x < 0.0 then -(-x).Floor else x.Floor
  }

  /** A number that is absent when it is not finite counts as the whole number below it; as nothing if it is
      absent or below one. */
  function Counted(x: Option<real>): (n: nat)
    ensures x.None? ==> n == 0
    ensures x.Some? && x.value < 1.0 ==> n == 0
    ensures x.Some? && x.value >= 1.0 ==> n as real <= x.value < n as real + 1.0
  {
    if x.None? then 0 else AtLeastZero(Truncated(x.value))
  }

  /** The least whole number of cents that covers the price. */
  function CostCents(inputTokens: Option<real>, outputTokens: Option<real>, rates: Rates): (cents: nat)
    ensures var price := Counted(inputTokens) * Counted(rates.input) + Counted(outputTokens) * Counted(rates.output);
      0 <= 1_000_000 * cents - price < 1_000_000
  {
    (Counted(inputTokens) * Counted(rates.input) + Counted(outputTokens) * Counted(rates.output) + MILLION - 1) / MILLION
  }

  lemma {:induction false} CountedWhole(n: int)
    ensures Counted(Some(n as real)) == if n < 0 then 0 else n
  {
  }

  /** For whole numbers of tokens and whole rates per million. */
  lemma {:induction false} WholeTokensCost(input: nat, output: nat, inputRate: nat, outputRate: nat)
    ensures var cents := CostCents(Some(input as real), Some(output as real), Rates(Some(inputRate as real), Some(outputRate as real)));
      0 <= 1_000_000 * cents - (input * inputRate + output * outputRate) < 1_000_000
  {
    CountedWhole(input);
    CountedWhole(output);
    CountedWhole(inputRate);
    CountedWhole(outputRate);
  }

  function NextTokens(requested: Option<real>, current: int): nat {
    AtLeastZero(if requested.Some? then Truncated(requested.value) else current)
  }

  /** The row and the cost that an update writes after reading the run. */
  function NextRun(db: Db, seen: Run, u: Update): Run {
    var input, output := NextTokens(u.inputTokens, seen.inputTokens), NextTokens(u.outputTokens, seen.outputTokens);
    var measured := if seen.modelKey in db.models then CostCents(Some(input as real), Some(output as real), db.models[seen.modelKey])
                    else seen.costCents;
    var cost := if u.costCents.Some? then u.costCents.value else if IsBilled(u.status) then measured else seen.costCents;
    seen.(status := u.status, inputTokens := input, outputTokens := output, costCents := AtLeastZero(cost))
  }

  function Spent(db: Db, workspaceId: int): int {
    if workspaceId in db.spent then db.spent[workspaceId] else 0
  }

  /** Both writes of an update: the row, and the workspace if the run is billed. */
  function Written(db: Db, seen: Run, u: Update): Db
    requires 0 <= u.runId < |db.runs|
  {
    var next := NextRun(db, seen, u);
    db.(runs := db.runs[u.runId := next],
        spent := if IsBilled(u.status) then db.spent[seen.workspaceId := Spent(db, seen.workspaceId) + next.costCents] else db.spent)
  }

  /** A whole update without interference. */
  function Updated(db: Db, u: Update): Db {
    if 0 <= u.runId < |db.runs| && !IsTerminal(db.runs[u.runId].status) then Written(db, db.runs[u.runId], u) else db
  }

  datatype Event =
    | Start(workspaceId: int, modelKey: string, estimatedCostCents: int)
    | Change(update: Update)

  /** A new run starts with its estimate, which is not billed. */
  function Step(db: Db, e: Event): Db {
    match e
    case Start(workspaceId, modelKey, estimate) =>
      db.(runs := db.runs + [Run(workspaceId, modelKey, Queued, 0, 0, AtLeastZero(estimate))])
    case Change(u) => Updated(db, u)
  }

  function After(db: Db, events: seq<Event>): Db {
    if events == [] then db else Step(After(db, events[..|events| - 1]), events[|events| - 1])
  }

  class RunTable {
    var runs: seq<Run>
    var spent: map<int, int>
    var models: map<string, Rates>

    function Contents(): Db
      reads this
    {
      Db(runs, spent, models)
    }

    method UpdateAiRun(u: Update) returns (ok: bool)
      modifies this
      ensures Contents() == Updated(old(Contents()), u)
      ensures ok <==> 0 <= u.runId < |old(runs)| && !IsTerminal(old(runs)[u.runId].status)
    {
      if !(0 <= u.runId < |runs|) {
        return false;
      }
      var run := runs[u.runId];
      var next := NextRun(Contents(), run, u);
      if IsTerminal(run.status) {
        return false;
      }
      runs := runs[u.runId := next];
      if IsBilled(u.status) {
        spent := spent[run.workspaceId := (if run.workspaceId in spent then spent[run.workspaceId] else 0) + next.costCents];
      }
      return true;
    }
  }

  // ---------- What is billed ----------

  function Share(r: Run, workspaceId: int): int {
    if r.workspaceId == workspaceId && IsBilled(r.status) then r.costCents else 0
  }

  /** The costs of the completed and partial runs of a workspace. */
  function Billed(runs: seq<Run>, workspaceId: int): int {
    if runs == [] then 0 else Billed(runs[..|runs| - 1], workspaceId) + Share(runs[|runs| - 1], workspaceId)
  }

  lemma {:induction false} BilledUpdate(runs: seq<Run>, i: nat, r: Run, workspaceId: int)
    requires i < |runs|
    ensures Billed(runs[i := r], workspaceId) == Billed(runs, workspaceId) - Share(runs[i], workspaceId) + Share(r, workspaceId)
  {
    var n := |runs| - 1;
    if i < n {
      BilledUpdate(runs[..n], i, r, workspaceId);
      assert runs[i := r][..n] == runs[..n][i := r];
    } else {
      assert runs[i := r][..n] == runs[..n];
    }
  }

  lemma {:induction false} StepBills(db: Db, e: Event, workspaceId: int)
    ensures Spent(Step(db, e), workspaceId) - Billed(Step(db, e).runs, workspaceId) == Spent(db, workspaceId) - Billed(db.runs, workspaceId)
  {
    match e
    case Start(w, modelKey, estimate) =>
      assert Step(db, e).runs[..|db.runs|] == db.runs;
    case Change(u) =>
      if 0 <= u.runId < |db.runs| && !IsTerminal(db.runs[u.runId].status) {
        BilledUpdate(db.runs, u.runId, NextRun(db, db.runs[u.runId], u), workspaceId);
      }
  }

  /** Over every sequence of starts and serialized updates, what a workspace spends is exactly the sum
      of the costs of its completed and partial runs. */
  lemma {:induction false} SpendingIsBilled(db: Db, events: seq<Event>, workspaceId: int)
    ensures Spent(After(db, events), workspaceId) - Spent(db, workspaceId)
      == Billed(After(db, events).runs, workspaceId) - Billed(db.runs, workspaceId)
  {
    if events != [] {
      var before := After(db, events[..|events| - 1]);
      SpendingIsBilled(db, events[..|events| - 1], workspaceId);
      StepBills(before, events[|events| - 1], workspaceId);
    }
  }

  /** An update of a missing or ended run changes nothing. Any other writes the status and the tokens it was
      asked for to that run alone, and charges the cost to the workspace exactly if the run ends completed or
      partial. */
  lemma {:induction false} UpdateWrites(db: Db, u: Update)
    ensures !(0 <= u.runId < |db.runs|) || db.runs[u.runId].status in {Completed, Partial, Failed, Cancelled} ==> Updated(db, u) == db
    ensures 0 <= u.runId < |db.runs| && db.runs[u.runId].status in {Queued, Running} ==>
      var run, db' := db.runs[u.runId], Updated(db, u);
      && db'.models == db.models && |db'.runs| == |db.runs|
      && var cost := db'.runs[u.runId].costCents;
      && db'.runs == db.runs[u.runId := Run(run.workspaceId, run.modelKey, u.status, NewTokens(u.inputTokens, run.inputTokens),
                                            NewTokens(u.outputTokens, run.outputTokens), cost)]
      && db'.spent == if u.status in {Completed, Partial}
                      then db.spent[run.workspaceId := (if run.workspaceId in db.spent then db.spent[run.workspaceId] else 0) + cost]
                      else db.spent
  {
  }

  /** The tokens asked for; those of the run if none are. */
  function NewTokens(asked: Option<real>, current: int): int {
    if asked.Some? then Counted(asked) else if current < 0 then 0 else current
  }

  /** An explicit cost is taken as it is, unless negative. Without one, a run that ends completed or partial
      costs the exact ceiling of its tokens at the rates of its model, and any other keeps its cost. */
  lemma {:induction false} UpdateCosts(db: Db, u: Update)
    requires 0 <= u.runId < |db.runs| && db.runs[u.runId].status in {Queued, Running}
    ensures var run, cost := db.runs[u.runId], Updated(db, u).runs[u.runId].costCents;
      && (u.costCents.Some? ==> cost == if u.costCents.value < 0 then 0 else u.costCents.value)
      && (u.costCents.None? && !(u.status in {Completed, Partial} && run.modelKey in db.models) ==>
            cost == if run.costCents < 0 then 0 else run.costCents)
  {
  }

  /** The bill of a run of a known model that ends without an explicit cost. */
  lemma {:induction false} MeasuredRunBillsItsTokens(db: Db, u: Update)
    requires 0 <= u.runId < |db.runs| && db.runs[u.runId].status in {Queued, Running}
    requires u.status in {Completed, Partial} && u.costCents.None? && db.runs[u.runId].modelKey in db.models
    ensures var run, db' := db.runs[u.runId], Updated(db, u);
      var rates, cost := db.models[run.modelKey], db'.runs[u.runId].costCents;
      var price := NewTokens(u.inputTokens, run.inputTokens) * Counted(rates.input)
                   + NewTokens(u.outputTokens, run.outputTokens) * Counted(rates.output);
      && 0 <= 1_000_000 * cost - price < 1_000_000
      && Spent(db', run.workspaceId) == Spent(db, run.workspaceId) + cost
  {
    var run := db.runs[u.runId];
    var next := NextRun(db, run, u);
    assert Updated(db, u).runs[u.runId] == next;
    CountedWhole(next.inputTokens);
    CountedWhole(next.outputTokens);
    assert next.costCents == CostCents(Some(next.inputTokens as real), Some(next.outputTokens as real), db.models[run.modelKey]);
  }

  /** A new run is queued with its estimate and charges nothing. */
  lemma {:induction false} StartWrites(db: Db, workspaceId: int, modelKey: string, estimate: int)
    ensures Step(db, Start(workspaceId, modelKey, estimate))
      == Db(db.runs + [Run(workspaceId, modelKey, Queued, 0, 0, if estimate < 0 then 0 else estimate)], db.spent, db.models)
  {
  }

  /** What a run adds to the billed costs of a workspace. */
  lemma {:induction false} BilledGrows(runs: seq<Run>, r: Run, workspaceId: int)
    ensures Billed([], workspaceId) == 0 && Owed([], workspaceId) == 0
    ensures Billed(runs + [r], workspaceId)
      == Billed(runs, workspaceId) + if r.workspaceId == workspaceId && r.status in {Completed, Partial} then r.costCents else 0
  {
    assert (runs + [r])[..|runs|] == runs;
  }

  // ---------- Each run once ----------

  /** The event bills the run. */
  predicate Bills(db: Db, e: Event, runId: int) {
    && e.Change? && e.update.runId == runId && IsBilled(e.update.status)
    && 0 <= runId < |db.runs| && !IsTerminal(db.runs[runId].status)
  }

  function TimesBilled(db: Db, events: seq<Event>, runId: int): nat {
    if events == [] then 0
    else
      var front := events[..|events| - 1];
      TimesBilled(db, front, runId) + (if Bills(After(db, front), events[|events| - 1], runId) then 1 else 0)
  }

  lemma {:induction false} StepKeepsTerminal(db: Db, e: Event, runId: int)
    requires 0 <= runId < |db.runs|
    ensures runId < |Step(db, e).runs|
    ensures IsTerminal(db.runs[runId].status) ==> Step(db, e).runs[runId] == db.runs[runId]
    ensures IsBilled(Step(db, e).runs[runId].status) <==> IsBilled(db.runs[runId].status) || Bills(db, e, runId)
  {
  }

  /** A terminal run never changes, and an open run is billed once if it ends completed or partial and
      not at all otherwise. */
  lemma {:induction false} RunIsBilledOnce(db: Db, events: seq<Event>, runId: int)
    requires 0 <= runId < |db.runs|
    ensures runId < |After(db, events).runs|
    ensures IsTerminal(db.runs[runId].status) ==> After(db, events).runs[runId] == db.runs[runId] && TimesBilled(db, events, runId) == 0
    ensures !IsTerminal(db.runs[runId].status) ==>
      TimesBilled(db, events, runId) == if IsBilled(After(db, events).runs[runId].status) then 1 else 0
  {
    if events != [] {
      var front := events[..|events| - 1];
      RunIsBilledOnce(db, front, runId);
      StepKeepsTerminal(After(db, front), events[|events| - 1], runId);
    }
  }

  // ---------- Updates that interleave ----------

  /** An update between its queries: it has read the run, or it has written the row of a billed run and
      still has to charge the workspace. */
  datatype Call =
    | Writing(update: Update, seen: Run)
    | Charging(workspaceId: int, costCents: int)
    | Finished

  datatype State = State(db: Db, calls: seq<Call>)

  datatype Action =
    | StartRun(workspaceId: int, modelKey: string, estimatedCostCents: int)
    | ReadRun(update: Update)
    | WriteRow(call: nat)
    | Charge(call: nat)

  function Began(db: Db, u: Update): Call {
    if 0 <= u.runId < |db.runs| && !IsTerminal(db.runs[u.runId].status) then Writing(u, db.runs[u.runId]) else Finished
  }

  /** The row write has no guard: it replaces whatever the row holds by then. */
  predicate Writes(s: State, a: Action) {
    a.WriteRow? && a.call < |s.calls| && s.calls[a.call].Writing? && 0 <= s.calls[a.call].update.runId < |s.db.runs|
  }

  function Act(s: State, a: Action): State {
    match a
    case StartRun(workspaceId, modelKey, estimate) => s.(db := Step(s.db, Start(workspaceId, modelKey, estimate)))
    case ReadRun(u) => s.(calls := s.calls + [Began(s.db, u)])
    case WriteRow(i) =>
      if !Writes(s, a) then s
      else
        var u, seen := s.calls[i].update, s.calls[i].seen;
        var next := NextRun(s.db, seen, u);
        State(s.db.(runs := s.db.runs[u.runId := next]),
              s.calls[i := if IsBilled(u.status) then Charging(seen.workspaceId, next.costCents) else Finished])
    case Charge(i) =>
      if i < |s.calls| && s.calls[i].Charging? then
        var w := s.calls[i].workspaceId;
        State(s.db.(spent := s.db.spent[w := Spent(s.db, w) + s.calls[i].costCents]), s.calls[i := Finished])
      else s
  }

  function RunActions(s: State, actions: seq<Action>): State
    decreases |actions|
  {
    if actions == [] then s else RunActions(Act(s, actions[0]), actions[1..])
  }

  function OwedBy(c: Call, workspaceId: int): int {
    if c.Charging? && c.workspaceId == workspaceId then c.costCents else 0
  }

  /** What the updates in progress have still to charge. */
  function Owed(calls: seq<Call>, workspaceId: int): int {
    if calls == [] then 0 else Owed(calls[..|calls| - 1], workspaceId) + OwedBy(calls[|calls| - 1], workspaceId)
  }

  /** The costs that a row write takes out of the billed runs: those of the row it replaces. */
  function Replaced(s: State, a: Action, workspaceId: int): int {
    if Writes(s, a) then Share(s.db.runs[s.calls[a.call].update.runId], workspaceId) else 0
  }

  function Overwritten(s: State, actions: seq<Action>, workspaceId: int): int
    decreases |actions|
  {
    if actions == [] then 0 else Replaced(s, actions[0], workspaceId) + Overwritten(Act(s, actions[0]), actions[1..], workspaceId)
  }

  /** Every update in progress read an open run, and the run it read is still in the table. */
  ghost predicate CallsFit(s: State) {
    forall i :: 0 <= i < |s.calls| && s.calls[i].Writing? ==>
      var u, seen := s.calls[i].update, s.calls[i].seen;
      0 <= u.runId < |s.db.runs| && s.db.runs[u.runId].workspaceId == seen.workspaceId && !IsTerminal(seen.status)
  }

  ghost predicate CostsFit(s: State) {
    forall i :: 0 <= i < |s.db.runs| ==> s.db.runs[i].costCents >= 0
  }

  lemma {:induction false} ActFits(s: State, a: Action)
    requires CallsFit(s) && CostsFit(s)
    ensures CallsFit(Act(s, a)) && CostsFit(Act(s, a))
  {
  }

  lemma {:induction false} OwedUpdate(calls: seq<Call>, i: nat, c: Call, workspaceId: int)
    requires i < |calls|
    ensures Owed(calls[i := c], workspaceId) == Owed(calls, workspaceId) - OwedBy(calls[i], workspaceId) + OwedBy(c, workspaceId)
  {
    var n := |calls| - 1;
    if i < n {
      OwedUpdate(calls[..n], i, c, workspaceId);
      assert calls[i := c][..n] == calls[..n][i := c];
    } else {
      assert calls[i := c][..n] == calls[..n];
    }
  }

  function Drift(s: State, workspaceId: int): int {
    Spent(s.db, workspaceId) + Owed(s.calls, workspaceId) - Billed(s.db.runs, workspaceId)
  }

  lemma {:induction false} ActDrifts(s: State, a: Action, workspaceId: int)
    requires CallsFit(s)
    ensures Drift(Act(s, a), workspaceId) == Drift(s, workspaceId) + Replaced(s, a, workspaceId)
  {
    match a
    case StartRun(w, modelKey, estimate) =>
      StepBills(s.db, Start(w, modelKey, estimate), workspaceId);
    case ReadRun(u) =>
      assert (s.calls + [Began(s.db, u)])[..|s.calls|] == s.calls;
    case WriteRow(i) =>
      if Writes(s, a) {
        var u, seen := s.calls[i].update, s.calls[i].seen;
        BilledUpdate(s.db.runs, u.runId, NextRun(s.db, seen, u), workspaceId);
        OwedUpdate(s.calls, i, Act(s, a).calls[i], workspaceId);
      }
    case Charge(i) =>
      if i < |s.calls| && s.calls[i].Charging? {
        OwedUpdate(s.calls, i, Finished, workspaceId);
      }
  }

  /** In every interleaving of any number of updates, what a workspace has been and will be charged
      departs from the costs of its billed runs by exactly the costs of billed rows that a later write
      replaced. */
  lemma {:induction false} DriftIsOverwritten(s: State, actions: seq<Action>, workspaceId: int)
    requires CallsFit(s) && CostsFit(s)
    ensures CallsFit(RunActions(s, actions)) && CostsFit(RunActions(s, actions))
    ensures Drift(RunActions(s, actions), workspaceId) == Drift(s, workspaceId) + Overwritten(s, actions, workspaceId)
    decreases |actions|
  {
    if actions != [] {
      ActFits(s, actions[0]);
      ActDrifts(s, actions[0], workspaceId);
      DriftIsOverwritten(Act(s, actions[0]), actions[1..], workspaceId);
    }
  }

  /** Every row write of the run found a row that was not billed or cost nothing. */
  predicate NothingReplaced(s: State, actions: seq<Action>, workspaceId: int)
    decreases |actions|
  {
    actions == [] || (Replaced(s, actions[0], workspaceId) == 0 && NothingReplaced(Act(s, actions[0]), actions[1..], workspaceId))
  }

  /** So charging is exact if and only if no write replaced a billed row with a cost; and it never
      charges too little. */
  lemma {:induction false} ChargingIsExactIff(s: State, actions: seq<Action>, workspaceId: int)
    requires CallsFit(s) && CostsFit(s)
    ensures Drift(RunActions(s, actions), workspaceId) >= Drift(s, workspaceId)
    ensures Drift(RunActions(s, actions), workspaceId) == Drift(s, workspaceId) <==> NothingReplaced(s, actions, workspaceId)
    decreases |actions|
  {
    if actions != [] {
      ActFits(s, actions[0]);
      ActDrifts(s, actions[0], workspaceId);
      ChargingIsExactIff(Act(s, actions[0]), actions[1..], workspaceId);
    }
  }

  /** A billed row is replaced only in a race: the row is no longer the one that the update read. */
  lemma {:induction false} OnlyRacesReplace(s: State, a: Action, workspaceId: int)
    requires CallsFit(s) && Replaced(s, a, workspaceId) != 0
    ensures s.calls[a.call].seen != s.db.runs[s.calls[a.call].update.runId]
  {
  }

  /** Two updates that both read the run while it is open and both complete it bill it twice, while the
      run keeps only the second cost: the sum is exact if and only if the first cost was zero. */
  lemma {:induction false} RacingUpdatesBillTwice(db: Db, a: Update, b: Update)
    requires 0 <= a.runId < |db.runs| && b.runId == a.runId && !IsTerminal(db.runs[a.runId].status)
    requires IsBilled(a.status) && IsBilled(b.status)
    ensures var seen := db.runs[a.runId];
      var db' := Written(Written(db, seen, a), seen, b);
      var w := seen.workspaceId;
      && Spent(db', w) - Spent(db, w) == NextRun(db, seen, a).costCents + NextRun(db, seen, b).costCents
      && Billed(db'.runs, w) - Billed(db.runs, w) == NextRun(db, seen, b).costCents
      && (Spent(db', w) - Spent(db, w) == Billed(db'.runs, w) - Billed(db.runs, w) <==> NextRun(db, seen, a).costCents == 0)
  {
    var seen := db.runs[a.runId];
    var middle := Written(db, seen, a);
    BilledUpdate(db.runs, a.runId, NextRun(db, seen, a), seen.workspaceId);
    BilledUpdate(middle.runs, b.runId, NextRun(middle, seen, b), seen.workspaceId);
  }

  /** Both racing updates write and charge what they computed from the row they read. */
  lemma {:induction false} RaceIsTwoWrites(s: State, a: Update, b: Update)
    requires 0 <= a.runId < |s.db.runs| && b.runId == a.runId && !IsTerminal(s.db.runs[a.runId].status)
    requires IsBilled(a.status) && IsBilled(b.status)
    ensures var seen, i := s.db.runs[a.runId], |s.calls|;
      Act(Act(Act(Act(Act(Act(s, ReadRun(a)), ReadRun(b)), WriteRow(i)), Charge(i)), WriteRow(i + 1)), Charge(i + 1)).db
      == Written(Written(s.db, seen, a), seen, b)
  {
    var seen, i := s.db.runs[a.runId], |s.calls|;
    var s2 := Act(Act(s, ReadRun(a)), ReadRun(b));
    var s4 := Act(Act(s2, WriteRow(i)), Charge(i));
    assert s2.calls[i] == Writing(a, seen) && s2.calls[i + 1] == Writing(b, seen);
    assert s4.db == Written(s.db, seen, a) && s4.calls[i + 1] == Writing(b, seen);
  }

  lemma {:induction false} StartIsOneAction(s: State, workspaceId: int, modelKey: string, estimate: int)
    ensures Act(s, StartRun(workspaceId, modelKey, estimate)) == s.(db := Step(s.db, Start(workspaceId, modelKey, estimate)))
  {
  }

  /** The serialized update is the three steps of one call without interference. */
  lemma {:induction false} UpdateIsThreeActions(s: State, u: Update)
    ensures var i := |s.calls|;
      Act(Act(Act(s, ReadRun(u)), WriteRow(i)), Charge(i)) == State(Updated(s.db, u), s.calls + [Finished])
  {
    var i := |s.calls|;
    var s1 := Act(s, ReadRun(u));
    var s2 := Act(s1, WriteRow(i));
    if s1.calls[i].Writing? {
      assert s2.calls == s.calls + [s2.calls[i]];
      assert Act(s2, Charge(i)).calls == s.calls + [Finished];
    }
  }
}
