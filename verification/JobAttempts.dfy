/** How often a job is claimed. Over every interleaving the number of effective claims is bounded by
    `maxAttempts` plus what leases, stale claims and stale failures give back. */
module JobAttempts {
  import opened Collections
  import opened JobQueue

  /** The number of claims that a job is meant to get. */
  function Budget(job: Job): (b: int)
    ensures b >= 1 && b >= job.maxAttempts && (b == 1 || b == job.maxAttempts)
  {
    if job.maxAttempts < 1 then 1 else job.maxAttempts
  }

  function Capped(attempts: int, budget: int): int {
    if attempts < budget then attempts else budget
  }

  // ---------- What the steps of a run do to one job ----------

  predicate Claims(s: State, e: Event, id: int) {
    e.ClaimStep? && e.id == id && id in s.table && IsWaiting(s.table[id])
  }

  predicate Releases(s: State, e: Event, id: int) {
    e.ExpireStep? && id in s.table && LeaseOver(s.table[id], e.now)
  }

  predicate Fails(s: State, e: Event, id: int) {
    e.FailStep? && e.id == id && IsHeldBy(s.table, id, e.worker)
  }

  predicate Completes(s: State, e: Event, id: int) {
    e.CompleteStep? && e.id == id && IsHeldBy(s.table, id, e.worker)
  }

  predicate IsTerminal(job: Job) {
    job.attempts >= job.maxAttempts
  }

  /** A failure that schedules a retry, from an older row, although the job has no attempts left. */
  predicate RetriesWrongly(s: State, e: Event, id: int) {
    Fails(s, e, id) && !IsTerminal(e.seen) && IsTerminal(s.table[id])
  }

  /** The increments, up to the budget, that a claim loses because it counts on from an older row. */
  function LostBy(s: State, e: Event, id: int): nat {
    if !Claims(s, e, id) then 0
    else
      var budget := Budget(s.table[id]);
      var lost := Capped(s.table[id].attempts + 1, budget) - Capped(e.attempts, budget);
      if lost > 0 then lost else 0
  }

  function NumClaims(s: State, events: seq<Event>, id: int): nat
    decreases |events|
  {
    if events == [] then 0
    else (if Claims(s, events[0], id) then 1 else 0) + NumClaims(Step(s, events[0]), events[1..], id)
  }

  function NumReleases(s: State, events: seq<Event>, id: int): nat
    decreases |events|
  {
    if events == [] then 0
    else (if Releases(s, events[0], id) then 1 else 0) + NumReleases(Step(s, events[0]), events[1..], id)
  }

  function NumFailures(s: State, events: seq<Event>, id: int): nat
    decreases |events|
  {
    if events == [] then 0
    else (if Fails(s, events[0], id) then 1 else 0) + NumFailures(Step(s, events[0]), events[1..], id)
  }

  function NumWrongRetries(s: State, events: seq<Event>, id: int): nat
    decreases |events|
  {
    if events == [] then 0
    else (if RetriesWrongly(s, events[0], id) then 1 else 0) + NumWrongRetries(Step(s, events[0]), events[1..], id)
  }

  function NumLost(s: State, events: seq<Event>, id: int): nat
    decreases |events|
  {
    if events == [] then 0 else LostBy(s, events[0], id) + NumLost(Step(s, events[0]), events[1..], id)
  }

  // ---------- The bound ----------

  /** The claims that the row still allows: those up to the budget, and one more if it waits with its
      budget used up. */
  function Allowance(job: Job): int {
    Budget(job) - Capped(job.attempts, Budget(job)) + if IsWaiting(job) && job.attempts >= Budget(job) then 1 else 0
  }

  lemma {:induction false} StepSpendsAllowance(s: State, e: Event, id: int)
    requires id in s.table
    ensures id in Step(s, e).table && Step(s, e).table[id].maxAttempts == s.table[id].maxAttempts
    ensures (if Claims(s, e, id) then 1 else 0) + Allowance(Step(s, e).table[id])
      <= Allowance(s.table[id]) + (if Releases(s, e, id) then 1 else 0) + (if RetriesWrongly(s, e, id) then 1 else 0) + LostBy(s, e, id)
  {
  }

  lemma {:induction false} AllowanceBoundsClaims(s: State, events: seq<Event>, id: int)
    requires id in s.table
    ensures id in Run(s, events).table
    ensures NumClaims(s, events, id) + Allowance(Run(s, events).table[id])
      <= Allowance(s.table[id]) + NumReleases(s, events, id) + NumWrongRetries(s, events, id) + NumLost(s, events, id)
    decreases |events|
  {
    if events != [] {
      StepSpendsAllowance(s, events[0], id);
      AllowanceBoundsClaims(Step(s, events[0]), events[1..], id);
    }
  }

  /** Over every run of any workers, a fresh job is claimed at most max(1, maxAttempts) times, plus once
      per release by expiry, once per failure judged from an older row that should have been the last,
      and once per increment that claims from older rows lost. */
  lemma {:induction false} ClaimsAreBounded(s: State, events: seq<Event>, id: int)
    requires id in s.table && s.table[id].status == Queued && s.table[id].attempts == 0
    ensures NumClaims(s, events, id)
      <= Budget(s.table[id]) + NumReleases(s, events, id) + NumWrongRetries(s, events, id) + NumLost(s, events, id)
  {
    AllowanceBoundsClaims(s, events, id);
  }

  // ---------- The exact number ----------

  /** The step is none of the exceptions: only the failing handler ends the job, no lease runs out, and
      claims and failures use the row as it is. */
  predicate Regular(s: State, e: Event, id: int) {
    && !Releases(s, e, id) && !Completes(s, e, id)
    && (Claims(s, e, id) ==> e.attempts == s.table[id].attempts + 1)
    && (Fails(s, e, id) ==> (IsTerminal(e.seen) <==> IsTerminal(s.table[id])))
  }

  predicate RegularRun(s: State, events: seq<Event>, id: int)
    decreases |events|
  {
    events == [] || (Regular(s, events[0], id) && RegularRun(Step(s, events[0]), events[1..], id))
  }

  /** Where a job stands after `claims` claims and `failures` failures. */
  predicate Standing(job: Job, claims: nat, failures: nat) {
    && job.attempts == claims
    && match job.status
       case Queued => claims == failures == 0
       case Running => job.worker.Some? && claims == failures + 1 <= Budget(job)
       case Retrying => 0 < claims == failures < Budget(job)
       case DeadLetter => claims == failures == Budget(job)
       case _ => false
  }

  lemma {:induction false} RegularStep(s: State, e: Event, id: int, claims: nat, failures: nat)
    requires id in s.table && Standing(s.table[id], claims, failures) && Regular(s, e, id)
    ensures id in Step(s, e).table && Budget(Step(s, e).table[id]) == Budget(s.table[id])
    ensures Standing(Step(s, e).table[id], claims + (if Claims(s, e, id) then 1 else 0), failures + (if Fails(s, e, id) then 1 else 0))
  {
  }

  lemma {:induction false} RegularRunStands(s: State, events: seq<Event>, id: int, claims: nat, failures: nat)
    requires id in s.table && Standing(s.table[id], claims, failures) && RegularRun(s, events, id)
    ensures id in Run(s, events).table && Budget(Run(s, events).table[id]) == Budget(s.table[id])
    ensures Standing(Run(s, events).table[id], claims + NumClaims(s, events, id), failures + NumFailures(s, events, id))
    decreases |events|
  {
    if events != [] {
      var e := events[0];
      RegularStep(s, e, id, claims, failures);
      RegularRunStands(Step(s, e), events[1..], id,
                       claims + (if Claims(s, e, id) then 1 else 0), failures + (if Fails(s, e, id) then 1 else 0));
    }
  }

  /** In every such run of any workers the job is claimed at most max(1, maxAttempts) times, and it is
      dead-lettered exactly when it has been claimed and has failed that often. Until then it waits or
      runs, so it can be claimed or can fail again. */
  lemma {:induction false} FailingJobIsDeadLettered(s: State, events: seq<Event>, id: int)
    requires id in s.table && s.table[id].status == Queued && s.table[id].attempts == 0 && RegularRun(s, events, id)
    ensures id in Run(s, events).table
    ensures var job, claims := Run(s, events).table[id], NumClaims(s, events, id);
      && claims <= Budget(s.table[id])
      && (job.status == DeadLetter <==> NumFailures(s, events, id) == Budget(s.table[id]))
      && (job.status == DeadLetter ==> claims == Budget(s.table[id]))
      && (job.status != DeadLetter ==> IsWaiting(job) || job.status == Running)
  {
    RegularRunStands(s, events, id, 0, 0);
  }

  // ---------- Stale claims ----------

  function StaleRound(worker: string, id: int, now: int, attempts: int, seen: Job): seq<Event> {
    [ClaimStep(worker, id, now, attempts), FailStep(worker, id, now, seen)]
  }

  lemma {:induction false} RunTwo(s: State, a: Event, b: Event)
    ensures Run(s, [a, b]) == Step(Step(s, a), b)
    ensures PossibleRun(s, [a, b]) <==> Possible(s, a) && Possible(Step(s, a), b)
  {
    RunCons(s, a, [b]);
    RunCons(Step(s, a), b, []);
    assert [a] + [b] == [a, b] && [b] + [] == [b];
  }

  /** Every claim in the list counts on from `attempts`, and no step of it is an expiry. */
  predicate CountsFrom(events: seq<Event>, attempts: int) {
    forall i :: 0 <= i < |events| ==> !events[i].ExpireStep? && (events[i].ClaimStep? ==> events[i].attempts == attempts + 1)
  }

  lemma {:induction false} CountsJoin(s: State, first: seq<Event>, second: seq<Event>, id: int)
    ensures NumClaims(s, first + second, id) == NumClaims(s, first, id) + NumClaims(Run(s, first), second, id)
    ensures NumWrongRetries(s, first + second, id) == NumWrongRetries(s, first, id) + NumWrongRetries(Run(s, first), second, id)
    decreases |first|
  {
    if first == [] {
      assert first + second == second;
    } else {
      assert (first + second)[1..] == first[1..] + second;
      CountsJoin(Step(s, first[0]), first[1..], second, id);
    }
  }

  lemma {:induction false} StaleRoundClaims(s: State, id: int, worker: string, attempts: int)
    requires id in s.table && IsWaiting(s.table[id]) && attempts + 1 < s.table[id].maxAttempts
    ensures var seen := Locked(s.table[id], worker, s.clock, attempts + 1);
      var round := StaleRound(worker, id, s.clock, attempts + 1, seen);
      && PossibleRun(s, round) && NumClaims(s, round, id) == 1 && NumWrongRetries(s, round, id) == 0
      && Step(s, round[0]).table[id] == seen
      && id in Run(s, round).table && IsWaiting(Run(s, round).table[id])
      && Run(s, round).table[id].maxAttempts == s.table[id].maxAttempts
  {
    var seen := Locked(s.table[id], worker, s.clock, attempts + 1);
    var a, b := ClaimStep(worker, id, s.clock, attempts + 1), FailStep(worker, id, s.clock, seen);
    RunTwo(s, a, b);
    assert [a, b][1..] == [b] && [b][1..] == [];
    assert Step(s, a).table[id] == seen;
    assert NumClaims(Step(s, a), [b], id) == 0 && NumWrongRetries(Step(s, a), [b], id) == 0;
  }

  /** One stale claim can lose almost the whole budget at once. */
  lemma {:induction false} OneStaleClaimLosesMany(s: State, id: int, worker: string, now: int)
    requires id in s.table && IsWaiting(s.table[id]) && s.table[id].attempts == s.table[id].maxAttempts - 1 >= 1
    ensures LostBy(s, ClaimStep(worker, id, now, 1), id) == s.table[id].maxAttempts - 1
    ensures Step(s, ClaimStep(worker, id, now, 1)).table[id].attempts == 1
  {
  }

  /** Without any expiry: once a waiting job with at least two attempts left is available, workers that
      read it then, and claim it one after the other from what they read, claim it any number of times.
      Every claim is conditional and effective, and no failure is judged from a row that said otherwise
      than the current one. */
  lemma {:induction false} StaleClaimsAreUnbounded(s: State, id: int, worker: string, n: nat) returns (events: seq<Event>)
    requires id in s.table && IsWaiting(s.table[id]) && s.table[id].attempts + 1 < s.table[id].maxAttempts
    ensures PossibleRun(s, events) && CountsFrom(events, s.table[id].attempts)
    ensures events != [] && events[0].Tick?
    ensures var read := Step(s, events[0]);
      read.table == s.table && IsAvailable(read.table, id, read.clock)
    ensures NumClaims(s, events, id) == n && NumWrongRetries(s, events, id) == 0
    ensures var s' := Run(s, events);
      id in s'.table && IsWaiting(s'.table[id]) && s'.table[id].maxAttempts == s.table[id].maxAttempts
  {
    if n == 0 {
      var available := s.table[id].availableAt;
      events := [Tick(if available > s.clock then available else s.clock)];
      assert events[1..] == [];
    } else {
      var attempts := s.table[id].attempts;
      var before := StaleClaimsAreUnbounded(s, id, worker, n - 1);
      var s1 := Run(s, before);
      StaleRoundClaims(s1, id, worker, attempts);
      var round := StaleRound(worker, id, s1.clock, attempts + 1, Locked(s1.table[id], worker, s1.clock, attempts + 1));
      RunJoin(s, before, round);
      CountsJoin(s, before, round, id);
      events := before + round;
    }
  }

  /** That needs a budget of two: claims that count on from any row of a fresh job never lose an
      increment of a budget of one. */
  lemma {:induction false} BudgetOfOneIsKept(s: State, events: seq<Event>, id: int)
    requires id in s.table && s.table[id].maxAttempts <= 1
    requires forall i :: 0 <= i < |events| && events[i].ClaimStep? && events[i].id == id ==> events[i].attempts >= 1
    ensures NumLost(s, events, id) == 0
    decreases |events|
  {
    if events != [] {
      StepSpendsAllowance(s, events[0], id);
      BudgetOfOneIsKept(Step(s, events[0]), events[1..], id);
    }
  }

  // ---------- Which limits bound the claims ----------

  /** Every claim of the job counts on from a row that the job has had, now or earlier; `read` holds
      the numbers of attempts so far. */
  predicate ClaimsFromRows(s: State, events: seq<Event>, id: int, read: set<int>)
    requires id in s.table
    decreases |events|
  {
    if events == [] then true
    else
      var read' := read + {s.table[id].attempts};
      StepSpendsAllowance(s, events[0], id);
      && (events[0].ClaimStep? && events[0].id == id ==> events[0].attempts - 1 in read')
      && ClaimsFromRows(Step(s, events[0]), events[1..], id, read')
  }

  lemma {:induction false} RowsCountUp(s: State, events: seq<Event>, id: int, read: set<int>)
    requires id in s.table && s.table[id].attempts >= 0 && (forall n :: n in read ==> n >= 0) && ClaimsFromRows(s, events, id, read)
    ensures forall i :: 0 <= i < |events| && events[i].ClaimStep? && events[i].id == id ==> events[i].attempts >= 1
    decreases |events|
  {
    if events != [] {
      StepSpendsAllowance(s, events[0], id);
      RowsCountUp(Step(s, events[0]), events[1..], id, read + {s.table[id].attempts});
    }
  }

  lemma {:induction false} CountsFromIsRead(s: State, events: seq<Event>, id: int, read: set<int>, attempts: int)
    requires id in s.table && CountsFrom(events, attempts) && (attempts in read || attempts == s.table[id].attempts)
    ensures ClaimsFromRows(s, events, id, read)
    decreases |events|
  {
    if events != [] {
      StepSpendsAllowance(s, events[0], id);
      assert CountsFrom(events[1..], attempts);
      CountsFromIsRead(Step(s, events[0]), events[1..], id, read + {s.table[id].attempts}, attempts);
    }
  }

  lemma {:induction false} NothingReleased(s: State, events: seq<Event>, id: int)
    requires forall i :: 0 <= i < |events| ==> !events[i].ExpireStep?
    ensures NumReleases(s, events, id) == 0
    decreases |events|
  {
    if events != [] {
      NothingReleased(Step(s, events[0]), events[1..], id);
    }
  }

  /** In every possible run without expiry, with claims from rows that the job has had, and without a
      failure judged wrongly from an older row, the job is claimed within its budget. */
  ghost predicate BudgetHolds(s: State, id: int)
    requires id in s.table
  {
    forall events :: PossibleRun(s, events) && ClaimsFromRows(s, events, id, {})
                     && NumReleases(s, events, id) == 0 && NumWrongRetries(s, events, id) == 0
                     ==> NumClaims(s, events, id) <= Budget(s.table[id])
  }

  /** For a fresh job that is so if and only if its limit is at most one attempt. */
  lemma {:induction false} BudgetHoldsIff(s: State, id: int)
    requires id in s.table && s.table[id].status == Queued && s.table[id].attempts == 0
    ensures BudgetHolds(s, id) <==> s.table[id].maxAttempts <= 1
  {
    if s.table[id].maxAttempts <= 1 {
      forall events | ClaimsFromRows(s, events, id, {}) && NumReleases(s, events, id) == 0 && NumWrongRetries(s, events, id) == 0
        ensures NumClaims(s, events, id) <= Budget(s.table[id])
      {
        RowsCountUp(s, events, id, {});
        BudgetOfOneIsKept(s, events, id);
        ClaimsAreBounded(s, events, id);
      }
    } else {
      var events := StaleClaimsAreUnbounded(s, id, "worker", s.table[id].maxAttempts + 1);
      CountsFromIsRead(s, events, id, {}, 0);
      NothingReleased(s, events, id);
      assert NumClaims(s, events, id) > Budget(s.table[id]);
    }
  }
}
