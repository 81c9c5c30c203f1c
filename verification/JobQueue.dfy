/** The leased job queue. Every query is one atomic step on the job table; workers interleave
    between queries. */
module JobQueue {
  import opened Collections
  import Graphs

  const WORKER_LEASE_MS: int := 10 * 60 * 1_000
  const MAX_BACKOFF_MS: int := 60 * 60 * 1_000
  const BASE_BACKOFF_MS: int := 5_000

  datatype JobStatus = Queued | Running | Succeeded | Failed | Retrying | DeadLetter | Cancelled

  datatype Job = Job(
    status: JobStatus, attempts: int, maxAttempts: int, availableAt: int,
    lockedAt: Option<int>, leaseExpiresAt: Option<int>, worker: Option<string>)

  type Table = map<int, Job>

  // ---------- The queries ----------

  /** The lease clause of the recovery query; a null column compares as false. */
  predicate LeaseOver(job: Job, now: int) {
    && job.status == Running
    && ((job.leaseExpiresAt.Some? && job.leaseExpiresAt.value < now)
        || (job.lockedAt.Some? && job.lockedAt.value < now - WORKER_LEASE_MS))
  }

  function Released(job: Job, now: int): Job {
    job.(status := Retrying, availableAt := now, lockedAt := None, leaseExpiresAt := None, worker := None)
  }

  function Expire(table: Table, now: int): Table {
    map id | id in table :: if LeaseOver(table[id], now) then Released(table[id], now) else table[id]
  }

  predicate IsWaiting(job: Job) {
    job.status == Queued || job.status == Retrying
  }

  predicate IsAvailable(table: Table, id: int, now: int) {
    id in table && IsWaiting(table[id]) && table[id].availableAt <= now
  }

  function Locked(job: Job, worker: string, now: int, attempts: int): Job {
    job.(status := Running, attempts := attempts, lockedAt := Some(now), leaseExpiresAt := Some(now + WORKER_LEASE_MS), worker := Some(worker))
  }

  /** The conditional claim: `attempts` comes from the row read earlier, the guard from the row now. */
  function Claim(table: Table, id: int, worker: string, now: int, attempts: int): Table {
    if id in table && IsWaiting(table[id]) then table[id := Locked(table[id], worker, now, attempts)] else table
  }

  predicate IsHeldBy(table: Table, id: int, worker: string) {
    id in table && table[id].status == Running && table[id].worker == Some(worker)
  }

  function Heartbeat(table: Table, id: int, worker: string, now: int): Table {
    if IsHeldBy(table, id, worker) then table[id := table[id].(leaseExpiresAt := Some(now + WORKER_LEASE_MS))] else table
  }

  function Ended(job: Job, status: JobStatus): Job {
    job.(status := status, lockedAt := None, leaseExpiresAt := None, worker := None)
  }

  function Complete(table: Table, id: int, worker: string): Table {
    if IsHeldBy(table, id, worker) then table[id := Ended(table[id], Succeeded)] else table
  }

  function Backoff(attempts: int): int {
    var exponent := if attempts - 1 > 0 then attempts - 1 else 0;
    var delay := Pow2(exponent) * BASE_BACKOFF_MS;
    if delay < MAX_BACKOFF_MS then delay else MAX_BACKOFF_MS
  }

  /** `seen` is the row that `failJob` read before its update. */
  function Fail(table: Table, id: int, worker: string, now: int, seen: Job): Table {
    if !IsHeldBy(table, id, worker) then table
    else if seen.attempts >= seen.maxAttempts then
      table[id := Ended(table[id], DeadLetter).(availableAt := seen.availableAt)]
    else
      table[id := Ended(table[id], Retrying).(availableAt := now + Backoff(seen.attempts))]
  }

  // ---------- One worker, queries in sequence ----------

  function ClaimEach(table: Table, ids: seq<int>, worker: string, now: int): Table {
    if ids == [] then table
    else
      var n := |ids| - 1;
      var front := ClaimEach(table, ids[..n], worker, now);
      if ids[n] in table then Claim(front, ids[n], worker, now, table[ids[n]].attempts + 1) else front
  }

  function ClaimBound(limit: int): (n: nat)
    ensures limit < 1 ==> n == 1
    ensures 1 <= limit <= 100 ==> n == limit
    ensures limit > 100 ==> n == 100
  {
    var raised := if limit < 1 then 1 else limit;
    if raised > 100 then 100 else raised
  }

  /** A page of available jobs, oldest first; jobs with equal times come in any order. */
  ghost predicate IsPage(table: Table, now: int, bound: nat, page: seq<int>) {
    && |page| <= bound
    && (forall i :: 0 <= i < |page| ==> IsAvailable(table, page[i], now))
    && (forall i, j :: 0 <= i < j < |page| ==> page[i] != page[j] && table[page[i]].availableAt <= table[page[j]].availableAt)
    && (forall id :: IsAvailable(table, id, now) && id !in page ==>
          |page| == bound && forall i :: 0 <= i < |page| ==> table[page[i]].availableAt <= table[id].availableAt)
  }

  class JobStore {
    var table: Table

    method Select(now: int, bound: nat) returns (page: seq<int>)
      ensures IsPage(table, now, bound, page)
    {
      page := [];
      var rest := set id | id in table && IsAvailable(table, id, now);
      while rest != {} && |page| < bound
        invariant |page| <= bound
        invariant rest <= table.Keys && forall i :: 0 <= i < |page| ==> page[i] in table
        invariant forall id :: IsAvailable(table, id, now) <==> id in rest || id in page
        invariant forall id :: id in rest ==> id !in page
        invariant forall i, j :: 0 <= i < j < |page| ==> page[i] != page[j] && table[page[i]].availableAt <= table[page[j]].availableAt
        invariant forall i, id :: 0 <= i < |page| && id in rest ==> table[page[i]].availableAt <= table[id].availableAt
        decreases rest
      {
        var oldest := Oldest(rest);
        page := page + [oldest];
        rest := rest - {oldest};
      }
    }

    method Oldest(ids: set<int>) returns (oldest: int)
      requires ids != {} && ids <= table.Keys
      ensures oldest in ids && forall id :: id in ids ==> table[oldest].availableAt <= table[id].availableAt
    {
      ghost var some := Graphs.SomeElement(ids);
      oldest :| oldest in ids;
      var rest := ids - {oldest};
      while rest != {}
        invariant oldest in ids && rest <= ids
        invariant forall id :: id in ids && id !in rest ==> table[oldest].availableAt <= table[id].availableAt
        decreases rest
      {
        some := Graphs.SomeElement(rest);
        var id :| id in rest;
        rest := rest - {id};
        if table[id].availableAt < table[oldest].availableAt {
          oldest := id;
        }
      }
    }

    /** Leases are recovered first; then a page of available jobs is claimed one by one. With no other
        worker in between, every job of the page is claimed, whether or not the driver reports the
        number of affected rows. */
    method ClaimPendingJobs(worker: string, now: int, limit: int, rowsReported: bool) returns (claimed: seq<int>)
      modifies this
      ensures IsPage(Expire(old(table), now), now, ClaimBound(limit), claimed)
      ensures table == ClaimEach(Expire(old(table), now), claimed, worker, now)
    {
      table := Expire(table, now);
      ghost var before := table;
      var available := Select(now, ClaimBound(limit));
      claimed := [];
      for i := 0 to |available|
        invariant claimed == available[..i]
        invariant table == ClaimEach(before, available[..i], worker, now)
        invariant forall j :: i <= j < |available| ==> available[j] in table && table[available[j]] == before[available[j]]
      {
        var id := available[i];
        assert available[..i + 1][..i] == available[..i];
        var affected := IsWaiting(table[id]);
        table := Claim(table, id, worker, now, table[id].attempts + 1);
        var confirmed := if rowsReported then affected else IsHeldBy(table, id, worker) && table[id].lockedAt == Some(now);
        if confirmed {
          claimed := claimed + [id];
        }
      }
      assert available[..|available|] == available;
    }

    method HeartbeatJob(worker: string, id: int, now: int)
      modifies this
      ensures table == Heartbeat(old(table), id, worker, now)
    {
      if id in table && table[id].status == Running && table[id].worker == Some(worker) {
        table := table[id := table[id].(leaseExpiresAt := Some(now + WORKER_LEASE_MS))];
      }
    }

    method CompleteJob(worker: string, id: int)
      modifies this
      ensures table == Complete(old(table), id, worker)
      ensures id in old(table) && old(table)[id].status == Running && old(table)[id].worker == Some(worker) ==>
        table == old(table)[id := Job(Succeeded, old(table)[id].attempts, old(table)[id].maxAttempts, old(table)[id].availableAt, None, None, None)]
    {
      if id in table && table[id].status == Running && table[id].worker == Some(worker) {
        table := table[id := table[id].(status := Succeeded, lockedAt := None, leaseExpiresAt := None, worker := None)];
      }
    }

    /** The reply names the status of the update even if it changed nothing; None is the thrown error. */
    method FailJob(worker: string, id: int, now: int) returns (reply: Option<JobStatus>)
      modifies this
      ensures id !in old(table) ==> reply == None && table == old(table)
      ensures id in old(table) ==>
        && reply == Some(if old(table)[id].attempts >= old(table)[id].maxAttempts then DeadLetter else Retrying)
        && table == Fail(old(table), id, worker, now, old(table)[id])
    {
      if id !in table {
        return None;
      }
      var seen := table[id];
      var terminal := seen.attempts >= seen.maxAttempts;
      if seen.status == Running && seen.worker == Some(worker) {
        var ended := Ended(seen, if terminal then DeadLetter else Retrying);
        table := table[id := ended.(availableAt := if terminal then seen.availableAt else now + Backoff(seen.attempts))];
      }
      return Some(if terminal then DeadLetter else Retrying);
    }
  }

  // ---------- What a query writes ----------

  /** A recovered lease leaves the attempts and the budget alone and makes the job available at once. */
  lemma {:induction false} ExpiryWrites(table: Table, id: int, now: int)
    requires id in table
    ensures Expire(table, now).Keys == table.Keys
    ensures var job := table[id];
      Expire(table, now)[id]
      == if job.status == Running && ((job.leaseExpiresAt.Some? && job.leaseExpiresAt.value < now)
                                      || (job.lockedAt.Some? && job.lockedAt.value < now - 600_000))
         then Job(Retrying, job.attempts, job.maxAttempts, now, None, None, None)
         else job
  {
  }

  /** A claim of a waiting job writes the attempts it was given and a lease of ten minutes. */
  lemma {:induction false} ClaimWrites(table: Table, id: int, worker: string, now: int, attempts: int)
    ensures Claim(table, id, worker, now, attempts)
      == if id in table && (table[id].status == Queued || table[id].status == Retrying)
         then table[id := Job(Running, attempts, table[id].maxAttempts, table[id].availableAt, Some(now), Some(now + 600_000), Some(worker))]
         else table
  {
  }

  lemma {:induction false} HeartbeatWrites(table: Table, id: int, worker: string, now: int)
    ensures Heartbeat(table, id, worker, now)
      == if id in table && table[id].status == Running && table[id].worker == Some(worker)
         then table[id := table[id].(leaseExpiresAt := Some(now + 600_000))]
         else table
  {
  }

  /** A completion by the holder makes the job succeed and clears lock, lease and worker; anybody else's
      changes nothing. */
  lemma {:induction false} CompletionWrites(table: Table, id: int, worker: string)
    ensures Complete(table, id, worker)
      == if id in table && table[id].status == Running && table[id].worker == Some(worker)
         then table[id := Job(Succeeded, table[id].attempts, table[id].maxAttempts, table[id].availableAt, None, None, None)]
         else table
  {
  }

  lemma {:induction false} ClaimEachWrites(table: Table, ids: seq<int>, worker: string, now: int, id: int)
    requires id in table && forall i, j :: 0 <= i < j < |ids| ==> ids[i] != ids[j]
    ensures ClaimEach(table, ids, worker, now).Keys == table.Keys
    ensures ClaimEach(table, ids, worker, now)[id]
      == if id in ids && IsWaiting(table[id]) then Locked(table[id], worker, now, table[id].attempts + 1) else table[id]
  {
    if ids != [] {
      var n := |ids| - 1;
      ClaimEachWrites(table, ids[..n], worker, now, id);
      if ids[n] in table {
        ClaimEachWrites(table, ids[..n], worker, now, ids[n]);
      }
      assert ids == ids[..n] + [ids[n]];
    }
  }

  /** What a claim of a page has done: a job on the page was waiting and due, or its lease was over; now it runs
      for the worker, counts one more attempt and is leased for ten minutes. Other jobs are at most released. */
  lemma {:induction false} PageIsClaimed(table: Table, now: int, bound: nat, page: seq<int>, worker: string, id: int)
    requires IsPage(Expire(table, now), now, bound, page) && id in table
    ensures |page| <= bound
    ensures ClaimEach(Expire(table, now), page, worker, now).Keys == table.Keys
    ensures var was, job := table[id], ClaimEach(Expire(table, now), page, worker, now)[id];
      var over := was.status == Running && ((was.leaseExpiresAt.Some? && was.leaseExpiresAt.value < now)
                                            || (was.lockedAt.Some? && was.lockedAt.value < now - 600_000));
      var due := over || (was.status in {Queued, Retrying} && was.availableAt <= now);
      && (id in page ==>
            due && job == Job(Running, was.attempts + 1, was.maxAttempts, if over then now else was.availableAt, Some(now), Some(now + 600_000), Some(worker)))
      && (id !in page && due ==> |page| == bound)
      && (id !in page ==> job == if over then Job(Retrying, was.attempts, was.maxAttempts, now, None, None, None) else was)
  {
    ClaimEachWrites(Expire(table, now), page, worker, now, id);
    ExpiryWrites(table, id, now);
    assert id in page ==> IsAvailable(Expire(table, now), id, now);
    assert IsAvailable(Expire(table, now), id, now) && id !in page ==> |page| == bound;
  }

  /** No job that is due but not on the page has waited longer than one on it; a released job waits from now on. */
  lemma {:induction false} PageIsOldest(table: Table, now: int, bound: nat, page: seq<int>, id: int, other: int)
    requires IsPage(Expire(table, now), now, bound, page) && id in page && other in table && other !in page
    requires table[other].status in {Queued, Retrying} && table[other].availableAt <= now
    ensures id in table && (if table[id].status == Running then now else table[id].availableAt) <= table[other].availableAt
  {
    ExpiryWrites(table, other, now);
    assert IsAvailable(Expire(table, now), other, now);
    assert IsAvailable(Expire(table, now), id, now);
    ExpiryWrites(table, id, now);
  }

  /** The delays of the first ten attempts; then the hour is reached. */
  const DELAYS: seq<int> := [5_000, 10_000, 20_000, 40_000, 80_000, 160_000, 320_000, 640_000, 1_280_000, 2_560_000]

  lemma {:induction false} Pow2OfTen()
    ensures Pow2(0) == 1 && Pow2(1) == 2 && Pow2(2) == 4 && Pow2(3) == 8 && Pow2(4) == 16 && Pow2(5) == 32
    ensures Pow2(6) == 64 && Pow2(7) == 128 && Pow2(8) == 256 && Pow2(9) == 512 && Pow2(10) == 1024
  {
  }

  lemma {:induction false} DelaysAreListed(attempts: int)
    ensures Backoff(attempts) == if attempts <= 1 then 5_000 else if attempts <= 10 then DELAYS[attempts - 1] else 3_600_000
  {
    Pow2OfTen();
    if attempts > 10 {
      Pow2Grows(10, attempts - 1);
    }
  }

  /** A failure reported by the holder: with attempts left in the row it read, the job waits for the delay
      of that attempt; with none left it is dead-lettered. */
  lemma {:induction false} FailureWrites(table: Table, id: int, worker: string, now: int, seen: Job)
    ensures Fail(table, id, worker, now, seen)
      == if !(id in table && table[id].status == Running && table[id].worker == Some(worker)) then table
         else if seen.attempts >= seen.maxAttempts then
           table[id := Job(DeadLetter, table[id].attempts, table[id].maxAttempts, seen.availableAt, None, None, None)]
         else
           var delay := if seen.attempts <= 1 then 5_000 else if seen.attempts <= 10 then DELAYS[seen.attempts - 1] else 3_600_000;
           table[id := Job(Retrying, table[id].attempts, table[id].maxAttempts, now + delay, None, None, None)]
  {
    DelaysAreListed(seen.attempts);
  }

  // ---------- Interleavings ----------

  /** One atomic step of some worker, or the clock moving. Every query may carry a clock reading taken
      earlier, and a claim or a failure a row read earlier. */
  datatype Event =
    | Tick(to: int)
    | ExpireStep(now: int)
    | ClaimStep(worker: string, id: int, now: int, attempts: int)
    | HeartbeatStep(worker: string, id: int, now: int)
    | CompleteStep(worker: string, id: int)
    | FailStep(worker: string, id: int, now: int, seen: Job)

  datatype State = State(clock: int, table: Table)

  /** Clocks do not run backwards and no step knows a future time. */
  predicate Possible(s: State, e: Event) {
    match e
    case Tick(to) => to >= s.clock
    case ExpireStep(now) => now <= s.clock
    case ClaimStep(_, _, now, _) => now <= s.clock
    case HeartbeatStep(_, _, now) => now <= s.clock
    case FailStep(_, _, now, _) => now <= s.clock
    case CompleteStep(_, _) => true
  }

  function Step(s: State, e: Event): State {
    match e
    case Tick(to) => s.(clock := to)
    case ExpireStep(now) => s.(table := Expire(s.table, now))
    case ClaimStep(worker, id, now, attempts) => s.(table := Claim(s.table, id, worker, now, attempts))
    case HeartbeatStep(worker, id, now) => s.(table := Heartbeat(s.table, id, worker, now))
    case CompleteStep(worker, id) => s.(table := Complete(s.table, id, worker))
    case FailStep(worker, id, now, seen) => s.(table := Fail(s.table, id, worker, now, seen))
  }

  function Run(s: State, events: seq<Event>): State
    decreases |events|
  {
    if events == [] then s else Run(Step(s, events[0]), events[1..])
  }

  predicate PossibleRun(s: State, events: seq<Event>)
    decreases |events|
  {
    events == [] || (Possible(s, events[0]) && PossibleRun(Step(s, events[0]), events[1..]))
  }

  predicate EndsJob(e: Event, id: int, worker: string) {
    e == CompleteStep(worker, id) || (e.FailStep? && e.id == id && e.worker == worker)
  }

  /** The worker holds the job under a claim stamped `t`. */
  predicate HoldsSince(s: State, id: int, worker: string, t: int) {
    && IsHeldBy(s.table, id, worker)
    && s.table[id].lockedAt == Some(t)
    && s.table[id].leaseExpiresAt.Some? && s.table[id].leaseExpiresAt.value >= t + WORKER_LEASE_MS
    && t <= s.clock
  }

  lemma {:induction false} ClockAdvances(s: State, events: seq<Event>)
    requires PossibleRun(s, events)
    ensures s.clock <= Run(s, events).clock
    decreases |events|
  {
    if events != [] {
      ClockAdvances(Step(s, events[0]), events[1..]);
    }
  }

  /** A successful claim gives the worker the job under its stamp. */
  lemma {:induction false} ClaimHolds(s: State, id: int, worker: string, now: int, attempts: int)
    requires now <= s.clock
    ensures var s' := Step(s, ClaimStep(worker, id, now, attempts));
      if id in s.table && IsWaiting(s.table[id]) then HoldsSince(s', id, worker, now) else s' == s
  {
  }

  /** A heartbeat of the worker that carries a reading from before `t`. */
  predicate BeatsBefore(e: Event, id: int, worker: string, t: int) {
    e.HeartbeatStep? && e.id == id && e.worker == worker && e.now < t
  }

  /** In every interleaving: while the owner does not end the job and no heartbeat from before its claim
      arrives late, it keeps the job up to and including the time `t + WORKER_LEASE_MS`, so no claim of
      another worker takes effect before that. */
  lemma {:induction false} LeaseProtects(s: State, events: seq<Event>, id: int, worker: string, t: int)
    requires PossibleRun(s, events) && HoldsSince(s, id, worker, t)
    requires forall i :: 0 <= i < |events| ==> !EndsJob(events[i], id, worker) && !BeatsBefore(events[i], id, worker, t)
    requires Run(s, events).clock <= t + WORKER_LEASE_MS
    ensures HoldsSince(Run(s, events), id, worker, t)
    decreases |events|
  {
    if events != [] {
      var s1 := Step(s, events[0]);
      ClockAdvances(s1, events[1..]);
      assert !EndsJob(events[0], id, worker) && !BeatsBefore(events[0], id, worker, t);
      assert HoldsSince(s1, id, worker, t);
      LeaseProtects(s1, events[1..], id, worker, t);
    }
  }

  /** A later claim by anyone takes effect only after the owner ended the job, a heartbeat from before
      the claim arrived late, or the lease time of the claim itself has passed. */
  lemma {:induction false} TakeoverNeedsEndOrLease(s: State, events: seq<Event>, id: int, worker: string, t: int, claim: Event)
    requires PossibleRun(s, events) && HoldsSince(s, id, worker, t)
    requires claim.ClaimStep? && claim.id == id && Step(Run(s, events), claim) != Run(s, events)
    ensures (exists i :: 0 <= i < |events| && (EndsJob(events[i], id, worker) || BeatsBefore(events[i], id, worker, t)))
      || Run(s, events).clock > t + WORKER_LEASE_MS
  {
    if (forall i :: 0 <= i < |events| ==> !EndsJob(events[i], id, worker) && !BeatsBefore(events[i], id, worker, t))
       && Run(s, events).clock <= t + WORKER_LEASE_MS {
      LeaseProtects(s, events, id, worker, t);
    }
  }

  /** After a heartbeat the recovery query releases the job if and only if the claim itself, or the
      reading of the heartbeat, is older than the lease. So a heartbeat never prolongs a claim, and one
      from before it shortens it. */
  lemma {:induction false} HeartbeatsDoNotProlong(s: State, id: int, worker: string, t: int, beat: int, now: int)
    requires HoldsSince(s, id, worker, t)
    ensures Expire(s.table, now)[id].status == Retrying <==> now > t + WORKER_LEASE_MS
    ensures var beaten := Heartbeat(s.table, id, worker, beat);
      Expire(beaten, now)[id].status == Retrying <==> now > (if beat < t then beat else t) + WORKER_LEASE_MS
  {
  }

  /** The worker keeps its job over every possible run that ends within the lease time of the claim, in
      which it does not end the job, and in which its heartbeats carry readings from `beat` on. */
  ghost predicate IsProtected(s: State, id: int, worker: string, t: int, beat: int) {
    forall events :: PossibleRun(s, events) && Run(s, events).clock <= t + WORKER_LEASE_MS
                     && (forall i :: 0 <= i < |events| ==> !EndsJob(events[i], id, worker) && !BeatsBefore(events[i], id, worker, beat))
                     ==> HoldsSince(Run(s, events), id, worker, t)
  }

  /** A heartbeat from before the claim, and a recovery that it lets through. */
  function LateBeat(id: int, worker: string, beat: int, to: int): seq<Event> {
    [HeartbeatStep(worker, id, beat), Tick(to), ExpireStep(to)]
  }

  lemma {:induction false} LateBeatReleases(s: State, id: int, worker: string, t: int, beat: int, to: int)
    requires HoldsSince(s, id, worker, t) && beat < t && s.clock <= to && beat + WORKER_LEASE_MS < to
    ensures PossibleRun(s, LateBeat(id, worker, beat, to)) && Run(s, LateBeat(id, worker, beat, to)).clock == to
    ensures var table := Run(s, LateBeat(id, worker, beat, to)).table;
      id in table && IsWaiting(table[id])
  {
    RunThree(s, HeartbeatStep(worker, id, beat), Tick(to), ExpireStep(to));
  }

  /** The lease of a claim protects it in all such runs if and only if no heartbeat from before the
      claim can still arrive. */
  lemma {:induction false} LeaseProtectsIff(s: State, id: int, worker: string, t: int, beat: int)
    requires HoldsSince(s, id, worker, t) && s.clock <= t + WORKER_LEASE_MS
    ensures IsProtected(s, id, worker, t, beat) <==> beat >= t
  {
    if beat >= t {
      forall events | PossibleRun(s, events) && Run(s, events).clock <= t + WORKER_LEASE_MS
                      && forall i :: 0 <= i < |events| ==> !EndsJob(events[i], id, worker) && !BeatsBefore(events[i], id, worker, beat)
        ensures HoldsSince(Run(s, events), id, worker, t)
      {
        LeaseProtects(s, events, id, worker, t);
      }
    } else {
      var events := LateBeat(id, worker, beat, t + WORKER_LEASE_MS);
      LateBeatReleases(s, id, worker, t, beat, t + WORKER_LEASE_MS);
      assert !HoldsSince(Run(s, events), id, worker, t);
    }
  }

  /** A worker that lost the job can no longer complete it, fail it or prolong it. */
  lemma {:induction false} LostJobIsUntouched(s: State, id: int, worker: string, now: int, seen: Job)
    requires id in s.table ==> s.table[id].worker != Some(worker)
    ensures Step(s, CompleteStep(worker, id)) == s
    ensures Step(s, FailStep(worker, id, now, seen)) == s
    ensures Step(s, HeartbeatStep(worker, id, now)) == s
  {
  }

  /** Succeeded and dead-lettered jobs never change again. */
  lemma {:induction false} TerminalIsAbsorbing(s: State, events: seq<Event>, id: int)
    requires id in s.table && s.table[id].status in {Succeeded, DeadLetter}
    ensures id in Run(s, events).table && Run(s, events).table[id] == s.table[id]
    decreases |events|
  {
    if events != [] {
      TerminalIsAbsorbing(Step(s, events[0]), events[1..], id);
    }
  }

  lemma {:induction false} RunSplits(s: State, events: seq<Event>)
    requires events != []
    ensures var n := |events| - 1; Run(s, events) == Step(Run(s, events[..n]), events[n])
  {
    var n := |events| - 1;
    assert events == events[..n] + [events[n]];
    RunJoin(s, events[..n], [events[n]]);
    assert [events[n]] + [] == [events[n]];
    RunCons(Run(s, events[..n]), events[n], []);
  }

  /** Over every run: a job becomes dead-lettered only by a failure that its holder reports from a row
      whose attempts are used up. */
  lemma {:induction false} DeadLetterHasCause(s: State, events: seq<Event>, id: int) returns (i: nat)
    requires id in s.table && s.table[id].status != DeadLetter
    requires id in Run(s, events).table && Run(s, events).table[id].status == DeadLetter
    ensures i < |events| && events[i].FailStep? && events[i].id == id && events[i].seen.attempts >= events[i].seen.maxAttempts
    ensures var table := Run(s, events[..i]).table;
      id in table && table[id].status == Running && table[id].worker == Some(events[i].worker)
    decreases |events|
  {
    var n := |events| - 1;
    RunSplits(s, events);
    var before := Run(s, events[..n]);
    if id in before.table && before.table[id].status == DeadLetter {
      i := DeadLetterHasCause(s, events[..n], id);
      assert events[..n][..i] == events[..i];
    } else {
      i := n;
      EndHasCause(before, events[n], id);
    }
  }

  lemma {:induction false} EndHasCause(s: State, e: Event, id: int)
    requires id in Step(s, e).table
    ensures id in s.table
    ensures Step(s, e).table[id].status == DeadLetter && s.table[id].status != DeadLetter ==>
      && e.FailStep? && e.id == id && e.seen.attempts >= e.seen.maxAttempts
      && s.table[id].status == Running && s.table[id].worker == Some(e.worker)
    ensures Step(s, e).table[id].status == Succeeded && s.table[id].status != Succeeded ==>
      && e.CompleteStep? && e.id == id
      && s.table[id].status == Running && s.table[id].worker == Some(e.worker)
  {
  }

  /** And it becomes succeeded only by a completion that its holder reports. */
  lemma {:induction false} SuccessHasCause(s: State, events: seq<Event>, id: int) returns (i: nat)
    requires id in s.table && s.table[id].status != Succeeded
    requires id in Run(s, events).table && Run(s, events).table[id].status == Succeeded
    ensures i < |events| && events[i].CompleteStep? && events[i].id == id
    ensures var table := Run(s, events[..i]).table;
      id in table && table[id].status == Running && table[id].worker == Some(events[i].worker)
    decreases |events|
  {
    var n := |events| - 1;
    RunSplits(s, events);
    var before := Run(s, events[..n]);
    if id in before.table && before.table[id].status == Succeeded {
      i := SuccessHasCause(s, events[..n], id);
      assert events[..n][..i] == events[..i];
    } else {
      i := n;
      EndHasCause(before, events[n], id);
    }
  }

  // ---------- Retries ----------

  lemma {:induction false} Pow2Grows(m: nat, n: nat)
    requires m <= n
    ensures Pow2(m) <= Pow2(n)
  {
    if m < n {
      Pow2Grows(m, n - 1);
    }
  }

  /** Backoff delays never decrease and stay between five seconds and one hour. */
  lemma {:induction false} BackoffBounded(a: int, b: int)
    requires a <= b
    ensures BASE_BACKOFF_MS <= Backoff(a) <= Backoff(b) <= MAX_BACKOFF_MS
  {
    Pow2Grows(if a - 1 > 0 then a - 1 else 0, if b - 1 > 0 then b - 1 else 0);
  }

  /** One worker that claims the job and never answers again. */
  function ClaimAndCrash(id: int, worker: string, now: int, attempts: int): seq<Event> {
    [ClaimStep(worker, id, now, attempts + 1), Tick(now + WORKER_LEASE_MS + 1), ExpireStep(now + WORKER_LEASE_MS + 1)]
  }

  lemma {:induction false} RunJoin(s: State, first: seq<Event>, second: seq<Event>)
    ensures Run(s, first + second) == Run(Run(s, first), second)
    ensures PossibleRun(s, first) && PossibleRun(Run(s, first), second) ==> PossibleRun(s, first + second)
    decreases |first|
  {
    if first == [] {
      assert first + second == second;
    } else {
      assert (first + second)[1..] == first[1..] + second;
      RunJoin(Step(s, first[0]), first[1..], second);
    }
  }

  lemma {:induction false} RunThree(s: State, a: Event, b: Event, c: Event)
    ensures Run(s, [a, b, c]) == Step(Step(Step(s, a), b), c)
    ensures PossibleRun(s, [a, b, c]) <==> Possible(s, a) && Possible(Step(s, a), b) && Possible(Step(Step(s, a), b), c)
  {
    RunCons(s, a, [b, c]);
    RunCons(Step(s, a), b, [c]);
    RunCons(Step(Step(s, a), b), c, []);
    assert [a] + [b, c] == [a, b, c] && [b] + [c] == [b, c] && [c] + [] == [c];
  }

  lemma {:induction false} RunCons(s: State, e: Event, rest: seq<Event>)
    ensures Run(s, [e] + rest) == Run(Step(s, e), rest)
    ensures PossibleRun(s, [e] + rest) <==> Possible(s, e) && PossibleRun(Step(s, e), rest)
  {
    assert ([e] + rest)[1..] == rest;
  }

  /** Lease recovery does not look at `maxAttempts`: whatever the limit, a job whose workers crash can
      be claimed any number of times without being dead-lettered. */
  lemma {:induction false} CrashingJobIsClaimedForever(s: State, id: int, worker: string, n: nat) returns (events: seq<Event>)
    requires id in s.table && IsWaiting(s.table[id])
    ensures PossibleRun(s, events)
    ensures var s' := Run(s, events);
      id in s'.table && IsWaiting(s'.table[id]) && s'.table[id].attempts == s.table[id].attempts + n
      && s'.table[id].maxAttempts == s.table[id].maxAttempts
  {
    if n == 0 {
      events := [];
    } else {
      var before := CrashingJobIsClaimedForever(s, id, worker, n - 1);
      var s1 := Run(s, before);
      var round := ClaimAndCrash(id, worker, s1.clock, s1.table[id].attempts);
      RunThree(s1, round[0], round[1], round[2]);
      RunJoin(s, before, round);
      events := before + round;
    }
  }
}
