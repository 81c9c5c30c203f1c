/** Idempotent execution under concurrent callers. The record table has a unique index on the key, so
    it is a map; rows are never deleted. A caller may stop after any step. */
module Idempotency {
  import opened Collections

  datatype Key = Key(userId: int, scope: string, key: string)

  type Hash = string

  datatype Status = InProgress | Completed | Failed

  /** `payload` is the stored JSON text. */
  datatype Record = Record(hash: Hash, status: Status, payload: Option<string>, expiresAt: int)

  datatype Refusal = DifferentRequest | StillInProgress | PreviousFailed | Unavailable | HandlerFailed | DatabaseFailed

  /** Values are identified by their JSON text. */
  datatype Reply = Fresh(value: string) | Replayed(value: string) | Refused(reason: Refusal)

  /** `Unserializable` covers a handler value without JSON text. */
  datatype Outcome = Returned(text: string) | Unserializable | Threw

  /** How a write that the database could carry out ends: `Lost` was carried out but reported as an
      error, `Rejected` was not carried out. */
  datatype WriteResult = Applied | Lost | Rejected

  const MINUTE_MS: int := 60_000
  const DEFAULT_TTL_MS: int := 24 * 60 * MINUTE_MS
  const MAX_TTL_MS: int := 30 * DEFAULT_TTL_MS

  /** The requested time to live, absent for a missing or non-finite number. */
  function SafeTtl(requested: Option<real>): (ttl: int)
    ensures requested.None? ==> ttl == 86_400_000
    ensures requested.Some? && requested.value < 60_000.0 ==> ttl == 60_000
    ensures requested.Some? && requested.value > 2_592_000_000.0 ==> ttl == 2_592_000_000
    ensures requested.Some? && 60_000.0 <= requested.value <= 2_592_000_000.0 ==>
      ttl as real <= requested.value < ttl as real + 1.0
  {
    match requested
    case None => DEFAULT_TTL_MS
    case Some(r) => var least := if r.Floor < MAX_TTL_MS then r.Floor else MAX_TTL_MS;
                    if least < MINUTE_MS then MINUTE_MS else least
  }

  // ---------- Calls in progress ----------

  datatype Phase =
    | Inserting(expiresAt: int)
    | Conflicted
    | Handling
    | Storing(text: string)
    | Failing(reason: Refusal)
    | Done(reply: Reply)

  datatype Call = Call(key: Key, hash: Hash, phase: Phase)

  /** The history of handler runs. */
  datatype Entry = Started(call: int, key: Key, hash: Hash) | Ended(call: int, key: Key, outcome: Outcome)

  datatype State = State(rows: map<Key, Record>, calls: map<int, Call>, log: seq<Entry>)

  datatype Event =
    | Look(call: int, key: Key, hash: Hash, now: int, ttl: Option<real>)
    | Insert(call: int, result: WriteResult)
    | ReadConflict(call: int)
    | EndHandler(call: int, outcome: Outcome)
    | Commit(call: int, result: WriteResult)
    | MarkFailed(call: int, result: WriteResult)

  function AnswerExisting(r: Record, hash: Hash): Reply {
    if r.hash != hash then Refused(DifferentRequest)
    else if r.status == InProgress then Refused(StillInProgress)
    else if r.status == Failed then Refused(PreviousFailed)
    else if r.payload.None? || r.payload.value == "" then Refused(Unavailable)
    else Replayed(r.payload.value)
  }

  function AnswerConflict(r: Record, hash: Hash): Reply {
    if r.hash != hash then Refused(DifferentRequest)
    else if r.status == Completed && r.payload.Some? && r.payload.value != "" then Replayed(r.payload.value)
    else Refused(StillInProgress)
  }

  /** The first query sees only records that have not expired. */
  function Looked(rows: map<Key, Record>, key: Key, hash: Hash, now: int, ttl: Option<real>): Phase {
    if key in rows && rows[key].expiresAt > now then Done(AnswerExisting(rows[key], hash))
    else Inserting(now + SafeTtl(ttl))
  }

  /** The second query ignores expiry. */
  function Conflict(rows: map<Key, Record>, key: Key, hash: Hash): Reply {
    if key in rows then AnswerConflict(rows[key], hash) else Refused(DatabaseFailed)
  }

  function AfterHandler(outcome: Outcome): Phase {
    if outcome.Returned? then Storing(outcome.text) else Failing(HandlerFailed)
  }

  function Progress(s: State, call: int, phase: Phase): State
    requires call in s.calls
  {
    s.(calls := s.calls[call := s.calls[call].(phase := phase)])
  }

  function Step(s: State, e: Event): State {
    match e
    case Look(call, key, hash, now, ttl) =>
      if call in s.calls then s
      else s.(calls := s.calls[call := Call(key, hash, Looked(s.rows, key, hash, now, ttl))])
    case _ =>
      if e.call in s.calls then Advance(s, e, s.calls[e.call]) else s
  }

  function Advance(s: State, e: Event, c: Call): State
    requires e.call in s.calls
  {
    match (e, c.phase)
    case (Insert(call, result), Inserting(expiresAt)) =>
      if c.key in s.rows || result.Rejected? then Progress(s, call, Conflicted)
      else
        var s' := s.(rows := s.rows[c.key := Record(c.hash, InProgress, None, expiresAt)]);
        if result.Lost? then Progress(s', call, Conflicted)
        else Progress(s'.(log := s.log + [Started(call, c.key, c.hash)]), call, Handling)
    case (ReadConflict(call), Conflicted) =>
      Progress(s, call, Done(Conflict(s.rows, c.key, c.hash)))
    case (EndHandler(call, outcome), Handling) =>
      Progress(s.(log := s.log + [Ended(call, c.key, outcome)]), call, AfterHandler(outcome))
    case (Commit(call, result), Storing(text)) =>
      var s' := if result.Rejected? then s else WriteRow(s, c.key, Completed, Some(text));
      Progress(s', call, if result.Applied? then Done(Fresh(text)) else Failing(DatabaseFailed))
    case (MarkFailed(call, result), Failing(reason)) =>
      var s' := if result.Rejected? || c.key !in s.rows then s else WriteRow(s, c.key, Failed, s.rows[c.key].payload);
      Progress(s', call, Done(Refused(if result.Applied? then reason else DatabaseFailed)))
    case _ => s
  }

  /** An update matches no row when the key is absent. */
  function WriteRow(s: State, key: Key, status: Status, payload: Option<string>): State {
    if key in s.rows then s.(rows := s.rows[key := s.rows[key].(status := status, payload := payload)]) else s
  }

  function Run(s: State, events: seq<Event>): State
    decreases |events|
  {
    if events == [] then s else Run(Step(s, events[0]), events[1..])
  }

  // ---------- What every interleaving keeps ----------

  ghost predicate Initial(s: State) {
    s.rows == map[] && s.calls == map[] && s.log == []
  }

  predicate Active(phase: Phase) {
    phase.Handling? || phase.Storing? || phase.Failing?
  }

  /** The handler of the key ran and returned `text`. */
  ghost predicate Produced(log: seq<Entry>, key: Key, text: string) {
    exists i :: 0 <= i < |log| && log[i].Ended? && log[i].key == key && log[i].outcome == Returned(text)
  }

  ghost predicate HasStarted(log: seq<Entry>, call: int, key: Key, hash: Hash) {
    exists i :: 0 <= i < |log| && log[i] == Started(call, key, hash)
  }

  ghost predicate NotEnded(log: seq<Entry>, key: Key) {
    forall i :: 0 <= i < |log| && log[i].key == key ==> !log[i].Ended?
  }

  /** No two runs of one key were started, and no two ended. */
  ghost predicate OneRunPerKey(log: seq<Entry>) {
    forall i, j :: 0 <= i < j < |log| && log[i].key == log[j].key ==> log[i].Started? != log[j].Started?
  }

  ghost predicate RowSafe(s: State, key: Key)
    requires key in s.rows
  {
    s.rows[key].payload.Some? ==> Produced(s.log, key, s.rows[key].payload.value)
  }

  ghost predicate EntrySafe(s: State, entry: Entry) {
    && entry.key in s.rows
    && (entry.Started? ==> s.rows[entry.key].hash == entry.hash)
  }

  ghost predicate CallSafe(s: State, call: int, c: Call) {
    && (Active(c.phase) ==> c.key in s.rows && s.rows[c.key].status != Failed && HasStarted(s.log, call, c.key, c.hash))
    && (c.phase.Handling? ==> NotEnded(s.log, c.key))
    && (c.phase.Storing? ==> Produced(s.log, c.key, c.phase.text))
    && (c.phase.Done? && !c.phase.reply.Refused? ==>
          c.key in s.rows && s.rows[c.key].hash == c.hash && Produced(s.log, c.key, c.phase.reply.value))
  }

  predicate BothActive(a: Call, b: Call) {
    Active(a.phase) && Active(b.phase) && a.key == b.key
  }

  /** At most one call per key is between its insert and its last write. */
  ghost predicate OneActive(s: State) {
    forall a, b :: a in s.calls && b in s.calls && BothActive(s.calls[a], s.calls[b]) ==> a == b
  }

  ghost predicate Safe(s: State) {
    && OneRunPerKey(s.log) && OneActive(s)
    && (forall key :: key in s.rows ==> RowSafe(s, key))
    && (forall i :: 0 <= i < |s.log| ==> EntrySafe(s, s.log[i]))
    && (forall call :: call in s.calls ==> CallSafe(s, call, s.calls[call]))
  }

  /** The row keeps its hash and expiry. */
  ghost predicate RowGrows(r: Record, r': Record) {
    r'.hash == r.hash && r'.expiresAt == r.expiresAt
  }

  ghost predicate Grows(s: State, s': State) {
    && s.log <= s'.log
    && (forall key :: key in s.rows ==> key in s'.rows && RowGrows(s.rows[key], s'.rows[key]))
    && (forall call :: call in s.calls ==> call in s'.calls && s'.calls[call].key == s.calls[call].key && s'.calls[call].hash == s.calls[call].hash)
  }

  lemma {:induction false} GrowthKeepsProduced(log: seq<Entry>, log': seq<Entry>, key: Key, text: string)
    requires log <= log' && Produced(log, key, text)
    ensures Produced(log', key, text)
  {
    var i :| 0 <= i < |log| && log[i].Ended? && log[i].key == key && log[i].outcome == Returned(text);
    assert log'[i] == log[i];
  }

  lemma {:induction false} GrowthKeepsCall(s: State, s': State, call: int, c: Call)
    requires CallSafe(s, call, c) && Grows(s, s')
    requires Active(c.phase) ==> s'.rows[c.key].status != Failed
    requires c.phase.Handling? ==> NotEnded(s'.log, c.key)
    ensures CallSafe(s', call, c)
  {
    if Active(c.phase) {
      var i :| 0 <= i < |s.log| && s.log[i] == Started(call, c.key, c.hash);
      assert s'.log[i] == s.log[i];
    }
    if c.phase.Storing? {
      GrowthKeepsProduced(s.log, s'.log, c.key, c.phase.text);
    }
    if c.phase.Done? && !c.phase.reply.Refused? {
      GrowthKeepsProduced(s.log, s'.log, c.key, c.phase.reply.value);
    }
  }

  /** A step that changes one call, possibly the row of its key, and possibly appends one entry for
      that key keeps everything about the other calls and keys. */
  lemma {:induction false} OthersStaySafe(s: State, s': State, call: int)
    requires Safe(s) && Grows(s, s') && call in s.calls
    requires s'.calls == s.calls[call := s'.calls[call]]
    requires forall key :: key in s'.rows && key != s.calls[call].key ==> key in s.rows && s'.rows[key] == s.rows[key]
    requires s'.log == s.log || exists entry: Entry :: entry.key == s.calls[call].key && s'.log == s.log + [entry]
    requires (s'.log == s.log && s'.rows == s.rows) || Active(s.calls[call].phase) || s.calls[call].key !in s.rows
    ensures forall key :: key in s'.rows && key != s.calls[call].key ==> RowSafe(s', key)
    ensures forall other :: other in s'.calls && other != call ==> CallSafe(s', other, s'.calls[other])
  {
    forall key | key in s'.rows && key != s.calls[call].key
      ensures RowSafe(s', key)
    {
      assert RowSafe(s, key);
      if s.rows[key].payload.Some? {
        GrowthKeepsProduced(s.log, s'.log, key, s.rows[key].payload.value);
      }
    }
    forall other | other in s'.calls && other != call
      ensures CallSafe(s', other, s'.calls[other])
    {
      var c := s.calls[other];
      assert CallSafe(s, other, c);
      if Active(c.phase) && c.key == s.calls[call].key {
        assert !BothActive(c, s.calls[call]);
      }
      GrowthKeepsCall(s, s', other, c);
    }
  }

  lemma {:induction false} ConflictIsSafe(s: State, call: int)
    requires Safe(s) && call in s.calls && s.calls[call].phase.Inserting?
    ensures Safe(Progress(s, call, Conflicted)) && Grows(s, Progress(s, call, Conflicted))
  {
    var s' := Progress(s, call, Conflicted);
    OthersStaySafe(s, s', call);
    if s.calls[call].key in s.rows {
      assert RowSafe(s, s.calls[call].key);
    }
    EntriesStaySafe(s, s');
  }

  lemma {:induction false} LostInsertIsSafe(s: State, call: int)
    requires Safe(s) && call in s.calls && s.calls[call].phase.Inserting? && s.calls[call].key !in s.rows
    ensures Safe(Step(s, Insert(call, Lost))) && Grows(s, Step(s, Insert(call, Lost)))
  {
    var s' := Step(s, Insert(call, Lost));
    OthersStaySafe(s, s', call);
    EntriesStaySafe(s, s');
  }

  lemma {:induction false} KeyNotLogged(s: State, key: Key)
    requires Safe(s) && key !in s.rows
    ensures forall i :: 0 <= i < |s.log| ==> s.log[i].key != key
  {
    forall i | 0 <= i < |s.log|
      ensures s.log[i].key != key
    {
      assert EntrySafe(s, s.log[i]);
    }
  }

  lemma {:induction false} StartIsSafe(s: State, call: int)
    requires Safe(s) && call in s.calls && s.calls[call].phase.Inserting? && s.calls[call].key !in s.rows
    ensures Safe(Step(s, Insert(call, Applied))) && Grows(s, Step(s, Insert(call, Applied)))
  {
    var c, s' := s.calls[call], Step(s, Insert(call, Applied));
    KeyNotLogged(s, c.key);
    OthersStaySafe(s, s', call);
    assert s'.log[|s.log|] == Started(call, c.key, c.hash);
    assert CallSafe(s', call, s'.calls[call]);
    forall i | 0 <= i < |s'.log|
      ensures EntrySafe(s', s'.log[i])
    {
      assert i < |s.log| ==> EntrySafe(s, s.log[i]);
    }
    forall other | other in s.calls && s.calls[other].key == c.key
      ensures !Active(s.calls[other].phase)
    {
      assert CallSafe(s, other, s.calls[other]);
    }
  }

  lemma {:induction false} InsertIsSafe(s: State, call: int, result: WriteResult)
    requires Safe(s) && call in s.calls && s.calls[call].phase.Inserting?
    ensures Safe(Step(s, Insert(call, result))) && Grows(s, Step(s, Insert(call, result)))
  {
    if s.calls[call].key in s.rows || result.Rejected? {
      ConflictIsSafe(s, call);
    } else if result.Lost? {
      LostInsertIsSafe(s, call);
    } else {
      StartIsSafe(s, call);
    }
  }

  lemma {:induction false} ReadConflictIsSafe(s: State, call: int)
    requires Safe(s) && call in s.calls && s.calls[call].phase.Conflicted?
    ensures Safe(Step(s, ReadConflict(call))) && Grows(s, Step(s, ReadConflict(call)))
  {
    var c, s' := s.calls[call], Step(s, ReadConflict(call));
    OthersStaySafe(s, s', call);
    if c.key in s.rows {
      assert RowSafe(s, c.key);
      assert RowSafe(s', c.key);
    }
    forall i | 0 <= i < |s'.log|
      ensures EntrySafe(s', s'.log[i])
    {
      assert EntrySafe(s, s.log[i]);
    }
  }

  lemma {:induction false} EndHandlerIsSafe(s: State, call: int, outcome: Outcome)
    requires Safe(s) && call in s.calls && s.calls[call].phase.Handling?
    ensures Safe(Step(s, EndHandler(call, outcome))) && Grows(s, Step(s, EndHandler(call, outcome)))
  {
    var c, s' := s.calls[call], Step(s, EndHandler(call, outcome));
    assert CallSafe(s, call, c);
    OthersStaySafe(s, s', call);
    assert s'.log[|s.log|] == Ended(call, c.key, outcome);
    assert RowSafe(s, c.key);
    var i :| 0 <= i < |s.log| && s.log[i] == Started(call, c.key, c.hash);
    assert s'.log[i] == s.log[i];
    forall k | 0 <= k < |s'.log|
      ensures EntrySafe(s', s'.log[k])
    {
      assert k < |s.log| ==> EntrySafe(s, s.log[k]);
    }
  }

  lemma {:induction false} CommitIsSafe(s: State, call: int, result: WriteResult)
    requires Safe(s) && call in s.calls && s.calls[call].phase.Storing?
    ensures Safe(Step(s, Commit(call, result))) && Grows(s, Step(s, Commit(call, result)))
  {
    var c, s' := s.calls[call], Step(s, Commit(call, result));
    assert CallSafe(s, call, c) && RowSafe(s, c.key);
    OthersStaySafe(s, s', call);
    EntriesStaySafe(s, s');
  }

  lemma {:induction false} MarkFailedIsSafe(s: State, call: int, result: WriteResult)
    requires Safe(s) && call in s.calls && s.calls[call].phase.Failing?
    ensures Safe(Step(s, MarkFailed(call, result))) && Grows(s, Step(s, MarkFailed(call, result)))
  {
    var c, s' := s.calls[call], Step(s, MarkFailed(call, result));
    assert CallSafe(s, call, c) && RowSafe(s, c.key);
    OthersStaySafe(s, s', call);
    EntriesStaySafe(s, s');
  }

  lemma {:induction false} EntriesStaySafe(s: State, s': State)
    requires Safe(s) && Grows(s, s') && s'.log == s.log
    ensures forall i :: 0 <= i < |s'.log| ==> EntrySafe(s', s'.log[i])
  {
    forall i | 0 <= i < |s'.log|
      ensures EntrySafe(s', s'.log[i])
    {
      assert EntrySafe(s, s.log[i]);
    }
  }

  lemma {:induction false} LookIsSafe(s: State, call: int, key: Key, hash: Hash, now: int, ttl: Option<real>)
    requires Safe(s) && call !in s.calls
    ensures var e := Look(call, key, hash, now, ttl); Safe(Step(s, e)) && Grows(s, Step(s, e))
  {
    var s' := Step(s, Look(call, key, hash, now, ttl));
    if key in s.rows {
      assert RowSafe(s, key);
    }
    assert CallSafe(s', call, s'.calls[call]);
    forall other | other in s.calls
      ensures CallSafe(s', other, s'.calls[other])
    {
      assert CallSafe(s, other, s.calls[other]);
    }
    forall k | k in s'.rows
      ensures RowSafe(s', k)
    {
      assert RowSafe(s, k);
    }
    EntriesStaySafe(s, s');
  }

  lemma {:induction false} StepIsSafe(s: State, e: Event)
    requires Safe(s)
    ensures Safe(Step(s, e)) && Grows(s, Step(s, e))
  {
    if e.call !in s.calls {
      if e.Look? {
        LookIsSafe(s, e.call, e.key, e.hash, e.now, e.ttl);
      }
    } else {
      match (e, s.calls[e.call].phase)
      case (Insert(call, result), Inserting(_)) => InsertIsSafe(s, call, result);
      case (ReadConflict(call), Conflicted) => ReadConflictIsSafe(s, call);
      case (EndHandler(call, outcome), Handling) => EndHandlerIsSafe(s, call, outcome);
      case (Commit(call, result), Storing(_)) => CommitIsSafe(s, call, result);
      case (MarkFailed(call, result), Failing(_)) => MarkFailedIsSafe(s, call, result);
      case _ =>
    }
  }

  // ---------- Main results ----------

  lemma {:induction false} RunIsSafe(s: State, events: seq<Event>)
    requires Initial(s) || Safe(s)
    ensures Safe(Run(s, events)) && Grows(s, Run(s, events))
    decreases |events|
  {
    assert Initial(s) ==> Safe(s);
    if events != [] {
      var s1 := Step(s, events[0]);
      StepIsSafe(s, events[0]);
      RunIsSafe(s1, events[1..]);
      var s2 := Run(s, events);
      forall key | key in s.rows
        ensures key in s2.rows && RowGrows(s.rows[key], s2.rows[key])
      {
        assert RowGrows(s.rows[key], s1.rows[key]) && RowGrows(s1.rows[key], s2.rows[key]);
      }
    }
  }

  /** In every interleaving the handler of a key is started at most once, whatever the hashes, the
      lifetimes and the failures. */
  lemma {:induction false} HandlerRunsAtMostOnce(s: State, events: seq<Event>, i: nat, j: nat)
    requires Initial(s)
    requires i < j < |Run(s, events).log|
    requires Run(s, events).log[i].key == Run(s, events).log[j].key
    ensures Run(s, events).log[i].Started? && Run(s, events).log[j].Ended?
  {
    RunIsSafe(s, events);
    StartComesFirst(s, events, i, j);
  }

  /** Every value that a call is answered with, fresh or replayed, is what the one run of the handler
      for the key returned, and that run was started for the call's own request hash. */
  lemma {:induction false} AnswersComeFromTheRun(s: State, events: seq<Event>, call: int) returns (start: nat, end: nat)
    requires Initial(s)
    requires call in Run(s, events).calls && Run(s, events).calls[call].phase.Done?
    requires !Run(s, events).calls[call].phase.reply.Refused?
    ensures var s', c := Run(s, events), Run(s, events).calls[call];
      && start < end < |s'.log|
      && s'.log[start].Started? && s'.log[start].key == c.key && s'.log[start].hash == c.hash
      && s'.log[end].Ended? && s'.log[end].key == c.key && s'.log[end].outcome == Returned(c.phase.reply.value)
  {
    RunIsSafe(s, events);
    var s' := Run(s, events);
    var c := s'.calls[call];
    assert CallSafe(s', call, c);
    end :| 0 <= end < |s'.log| && s'.log[end].Ended? && s'.log[end].key == c.key && s'.log[end].outcome == Returned(c.phase.reply.value);
    start := EndHasStart(s, events, end);
    assert EntrySafe(s', s'.log[start]);
  }

  /** Two answers to one key carry the same value. */
  lemma {:induction false} AnswersAgree(s: State, events: seq<Event>, a: int, b: int)
    requires Initial(s)
    requires var calls := Run(s, events).calls;
      && a in calls && calls[a].phase.Done? && !calls[a].phase.reply.Refused?
      && b in calls && calls[b].phase.Done? && !calls[b].phase.reply.Refused?
      && calls[a].key == calls[b].key
    ensures var calls := Run(s, events).calls;
      calls[a].phase.reply.value == calls[b].phase.reply.value && calls[a].hash == calls[b].hash
  {
    RunIsSafe(s, events);
    var startA, endA := AnswersComeFromTheRun(s, events, a);
    var startB, endB := AnswersComeFromTheRun(s, events, b);
    var log := Run(s, events).log;
    assert log[endA].Started? == log[endB].Started?;
    assert endA == endB;
    assert EntrySafe(Run(s, events), log[startA]) && EntrySafe(Run(s, events), log[startB]);
  }

  ghost predicate EndsHaveStarts(log: seq<Entry>) {
    forall j :: 0 <= j < |log| && log[j].Ended? ==> StartedBefore(log, j)
  }

  ghost predicate StartedBefore(log: seq<Entry>, j: nat)
    requires j < |log|
  {
    exists i :: 0 <= i < j && log[i].Started? && log[i].key == log[j].key && log[i].call == log[j].call
  }

  lemma {:induction false} RunKeepsStarts(s: State, events: seq<Event>)
    requires Safe(s) && EndsHaveStarts(s.log)
    ensures EndsHaveStarts(Run(s, events).log)
    decreases |events|
  {
    if events != [] {
      StepIsSafe(s, events[0]);
      StepKeepsStarts(s, events[0]);
      RunKeepsStarts(Step(s, events[0]), events[1..]);
    }
  }

  lemma {:induction false} StartedStays(log: seq<Entry>, entry: Entry, j: nat)
    requires j < |log| && StartedBefore(log, j)
    ensures StartedBefore(log + [entry], j)
  {
    var i :| 0 <= i < j && log[i].Started? && log[i].key == log[j].key && log[i].call == log[j].call;
    assert (log + [entry])[i] == log[i] && (log + [entry])[j] == log[j];
  }

  lemma {:induction false} EndFollowsStart(s: State, call: int, outcome: Outcome)
    requires Safe(s) && call in s.calls && s.calls[call].phase.Handling?
    ensures StartedBefore(s.log + [Ended(call, s.calls[call].key, outcome)], |s.log|)
  {
    var c, log' := s.calls[call], s.log + [Ended(call, s.calls[call].key, outcome)];
    assert CallSafe(s, call, c);
    var i :| 0 <= i < |s.log| && s.log[i] == Started(call, c.key, c.hash);
    assert log'[i] == s.log[i];
  }

  lemma {:induction false} StepLogs(s: State, e: Event)
    ensures
      || Step(s, e).log == s.log
      || (e.call in s.calls && s.calls[e.call].phase.Inserting? && Step(s, e).log == s.log + [Started(e.call, s.calls[e.call].key, s.calls[e.call].hash)])
      || (e.call in s.calls && s.calls[e.call].phase.Handling? && e.EndHandler?
          && Step(s, e).log == s.log + [Ended(e.call, s.calls[e.call].key, e.outcome)])
  {
  }

  lemma {:induction false} StepKeepsStarts(s: State, e: Event)
    requires Safe(s) && EndsHaveStarts(s.log)
    ensures EndsHaveStarts(Step(s, e).log)
  {
    StepLogs(s, e);
    var log' := Step(s, e).log;
    if log' != s.log {
      forall j | 0 <= j < |log'| && log'[j].Ended?
        ensures StartedBefore(log', j)
      {
        if j < |s.log| {
          StartedStays(s.log, log'[|s.log|], j);
        } else {
          EndFollowsStart(s, e.call, e.outcome);
        }
      }
    }
  }

  lemma {:induction false} EndHasStart(s: State, events: seq<Event>, end: nat) returns (start: nat)
    requires Initial(s) && end < |Run(s, events).log| && Run(s, events).log[end].Ended?
    ensures start < end && Run(s, events).log[start].Started?
    ensures Run(s, events).log[start].key == Run(s, events).log[end].key
    ensures Run(s, events).log[start].call == Run(s, events).log[end].call
  {
    RunKeepsStarts(s, events);
    var log := Run(s, events).log;
    assert StartedBefore(log, end);
    start :| 0 <= start < end && log[start].Started? && log[start].key == log[end].key && log[start].call == log[end].call;
  }

  lemma {:induction false} StartComesFirst(s: State, events: seq<Event>, i: nat, j: nat)
    requires Initial(s) && Safe(Run(s, events))
    requires i < j < |Run(s, events).log|
    requires Run(s, events).log[i].key == Run(s, events).log[j].key
    ensures Run(s, events).log[i].Started? && Run(s, events).log[j].Ended?
  {
    var log := Run(s, events).log;
    assert log[i].Started? != log[j].Started?;
    if log[i].Ended? {
      var k := EndHasStart(s, events, i);
    }
  }

  // ---------- Keys are used up for good ----------

  /** No call is between insert and last write for the key, and its row is settled. */
  ghost predicate Settled(s: State, key: Key) {
    && key in s.rows && s.rows[key].status != InProgress
    && forall call :: call in s.calls && s.calls[call].key == key ==> !Active(s.calls[call].phase)
  }

  lemma {:induction false} SettledRowStays(s: State, e: Event, key: Key)
    requires Settled(s, key)
    ensures key in Step(s, e).rows && Step(s, e).rows[key] == s.rows[key]
  {
    if e.call in s.calls && s.calls[e.call].key == key {
      assert !Active(s.calls[e.call].phase);
    }
  }

  lemma {:induction false} SettledStep(s: State, e: Event, key: Key)
    requires Settled(s, key)
    ensures Settled(Step(s, e), key)
  {
    SettledRowStays(s, e, key);
    var s' := Step(s, e);
    forall call | call in s'.calls && s'.calls[call].key == key
      ensures !Active(s'.calls[call].phase)
    {
      if call == e.call {
        if call in s.calls {
          assert !Active(s.calls[call].phase);
        }
      } else {
        assert s'.calls[call] == s.calls[call];
      }
    }
  }

  lemma {:induction false} SettledStays(s: State, events: seq<Event>, key: Key)
    requires Settled(s, key)
    ensures Settled(Run(s, events), key) && Run(s, events).rows[key] == s.rows[key]
    decreases |events|
  {
    if events != [] {
      SettledRowStays(s, events[0], key);
      SettledStep(s, events[0], key);
      SettledStays(Step(s, events[0]), events[1..], key);
    }
  }

  /** What a call that has not looked yet will be told, if it is told anything. */
  predicate Answers(r: Record, hash: Hash, reply: Reply) {
    if r.hash != hash then reply == Refused(DifferentRequest)
    else if r.status == Completed && r.payload.Some? && r.payload.value != "" then reply == Replayed(r.payload.value)
    else reply.Refused?
  }

  ghost predicate WillAnswer(s: State, key: Key, call: int)
    requires key in s.rows
  {
    call in s.calls && s.calls[call].key == key ==>
      match s.calls[call].phase
      case Done(reply) => Answers(s.rows[key], s.calls[call].hash, reply)
      case Inserting(_) => true
      case Conflicted => true
      case _ => false
  }

  lemma {:induction false} AnswerStep(s: State, e: Event, key: Key)
    requires Settled(s, key) && WillAnswer(s, key, e.call)
    ensures key in Step(s, e).rows && WillAnswer(Step(s, e), key, e.call)
  {
    SettledRowStays(s, e, key);
    if e.call in s.calls && s.calls[e.call].key == key {
      assert !Active(s.calls[e.call].phase);
      match s.calls[e.call].phase
      case Done(_) => assert Step(s, e) == s;
      case _ =>
    }
  }

  /** Once a record is settled, every later call with its key that finishes gets the stored value if
      the request is the same and the run completed, and an error otherwise: also after the record has
      expired, and whatever else happens meanwhile. */
  lemma {:induction false} LaterCallsReplay(s: State, events: seq<Event>, key: Key, call: int)
    requires Settled(s, key) && WillAnswer(s, key, call)
    ensures key in Run(s, events).rows && Run(s, events).rows[key] == s.rows[key]
    ensures WillAnswer(Run(s, events), key, call)
    decreases |events|
  {
    if events != [] {
      var e := events[0];
      SettledRowStays(s, e, key);
      SettledStep(s, e, key);
      if call == e.call {
        AnswerStep(s, e, key);
      } else {
        OtherCallsStay(s, e, call);
      }
      LaterCallsReplay(Step(s, e), events[1..], key, call);
    }
  }

  lemma {:induction false} OtherCallsStay(s: State, e: Event, call: int)
    requires call != e.call
    ensures call in Step(s, e).calls <==> call in s.calls
    ensures call in s.calls ==> Step(s, e).calls[call] == s.calls[call]
  {
  }

  /** A fresh answer settles its key with that value. */
  lemma {:induction false} FreshAnswerSettles(s: State, call: int)
    requires Safe(s) && call in s.calls && s.calls[call].phase.Storing?
    ensures var s', c := Step(s, Commit(call, Applied)), s.calls[call];
      && s'.calls[call].phase == Done(Fresh(c.phase.text))
      && Settled(s', c.key) && s'.rows[c.key].hash == c.hash
      && s'.rows[c.key].status == Completed && s'.rows[c.key].payload == Some(c.phase.text)
  {
    var c := s.calls[call];
    assert CallSafe(s, call, c);
    var i :| 0 <= i < |s.log| && s.log[i] == Started(call, c.key, c.hash);
    assert EntrySafe(s, s.log[i]);
    var s' := Step(s, Commit(call, Applied));
    forall other | other in s'.calls && s'.calls[other].key == c.key
      ensures !Active(s'.calls[other].phase)
    {
      if other != call {
        assert !BothActive(s.calls[other], c);
      }
    }
  }

  /** After a fresh answer every later call with that key that finishes is answered alike. */
  lemma {:induction false} RepeatIsAnsweredAlike(s: State, first: int, events: seq<Event>, call: int)
    requires Safe(s) && first in s.calls && s.calls[first].phase.Storing? && s.calls[first].phase.text != ""
    requires call !in s.calls
    requires var s' := Run(Step(s, Commit(first, Applied)), events);
      call in s'.calls && s'.calls[call].key == s.calls[first].key && s'.calls[call].phase.Done?
    ensures var c := Run(Step(s, Commit(first, Applied)), events).calls[call];
      c.phase.reply == if c.hash == s.calls[first].hash then Replayed(s.calls[first].phase.text) else Refused(DifferentRequest)
  {
    var c, s1 := s.calls[first], Step(s, Commit(first, Applied));
    FreshAnswerSettles(s, first);
    StepIsSafe(s, Commit(first, Applied));
    LaterCallsReplay(s1, events, c.key, call);
  }

  // ---------- One caller at a time ----------

  /** A whole call without interference or database failure: the rows, the reply, and whether the
      handler ran. */
  function Executed(rows: map<Key, Record>, key: Key, hash: Hash, now: int, ttl: Option<real>, outcome: Outcome): (map<Key, Record>, Reply, bool) {
    if key in rows && rows[key].expiresAt > now then (rows, AnswerExisting(rows[key], hash), false)
    else if key in rows then (rows, AnswerConflict(rows[key], hash), false)
    else if outcome.Returned? then
      (rows[key := Record(hash, Completed, Some(outcome.text), now + SafeTtl(ttl))], Fresh(outcome.text), true)
    else
      (rows[key := Record(hash, Failed, None, now + SafeTtl(ttl))], Refused(HandlerFailed), true)
  }

  /** What a whole call is told about a stored record: while it lives, each status has its own answer; once
      it has expired, anything but a completed value reads as still in progress. */
  predicate ToldOf(r: Record, hash: Hash, now: int, reply: Reply) {
    if r.hash != hash then reply == Refused(DifferentRequest)
    else if r.status == Completed && r.payload.Some? && r.payload.value != "" then reply == Replayed(r.payload.value)
    else if r.expiresAt <= now || r.status == InProgress then reply == Refused(StillInProgress)
    else if r.status == Failed then reply == Refused(PreviousFailed)
    else reply == Refused(Unavailable)
  }

  /** The handler runs exactly for a new key, which is then stored for good with its hash, its outcome and
      its time of expiry; a stored key is answered from its record and stays as it is. */
  lemma {:induction false} ExecutionAnswers(rows: map<Key, Record>, key: Key, hash: Hash, now: int, ttl: Option<real>, outcome: Outcome)
    ensures var (rows', reply, ran) := Executed(rows, key, hash, now, ttl, outcome);
      && (ran <==> key !in rows)
      && (key in rows ==> rows' == rows && ToldOf(rows[key], hash, now, reply))
      && (key !in rows && outcome.Returned? ==>
            reply == Fresh(outcome.text) && rows' == rows[key := Record(hash, Completed, Some(outcome.text), now + SafeTtl(ttl))])
      && (key !in rows && !outcome.Returned? ==>
            reply == Refused(HandlerFailed) && rows' == rows[key := Record(hash, Failed, None, now + SafeTtl(ttl))])
  {
  }

  /** What the steps do when a write fails: an insert that is not carried out, or not reported, reads the
      record back; a result that is not stored is an error, and so is a failure that is not. */
  lemma {:induction false} FailedWrites(s: State, call: int, result: WriteResult)
    requires call in s.calls && s.calls[call].key in s.rows
    ensures var c, row := s.calls[call], s.rows[s.calls[call].key];
      && (c.phase.Inserting? ==> Step(s, Insert(call, result)) == Progress(s, call, Conflicted))
      && (c.phase.Storing? && result.Rejected? ==> Step(s, Commit(call, result)) == Progress(s, call, Failing(DatabaseFailed)))
      && (c.phase.Storing? && result.Lost? ==>
            Step(s, Commit(call, result))
            == Progress(s.(rows := s.rows[c.key := row.(status := Completed, payload := Some(c.phase.text))]), call, Failing(DatabaseFailed)))
      && (c.phase.Failing? && result.Rejected? ==> Step(s, MarkFailed(call, result)) == Progress(s, call, Done(Refused(DatabaseFailed))))
      && (c.phase.Failing? && !result.Rejected? ==>
            Step(s, MarkFailed(call, result))
            == Progress(s.(rows := s.rows[c.key := row.(status := Failed)]), call, Done(Refused(if result.Applied? then c.phase.reason else DatabaseFailed))))
  {
  }

  /** Without a record, an insert that fails ends with the error of the database; one that is only not
      reported leaves a record in progress that nobody will complete. */
  lemma {:induction false} FailedInserts(s: State, call: int)
    requires call in s.calls && s.calls[call].phase.Inserting? && s.calls[call].key !in s.rows
    ensures var c := s.calls[call];
      && Step(Step(s, Insert(call, Rejected)), ReadConflict(call)) == Progress(s, call, Done(Refused(DatabaseFailed)))
      && Step(Step(s, Insert(call, Lost)), ReadConflict(call))
         == Progress(s.(rows := s.rows[c.key := Record(c.hash, InProgress, None, c.phase.expiresAt)]), call, Done(Refused(StillInProgress)))
  {
    var c := s.calls[call];
    var s1, s2 := Step(s, Insert(call, Rejected)), Step(s, Insert(call, Lost));
    assert s1 == Progress(s, call, Conflicted);
    assert s1.calls[call := c.(phase := Done(Refused(DatabaseFailed)))] == s.calls[call := c.(phase := Done(Refused(DatabaseFailed)))];
    assert s2.calls[call := c.(phase := Done(Refused(StillInProgress)))] == s.calls[call := c.(phase := Done(Refused(StillInProgress)))];
  }

  function CallEvents(call: int, key: Key, hash: Hash, now: int, ttl: Option<real>, outcome: Outcome): seq<Event> {
    [Look(call, key, hash, now, ttl), Insert(call, Applied), ReadConflict(call), EndHandler(call, outcome),
     Commit(call, Applied), MarkFailed(call, Applied)]
  }

  predicate AllOf(events: seq<Event>, call: int) {
    forall i :: 0 <= i < |events| ==> events[i].call == call
  }

  /** A finished call ignores its remaining steps. */
  lemma {:induction false} DoneStays(s: State, call: int, events: seq<Event>)
    requires call in s.calls && s.calls[call].phase.Done? && AllOf(events, call)
    ensures Run(s, events) == s
    decreases |events|
  {
    if events != [] {
      DoneStays(s, call, events[1..]);
    }
  }

  lemma {:induction false} RunStep(s: State, events: seq<Event>, i: nat)
    requires i < |events|
    ensures Run(s, events[i..]) == Run(Step(s, events[i]), events[i + 1..])
  {
    assert events[i..][1..] == events[i + 1..];
  }

  lemma {:induction false} HandlerPart(s: State, call: int, key: Key, hash: Hash, now: int, ttl: Option<real>, outcome: Outcome)
    requires call in s.calls && s.calls[call] == Call(key, hash, Handling)
    requires key in s.rows && s.rows[key] == Record(hash, InProgress, None, now + SafeTtl(ttl))
    ensures var s', reply := Run(s, CallEvents(call, key, hash, now, ttl, outcome)[2..]),
        if outcome.Returned? then Fresh(outcome.text) else Refused(HandlerFailed);
      && s'.calls == s.calls[call := Call(key, hash, Done(reply))] && s'.log == s.log + [Ended(call, key, outcome)]
      && s'.rows == if outcome.Returned?
                    then s.rows[key := Record(hash, Completed, Some(outcome.text), now + SafeTtl(ttl))]
                    else s.rows[key := Record(hash, Failed, None, now + SafeTtl(ttl))]
  {
    var events := CallEvents(call, key, hash, now, ttl, outcome);
    RunStep(s, events, 2);
    RunStep(s, events, 3);
    var s4 := Step(s, events[3]);
    RunStep(s4, events, 4);
    var s5 := Step(s4, events[4]);
    RunStep(s5, events, 5);
    assert events[6..] == [];
  }

  ghost predicate Sequential(s: State, s': State, call: int, key: Key, hash: Hash, now: int, ttl: Option<real>, outcome: Outcome) {
    var (rows, reply, ran) := Executed(s.rows, key, hash, now, ttl, outcome);
    && s'.rows == rows && s'.calls == s.calls[call := Call(key, hash, Done(reply))]
    && s'.log == if ran then s.log + [Started(call, key, hash)] + [Ended(call, key, outcome)] else s.log
  }

  lemma {:induction false} KnownKeyPart(s: State, call: int, key: Key, hash: Hash, now: int, ttl: Option<real>, outcome: Outcome)
    requires call !in s.calls && key in s.rows
    ensures var events := CallEvents(call, key, hash, now, ttl, outcome);
      Sequential(s, Run(Step(s, events[0]), events[1..]), call, key, hash, now, ttl, outcome)
  {
    var events := CallEvents(call, key, hash, now, ttl, outcome);
    var s1 := Step(s, events[0]);
    if s.rows[key].expiresAt > now {
      DoneStays(s1, call, events[1..]);
    } else {
      RunStep(s1, events, 1);
      var s2 := Step(s1, events[1]);
      RunStep(s2, events, 2);
      DoneStays(Step(s2, events[2]), call, events[3..]);
    }
  }

  lemma {:induction false} NewKeyPart(s: State, call: int, key: Key, hash: Hash, now: int, ttl: Option<real>, outcome: Outcome)
    requires call !in s.calls && key !in s.rows
    ensures var events := CallEvents(call, key, hash, now, ttl, outcome);
      Sequential(s, Run(Step(s, events[0]), events[1..]), call, key, hash, now, ttl, outcome)
  {
    var events := CallEvents(call, key, hash, now, ttl, outcome);
    var s1 := Step(s, events[0]);
    RunStep(s1, events, 1);
    var s2 := Step(s1, events[1]);
    HandlerPart(s2, call, key, hash, now, ttl, outcome);
    assert s2.rows == s.rows[key := Record(hash, InProgress, None, now + SafeTtl(ttl))];
    assert s2.calls == s.calls[call := Call(key, hash, Handling)];
  }

  /** The sequential reading of a call is one of the interleavings. */
  lemma {:induction false} ExecutionIsOneInterleaving(s: State, call: int, key: Key, hash: Hash, now: int, ttl: Option<real>, outcome: Outcome)
    requires call !in s.calls
    ensures Sequential(s, Run(s, CallEvents(call, key, hash, now, ttl, outcome)), call, key, hash, now, ttl, outcome)
  {
    var events := CallEvents(call, key, hash, now, ttl, outcome);
    assert Run(s, events) == Run(Step(s, events[0]), events[1..]);
    if key in s.rows {
      KnownKeyPart(s, call, key, hash, now, ttl, outcome);
    } else {
      NewKeyPart(s, call, key, hash, now, ttl, outcome);
    }
  }

  class RecordTable {
    var rows: map<Key, Record>

    method ExecuteIdempotent(key: Key, hash: Hash, now: int, ttl: Option<real>, outcome: Outcome) returns (reply: Reply, ran: bool)
      modifies this
      ensures (rows, reply, ran) == Executed(old(rows), key, hash, now, ttl, outcome)
    {
      ran := false;
      if key in rows && rows[key].expiresAt > now {
        return AnswerExisting(rows[key], hash), false;
      }
      if key in rows {
        return AnswerConflict(rows[key], hash), false;
      }
      ghost var before := rows;
      rows := rows[key := Record(hash, InProgress, None, now + SafeTtl(ttl))];
      ran := true;
      match outcome {
        case Returned(text) =>
          rows := rows[key := rows[key].(status := Completed, payload := Some(text))];
          assert rows == before[key := rows[key]];
          reply := Fresh(text);
        case _ =>
          rows := rows[key := rows[key].(status := Failed)];
          assert rows == before[key := rows[key]];
          reply := Refused(HandlerFailed);
      }
    }
  }
}
