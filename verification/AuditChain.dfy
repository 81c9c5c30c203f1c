/** The audit log of governance events. Three kinds of writers insert into one table: the governance
    appends, the control plane with a chain of its own, and writers that do not chain at all. */
module AuditChain {
  import opened Collections

  type Hash = string

  /** What is hashed for a chain entry: two different JSON layouts. */
  datatype Payload =
    | Link(previous: Option<Hash>, workspaceId: int, category: string, subject: string, evidenceHash: Hash)
    | ControlPlaneLink(previousHash: Hash, workspaceId: int, category: string, subject: string, evidenceHash: Hash,
                       details: string, createdAt: int)

  datatype Row = Row(id: int, workspaceId: int, category: string, subject: string, evidenceHash: Hash,
                     previousEntryHash: Option<Hash>, chainHash: Option<Hash>, details: string)

  type Digest = Payload -> Hash

  ghost predicate Injective(digest: Digest) {
    forall p, q :: digest(p) == digest(q) ==> p == q
  }

  const GENESIS: Hash := "genesis"

  /** The rows of a workspace in the order of their ids, which is insertion order. */
  function OfWorkspace(table: seq<Row>, workspaceId: int): (rows: seq<Row>)
    ensures forall row :: row in rows <==> row in table && row.workspaceId == workspaceId
  {
    if table == [] then []
    else
      var n := |table| - 1;
      var front := OfWorkspace(table[..n], workspaceId);
      if table[n].workspaceId == workspaceId then front + [table[n]] else front
  }

  /** The chain hash of the newest row, if there is one and it is chained. */
  function LastHash(rows: seq<Row>): Option<Hash> {
    if rows == [] then None else rows[|rows| - 1].chainHash
  }

  datatype Write =
    | Governance(workspaceId: int, category: string, subject: string, details: string)
    | ControlPlane(workspaceId: int, category: string, subject: string, evidenceHash: Hash, details: string, createdAt: int)
    | Plain(workspaceId: int, category: string, subject: string, evidenceHash: Hash, details: string)

  /** The row that a governance append inserts after reading `previous`. */
  function GovernanceRow(digest: Digest, evidence: string -> Hash, w: Write, id: int, previous: Option<Hash>): Row
    requires w.Governance?
  {
    var evidenceHash := evidence(w.details);
    Row(id, w.workspaceId, w.category, w.subject, evidenceHash, previous,
        Some(digest(Link(previous, w.workspaceId, w.category, w.subject, evidenceHash))), w.details)
  }

  /** The row that a writer inserts after reading `previous`. */
  function EntryFrom(digest: Digest, evidence: string -> Hash, w: Write, id: int, previous: Option<Hash>): Row {
    match w
    case Governance(_, _, _, _) => GovernanceRow(digest, evidence, w, id, previous)
    case ControlPlane(workspaceId, category, subject, evidenceHash, details, createdAt) =>
      var previousHash := if previous.Some? then previous.value else GENESIS;
      Row(id, workspaceId, category, subject, evidenceHash, if previousHash == GENESIS then None else Some(previousHash),
          Some(digest(ControlPlaneLink(previousHash, workspaceId, category, subject, evidenceHash, details, createdAt))), details)
    case Plain(workspaceId, category, subject, evidenceHash, details) =>
      Row(id, workspaceId, category, subject, evidenceHash, None, None, details)
  }

  function Inserted(digest: Digest, evidence: string -> Hash, table: seq<Row>, w: Write): Row {
    EntryFrom(digest, evidence, w, |table|, LastHash(OfWorkspace(table, w.workspaceId)))
  }

  function After(digest: Digest, evidence: string -> Hash, table: seq<Row>, writes: seq<Write>): seq<Row> {
    if writes == [] then table
    else
      var n := |writes| - 1;
      var before := After(digest, evidence, table, writes[..n]);
      before + [Inserted(digest, evidence, before, writes[n])]
  }

  /** The chain hash that a writer of the workspace reads: that of its newest row, and none without rows or if
      that row is not chained. */
  ghost predicate IsLastHash(table: seq<Row>, workspaceId: int, previous: Option<Hash>) {
    if exists k :: 0 <= k < |table| && table[k].workspaceId == workspaceId then
      exists k :: 0 <= k < |table| && table[k].workspaceId == workspaceId && table[k].chainHash == previous
                  && forall j :: k < j < |table| ==> table[j].workspaceId != workspaceId
    else previous == None
  }

  /** The last of the workspace's rows is its newest one in the table. */
  lemma {:induction false} NewestRow(table: seq<Row>, workspaceId: int) returns (k: nat)
    requires OfWorkspace(table, workspaceId) != []
    ensures var rows := OfWorkspace(table, workspaceId);
      k < |table| && table[k].workspaceId == workspaceId && table[k] == rows[|rows| - 1]
    ensures forall j :: k < j < |table| ==> table[j].workspaceId != workspaceId
  {
    var n := |table| - 1;
    if table[n].workspaceId == workspaceId {
      k := n;
    } else {
      k := NewestRow(table[..n], workspaceId);
    }
  }

  lemma {:induction false} NoRowsIff(table: seq<Row>, workspaceId: int)
    ensures OfWorkspace(table, workspaceId) == [] <==> forall k :: 0 <= k < |table| ==> table[k].workspaceId != workspaceId
  {
    if table != [] {
      var n := |table| - 1;
      NoRowsIff(table[..n], workspaceId);
      assert forall k :: 0 <= k < n ==> table[..n][k] == table[k];
    }
  }

  lemma {:induction false} LastHashIsLast(table: seq<Row>, workspaceId: int)
    ensures IsLastHash(table, workspaceId, LastHash(OfWorkspace(table, workspaceId)))
  {
    NoRowsIff(table, workspaceId);
    if OfWorkspace(table, workspaceId) != [] {
      var k := NewestRow(table, workspaceId);
      assert table[k].chainHash == LastHash(OfWorkspace(table, workspaceId));
    }
  }

  /** Every write adds one row at the end. A governance append stores the hash it read, the hash of its
      details, and the digest of both with workspace, category and subject; the control plane digests
      another layout and takes "genesis" for a missing hash; the other writers do not chain. */
  lemma {:induction false} WriteAppends(digest: Digest, evidence: string -> Hash, table: seq<Row>, w: Write) returns (previous: Option<Hash>)
    ensures IsLastHash(table, w.workspaceId, previous)
    ensures var id := |table|;
      After(digest, evidence, table, [w]) == table + [
        match w
        case Governance(workspaceId, category, subject, details) =>
          Row(id, workspaceId, category, subject, evidence(details), previous,
              Some(digest(Link(previous, workspaceId, category, subject, evidence(details)))), details)
        case ControlPlane(workspaceId, category, subject, evidenceHash, details, createdAt) =>
          var previousHash := if previous.Some? then previous.value else "genesis";
          Row(id, workspaceId, category, subject, evidenceHash, if previous == Some("genesis") then None else previous,
              Some(digest(ControlPlaneLink(previousHash, workspaceId, category, subject, evidenceHash, details, createdAt))), details)
        case Plain(workspaceId, category, subject, evidenceHash, details) =>
          Row(id, workspaceId, category, subject, evidenceHash, None, None, details)]
  {
    previous := LastHash(OfWorkspace(table, w.workspaceId));
    LastHashIsLast(table, w.workspaceId);
    assert [w][..0] == [] && After(digest, evidence, table, []) == table;
  }

  /** Row `i` continues the chain of the rows before it. */
  predicate Linked(digest: Digest, rows: seq<Row>, i: nat)
    requires i < |rows|
  {
    var r, previous := rows[i], LastHash(rows[..i]);
    && r.previousEntryHash == previous
    && r.chainHash == Some(digest(Link(previous, r.workspaceId, r.category, r.subject, r.evidenceHash)))
  }

  predicate Valid(digest: Digest, rows: seq<Row>) {
    forall i :: 0 <= i < |rows| ==> Linked(digest, rows, i)
  }

  /** Row `i` with the id is the first that does not continue the chain. */
  predicate BreaksAt(digest: Digest, rows: seq<Row>, i: nat, id: int)
    requires i < |rows|
  {
    rows[i].id == id && !Linked(digest, rows, i) && forall j :: 0 <= j < i ==> Linked(digest, rows, j)
  }

  class AuditLog {
    var table: seq<Row>
    const digest: Digest
    const evidence: string -> Hash

    constructor (digest: Digest, evidence: string -> Hash)
      ensures table == [] && this.digest == digest && this.evidence == evidence
    {
      table := [];
      this.digest := digest;
      this.evidence := evidence;
    }

    method AppendAuditEvent(workspaceId: int, category: string, subject: string, details: string) returns (chainHash: Hash, evidenceHash: Hash)
      modifies this
      ensures table == After(digest, evidence, old(table), [Governance(workspaceId, category, subject, details)])
      ensures |table| > 0 && table[|table| - 1].chainHash == Some(chainHash) && table[|table| - 1].evidenceHash == evidenceHash
    {
      var previous := LastHash(OfWorkspace(table, workspaceId));
      evidenceHash := evidence(details);
      chainHash := digest(Link(previous, workspaceId, category, subject, evidenceHash));
      ghost var w := Governance(workspaceId, category, subject, details);
      assert [w][..0] == [] && After(digest, evidence, table, []) == table;
      table := table + [Row(|table|, workspaceId, category, subject, evidenceHash, previous, Some(chainHash), details)];
    }

    /** The append that follows the update of an escalated approval. */
    method RecordEscalation(workspaceId: int, details: string)
      modifies this
      ensures table == After(digest, evidence, old(table), [Governance(workspaceId, "governance", "approval-escalated", details)])
    {
      var _, _ := AppendAuditEvent(workspaceId, "governance", "approval-escalated", details);
    }

    /** Walks the chain and reports the first row that does not continue it. */
    method VerifyAuditIntegrity(workspaceId: int) returns (valid: bool, checked: nat, brokenAt: Option<int>)
      ensures checked == |OfWorkspace(table, workspaceId)|
      ensures valid <==> Valid(digest, OfWorkspace(table, workspaceId))
      ensures valid <==> brokenAt.None?
      ensures !valid ==> exists i :: 0 <= i < checked && BreaksAt(digest, OfWorkspace(table, workspaceId), i, brokenAt.value)
    {
      var rows := OfWorkspace(table, workspaceId);
      var previous: Option<Hash> := None;
      for i := 0 to |rows|
        invariant previous == LastHash(rows[..i])
        invariant forall j :: 0 <= j < i ==> Linked(digest, rows, j)
      {
        var row := rows[i];
        if row.previousEntryHash != previous {
          assert BreaksAt(digest, rows, i, row.id);
          return false, |rows|, Some(row.id);
        }
        var expected := digest(Link(previous, workspaceId, row.category, row.subject, row.evidenceHash));
        if row.chainHash != Some(expected) {
          assert BreaksAt(digest, rows, i, row.id);
          return false, |rows|, Some(row.id);
        }
        previous := row.chainHash;
        assert rows[..i + 1][i] == rows[i];
      }
      return true, |rows|, None;
    }
  }

  // ---------- Which logs verify ----------

  lemma {:induction false} OfWorkspaceAppend(table: seq<Row>, r: Row, workspaceId: int)
    ensures OfWorkspace(table + [r], workspaceId)
      == if r.workspaceId == workspaceId then OfWorkspace(table, workspaceId) + [r] else OfWorkspace(table, workspaceId)
  {
    assert (table + [r])[..|table|] == table;
  }

  lemma {:induction false} LinkedInFront(digest: Digest, rows: seq<Row>, r: Row, i: nat)
    requires i < |rows|
    ensures Linked(digest, rows + [r], i) <==> Linked(digest, rows, i)
  {
    assert (rows + [r])[..i] == rows[..i];
  }

  lemma {:induction false} ValidAppend(digest: Digest, rows: seq<Row>, r: Row)
    ensures Valid(digest, rows + [r]) <==> Valid(digest, rows) && Linked(digest, rows + [r], |rows|)
  {
    forall i | 0 <= i < |rows|
      ensures Linked(digest, rows + [r], i) <==> Linked(digest, rows, i)
    {
      LinkedInFront(digest, rows, r, i);
    }
  }

  lemma {:induction false} EntryIsLinked(digest: Digest, evidence: string -> Hash, rows: seq<Row>, w: Write, id: int, previous: Option<Hash>)
    requires Injective(digest)
    ensures Linked(digest, rows + [EntryFrom(digest, evidence, w, id, previous)], |rows|) <==> w.Governance? && previous == LastHash(rows)
  {
    var r := EntryFrom(digest, evidence, w, id, previous);
    assert (rows + [r])[..|rows|] == rows && (rows + [r])[|rows|] == r;
    if w.ControlPlane? {
      var previousHash := if previous.Some? then previous.value else GENESIS;
      var own := ControlPlaneLink(previousHash, w.workspaceId, w.category, w.subject, w.evidenceHash, w.details, w.createdAt);
      var expected := Link(LastHash(rows), w.workspaceId, w.category, w.subject, w.evidenceHash);
      assert own != expected && r.chainHash == Some(digest(own));
      assert digest(own) != digest(expected);
    }
  }

  lemma {:induction false} WriteVerifiesIff(digest: Digest, evidence: string -> Hash, table: seq<Row>, w: Write, workspaceId: int)
    requires Injective(digest)
    ensures Valid(digest, OfWorkspace(table + [Inserted(digest, evidence, table, w)], workspaceId))
      <==> Valid(digest, OfWorkspace(table, workspaceId)) && (w.workspaceId == workspaceId ==> w.Governance?)
  {
    var r, rows := Inserted(digest, evidence, table, w), OfWorkspace(table, workspaceId);
    OfWorkspaceAppend(table, r, workspaceId);
    if w.workspaceId == workspaceId {
      EntryIsLinked(digest, evidence, rows, w, |table|, LastHash(rows));
      ValidAppend(digest, rows, r);
    }
  }

  predicate OnlyGovernance(writes: seq<Write>, workspaceId: int) {
    forall i :: 0 <= i < |writes| && writes[i].workspaceId == workspaceId ==> writes[i].Governance?
  }

  lemma {:induction false} OnlyGovernanceSplits(writes: seq<Write>, workspaceId: int, n: nat)
    requires |writes| == n + 1
    ensures OnlyGovernance(writes, workspaceId)
      <==> OnlyGovernance(writes[..n], workspaceId) && (writes[n].workspaceId == workspaceId ==> writes[n].Governance?)
  {
    assert forall i :: 0 <= i < n ==> writes[..n][i] == writes[i];
  }

  /** Serialized appends give a log that verifies, and one single entry of the workspace by any other
      writer makes it fail for good. */
  lemma {:induction false} LogVerifiesIff(digest: Digest, evidence: string -> Hash, writes: seq<Write>, workspaceId: int)
    requires Injective(digest)
    ensures Valid(digest, OfWorkspace(After(digest, evidence, [], writes), workspaceId)) <==> OnlyGovernance(writes, workspaceId)
  {
    if writes != [] {
      var n := |writes| - 1;
      LogVerifiesIff(digest, evidence, writes[..n], workspaceId);
      WriteVerifiesIff(digest, evidence, After(digest, evidence, [], writes[..n]), writes[n], workspaceId);
      OnlyGovernanceSplits(writes, workspaceId, n);
    }
  }

  // ---------- What a verifying log pins down ----------

  predicate SameEntry(r: Row, s: Row) {
    && r.category == s.category && r.subject == s.subject && r.evidenceHash == s.evidenceHash
    && r.previousEntryHash == s.previousEntryHash && r.chainHash == s.chainHash
  }

  predicate SameEntries(a: seq<Row>, b: seq<Row>) {
    |a| == |b| && forall i :: 0 <= i < |a| ==> SameEntry(a[i], b[i])
  }

  /** Cutting entries off the end is not noticed without the final hash. */
  lemma {:induction false} TruncationVerifies(digest: Digest, rows: seq<Row>, n: nat)
    requires Valid(digest, rows) && n <= |rows|
    ensures Valid(digest, rows[..n])
  {
    forall i | 0 <= i < n
      ensures Linked(digest, rows[..n], i)
    {
      assert rows[..n][..i] == rows[..i] && Linked(digest, rows, i);
    }
  }

  /** For a digest without collisions, two verifying logs of a workspace with the same final chain hash
      have the same entries. So an edit, a reordering, an insertion or a deletion before the end makes
      either the final hash or the verification differ. */
  lemma {:induction false} FinalHashPinsEntries(digest: Digest, a: seq<Row>, b: seq<Row>)
    requires Injective(digest) && Valid(digest, a) && Valid(digest, b) && LastHash(a) == LastHash(b)
    ensures SameEntries(a, b)
    decreases |a|
  {
    var m, n := |a| - 1, |b| - 1;
    if a == [] || b == [] {
      assert a != [] ==> Linked(digest, a, m);
      assert b != [] ==> Linked(digest, b, n);
    } else {
      assert Linked(digest, a, m) && Linked(digest, b, n);
      TruncationVerifies(digest, a, m);
      TruncationVerifies(digest, b, n);
      FinalHashPinsEntries(digest, a[..m], b[..n]);
      forall i | 0 <= i < |a|
        ensures SameEntry(a[i], b[i])
      {
        if i < m {
          assert SameEntry(a[..m][i], b[..n][i]);
        }
      }
    }
  }

  /** A change of the stored details text is not noticed either: the chain covers only the evidence hash. */
  lemma {:induction false} DetailsAreNotCovered(digest: Digest, rows: seq<Row>, i: nat, details: string)
    requires i < |rows|
    ensures Valid(digest, rows[i := rows[i].(details := details)]) <==> Valid(digest, rows)
  {
    var edited := rows[i := rows[i].(details := details)];
    forall j | 0 <= j < |rows|
      ensures Linked(digest, edited, j) <==> Linked(digest, rows, j)
    {
      assert j > 0 ==> edited[..j][j - 1].chainHash == rows[..j][j - 1].chainHash;
    }
  }

  /** Two appends that both read before either inserts leave a log that verifies only if the digest
      maps the first entry to the very hash it continues. */
  lemma {:induction false} RacingAppendsFork(digest: Digest, evidence: string -> Hash, rows: seq<Row>, first: Write, second: Write)
    requires first.Governance? && second.Governance? && first.workspaceId == second.workspaceId
    requires Valid(digest, rows)
    ensures var r := GovernanceRow(digest, evidence, first, |rows|, LastHash(rows));
      var s := GovernanceRow(digest, evidence, second, |rows| + 1, LastHash(rows));
      Valid(digest, rows + [r] + [s]) <==> r.chainHash == LastHash(rows)
  {
    var r := GovernanceRow(digest, evidence, first, |rows|, LastHash(rows));
    var s := GovernanceRow(digest, evidence, second, |rows| + 1, LastHash(rows));
    ValidAppend(digest, rows, r);
    ValidAppend(digest, rows + [r], s);
    assert (rows + [r])[..|rows|] == rows;
    assert (rows + [r] + [s])[..|rows| + 1] == rows + [r];
  }

  // ---------- Any number of racing writers ----------

  /** A writer between its read and its insert. `seen` is the number of entries of the workspace that
      there were when it read. */
  datatype Append = Append(write: Write, previous: Option<Hash>, seen: nat)

  datatype LogState = LogState(table: seq<Row>, appends: map<int, Append>)

  datatype LogEvent = ReadLast(call: int, write: Write) | InsertEntry(call: int)

  function LogStep(digest: Digest, evidence: string -> Hash, s: LogState, e: LogEvent): LogState {
    match e
    case ReadLast(call, w) =>
      var rows := OfWorkspace(s.table, w.workspaceId);
      if call in s.appends then s else s.(appends := s.appends[call := Append(w, LastHash(rows), |rows|)])
    case InsertEntry(call) =>
      if call !in s.appends then s
      else LogState(s.table + [EntryFrom(digest, evidence, s.appends[call].write, |s.table|, s.appends[call].previous)], s.appends - {call})
  }

  function LogRun(digest: Digest, evidence: string -> Hash, s: LogState, events: seq<LogEvent>): LogState
    decreases |events|
  {
    if events == [] then s else LogRun(digest, evidence, LogStep(digest, evidence, s, events[0]), events[1..])
  }

  /** The step inserts an entry of the workspace. */
  predicate InsertsInto(s: LogState, e: LogEvent, workspaceId: int) {
    e.InsertEntry? && e.call in s.appends && s.appends[e.call].write.workspaceId == workspaceId
  }

  /** An entry that the step inserts is a governance append, and no entry of the workspace was inserted
      since its writer read. */
  predicate InTurn(s: LogState, e: LogEvent, workspaceId: int) {
    InsertsInto(s, e, workspaceId) ==>
      s.appends[e.call].write.Governance? && s.appends[e.call].seen == |OfWorkspace(s.table, workspaceId)|
  }

  predicate AllInTurn(digest: Digest, evidence: string -> Hash, s: LogState, events: seq<LogEvent>, workspaceId: int)
    decreases |events|
  {
    events == []
    || (InTurn(s, events[0], workspaceId) && AllInTurn(digest, evidence, LogStep(digest, evidence, s, events[0]), events[1..], workspaceId))
  }

  /** What a writer read is the end of what was there then. */
  predicate ReadFrom(rows: seq<Row>, a: Append) {
    a.seen <= |rows| && a.previous == LastHash(rows[..a.seen])
  }

  ghost predicate LogSound(s: LogState) {
    forall call :: call in s.appends ==> ReadFrom(OfWorkspace(s.table, s.appends[call].write.workspaceId), s.appends[call])
  }

  lemma {:induction false} EntryKeepsSound(digest: Digest, evidence: string -> Hash, s: LogState, e: LogEvent)
    requires LogSound(s) && e.InsertEntry? && e.call in s.appends
    ensures LogSound(LogStep(digest, evidence, s, e))
  {
    var s' := LogStep(digest, evidence, s, e);
    forall call | call in s'.appends
      ensures ReadFrom(OfWorkspace(s'.table, s'.appends[call].write.workspaceId), s'.appends[call])
    {
      var a := s.appends[call];
      var rows := OfWorkspace(s.table, a.write.workspaceId);
      OfWorkspaceAppend(s.table, s'.table[|s.table|], a.write.workspaceId);
      assert ReadFrom(rows, a);
      assert (rows + [s'.table[|s.table|]])[..a.seen] == rows[..a.seen];
    }
  }

  lemma {:induction false} LogStepIsSound(digest: Digest, evidence: string -> Hash, s: LogState, e: LogEvent)
    requires LogSound(s)
    ensures LogSound(LogStep(digest, evidence, s, e))
  {
    if e.InsertEntry? && e.call in s.appends {
      EntryKeepsSound(digest, evidence, s, e);
    } else if e.ReadLast? {
      var rows := OfWorkspace(s.table, e.write.workspaceId);
      assert rows[..|rows|] == rows;
    }
  }

  /** In a verifying log no hash comes back, so a hash that is still the last one was the last one all
      along. */
  lemma {:induction false} HashIsLastIff(digest: Digest, rows: seq<Row>, a: Append)
    requires Injective(digest) && Valid(digest, rows) && ReadFrom(rows, a)
    ensures a.previous == LastHash(rows) <==> a.seen == |rows|
  {
    assert rows[..|rows|] == rows;
    if a.previous == LastHash(rows) {
      TruncationVerifies(digest, rows, a.seen);
      FinalHashPinsEntries(digest, rows[..a.seen], rows);
    }
  }

  /** A step leaves a verifying log verifying exactly if what it inserts into it is in turn. */
  lemma {:induction false} LogStepVerifiesIff(digest: Digest, evidence: string -> Hash, s: LogState, e: LogEvent, workspaceId: int)
    requires Injective(digest) && LogSound(s) && Valid(digest, OfWorkspace(s.table, workspaceId))
    ensures Valid(digest, OfWorkspace(LogStep(digest, evidence, s, e).table, workspaceId)) <==> InTurn(s, e, workspaceId)
  {
    if e.InsertEntry? && e.call in s.appends {
      var a, rows := s.appends[e.call], OfWorkspace(s.table, workspaceId);
      var r := EntryFrom(digest, evidence, a.write, |s.table|, a.previous);
      OfWorkspaceAppend(s.table, r, workspaceId);
      if a.write.workspaceId == workspaceId {
        assert ReadFrom(rows, a);
        EntryIsLinked(digest, evidence, rows, a.write, |s.table|, a.previous);
        ValidAppend(digest, rows, r);
        HashIsLastIff(digest, rows, a);
      }
    }
  }

  lemma {:induction false} BrokenStays(digest: Digest, evidence: string -> Hash, s: LogState, events: seq<LogEvent>, workspaceId: int)
    requires !Valid(digest, OfWorkspace(s.table, workspaceId))
    ensures !Valid(digest, OfWorkspace(LogRun(digest, evidence, s, events).table, workspaceId))
    decreases |events|
  {
    if events != [] {
      var e := events[0];
      if e.InsertEntry? && e.call in s.appends {
        var r := EntryFrom(digest, evidence, s.appends[e.call].write, |s.table|, s.appends[e.call].previous);
        OfWorkspaceAppend(s.table, r, workspaceId);
        ValidAppend(digest, OfWorkspace(s.table, workspaceId), r);
      }
      BrokenStays(digest, evidence, LogStep(digest, evidence, s, e), events[1..], workspaceId);
    }
  }

  /** Over every interleaving of the reads and inserts of any number of writers, the log of a workspace
      still verifies if and only if only governance appends went into it, each before any other entry
      that followed its read. */
  lemma {:induction false} RacingLogVerifiesIff(digest: Digest, evidence: string -> Hash, s: LogState, events: seq<LogEvent>, workspaceId: int)
    requires Injective(digest) && LogSound(s) && Valid(digest, OfWorkspace(s.table, workspaceId))
    ensures Valid(digest, OfWorkspace(LogRun(digest, evidence, s, events).table, workspaceId))
      <==> AllInTurn(digest, evidence, s, events, workspaceId)
    decreases |events|
  {
    if events != [] {
      var s1 := LogStep(digest, evidence, s, events[0]);
      LogStepVerifiesIff(digest, evidence, s, events[0], workspaceId);
      if InTurn(s, events[0], workspaceId) {
        LogStepIsSound(digest, evidence, s, events[0]);
        RacingLogVerifiesIff(digest, evidence, s1, events[1..], workspaceId);
      } else {
        BrokenStays(digest, evidence, s1, events[1..], workspaceId);
      }
    }
  }

  /** A write without interference is its two steps. */
  lemma {:induction false} WriteIsTwoSteps(digest: Digest, evidence: string -> Hash, s: LogState, call: int, w: Write)
    requires call !in s.appends
    ensures LogStep(digest, evidence, LogStep(digest, evidence, s, ReadLast(call, w)), InsertEntry(call))
      == LogState(After(digest, evidence, s.table, [w]), s.appends)
  {
    assert [w][..0] == [] && After(digest, evidence, s.table, []) == s.table;
    var read := LogStep(digest, evidence, s, ReadLast(call, w));
    assert read.appends - {call} == s.appends;
  }
}
