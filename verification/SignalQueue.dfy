/**
 * The durable receive queue: envelopes are stored before they are acknowledged, and a drain turns
 * each stored envelope into one transaction. Incoming callbacks run whenever a decryption is awaited.
 */
module SignalQueue {
  import opened Wrappers
  import opened SignalText

  datatype Row = Row(account: string, id: string, envelope: Data, timestamp: int)

  /** The tables: queue in row order, seen ids by account, messages, and each account's saved state. */
  datatype Db = Db(queue: seq<Row>, seen: set<(string, string)>, messages: Messages, state: map<string, Account>)

  ghost predicate Queued(queue: seq<Row>, account: string, id: string) {
    exists i :: 0 <= i < |queue| && queue[i].account == account && queue[i].id == id
  }

  function IsQueued(queue: seq<Row>, account: string, id: string): (b: bool)
    ensures b <==> Queued(queue, account, id)
  {
    exists r | r in queue :: r.account == account && r.id == id
  }

  function Without(queue: seq<Row>, account: string, id: string): (r: seq<Row>)
    ensures forall x :: x in r <==> x in queue && !(x.account == account && x.id == id)
  {
    if queue == [] then []
    else
      (if queue[0].account == account && queue[0].id == id then [] else [queue[0]])
      + Without(queue[1..], account, id)
  }

  function RowsOf(queue: seq<Row>, account: string): (r: seq<Row>)
    ensures forall x :: x in r <==> x in queue && x.account == account
  {
    if queue == [] then []
    else (if queue[0].account == account then [queue[0]] else []) + RowsOf(queue[1..], account)
  }

  // --- steps -----------------------------------------------------------------------------

  /** Where an incoming callback may raise. */
  datatype Fault = NoFault | BadEnvelope | DbRaises | AckRaises

  datatype Incoming = Incoming(id: string, envelope: Data, timestamp: int, fault: Fault)

  /** What decrypting an envelope yields; the `decrypt` of a row's end says so of any envelope. */
  datatype Outcome = Raises | Nothing | Yields(decoded: Decoded)

  /** Where the transaction of a row may raise: not at all, before any text is ingested, or after. */
  datatype TxFault = Commits | RaisesEarly | RaisesLate

  /** A drain between rows, or waiting for one row's decryption with the account as it was before it. */
  datatype Pc = Idle | Ready(rows: seq<Row>) | Decrypting(row: Row, rest: seq<Row>, snapshot: Account)

  /**
   * The whole system. `acked` and `commits` keep account of which envelopes were acknowledged and
   * which had their effects committed; `decoded` and `failures` are the running drain's results.
   */
  datatype Sys = Sys(
    db: Db, account: Account, count: nat, error: bool, pc: Pc,
    decoded: nat, failures: seq<string>, acked: set<string>, commits: seq<string>)

  datatype Event =
    | Arrives(incoming: Incoming)
    | StartDrain
    | BeginRow
    | Ratchets(keys: Data)
    | EndRow(decrypt: Data -> Outcome, tx: TxFault)
    | EndDrain

  /** Insert-or-ignore behind the check of the seen table. */
  function Stored(db: Db, account: string, incoming: Incoming): Db {
    if (account, incoming.id) in db.seen || IsQueued(db.queue, account, incoming.id) then db
    else db.(queue := db.queue + [Row(account, incoming.id, incoming.envelope, incoming.timestamp)])
  }

  function Delivered(s: Sys, incoming: Incoming): Sys {
    match incoming.fault
    case BadEnvelope => s.(error := true)
    case DbRaises => s.(error := true)
    case AckRaises => s.(db := Stored(s.db, s.account.aci, incoming), error := true)
    case NoFault =>
      s.(db := Stored(s.db, s.account.aci, incoming), acked := s.acked + {incoming.id}, count := s.count + 1)
  }

  /** Assigning a snapshot over the account: a field the snapshot lacks is not removed. */
  function Restored(current: Account, snapshot: Account): Account {
    snapshot.(username := if snapshot.username.Some? then snapshot.username else current.username)
  }

  /** The account and the item after a successful decryption. */
  function Applied(account: Account, outcome: Outcome, groupId: Data -> string): (Account, Option<Item>) {
    match outcome
    case Yields(d) => Normalized(account, d, groupId)
    case _ => (account, None)
  }

  function TextOf(ms: Messages, account: Account, item: Option<Item>): (Messages, bool) {
    match item
    case Some(i) => Ingested(ms, account, i)
    case None => (ms, false)
  }

  function Concluded(s: Sys, outcome: Outcome, tx: TxFault, groupId: Data -> string): Sys
    requires s.pc.Decrypting?
  {
    var row, aci := s.pc.row, s.account.aci;
    if outcome.Raises? || tx.RaisesEarly? then
      s.(account := Restored(s.account, s.pc.snapshot), failures := s.failures + [row.id], pc := Ready(s.pc.rest))
    else
      var (account, item) := Applied(s.account, outcome, groupId);
      var (messages, kept) := TextOf(s.db.messages, account, item);
      var decoded := s.decoded + if kept then 1 else 0;
      if tx.RaisesLate? then
        s.(account := Restored(account, s.pc.snapshot), decoded := decoded,
           failures := s.failures + [row.id], pc := Ready(s.pc.rest))
      else
        var queue := Without(s.db.queue, aci, row.id);
        var db := Db(queue, s.db.seen + {(aci, row.id)}, messages, s.db.state[aci := account]);
        s.(db := db, account := account, decoded := decoded, commits := s.commits + [row.id], pc := Ready(s.pc.rest))
  }

  /** One atomic step; an event that is not enabled does nothing. */
  function Next(s: Sys, e: Event, groupId: Data -> string): Sys {
    match e
    case Arrives(incoming) => Delivered(s, incoming)
    case StartDrain =>
      if s.pc.Idle? then s.(pc := Ready(RowsOf(s.db.queue, s.account.aci)), decoded := 0, failures := []) else s
    case BeginRow =>
      if s.pc.Ready? && s.pc.rows != [] then s.(pc := Decrypting(s.pc.rows[0], s.pc.rows[1..], s.account)) else s
    case Ratchets(keys) => if s.pc.Decrypting? then s.(account := s.account.(keys := keys)) else s
    case EndRow(decrypt, tx) =>
      if s.pc.Decrypting? then Concluded(s, decrypt(s.pc.row.envelope), tx, groupId) else s
    case EndDrain => if s.pc == Ready([]) then s.(pc := Idle) else s
  }

  function Run(s: Sys, es: seq<Event>, groupId: Data -> string): Sys
    decreases |es|
  {
    if es == [] then s else Run(Next(s, es[0], groupId), es[1..], groupId)
  }

  lemma {:induction false} RunConcat(s: Sys, a: seq<Event>, b: seq<Event>, groupId: Data -> string)
    ensures Run(s, a + b, groupId) == Run(Run(s, a, groupId), b, groupId)
    decreases |a|
  {
    if a == [] {
      assert a + b == b;
    } else {
      assert (a + b)[1..] == a[1..] + b;
      RunConcat(Next(s, a[0], groupId), a[1..], b, groupId);
    }
  }

  // --- what every step keeps ---------------------------------------------------------------

  function Pending(pc: Pc): seq<Row> {
    match pc
    case Idle => []
    case Ready(rows) => rows
    case Decrypting(row, rest, _) => [row] + rest
  }

  ghost predicate DistinctIds(rows: seq<Row>) {
    forall i, j :: 0 <= i < j < |rows| ==> rows[i].id != rows[j].id
  }

  ghost predicate DistinctRows(rows: seq<Row>) {
    forall i, j :: 0 <= i < j < |rows| ==> (rows[i].account, rows[i].id) != (rows[j].account, rows[j].id)
  }

  /** Every acknowledged envelope is stored or was already dealt with. */
  ghost predicate AckedSafe(s: Sys) {
    forall id :: id in s.acked ==> Queued(s.db.queue, s.account.aci, id) || (s.account.aci, id) in s.db.seen
  }

  /** An envelope waits in the queue or is seen, never both, and waits once. */
  ghost predicate Exclusive(db: Db) {
    && (forall r :: r in db.queue ==> (r.account, r.id) !in db.seen)
    && DistinctRows(db.queue)
  }

  /** Effects are committed at most once, and only for envelopes that end up seen. */
  ghost predicate OnceOnly(s: Sys) {
    && (forall i, j :: 0 <= i < j < |s.commits| ==> s.commits[i] != s.commits[j])
    && forall id :: id in s.commits ==> (s.account.aci, id) in s.db.seen
  }

  /** The rows a drain still has to handle are in the queue. */
  ghost predicate PendingQueued(s: Sys) {
    && (forall r :: r in Pending(s.pc) ==> r in s.db.queue && r.account == s.account.aci)
    && DistinctIds(Pending(s.pc))
  }

  /** Memory and disk agree on the account, except for the ratchets of the row being decrypted. */
  ghost predicate Durable(s: Sys) {
    && s.account.aci in s.db.state
    && match s.pc
       case Decrypting(_, _, snapshot) =>
         s.db.state[s.account.aci] == snapshot && s.account == snapshot.(keys := s.account.keys)
       case _ => s.db.state[s.account.aci] == s.account
  }

  ghost predicate Inv(s: Sys) {
    AckedSafe(s) && Exclusive(s.db) && OnceOnly(s) && PendingQueued(s) && Durable(s)
  }

  lemma StoredKeeps(db: Db, account: string, incoming: Incoming)
    requires Exclusive(db)
    ensures var db' := Stored(db, account, incoming);
            && Exclusive(db')
            && (Queued(db'.queue, account, incoming.id) || (account, incoming.id) in db'.seen)
            && (forall r :: r in db.queue ==> r in db'.queue)
            && (forall a, id :: Queued(db.queue, a, id) ==> Queued(db'.queue, a, id))
  {
    var db' := Stored(db, account, incoming);
    forall a, id | Queued(db.queue, a, id)
      ensures Queued(db'.queue, a, id)
    {
      var i :| 0 <= i < |db.queue| && db.queue[i].account == a && db.queue[i].id == id;
      assert db'.queue[i] == db.queue[i];
    }
    if (account, incoming.id) !in db.seen && !IsQueued(db.queue, account, incoming.id) {
      var n := |db.queue|;
      assert db'.queue[n] == Row(account, incoming.id, incoming.envelope, incoming.timestamp);
      forall i, j | 0 <= i < j < |db'.queue|
        ensures (db'.queue[i].account, db'.queue[i].id) != (db'.queue[j].account, db'.queue[j].id)
      {
        if j == n {
          assert db'.queue[i] == db.queue[i];
        }
      }
    }
  }

  lemma ArrivalKeeps(s: Sys, incoming: Incoming)
    requires Inv(s)
    ensures Inv(Delivered(s, incoming))
  {
    StoredKeeps(s.db, s.account.aci, incoming);
    hide Stored, Queued, IsQueued;
  }

  lemma {:induction false} WithoutKeepsDistinct(queue: seq<Row>, account: string, id: string)
    requires DistinctRows(queue)
    ensures DistinctRows(Without(queue, account, id))
    decreases |queue|
  {
    if queue != [] {
      var rest := Without(queue[1..], account, id);
      assert DistinctRows(queue[1..]);
      WithoutKeepsDistinct(queue[1..], account, id);
      forall r | r in rest ensures (r.account, r.id) != (queue[0].account, queue[0].id) {
        var i :| 0 <= i < |queue[1..]| && queue[1..][i] == r;
        assert queue[i + 1] == r;
      }
    }
  }

  lemma {:induction false} RowsOfDistinct(queue: seq<Row>, account: string)
    requires DistinctRows(queue)
    ensures DistinctIds(RowsOf(queue, account))
    decreases |queue|
  {
    if queue != [] {
      var rest := RowsOf(queue[1..], account);
      assert DistinctRows(queue[1..]);
      RowsOfDistinct(queue[1..], account);
      if queue[0].account == account {
        forall r | r in rest ensures r.id != queue[0].id {
          var i :| 0 <= i < |queue[1..]| && queue[1..][i] == r;
          assert queue[i + 1] == r;
        }
      }
    }
  }

  /** Assigning the snapshot back restores the account exactly: nothing a row does adds a field. */
  lemma RestoreIsExact(s: Sys, outcome: Outcome, groupId: Data -> string)
    requires s.pc.Decrypting? && Durable(s)
    ensures Restored(s.account, s.pc.snapshot) == s.pc.snapshot
    ensures Restored(Applied(s.account, outcome, groupId).0, s.pc.snapshot) == s.pc.snapshot
    ensures Applied(s.account, outcome, groupId).0.aci == s.account.aci
  {
  }

  predicate Fails(outcome: Outcome, tx: TxFault) {
    outcome.Raises? || !tx.Commits?
  }

  /** A failing row stays queued, leaves every table alone, restores the account and lets the drain go on. */
  lemma FailingRowHarmless(s: Sys, decrypt: Data -> Outcome, tx: TxFault, groupId: Data -> string)
    requires Inv(s) && s.pc.Decrypting? && Fails(decrypt(s.pc.row.envelope), tx)
    ensures var s' := Next(s, EndRow(decrypt, tx), groupId);
            && s'.db == s.db
            && s.pc.row in s'.db.queue
            && s'.account == s.pc.snapshot == s.db.state[s.account.aci]
            && s'.pc == Ready(s.pc.rest)
            && s'.failures == s.failures + [s.pc.row.id]
            && s'.commits == s.commits && s'.acked == s.acked
  {
    hide Normalized, Ingested, Queued, Exclusive, OnceOnly, AckedSafe;
    RestoreIsExact(s, decrypt(s.pc.row.envelope), groupId);
    RestWaits(s);
  }

  /** The row being decrypted and those after it are distinct rows of the queue. */
  lemma RestWaits(s: Sys)
    requires PendingQueued(s) && s.pc.Decrypting?
    ensures s.pc.row in s.db.queue && s.pc.row.account == s.account.aci
    ensures forall r :: r in s.pc.rest ==> r in s.db.queue && r.account == s.account.aci && r.id != s.pc.row.id
    ensures DistinctIds(s.pc.rest)
  {
    assert Pending(s.pc)[0] == s.pc.row;
    assert forall i :: 0 <= i < |s.pc.rest| ==> Pending(s.pc)[i + 1] == s.pc.rest[i];
  }

  /** The system after a row was committed. */
  lemma AfterCommit(s: Sys, decrypt: Data -> Outcome, groupId: Data -> string)
    requires s.pc.Decrypting? && !decrypt(s.pc.row.envelope).Raises?
    ensures var s', aci := Next(s, EndRow(decrypt, Commits), groupId), s.account.aci;
            && s'.account == Applied(s.account, decrypt(s.pc.row.envelope), groupId).0
            && s'.db.queue == Without(s.db.queue, aci, s.pc.row.id)
            && s'.db.seen == s.db.seen + {(aci, s.pc.row.id)}
            && s'.db.state == s.db.state[aci := s'.account]
            && s'.commits == s.commits + [s.pc.row.id] && s'.acked == s.acked
            && s'.pc == Ready(s.pc.rest) && s'.failures == s.failures
  {
    hide Normalized, Ingested, Without;
  }

  /** A committed row leaves the queue for the seen table, and only its own envelope does. */
  lemma CommitKeeps(s: Sys, decrypt: Data -> Outcome, groupId: Data -> string)
    requires Inv(s) && s.pc.Decrypting? && !decrypt(s.pc.row.envelope).Raises?
    ensures var s' := Next(s, EndRow(decrypt, Commits), groupId);
            && Inv(s')
            && s'.commits == s.commits + [s.pc.row.id]
            && s'.db.seen == s.db.seen + {(s.account.aci, s.pc.row.id)}
            && s'.pc == Ready(s.pc.rest) && s'.failures == s.failures && s'.account.aci == s.account.aci
  {
    hide Next, Applied, Restored, Without, Queued, AckedSafe;
    RestoreIsExact(s, decrypt(s.pc.row.envelope), groupId);
    AfterCommit(s, decrypt, groupId);
    var s' := Next(s, EndRow(decrypt, Commits), groupId);
    var aci, id := s.account.aci, s.pc.row.id;
    WithoutKeepsDistinct(s.db.queue, aci, id);
    RestWaits(s);
    assert (aci, id) !in s.db.seen;
    AckedAfterCommit(s, s');
    assert Exclusive(s'.db);
    assert OnceOnly(s');
    assert PendingQueued(s');
    assert Durable(s');
  }

  lemma AckedAfterCommit(s: Sys, s': Sys)
    requires AckedSafe(s) && s.pc.Decrypting? && s'.account.aci == s.account.aci && s'.acked == s.acked
    requires s'.db.queue == Without(s.db.queue, s.account.aci, s.pc.row.id)
    requires s'.db.seen == s.db.seen + {(s.account.aci, s.pc.row.id)}
    ensures AckedSafe(s')
  {
    forall id | id in s'.acked
      ensures Queued(s'.db.queue, s'.account.aci, id) || (s'.account.aci, id) in s'.db.seen
    {
      if id != s.pc.row.id && (s.account.aci, id) !in s.db.seen {
        var i :| 0 <= i < |s.db.queue| && s.db.queue[i].account == s.account.aci && s.db.queue[i].id == id;
        assert s.db.queue[i] in s'.db.queue;
      }
    }
  }

  lemma BeginKeeps(s: Sys, groupId: Data -> string)
    requires Inv(s)
    ensures Inv(Next(s, BeginRow, groupId))
  {
    if s.pc.Ready? && s.pc.rows != [] {
      assert [s.pc.rows[0]] + s.pc.rows[1..] == s.pc.rows;
    }
  }

  lemma StartKeeps(s: Sys, groupId: Data -> string)
    requires Inv(s)
    ensures Inv(Next(s, StartDrain, groupId))
  {
    RowsOfDistinct(s.db.queue, s.account.aci);
  }

  lemma FailureKeeps(s: Sys, decrypt: Data -> Outcome, tx: TxFault, groupId: Data -> string)
    requires Inv(s) && s.pc.Decrypting? && Fails(decrypt(s.pc.row.envelope), tx)
    ensures Inv(Next(s, EndRow(decrypt, tx), groupId))
  {
    hide Next, Queued, Exclusive;
    FailingRowHarmless(s, decrypt, tx, groupId);
    RestWaits(s);
  }

  /** Every step of every interleaving keeps all of it. */
  lemma StepKeeps(s: Sys, e: Event, groupId: Data -> string)
    requires Inv(s)
    ensures Inv(Next(s, e, groupId))
    ensures Next(s, e, groupId).account.aci == s.account.aci
  {
    match e
    case Arrives(incoming) => ArrivalKeeps(s, incoming);
    case StartDrain => StartKeeps(s, groupId);
    case BeginRow => BeginKeeps(s, groupId);
    case EndRow(decrypt, tx) =>
      if s.pc.Decrypting? {
        RestoreIsExact(s, decrypt(s.pc.row.envelope), groupId);
        if Fails(decrypt(s.pc.row.envelope), tx) {
          FailureKeeps(s, decrypt, tx, groupId);
          FailingRowHarmless(s, decrypt, tx, groupId);
        } else {
          CommitKeeps(s, decrypt, groupId);
        }
      }
    case _ =>
  }

  /** The system right after an account was loaded from its database, before anything has happened. */
  function Loaded(db: Db, account: Account): Sys {
    Sys(db, account, 0, false, Idle, 0, [], {}, [])
  }

  /** Safe exactly when queue and seen table share nothing, no row is doubled, and the account is the saved one. */
  lemma LoadedIsSafe(db: Db, account: Account)
    ensures Inv(Loaded(db, account))
            <==> Exclusive(db) && account.aci in db.state && db.state[account.aci] == account
    ensures var s := Loaded(db, account);
            && s.db == db && s.account == account && s.pc == Idle
            && s.count == 0 && !s.error && s.acked == {} && s.commits == [] && s.decoded == 0 && s.failures == []
  {
  }

  /** So at every point of every run the promises hold. */
  lemma {:induction false} RunKeeps(s: Sys, es: seq<Event>, groupId: Data -> string)
    requires Inv(s)
    ensures Inv(Run(s, es, groupId))
    decreases |es|
  {
    hide Inv, Next;
    if es != [] {
      StepKeeps(s, es[0], groupId);
      RunKeeps(Next(s, es[0], groupId), es[1..], groupId);
    }
  }

  /** Messages, seen ids and saved accounts change only when a row is committed. */
  lemma OnlyCommitsHaveEffects(s: Sys, e: Event, groupId: Data -> string)
    requires Inv(s)
    ensures var s' := Next(s, e, groupId);
            || (s'.commits == s.commits && s'.db.messages == s.db.messages && s'.db.seen == s.db.seen
                && s'.db.state == s.db.state)
            || (s.pc.Decrypting? && s'.commits == s.commits + [s.pc.row.id] && s.pc.row.id !in s.commits
                && s'.db.seen == s.db.seen + {(s.account.aci, s.pc.row.id)}
                && (s.account.aci, s.pc.row.id) !in s.db.seen)
  {
    hide Normalized, Ingested, Restored;
    if s.pc.Decrypting? {
      assert Pending(s.pc)[0] == s.pc.row;
    }
  }
}
