/** The client whose callback and drain loop take the steps of the receive queue. */
module SignalDrain {
  import opened Wrappers
  import opened SignalText
  import opened SignalQueue

  /** What happens while one row is awaited, what its envelope decrypts to, and how its transaction ends. */
  datatype RowPlan = RowPlan(arrivals: seq<Incoming>, keys: Data, decrypt: Data -> Outcome, tx: TxFault)

  function Arrivals(incomings: seq<Incoming>): seq<Event> {
    if incomings == [] then [] else [Arrives(incomings[0])] + Arrivals(incomings[1..])
  }

  /** The events of one row. */
  function RowScript(p: RowPlan): seq<Event> {
    [BeginRow] + Arrivals(p.arrivals) + [Ratchets(p.keys), EndRow(p.decrypt, p.tx)]
  }

  /** The events of rows `i` up to `n`. */
  function RowsScript(plan: nat -> RowPlan, i: nat, n: nat): seq<Event>
    requires i <= n
    decreases n - i
  {
    if i == n then [] else RowScript(plan(i)) + RowsScript(plan, i + 1, n)
  }

  lemma {:induction false} ArrivalsKeepPc(s: Sys, incomings: seq<Incoming>, groupId: Data -> string)
    ensures var s' := Run(s, Arrivals(incomings), groupId);
            && s'.pc == s.pc && s'.account == s.account && s'.decoded == s.decoded
            && s'.failures == s.failures && s'.commits == s.commits
    decreases |incomings|
  {
    if incomings != [] {
      assert Arrivals(incomings)[1..] == Arrivals(incomings[1..]);
      ArrivalsKeepPc(Next(s, Arrives(incomings[0]), groupId), incomings[1..], groupId);
    }
  }

  /** The state a row's script reaches just before the row ends. */
  function Awaited(s: Sys, p: RowPlan, groupId: Data -> string): Sys {
    Next(Run(Next(s, BeginRow, groupId), Arrivals(p.arrivals), groupId), Ratchets(p.keys), groupId)
  }

  lemma RowScriptRuns(s: Sys, p: RowPlan, groupId: Data -> string)
    ensures Run(s, RowScript(p), groupId) == Next(Awaited(s, p, groupId), EndRow(p.decrypt, p.tx), groupId)
  {
    hide Next, Arrivals;
    var a := Arrivals(p.arrivals);
    var tail := [Ratchets(p.keys), EndRow(p.decrypt, p.tx)];
    assert RowScript(p) == [BeginRow] + (a + tail);
    assert ([BeginRow] + (a + tail))[1..] == a + tail;
    var s1 := Next(s, BeginRow, groupId);
    RunConcat(s1, a, tail, groupId);
    var s2 := Run(s1, a, groupId);
    assert tail[1..] == [EndRow(p.decrypt, p.tx)] && tail[1..][1..] == [];
    var s3 := Next(s2, Ratchets(p.keys), groupId);
    var s4 := Next(s3, EndRow(p.decrypt, p.tx), groupId);
    assert Run(s4, [], groupId) == s4;
    assert Run(s3, tail[1..], groupId) == Run(s4, tail[1..][1..], groupId);
  }

  lemma AppliedAci(account: Account, outcome: Outcome, groupId: Data -> string)
    ensures Applied(account, outcome, groupId).0.aci == account.aci
  {
  }

  lemma Starting(s: Sys, groupId: Data -> string)
    requires s.pc.Idle?
    ensures Next(s, StartDrain, groupId)
            == s.(pc := Ready(RowsOf(s.db.queue, s.account.aci)), decoded := 0, failures := [])
  {
  }

  lemma Ending(s: Sys, groupId: Data -> string)
    requires s.pc == Ready([])
    ensures Next(s, EndDrain, groupId) == s.(pc := Idle)
    ensures Run(s, [], groupId) == s
  {
  }

  lemma EndRowConcludes(s: Sys, p: RowPlan, groupId: Data -> string)
    requires s.pc.Decrypting?
    ensures Next(s, EndRow(p.decrypt, p.tx), groupId)
            == Concluded(s, p.decrypt(s.pc.row.envelope), p.tx, groupId)
    ensures Concluded(s, p.decrypt(s.pc.row.envelope), p.tx, groupId).pc == Ready(s.pc.rest)
  {
  }

  class Client {
    var db: Db
    var account: Account
    var count: nat
    var error: bool
    var decoded: nat
    var failures: seq<string>
    ghost var pc: Pc
    ghost var acked: set<string>
    ghost var commits: seq<string>

    ghost function State(): Sys
      reads this
    {
      Sys(db, account, count, error, pc, decoded, failures, acked, commits)
    }

    /** The connection's callback: check the seen table, store, and only then acknowledge. */
    method OnIncomingMessage(incoming: Incoming, groupId: Data -> string)
      modifies this
      ensures State() == Next(old(State()), Arrives(incoming), groupId)
    {
      if incoming.fault.BadEnvelope? || incoming.fault.DbRaises? {
        error := true;
        return;
      }
      if (account.aci, incoming.id) !in db.seen {
        if !IsQueued(db.queue, account.aci, incoming.id) {
          db := db.(queue := db.queue + [Row(account.aci, incoming.id, incoming.envelope, incoming.timestamp)]);
        }
      }
      if incoming.fault.AckRaises? {
        error := true;
        return;
      }
      acked := acked + {incoming.id};
      count := count + 1;
    }

    method Await(incomings: seq<Incoming>, groupId: Data -> string)
      modifies this
      ensures State() == Run(old(State()), Arrivals(incomings), groupId)
    {
      ghost var all := Run(State(), Arrivals(incomings), groupId);
      for i := 0 to |incomings|
        invariant Run(State(), Arrivals(incomings[i..]), groupId) == all
      {
        assert incomings[i..][1..] == incomings[i + 1..];
        assert Arrivals(incomings[i..])[1..] == Arrivals(incomings[i + 1..]);
        OnIncomingMessage(incomings[i], groupId);
      }
    }

    /** Edits the account in place and says where the message belongs. */
    method Normalize(d: Decoded, groupId: Data -> string) returns (item: Option<Item>)
      modifies this`account
      ensures (account, item) == Normalized(old(account), d, groupId)
    {
      if d.usernameChange {
        account := account.(username := None);
      }
      var message := if d.sent.Some? && d.sent.value.message.Some? then d.sent.value.message else d.dataMessage;
      if message.None? {
        return None;
      }
      var data, chat := message.value, d.sender;
      if d.sent.Some? {
        chat := d.sent.value.destination.GetOr("");
        if chat == "" {
          chat := account.aci;
        }
      }
      if data.groupV2.Some? && data.groupV2.value.masterKey != [] {
        chat := groupId(data.groupV2.value.masterKey);
      }
      hide WithGroup, WithRevision, WithTimer;
      assert chat == ChatOf(account, d, data, groupId);
      RecordGroup(chat, data);
      SetTimer(chat, data.expireTimer);
      item := Some(Item(chat, d.sender, TimestampOf(d, data), data));
    }

    /** A group met for the first time is recorded; a newer revision of it forgets its members. */
    method RecordGroup(chat: string, data: Content)
      modifies this`account
      ensures account == old(account).(groups :=
                WithRevision(WithGroup(old(account.groups), chat, data.Context()), chat, Revision(data)))
    {
      var groups := account.groups;
      if data.groupV2.Some? && data.groupV2.value.masterKey != [] && FindGroup(groups, chat).None? {
        groups := groups + [Group(chat, chat, data.groupV2.value.masterKey, data.groupV2.value.revision, [], None)];
      }
      var group := FindGroup(groups, chat);
      var revision := if data.groupV2.Some? then data.groupV2.value.revision else 0;
      if group.Some? && revision > groups[group.value].revision {
        groups := groups[group.value := groups[group.value].(revision := revision, members := [])];
      }
      account := account.(groups := groups);
    }

    method SetTimer(chat: string, timer: Option<int>)
      modifies this`account
      ensures account == WithTimer(old(account), chat, timer)
    {
      if timer.None? {
        return;
      }
      var group, contact := FindGroup(account.groups, chat), FindContact(account.contacts, chat);
      if group.Some? {
        var timed := account.groups[group.value].(expiration := timer);
        account := account.(groups := account.groups[group.value := timed]);
      } else if contact.Some? {
        var timed := account.contacts[contact.value].(expiration := timer);
        account := account.(contacts := account.contacts[contact.value := timed]);
      } else {
        account := account.(contacts := account.contacts + [Contact(Some(chat), None, chat, timer)]);
      }
    }

    /** Deletes what a message takes back and stores its text; `kept` is whether it counts as one. */
    method IngestText(item: Item) returns (kept: bool)
      modifies this`db
      ensures (db.messages, kept) == Ingested(old(db.messages), account, item)
      ensures db == old(db).(messages := db.messages)
    {
      var owner := Owner(account);
      if item.data.deleteTarget != 0 {
        db := db.(messages := db.messages - {MsgKey(owner, item.chat, item.sender, item.data.deleteTarget)});
      }
      if item.data.body == "" || item.data.expireTimer.GetOr(0) != 0 || item.data.isViewOnce {
        return false;
      }
      var key := MsgKey(owner, item.chat, item.sender, item.timestamp);
      if key !in db.messages {
        db := db.(messages := db.messages[key := item.data.body]);
      }
      kept := true;
    }

    /** The end of a row: its transaction commits, or everything is put back. */
    method Conclude(row: Row, snapshot: Account, p: RowPlan, groupId: Data -> string)
      requires pc.Decrypting? && pc.row == row && pc.snapshot == snapshot
      modifies this
      ensures State() == Concluded(old(State()), p.decrypt(row.envelope), p.tx, groupId)
    {
      hide Normalized, Ingested, Without, Restored;
      var outcome := p.decrypt(row.envelope);
      if outcome.Raises? || p.tx.RaisesEarly? {
        account := Restored(account, snapshot);
        failures := failures + [row.id];
      } else {
        var before := db;
        AppliedAci(account, outcome, groupId);
        if outcome.Yields? {
          var item := Normalize(outcome.decoded, groupId);
          if item.Some? {
            var kept := IngestText(item.value);
            if kept {
              decoded := decoded + 1;
            }
          }
        }
        if p.tx.RaisesLate? {
          db := before;
          account := Restored(account, snapshot);
          failures := failures + [row.id];
        } else {
          db := db.(state := db.state[account.aci := account]);
          db := db.(seen := db.seen + {(account.aci, row.id)});
          db := db.(queue := Without(db.queue, account.aci, row.id));
          commits := commits + [row.id];
        }
      }
      pc := Ready(pc.rest);
    }

    /** One row: its decryption is awaited, then either its transaction commits or everything is put back. */
    method HandleRow(row: Row, p: RowPlan, groupId: Data -> string)
      requires pc.Ready? && pc.rows != [] && pc.rows[0] == row
      modifies this
      ensures State() == Run(old(State()), RowScript(p), groupId)
      ensures pc == Ready(old(pc.rows)[1..])
    {
      hide Run, Arrivals, RowScript, Concluded;
      var snapshot := account;
      ghost var start := State();
      pc := Decrypting(row, pc.rows[1..], account);
      ghost var begun := State();
      Await(p.arrivals, groupId);
      ArrivalsKeepPc(begun, p.arrivals, groupId);
      account := account.(keys := p.keys);
      RowScriptRuns(start, p, groupId);
      EndRowConcludes(State(), p, groupId);
      Conclude(row, snapshot, p, groupId);
    }

    /** Handles every row queued at the start, in row order, whatever happens to each. */
    method Drain(plan: nat -> RowPlan, groupId: Data -> string) returns (count: nat, failed: seq<string>)
      requires pc.Idle?
      modifies this
      ensures var rows := RowsOf(old(db.queue), old(account.aci));
              State() == Run(old(State()), [StartDrain] + RowsScript(plan, 0, |rows|) + [EndDrain], groupId)
      ensures pc.Idle? && count == decoded && failed == failures
    {
      hide Run, RowScript, Next;
      ghost var s0 := State();
      var rows := RowsOf(db.queue, account.aci);
      decoded := 0;
      failures := [];
      pc := Ready(rows);
      ghost var s1 := State();
      Starting(s0, groupId);
      ghost var rest := RowsScript(plan, 0, |rows|);
      for i := 0 to |rows|
        invariant pc == Ready(rows[i..])
        invariant Run(State(), RowsScript(plan, i, |rows|), groupId) == Run(s1, rest, groupId)
      {
        RunConcat(State(), RowScript(plan(i)), RowsScript(plan, i + 1, |rows|), groupId);
        HandleRow(rows[i], plan(i), groupId);
      }
      Ending(State(), groupId);
      pc := Idle;
      DrainScriptRuns(s0, rest, groupId);
      count, failed := decoded, failures;
    }
  }

  lemma DrainScriptRuns(s: Sys, rest: seq<Event>, groupId: Data -> string)
    ensures Run(s, [StartDrain] + rest + [EndDrain], groupId)
            == Next(Run(Next(s, StartDrain, groupId), rest, groupId), EndDrain, groupId)
  {
    hide Next;
    var s1 := Next(s, StartDrain, groupId);
    assert [StartDrain] + rest + [EndDrain] == [StartDrain] + (rest + [EndDrain]);
    assert ([StartDrain] + (rest + [EndDrain]))[1..] == rest + [EndDrain];
    RunConcat(s1, rest, [EndDrain], groupId);
    var s2 := Run(s1, rest, groupId);
    assert [EndDrain][1..] == [];
    assert Run(Next(s2, EndDrain, groupId), [], groupId) == Next(s2, EndDrain, groupId);
  }

  // --- what a whole drain comes to --------------------------------------------------------

  /** Does this row end badly? */
  predicate RowFails(row: Row, p: RowPlan) {
    Fails(p.decrypt(row.envelope), p.tx)
  }

  /** The ids of the rows that end well, or badly, in order. */
  function Ids(rows: seq<Row>, plan: nat -> RowPlan, i: nat, failing: bool): seq<string>
    decreases |rows|
  {
    if rows == [] then []
    else
      (if RowFails(rows[0], plan(i)) == failing then [rows[0].id] else [])
      + Ids(rows[1..], plan, i + 1, failing)
  }

  /** Does this row's text get counted? A transaction that raises late is rolled back but stays counted. */
  predicate CountsText(row: Row, p: RowPlan) {
    var outcome := p.decrypt(row.envelope);
    outcome.Yields? && outcome.decoded.Message().Some? && outcome.decoded.Message().value.Keeps()
    && !p.tx.RaisesEarly?
  }

  /** Of these rows, the first of them row `i` of the drain: how many texts are counted. */
  function TextCount(rows: seq<Row>, plan: nat -> RowPlan, i: nat): nat
    decreases |rows|
  {
    if rows == [] then 0 else (if CountsText(rows[0], plan(i)) then 1 else 0) + TextCount(rows[1..], plan, i + 1)
  }

  /** No row leaves the queue but this account's rows with one of `ids`. */
  ghost predicate Loses(s: Sys, s': Sys, ids: seq<string>) {
    forall r :: r in s.db.queue && !(r.account == s.account.aci && r.id in ids) ==> r in s'.db.queue
  }

  lemma {:induction false} ArrivalsLoseNothing(s: Sys, incomings: seq<Incoming>, groupId: Data -> string)
    ensures Loses(s, Run(s, Arrivals(incomings), groupId), [])
    decreases |incomings|
  {
    if incomings != [] {
      assert Arrivals(incomings)[1..] == Arrivals(incomings[1..]);
      var s1 := Next(s, Arrives(incomings[0]), groupId);
      assert forall r :: r in s.db.queue ==> r in s1.db.queue;
      ArrivalsLoseNothing(s1, incomings[1..], groupId);
    }
  }

  lemma RowEnds(s: Sys, p: RowPlan, groupId: Data -> string)
    requires Inv(s) && s.pc.Ready? && s.pc.rows != []
    ensures var s' := Run(s, RowScript(p), groupId);
            && Inv(s')
            && s'.account.aci == s.account.aci
            && s'.pc == Ready(s.pc.rows[1..])
            && s'.commits == s.commits + (if RowFails(s.pc.rows[0], p) then [] else [s.pc.rows[0].id])
            && s'.failures == s.failures + (if RowFails(s.pc.rows[0], p) then [s.pc.rows[0].id] else [])
            && s'.decoded == s.decoded + (if CountsText(s.pc.rows[0], p) then 1 else 0)
            && Loses(s, s', if RowFails(s.pc.rows[0], p) then [] else [s.pc.rows[0].id])
  {
    hide Inv, Normalized, Arrivals;
    ArrivalsLoseNothing(Next(s, BeginRow, groupId), p.arrivals, groupId);
    RowScriptRuns(s, p, groupId);
    var begun := Next(s, BeginRow, groupId);
    StepKeeps(s, BeginRow, groupId);
    RunKeeps(begun, Arrivals(p.arrivals), groupId);
    ArrivalsKeepPc(begun, p.arrivals, groupId);
    var waited := Run(begun, Arrivals(p.arrivals), groupId);
    StepKeeps(waited, Ratchets(p.keys), groupId);
    var ready := Awaited(s, p, groupId);
    StepKeeps(ready, EndRow(p.decrypt, p.tx), groupId);
    KeptText(ready.account, ready.db.messages, p.decrypt(s.pc.rows[0].envelope), groupId);
  }

  lemma KeptText(account: Account, ms: Messages, outcome: Outcome, groupId: Data -> string)
    ensures var (a, item) := Applied(account, outcome, groupId);
            TextOf(ms, a, item).1
            <==> outcome.Yields? && outcome.decoded.Message().Some? && outcome.decoded.Message().value.Keeps()
  {
    hide WithTimer, WithRevision, WithGroup, ChatOf;
  }

  lemma {:induction false} RowsEnd(s: Sys, plan: nat -> RowPlan, i: nat, n: nat, groupId: Data -> string)
    requires Inv(s) && s.pc.Ready? && i + |s.pc.rows| == n
    ensures var s' := Run(s, RowsScript(plan, i, n), groupId);
            && Inv(s') && s'.pc == Ready([]) && s'.account.aci == s.account.aci
            && s'.commits == s.commits + Ids(s.pc.rows, plan, i, false)
            && s'.failures == s.failures + Ids(s.pc.rows, plan, i, true)
            && s'.decoded == s.decoded + TextCount(s.pc.rows, plan, i)
            && Loses(s, s', Ids(s.pc.rows, plan, i, false))
    decreases n - i
  {
    hide Inv, Next, RowScript, CountsText, RowFails;
    if i < n {
      var rows := s.pc.rows;
      RunConcat(s, RowScript(plan(i)), RowsScript(plan, i + 1, n), groupId);
      RowEnds(s, plan(i), groupId);
      RowsEnd(Run(s, RowScript(plan(i)), groupId), plan, i + 1, n, groupId);
    }
  }

  /**
   * A whole drain, whatever arrives in between: the rows that end well are committed in row order,
   * the others are reported in row order and still queued, and no row stops a later one.
   */
  lemma DrainOutcome(s: Sys, plan: nat -> RowPlan, groupId: Data -> string)
    requires Inv(s) && s.pc.Idle?
    ensures var rows := RowsOf(s.db.queue, s.account.aci);
            var s' := Run(s, [StartDrain] + RowsScript(plan, 0, |rows|) + [EndDrain], groupId);
            && Inv(s') && s'.pc.Idle?
            && s'.commits == s.commits + Ids(rows, plan, 0, false)
            && s'.failures == Ids(rows, plan, 0, true)
            && s'.decoded == TextCount(rows, plan, 0)
            && forall k :: 0 <= k < |rows| ==>
                 if RowFails(rows[k], plan(k)) then rows[k] in s'.db.queue
                 else (s.account.aci, rows[k].id) in s'.db.seen
  {
    hide Inv, Run, RowsScript, RowFails, Next, RowsOf;
    WhereRowsEnd(s, plan, groupId);
    var rows := RowsOf(s.db.queue, s.account.aci);
    var s1 := Next(s, StartDrain, groupId);
    Started(s, groupId);
    RowsEnd(s1, plan, 0, |rows|, groupId);
    DrainScriptRuns(s, RowsScript(plan, 0, |rows|), groupId);
    var s2 := Run(s1, RowsScript(plan, 0, |rows|), groupId);
    StepKeeps(s2, EndDrain, groupId);
    Ended(s2, groupId);
    assert [] + Ids(rows, plan, 0, true) == Ids(rows, plan, 0, true);
  }

  lemma WhereRowsEnd(s: Sys, plan: nat -> RowPlan, groupId: Data -> string)
    requires Inv(s) && s.pc.Idle?
    ensures var rows := RowsOf(s.db.queue, s.account.aci);
            var s' := Run(s, [StartDrain] + RowsScript(plan, 0, |rows|) + [EndDrain], groupId);
            forall k :: 0 <= k < |rows| ==>
              if RowFails(rows[k], plan(k)) then rows[k] in s'.db.queue
              else (s.account.aci, rows[k].id) in s'.db.seen
  {
    hide Run, RowsScript, RowFails, Next, Inv, RowsOf;
    var rows := RowsOf(s.db.queue, s.account.aci);
    var s1 := Next(s, StartDrain, groupId);
    Started(s, groupId);
    var s2 := Run(s1, RowsScript(plan, 0, |rows|), groupId);
    RowsEnd(s1, plan, 0, |rows|, groupId);
    DrainScriptRuns(s, RowsScript(plan, 0, |rows|), groupId);
    Ended(s2, groupId);
    forall k | 0 <= k < |rows|
      ensures if RowFails(rows[k], plan(k)) then rows[k] in s2.db.queue
              else (s.account.aci, rows[k].id) in s2.db.seen
    {
      WhichIds(rows, plan, 0, k);
      var done := Ids(rows, plan, 0, false);
      assert rows[k] in rows;
      if rows[k].id in done {
        CommittedIsSeen(s2, rows[k].id);
      }
    }
  }

  lemma Started(s: Sys, groupId: Data -> string)
    requires Inv(s) && s.pc.Idle?
    ensures var s1 := Next(s, StartDrain, groupId);
            var rows := RowsOf(s.db.queue, s.account.aci);
            && Inv(s1) && s1.db == s.db && s1.account == s.account && s1.pc == Ready(rows) && DistinctIds(rows)
            && s1.decoded == 0 && s1.failures == [] && s1.commits == s.commits
            && forall r :: r in rows ==> r in s.db.queue && r.account == s.account.aci
  {
    StepKeeps(s, StartDrain, groupId);
    RowsOfDistinct(s.db.queue, s.account.aci);
  }

  lemma Ended(s: Sys, groupId: Data -> string)
    ensures var s' := Next(s, EndDrain, groupId);
            && s'.db == s.db && s'.decoded == s.decoded && s'.failures == s.failures && s'.commits == s.commits
            && (s.pc == Ready([]) ==> s'.pc.Idle?)
  {
  }

  lemma CommittedIsSeen(s: Sys, id: string)
    requires Inv(s) && id in s.commits
    ensures (s.account.aci, id) in s.db.seen
  {
  }

  lemma {:induction false} WhichIds(rows: seq<Row>, plan: nat -> RowPlan, i: nat, k: nat)
    requires DistinctIds(rows) && k < |rows|
    ensures rows[k].id in Ids(rows, plan, i, false) <==> !RowFails(rows[k], plan(i + k))
    decreases |rows|
  {
    hide RowFails;
    assert forall j :: 0 <= j < |rows[1..]| ==> rows[1..][j] == rows[j + 1];
    if k > 0 {
      WhichIds(rows[1..], plan, i + 1, k - 1);
    } else {
      IdsAreIds(rows[1..], plan, i + 1);
    }
  }

  lemma {:induction false} IdsAreIds(rows: seq<Row>, plan: nat -> RowPlan, i: nat)
    ensures forall id :: id in Ids(rows, plan, i, false) ==> exists j :: 0 <= j < |rows| && rows[j].id == id
    decreases |rows|
  {
    if rows != [] {
      IdsAreIds(rows[1..], plan, i + 1);
      forall id | id in Ids(rows, plan, i, false)
        ensures exists j :: 0 <= j < |rows| && rows[j].id == id
      {
        if id in Ids(rows[1..], plan, i + 1, false) {
          var j :| 0 <= j < |rows[1..]| && rows[1..][j].id == id;
          assert rows[j + 1].id == id;
        } else {
          assert rows[0].id == id;
        }
      }
    }
  }

  // --- the count and the message table --------------------------------------------------------

  /** The account a row leaves and the message it brings, given the state it starts in. */
  function Brought(s: Sys, row: Row, p: RowPlan, groupId: Data -> string): (Account, Option<Item>) {
    Applied(s.account.(keys := p.keys), p.decrypt(row.envelope), groupId)
  }

  /** The row commits a text that goes into the table. */
  predicate Stores(s: Sys, row: Row, p: RowPlan, groupId: Data -> string) {
    var (a, item) := Brought(s, row, p, groupId);
    !RowFails(row, p) && item.Some? && Inserts(s.db.messages, a, item.value)
  }

  /** The row commits the deletion of a text in the table. */
  predicate Removes(s: Sys, row: Row, p: RowPlan, groupId: Data -> string) {
    var (a, item) := Brought(s, row, p, groupId);
    !RowFails(row, p) && item.Some? && Deletes(s.db.messages, a, item.value)
  }

  /** A text is kept already in the place of the row's. */
  predicate Occupied(s: Sys, row: Row, p: RowPlan, groupId: Data -> string) {
    var (a, item) := Brought(s, row, p, groupId);
    item.Some? && PlaceOf(a, item.value) in AfterDelete(s.db.messages, a, item.value)
  }

  /** Of these rows, the first of them handled in `s`: how many texts are inserted into the table. */
  function StoredCount(s: Sys, rows: seq<Row>, plan: nat -> RowPlan, i: nat, groupId: Data -> string): nat
    decreases |rows|
  {
    if rows == [] then 0
    else
      (if Stores(s, rows[0], plan(i), groupId) then 1 else 0)
      + StoredCount(Run(s, RowScript(plan(i)), groupId), rows[1..], plan, i + 1, groupId)
  }

  function RemovedCount(s: Sys, rows: seq<Row>, plan: nat -> RowPlan, i: nat, groupId: Data -> string): nat
    decreases |rows|
  {
    if rows == [] then 0
    else
      (if Removes(s, rows[0], plan(i), groupId) then 1 else 0)
      + RemovedCount(Run(s, RowScript(plan(i)), groupId), rows[1..], plan, i + 1, groupId)
  }

  /** The state in which row `k` starts, when row `i` started in `s`. */
  function StateAt(s: Sys, plan: nat -> RowPlan, i: nat, k: nat, groupId: Data -> string): Sys
    requires i <= k
  {
    Run(s, RowsScript(plan, i, k), groupId)
  }

  lemma {:induction false} ArrivalsKeepTable(s: Sys, incomings: seq<Incoming>, groupId: Data -> string)
    ensures Run(s, Arrivals(incomings), groupId).db.messages == s.db.messages
    decreases |incomings|
  {
    if incomings != [] {
      assert Arrivals(incomings)[1..] == Arrivals(incomings[1..]);
      ArrivalsKeepTable(Next(s, Arrives(incomings[0]), groupId), incomings[1..], groupId);
    }
  }

  /** What one row does to the message table. */
  lemma RowTable(s: Sys, p: RowPlan, groupId: Data -> string)
    requires s.pc.Ready? && s.pc.rows != []
    ensures var (row, ms, ms') := (s.pc.rows[0], s.db.messages, Run(s, RowScript(p), groupId).db.messages);
            && |ms'| == |ms| + (if Stores(s, row, p, groupId) then 1 else 0)
                        - (if Removes(s, row, p, groupId) then 1 else 0)
            && (RowFails(row, p) ==> ms' == ms)
            && (Occupied(s, row, p, groupId) && !Removes(s, row, p, groupId) ==> ms' == ms)
  {
    hide Run, Arrivals, RowScript, Normalized, Ingested, Inserts, Deletes, AfterDelete;
    RowScriptRuns(s, p, groupId);
    var begun := Next(s, BeginRow, groupId);
    ArrivalsKeepPc(begun, p.arrivals, groupId);
    ArrivalsKeepTable(begun, p.arrivals, groupId);
    var (a, item) := Brought(s, s.pc.rows[0], p, groupId);
    if item.Some? {
      TableGrows(s.db.messages, a, item.value);
      if Occupied(s, s.pc.rows[0], p, groupId) {
        NothingInserted(s.db.messages, a, item.value);
      }
    }
  }

  lemma NothingInserted(ms: Messages, a: Account, item: Item)
    requires PlaceOf(a, item) in AfterDelete(ms, a, item)
    ensures !Inserts(ms, a, item)
    ensures !Deletes(ms, a, item) ==> AfterDelete(ms, a, item) == ms
  {
    if item.data.deleteTarget != 0 && TargetOf(a, item) !in ms {
      assert ms - {TargetOf(a, item)} == ms;
    }
  }

  /** A counted text is stored, unless its transaction raises late or a text stands in its place. */
  lemma CountedOrNot(s: Sys, row: Row, p: RowPlan, groupId: Data -> string)
    ensures Stores(s, row, p, groupId) <==> CountsText(row, p) && !p.tx.RaisesLate? && !Occupied(s, row, p, groupId)
  {
    hide WithTimer, WithRevision, WithGroup, ChatOf, AfterDelete;
  }

  /** The table after the rows of a run: as large as before, plus the texts stored, less those deleted. */
  lemma {:induction false} TableConserved(s: Sys, plan: nat -> RowPlan, i: nat, n: nat, groupId: Data -> string)
    requires Inv(s) && s.pc.Ready? && i + |s.pc.rows| == n
    ensures |Run(s, RowsScript(plan, i, n), groupId).db.messages|
            == |s.db.messages| + StoredCount(s, s.pc.rows, plan, i, groupId)
               - RemovedCount(s, s.pc.rows, plan, i, groupId)
    decreases n - i
  {
    hide Inv, Next, RowScript, CountsText, RowFails, Stores, Removes, Occupied;
    if i < n {
      RunConcat(s, RowScript(plan(i)), RowsScript(plan, i + 1, n), groupId);
      RowEnds(s, plan(i), groupId);
      RowTable(s, plan(i), groupId);
      TableConserved(Run(s, RowScript(plan(i)), groupId), plan, i + 1, n, groupId);
    }
  }

  /** If the text of row `k` of these is counted, it is stored: it neither raises late nor finds a text in its place. */
  predicate Honest(s: Sys, rows: seq<Row>, plan: nat -> RowPlan, i: nat, k: nat, groupId: Data -> string)
    requires k < |rows|
  {
    CountsText(rows[k], plan(i + k)) ==>
      && !plan(i + k).tx.RaisesLate?
      && !Occupied(StateAt(s, plan, i, i + k, groupId), rows[k], plan(i + k), groupId)
  }

  /**
   * The count of decoded texts is never below the number of texts stored, and equals it exactly when
   * no counted row raised late or found a text in its place.
   */
  lemma {:induction false} CountIsTruthful(
    s: Sys, rows: seq<Row>, plan: nat -> RowPlan, i: nat, groupId: Data -> string)
    ensures StoredCount(s, rows, plan, i, groupId) <= TextCount(rows, plan, i)
    ensures StoredCount(s, rows, plan, i, groupId) == TextCount(rows, plan, i)
            <==> forall k :: 0 <= k < |rows| ==> Honest(s, rows, plan, i, k, groupId)
    decreases |rows|
  {
    hide CountsText, Stores, Occupied, Run, RowScript, Honest;
    if rows != [] {
      var s1, rest := Run(s, RowScript(plan(i)), groupId), rows[1..];
      CountedOrNot(s, rows[0], plan(i), groupId);
      FirstHonest(s, rows, plan, i, groupId);
      CountIsTruthful(s1, rest, plan, i + 1, groupId);
      var j := i + 1;
      forall k | 0 <= k < |rest|
        ensures Honest(s1, rest, plan, j, k, groupId) == Honest(s, rows, plan, i, k + 1, groupId)
      {
        LaterHonest(s, rows, plan, i, k + 1, groupId);
      }
      forall k | 0 < k < |rows|
        ensures Honest(s, rows, plan, i, k, groupId) == Honest(s1, rest, plan, j, k - 1, groupId)
      {
        LaterHonest(s, rows, plan, i, k, groupId);
      }
    }
  }

  lemma FirstHonest(s: Sys, rows: seq<Row>, plan: nat -> RowPlan, i: nat, groupId: Data -> string)
    requires rows != []
    ensures Honest(s, rows, plan, i, 0, groupId)
            <==> (CountsText(rows[0], plan(i)) ==> !plan(i).tx.RaisesLate? && !Occupied(s, rows[0], plan(i), groupId))
  {
    hide CountsText, Occupied, Run;
    RunNothing(s, groupId);
    assert StateAt(s, plan, i, i, groupId) == s;
  }

  lemma LaterHonest(s: Sys, rows: seq<Row>, plan: nat -> RowPlan, i: nat, k: nat, groupId: Data -> string)
    requires 0 < k < |rows|
    ensures Honest(s, rows, plan, i, k, groupId)
            == Honest(Run(s, RowScript(plan(i)), groupId), rows[1..], plan, i + 1, k - 1, groupId)
  {
    hide CountsText, Occupied, Run, RowScript;
    RunConcat(s, RowScript(plan(i)), RowsScript(plan, i + 1, i + k), groupId);
  }

  lemma RunNothing(s: Sys, groupId: Data -> string)
    ensures Run(s, [], groupId) == s
  {
  }

  /** The count a whole drain returns, against the message table it leaves. */
  lemma DrainCount(s: Sys, plan: nat -> RowPlan, groupId: Data -> string)
    requires Inv(s) && s.pc.Idle?
    ensures var rows := RowsOf(s.db.queue, s.account.aci);
            var s1 := Next(s, StartDrain, groupId);
            var s' := Run(s, [StartDrain] + RowsScript(plan, 0, |rows|) + [EndDrain], groupId);
            var stored := StoredCount(s1, rows, plan, 0, groupId);
            && |s'.db.messages| == |s.db.messages| + stored - RemovedCount(s1, rows, plan, 0, groupId)
            && stored <= s'.decoded
            && (stored == s'.decoded <==> forall k :: 0 <= k < |rows| ==> Honest(s1, rows, plan, 0, k, groupId))
  {
    hide Inv, Next, Run, RowsScript, CountsText, Honest, Stores, Removes, RowsOf;
    var rows := RowsOf(s.db.queue, s.account.aci);
    var s1 := Next(s, StartDrain, groupId);
    Started(s, groupId);
    TableConserved(s1, plan, 0, |rows|, groupId);
    CountIsTruthful(s1, rows, plan, 0, groupId);
    RowsEnd(s1, plan, 0, |rows|, groupId);
    DrainScriptRuns(s, RowsScript(plan, 0, |rows|), groupId);
    Ended(Run(s1, RowsScript(plan, 0, |rows|), groupId), groupId);
  }

  // --- two drains that count too much ---------------------------------------------------------

  const ME := Account("me", None, None, [], [], [])
  const GREETING := Content("hi", 5, 0, None, false, None)
  const QUEUED := Row("me", "1", [1, 2, 3], 0)

  /** One envelope queued, these texts kept, nothing else. */
  function OneQueued(ms: Messages): Sys {
    Loaded(Db([QUEUED], {}, ms, map["me" := ME]), ME)
  }

  /** That envelope, and no other, turns out to be a greeting from "you". */
  function Greets(tx: TxFault): RowPlan {
    RowPlan([], [], (envelope: Data) => if envelope == [1, 2, 3] then
                                          Yields(Decoded("you", 5, false, None, Some(GREETING)))
                                        else Raises, tx)
  }

  /** One greeting drained: it is counted, and the table grows by it only if it commits into a free place. */
  lemma GreetingDrained(ms: Messages, tx: TxFault, groupId: Data -> string)
    requires !tx.RaisesEarly?
    ensures var plan := (k: nat) => Greets(tx);
            var s' := Run(OneQueued(ms), [StartDrain] + RowsScript(plan, 0, 1) + [EndDrain], groupId);
            && s'.decoded == 1
            && |s'.db.messages|
               == |ms| + if tx.Commits? && MsgKey("me", "you", "you", 5) !in ms then 1 else 0
  {
    hide Run, RowsScript, RowScript;
    var plan := (k: nat) => Greets(tx);
    var s := OneQueued(ms);
    LoadedIsSafe(s.db, ME);
    OneRowQueued(ms);
    DrainOutcome(s, plan, groupId);
    DrainCount(s, plan, groupId);
    var s1 := Next(s, StartDrain, groupId);
    GreetingStored(s1, tx, groupId);
    OneRowCounts(s1, QUEUED, plan, groupId);
  }

  lemma OneRowQueued(ms: Messages)
    ensures RowsOf(OneQueued(ms).db.queue, "me") == [QUEUED]
  {
    assert [QUEUED][1..] == [];
  }

  lemma GreetingStored(s: Sys, tx: TxFault, groupId: Data -> string)
    requires s.account == ME && !tx.RaisesEarly?
    ensures CountsText(QUEUED, Greets(tx)) && !Removes(s, QUEUED, Greets(tx), groupId)
    ensures Stores(s, QUEUED, Greets(tx), groupId) <==> tx.Commits? && MsgKey("me", "you", "you", 5) !in s.db.messages
  {
  }

  lemma OneRowCounts(s: Sys, row: Row, plan: nat -> RowPlan, groupId: Data -> string)
    ensures StoredCount(s, [row], plan, 0, groupId) == if Stores(s, row, plan(0), groupId) then 1 else 0
    ensures RemovedCount(s, [row], plan, 0, groupId) == if Removes(s, row, plan(0), groupId) then 1 else 0
    ensures TextCount([row], plan, 0) == if CountsText(row, plan(0)) then 1 else 0
  {
    hide Stores, Removes, CountsText, Run;
    var s1 := Run(s, RowScript(plan(0)), groupId);
    assert [row][1..] == [];
    assert StoredCount(s1, [], plan, 1, groupId) == 0 && RemovedCount(s1, [], plan, 1, groupId) == 0;
    assert TextCount([], plan, 1) == 0;
  }

  /** A committed greeting whose place is taken, and one whose transaction raises late: both counted, neither stored. */
  lemma CountedButNotStored(groupId: Data -> string)
    ensures var plan := (k: nat) => Greets(Commits);
            var s := OneQueued(map[MsgKey("me", "you", "you", 5) := "hello"]);
            var s' := Run(s, [StartDrain] + RowsScript(plan, 0, 1) + [EndDrain], groupId);
            s'.decoded == 1 && |s'.db.messages| == 1
    ensures var plan := (k: nat) => Greets(RaisesLate);
            var s' := Run(OneQueued(map[]), [StartDrain] + RowsScript(plan, 0, 1) + [EndDrain], groupId);
            s'.decoded == 1 && s'.db.messages == map[]
  {
    hide Run, RowsScript;
    var taken: Messages := map[MsgKey("me", "you", "you", 5) := "hello"];
    GreetingDrained(taken, Commits, groupId);
    GreetingDrained(map[], RaisesLate, groupId);
    assert |taken| == 1;
  }
}
