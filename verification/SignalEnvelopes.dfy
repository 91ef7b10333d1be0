/**
 * The bytes behind an acknowledgement: which envelope a queue row holds, that nothing alters it while it
 * waits, and that what is committed for it is what decrypting those very bytes gave.
 */
module SignalEnvelopes {
  import opened Wrappers
  import opened SignalText
  import opened SignalQueue

  /** The callback gets as far as its insertion. */
  predicate Inserting(incoming: Incoming) {
    incoming.fault.NoFault? || incoming.fault.AckRaises?
  }

  ghost predicate Known(s: Sys, id: string) {
    Queued(s.db.queue, s.account.aci, id) || (s.account.aci, id) in s.db.seen
  }

  /** The row that keeps an incoming envelope: its own bytes and timestamp. */
  function RowFor(account: string, incoming: Incoming): Row {
    Row(account, incoming.id, incoming.envelope, incoming.timestamp)
  }

  /**
   * An arrival under a new id goes behind the queue with its envelope; any other leaves the queue as it is. It is
   * acknowledged and counted exactly if nothing raises, and otherwise noted as an error.
   */
  lemma ArrivalStored(s: Sys, incoming: Incoming, groupId: Data -> string)
    ensures var q, q' := s.db.queue, Next(s, Arrives(incoming), groupId).db.queue;
            q' == if Inserting(incoming) && !Known(s, incoming.id) then
                    q + [Row(s.account.aci, incoming.id, incoming.envelope, incoming.timestamp)]
                  else q
    ensures var s' := Next(s, Arrives(incoming), groupId);
            && s'.acked == s.acked + (if incoming.fault == NoFault then {incoming.id} else {})
            && s'.count == s.count + (if incoming.fault == NoFault then 1 else 0)
            && s'.error == (s.error || incoming.fault != NoFault)
            && s'.account == s.account && s'.pc == s.pc
            && s'.db == s.db.(queue := s'.db.queue)
  {
  }

  // --- one step -----------------------------------------------------------------------------

  /** Row `i` leaves, the others close up. */
  function Dropped(queue: seq<Row>, i: nat): seq<Row>
    requires i < |queue|
  {
    queue[..i] + queue[i + 1..]
  }

  lemma {:induction false} WithoutOne(queue: seq<Row>, i: nat)
    requires DistinctRows(queue) && i < |queue|
    ensures Without(queue, queue[i].account, queue[i].id) == Dropped(queue, i)
    decreases |queue|
  {
    hide DistinctRows;
    var rest, r := queue[1..], queue[i];
    DistinctRest(queue, i);
    if i == 0 {
      WithoutNone(rest, r.account, r.id);
      assert Dropped(queue, 0) == rest;
    } else {
      WithoutOne(rest, i - 1);
      assert rest[i - 1] == r;
      DroppedBehind(queue, i);
      hide Dropped;
      assert Without(queue, r.account, r.id) == [queue[0]] + Without(rest, r.account, r.id);
    }
  }

  lemma DroppedBehind(queue: seq<Row>, i: nat)
    requires 0 < i < |queue|
    ensures Dropped(queue, i) == [queue[0]] + Dropped(queue[1..], i - 1)
  {
  }

  lemma DistinctRest(queue: seq<Row>, i: nat)
    requires DistinctRows(queue) && i < |queue|
    ensures DistinctRows(queue[1..])
    ensures i > 0 ==> (queue[0].account, queue[0].id) != (queue[i].account, queue[i].id)
    ensures i == 0 ==> forall r :: r in queue[1..] ==> !(r.account == queue[0].account && r.id == queue[0].id)
  {
    var rest := queue[1..];
    assert forall j :: 0 <= j < |rest| ==> rest[j] == queue[j + 1];
  }

  lemma {:induction false} WithoutNone(queue: seq<Row>, account: string, id: string)
    requires forall r :: r in queue ==> !(r.account == account && r.id == id)
    ensures Without(queue, account, id) == queue
    decreases |queue|
  {
    if queue != [] {
      assert queue[0] in queue;
      assert forall r :: r in queue[1..] ==> r in queue;
      WithoutNone(queue[1..], account, id);
    }
  }

  /** The row being decrypted is committed by this step. */
  predicate CommitsRow(s: Sys, e: Event) {
    s.pc.Decrypting? && e.EndRow? && e.tx.Commits? && !e.decrypt(s.pc.row.envelope).Raises?
  }

  /** A step appends an arrival, drops the row it commits, or leaves the queue alone, rows, order and all. */
  lemma QueueStep(s: Sys, e: Event, groupId: Data -> string)
    requires Inv(s)
    ensures var q, q' := s.db.queue, Next(s, e, groupId).db.queue;
            if CommitsRow(s, e) then exists i :: 0 <= i < |q| && q[i] == s.pc.row && q' == Dropped(q, i)
            else if e.Arrives? && Inserting(e.incoming) && !Known(s, e.incoming.id) then
              q' == q + [RowFor(s.account.aci, e.incoming)]
            else q' == q
  {
    if CommitsRow(s, e) {
      AfterCommit(s, e.decrypt, groupId);
      RestWaits(s);
      var i :| 0 <= i < |s.db.queue| && s.db.queue[i] == s.pc.row;
      WithoutOne(s.db.queue, i);
    } else if e.Arrives? {
      ArrivalStored(s, e.incoming, groupId);
    } else if s.pc.Decrypting? && e.EndRow? {
      FailingRowHarmless(s, e.decrypt, e.tx, groupId);
    }
  }

  /** What a commit does, told by the envelope of the row: the account, the messages and the seen id. */
  lemma CommittedOutcome(s: Sys, e: Event, groupId: Data -> string)
    requires Inv(s) && CommitsRow(s, e)
    ensures var s' := Next(s, e, groupId);
            var (account, item) := Applied(s.account, e.decrypt(s.pc.row.envelope), groupId);
            && s'.account == account && s'.db.state[account.aci] == account
            && s'.db.messages == TextOf(s.db.messages, account, item).0
            && (s.account.aci, s.pc.row.id) in s'.db.seen
  {
    hide Normalized, Ingested, Without;
    RestoreIsExact(s, e.decrypt(s.pc.row.envelope), groupId);
  }

  lemma KnownStays(s: Sys, e: Event, id: string, groupId: Data -> string)
    requires Inv(s) && Known(s, id)
    ensures Known(Next(s, e, groupId), id)
  {
    var s' := Next(s, e, groupId);
    StepKeeps(s, e, groupId);
    QueueStep(s, e, groupId);
    SeenStays(s, e, id, groupId);
    if (s.account.aci, id) !in s.db.seen && !(CommitsRow(s, e) && id == s.pc.row.id) {
      var j :| 0 <= j < |s.db.queue| && s.db.queue[j].account == s.account.aci && s.db.queue[j].id == id;
      RowStays(s, e, s.db.queue[j], groupId);
    }
  }

  lemma SeenStays(s: Sys, e: Event, id: string, groupId: Data -> string)
    requires Inv(s)
    ensures (s.account.aci, id) in s.db.seen ==> (s.account.aci, id) in Next(s, e, groupId).db.seen
    ensures CommitsRow(s, e) ==> (s.account.aci, s.pc.row.id) in Next(s, e, groupId).db.seen
  {
    if CommitsRow(s, e) {
      AfterCommit(s, e.decrypt, groupId);
    } else if s.pc.Decrypting? && e.EndRow? {
      FailingRowHarmless(s, e.decrypt, e.tx, groupId);
    }
  }

  /** A row is not altered: it stays as it is until its own commit. */
  lemma RowStays(s: Sys, e: Event, r: Row, groupId: Data -> string)
    requires Inv(s) && r in s.db.queue && !(CommitsRow(s, e) && s.pc.row == r)
    ensures r in Next(s, e, groupId).db.queue
  {
    hide Inv, Next, Known, Dropped;
    QueueStep(s, e, groupId);
    var q := s.db.queue;
    if CommitsRow(s, e) {
      var i :| 0 <= i < |q| && q[i] == s.pc.row && Next(s, e, groupId).db.queue == Dropped(q, i);
      OthersStay(q, i, r);
    }
  }

  lemma OthersStay(queue: seq<Row>, i: nat, r: Row)
    requires i < |queue| && r in queue && r != queue[i]
    ensures r in Dropped(queue, i)
  {
    var j :| 0 <= j < |queue| && queue[j] == r;
    assert j < i ==> Dropped(queue, i)[j] == r;
    assert j > i ==> Dropped(queue, i)[j - 1] == r;
  }

  // --- whole runs -----------------------------------------------------------------------------

  lemma RunStep(s: Sys, es: seq<Event>, k: nat, groupId: Data -> string)
    requires k < |es| && Inv(s)
    ensures Run(s, es[..k + 1], groupId) == Next(Run(s, es[..k], groupId), es[k], groupId)
    ensures Inv(Run(s, es[..k], groupId)) && Run(s, es[..k], groupId).account.aci == s.account.aci
  {
    hide Next, Inv;
    assert es[..k + 1] == es[..k] + [es[k]];
    RunConcat(s, es[..k], [es[k]], groupId);
    var s' := Run(s, es[..k], groupId);
    assert [es[k]][1..] == [];
    assert Run(Next(s', es[k], groupId), [], groupId) == Next(s', es[k], groupId);
    RunKeeps(s, es[..k], groupId);
    SameAccount(s, es[..k], groupId);
  }

  lemma {:induction false} SameAccount(s: Sys, es: seq<Event>, groupId: Data -> string)
    requires Inv(s)
    ensures Run(s, es, groupId).account.aci == s.account.aci
    decreases |es|
  {
    hide Inv, Next;
    if es != [] {
      StepKeeps(s, es[0], groupId);
      SameAccount(Next(s, es[0], groupId), es[1..], groupId);
    }
  }

  /** Event `k` stored row `r`: its id was new, and the row holds that arrival's envelope and timestamp. */
  ghost predicate StoredBy(s: Sys, es: seq<Event>, k: nat, r: Row, groupId: Data -> string) {
    && k < |es| && es[k].Arrives? && Inserting(es[k].incoming)
    && r == Row(s.account.aci, es[k].incoming.id, es[k].incoming.envelope, es[k].incoming.timestamp)
    && !Known(Run(s, es[..k], groupId), r.id)
  }

  /** Every row of the queue was there from the start or holds the envelope of the arrival that stored it. */
  lemma {:induction false} RowsHoldArrivals(s: Sys, es: seq<Event>, r: Row, groupId: Data -> string)
    requires Inv(s) && r in Run(s, es, groupId).db.queue && r !in s.db.queue
    ensures exists k: nat :: StoredBy(s, es, k, r, groupId)
    decreases |es|
  {
    hide Inv, Next, Known;
    if |es| == 0 {
      assert false;
    }
    var n := |es| - 1;
    assert es[..n + 1] == es;
    RunStep(s, es, n, groupId);
    var before := Run(s, es[..n], groupId);
    if r in before.db.queue {
      RowsHoldArrivals(s, es[..n], r, groupId);
      var k: nat :| StoredBy(s, es[..n], k, r, groupId);
      assert es[..n][..k] == es[..k];
      assert StoredBy(s, es, k, r, groupId);
    } else {
      QueueStep(before, es[n], groupId);
      assert StoredBy(s, es, n, r, groupId);
    }
  }

  /** No earlier arrival under that id got as far as its insertion: the row holds the first one's envelope. */
  lemma {:induction false} FirstArrival(s: Sys, es: seq<Event>, j: nat, k: nat, r: Row, groupId: Data -> string)
    requires Inv(s) && StoredBy(s, es, k, r, groupId) && j < k
    ensures !(es[j].Arrives? && Inserting(es[j].incoming) && es[j].incoming.id == r.id)
  {
    hide Inv, Next, Known;
    if es[j].Arrives? && Inserting(es[j].incoming) && es[j].incoming.id == r.id {
      RunStep(s, es, j, groupId);
      var before := Run(s, es[..j], groupId);
      NowKnown(before, es[j].incoming, groupId);
      KnownFrom(s, es, j + 1, k, r.id, groupId);
      assert false;
    }
  }

  lemma NowKnown(s: Sys, incoming: Incoming, groupId: Data -> string)
    requires Inv(s) && Inserting(incoming)
    ensures Known(Next(s, Arrives(incoming), groupId), incoming.id)
  {
    if Known(s, incoming.id) {
      KnownStays(s, Arrives(incoming), incoming.id, groupId);
    } else {
      ArrivalStored(s, incoming, groupId);
      var q := Next(s, Arrives(incoming), groupId).db.queue;
      assert q[|q| - 1] == RowFor(s.account.aci, incoming);
    }
  }

  lemma {:induction false} KnownFrom(s: Sys, es: seq<Event>, j: nat, k: nat, id: string, groupId: Data -> string)
    requires Inv(s) && j <= k <= |es| && Known(Run(s, es[..j], groupId), id)
    ensures Known(Run(s, es[..k], groupId), id)
    decreases k - j
  {
    hide Inv, Next, Known;
    if j < k {
      RunStep(s, es, j, groupId);
      KnownStays(Run(s, es[..j], groupId), es[j], id, groupId);
      KnownFrom(s, es, j + 1, k, id, groupId);
    }
  }

  /** Event `m` commits row `r`, with what its envelope decrypts to. */
  ghost predicate CommittedBy(s: Sys, es: seq<Event>, m: nat, r: Row, groupId: Data -> string) {
    && m < |es| && CommitsRow(Run(s, es[..m], groupId), es[m]) && Run(s, es[..m], groupId).pc.row == r
  }

  /** A row queued at some point is queued, unaltered, at the end, or was committed on the way. */
  lemma {:induction false} QueuedOrCommitted(s: Sys, es: seq<Event>, k: nat, r: Row, groupId: Data -> string)
    requires Inv(s) && k <= |es| && r in Run(s, es[..k], groupId).db.queue
    ensures r in Run(s, es, groupId).db.queue || exists m: nat :: k <= m && CommittedBy(s, es, m, r, groupId)
    decreases |es| - k
  {
    hide Inv, Next;
    if k == |es| {
      assert es[..k] == es;
    } else {
      RunStep(s, es, k, groupId);
      var before := Run(s, es[..k], groupId);
      if CommitsRow(before, es[k]) && before.pc.row == r {
        assert CommittedBy(s, es, k, r, groupId);
      } else {
        RowStays(before, es[k], r, groupId);
        QueuedOrCommitted(s, es, k + 1, r, groupId);
      }
    }
  }

  /**
   * An envelope acknowledged under a new id is not lost: at the end of any run a row with its very bytes
   * is still queued, or what those bytes decrypt to was committed.
   */
  lemma AcknowledgedIsKept(s: Sys, es: seq<Event>, k: nat, groupId: Data -> string)
    requires Inv(s) && k < |es| && es[k].Arrives? && es[k].incoming.fault.NoFault?
    requires !Known(Run(s, es[..k], groupId), es[k].incoming.id)
    ensures es[k].incoming.id in Run(s, es[..k + 1], groupId).acked
    ensures var r := Row(s.account.aci, es[k].incoming.id, es[k].incoming.envelope, es[k].incoming.timestamp);
            || r in Run(s, es, groupId).db.queue
            || exists m: nat :: k < m && CommittedBy(s, es, m, r, groupId)
  {
    hide Inv, Known;
    RunStep(s, es, k, groupId);
    var before, incoming := Run(s, es[..k], groupId), es[k].incoming;
    ArrivalStored(before, incoming, groupId);
    var r := RowFor(s.account.aci, incoming);
    var q := Run(s, es[..k + 1], groupId).db.queue;
    assert q[|q| - 1] == r;
    QueuedOrCommitted(s, es, k + 1, r, groupId);
  }

  // --- the order of rows ----------------------------------------------------------------------------

  /** A drain's rows are the account's own, in queue order. */
  lemma {:induction false} RowsInOrder(a: seq<Row>, b: seq<Row>, r: Row, account: string)
    ensures RowsOf(a + b, account) == RowsOf(a, account) + RowsOf(b, account)
    ensures RowsOf([r], account) == if r.account == account then [r] else []
    decreases |a|
  {
    assert [r][1..] == [];
    if a == [] {
      assert a + b == b;
    } else {
      assert (a + b)[1..] == a[1..] + b;
      RowsInOrder(a[1..], b, r, account);
    }
  }

  /** The row a drain begins with is the first of those left, and it is in the queue. */
  lemma RowBegun(s: Sys, groupId: Data -> string)
    requires Inv(s) && s.pc.Ready? && s.pc.rows != []
    ensures var s' := Next(s, BeginRow, groupId);
            s'.pc == Decrypting(s.pc.rows[0], s.pc.rows[1..], s.account) && s.pc.rows[0] in s'.db.queue
  {
    assert s.pc.rows[0] in Pending(s.pc);
  }
}
