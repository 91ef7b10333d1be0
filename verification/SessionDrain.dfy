/** The session object, and draining it against an exact clock. */
module SessionDrain {
  import opened Sequences
  import opened Nodes
  import opened Session
  import opened SessionOwed
  import opened SessionWaiters
  import opened Jids

  /**
   * What happens while the drain sleeps: the reader decodes a stanza or finds the socket closed, or
   * another task starts a request, gives up waiting, or leaves one.
   */
  datatype Happening =
    | Stanza(node: Node, extras: seq<string>)
    | HangUp
    | Asks(kind: Kind, id: string)
    | GivesUp(waiter: nat)
    | Leaves(waiter: nat)

  datatype Arrival = Arrival(at: real, what: Happening) {
    function Event(): Session.Event {
      match what
      case Stanza(n, extras) => Frame(n, at, extras)
      case HangUp => Close
      case Asks(k, id) => Register(k, id)
      case GivesUp(f) => Cancel(f)
      case Leaves(f) => Finish(f)
    }

    /** Only the reader's own doings end with the socket. */
    predicate Heeded(disconnected: bool) {
      !disconnected || !(what.Stanza? || what.HangUp?)
    }
  }

  /** Has the socket been found closed after these happenings? */
  function Off(arrivals: seq<Arrival>, off: bool): bool {
    if arrivals == [] then off
    else Off(arrivals[..|arrivals| - 1], off) || arrivals[|arrivals| - 1].what.HangUp?
  }

  /** The event of the last happening, if it is heeded. */
  function LastHeard(arrivals: seq<Arrival>, off: bool): seq<Event>
    requires arrivals != []
  {
    var n := |arrivals| - 1;
    if arrivals[n].Heeded(Off(arrivals[..n], off)) then [arrivals[n].Event()] else []
  }

  /** The events of all the happenings that are heeded, in order. */
  function HeardOf(arrivals: seq<Arrival>, off: bool): seq<Event> {
    if arrivals == [] then []
    else HeardOf(arrivals[..|arrivals| - 1], off) + LastHeard(arrivals, off)
  }

  /** The same with the keepalives' registrations merged in by time, after whatever happened at that time. */
  function Merged(arrivals: seq<Arrival>, off: bool, pings: seq<real>, freshId: nat -> string): seq<Event>
    decreases |arrivals| + |pings|
  {
    if pings != [] && (arrivals == [] || arrivals[|arrivals| - 1].at <= pings[|pings| - 1]) then
      Merged(arrivals, off, pings[..|pings| - 1], freshId) + [Register(Iq, freshId(|pings| - 1))]
    else if arrivals == [] then []
    else Merged(arrivals[..|arrivals| - 1], off, pings, freshId) + LastHeard(arrivals, off)
  }

  /** The keepalive query. */
  function KeepaliveQuery(id: string): Node {
    Node("iq",
         [Attr("to", Address(SERVER)), Attr("type", Text("get")), Attr("id", Text(id)), Attr("xmlns", Text("w:p"))],
         Children([Node("ping", [], Absent)]))
  }

  /** Of `n` keepalives, tried from the `first` on, the ones that get out. */
  function Queries(ok: nat -> bool, freshId: nat -> string, first: nat, n: nat): seq<Node> {
    if n == 0 then []
    else
      Queries(ok, freshId, first, n - 1) + if ok(first + n - 1) then [KeepaliveQuery(freshId(n - 1))] else []
  }

  ghost predicate Upcoming(now: real, incoming: seq<Arrival>) {
    && (forall i :: 0 <= i < |incoming| ==> incoming[i].at > now)
    && forall i, j :: 0 <= i < j < |incoming| ==> incoming[i].at <= incoming[j].at
  }

  /** The idle clock since stanza number `from`: it stands at the latest unsolicited one. */
  ghost predicate IdleClock(s: State, from: nat, now: real) {
    && from <= |s.heard|
    && s.lastUnsolicited <= now
    && forall i :: from <= i < |s.heard| ==> s.heard[i] <= s.lastUnsolicited
  }

  const KEEPALIVE := 20.0
  const SHORTEST := 0.05
  const LONGEST := 0.25

  datatype Reason = Disconnected | HardCap | CaughtUp

  /** Times at least 20 and less than 20.05 seconds apart, the first so far from `started`. */
  ghost predicate Spaced(started: real, times: seq<real>) {
    forall i :: 0 <= i < |times| ==> KEEPALIVE <= Gap(started, times, i) < KEEPALIVE + SHORTEST
  }

  function Gap(started: real, times: seq<real>, i: nat): real
    requires i < |times|
  {
    times[i] - if i == 0 then started else times[i - 1]
  }

  function MinOf(a: real, b: real): real {
    if a < b then a else b
  }

  function MaxOf(a: real, b: real): real {
    if a < b then b else a
  }

  class InboundSession {
    const config: Config
    var waiters: seq<Waiter>
    var iq: map<string, nat>
    var ack: map<string, nat>
    var framesSeen: nat
    var disconnected: bool
    var lastUnsolicited: real
    var attempts: nat
    ghost var replies: seq<Node>
    ghost var delivered: seq<Node>
    ghost var heard: seq<real>
    /** The clock, and what the socket will bring, in order. */
    var now: real
    var incoming: seq<Arrival>
    /** Keepalive queries that got out, how many were tried, and which of them get out. */
    ghost var queries: seq<Node>
    var tried: nat
    /** When keepalives were tried. */
    ghost var pingTimes: seq<real>
    const pingOk: nat -> bool

    ghost function View(): State
      reads this`waiters, this`iq, this`ack, this`framesSeen, this`disconnected, this`lastUnsolicited
      reads this`replies, this`attempts, this`delivered, this`heard
    {
      State(waiters, iq, ack, framesSeen, disconnected, lastUnsolicited, replies, attempts, delivered, heard)
    }

    ghost predicate Valid()
      reads this`waiters, this`iq, this`ack, this`framesSeen, this`disconnected, this`lastUnsolicited
      reads this`replies, this`attempts, this`delivered, this`heard
    {
      TablesPoint(View())
    }

    lemma SeenFrames()
      ensures View().framesSeen == framesSeen
    {
    }

    lemma ViewFields()
      ensures View().lastUnsolicited == lastUnsolicited && View().heard == heard
    {
    }

    /** What only the drain itself moves. */
    ghost function Outside(): (real, seq<Arrival>, seq<Node>, nat, seq<real>)
      reads this`now, this`incoming, this`queries, this`tried, this`pingTimes
    {
      (now, incoming, queries, tried, pingTimes)
    }

    constructor (config: Config, pingOk: nat -> bool, now: real, incoming: seq<Arrival>)
      ensures this.pingOk == pingOk && queries == [] && tried == 0 && pingTimes == []
      ensures Valid() && this.config == config && View() == START.(lastUnsolicited := now)
      ensures this.now == now && this.incoming == incoming
    {
      this.config, this.pingOk, queries, tried, pingTimes := config, pingOk, [], 0, [];
      waiters, iq, ack := [], map[], map[];
      framesSeen, disconnected, lastUnsolicited, attempts := 0, false, now, 0;
      replies, delivered, heard := [], [], [];
      this.now, this.incoming := now, incoming;
    }

    /** One of the reader's sends; a failed one raises in the caller. */
    method SendNode(node: Node) returns (ok: bool)
      modifies this`attempts, this`replies
      ensures ok == config.sendOk(old(attempts)) && attempts == old(attempts) + 1
      ensures replies == old(replies) + if ok then [node] else []
    {
      ok := config.sendOk(attempts);
      attempts := attempts + 1;
      if ok {
        replies := replies + [node];
      }
    }

    method SendProtocolReceipts(n: Node, kinds: seq<string>)
      modifies this`attempts, this`replies
      ensures var rs := ProtocolReceipts(config.own, n, kinds);
              && replies == old(replies) + GotOut(config.sendOk, old(attempts), rs)
              && attempts == Attempted(config.sendOk, old(attempts), rs)
    {
      ghost var rs := ProtocolReceipts(config.own, n, kinds);
      for i := 0 to |kinds|
        invariant replies + GotOut(config.sendOk, attempts, ProtocolReceipts(config.own, n, kinds[i..]))
                  == old(replies) + GotOut(config.sendOk, old(attempts), rs)
        invariant Attempted(config.sendOk, attempts, ProtocolReceipts(config.own, n, kinds[i..]))
                  == Attempted(config.sendOk, old(attempts), rs)
      {
        ghost var rest := ProtocolReceipts(config.own, n, kinds[i..]);
        assert kinds[i..][1..] == kinds[i + 1..];
        assert rest == [ProtocolReceipt(config.own, n, kinds[i])] + ProtocolReceipts(config.own, n, kinds[i + 1..]);
        assert rest[1..] == ProtocolReceipts(config.own, n, kinds[i + 1..]);
        Regroup(replies, [rest[0]], GotOut(config.sendOk, attempts + 1, rest[1..]));
        var ok := SendNode(ProtocolReceipt(config.own, n, kinds[i]));
        if !ok {
          assert replies + [] == replies;
          return;
        }
      }
      assert replies + [] == replies;
    }

    method SetAnswer(f: nat, n: Node)
      modifies this`waiters
      ensures waiters == SetOutcome(old(waiters), f, Answered(n))
    {
      if f < |waiters| && waiters[f].outcome.Pending? {
        waiters := waiters[f := waiters[f].(outcome := Answered(n))];
      }
    }

    lemma FrameHandled(c: Config, s: State, n: Node, now: real, extras: seq<string>)
      ensures Next(c, s, Frame(n, now, extras)) == Handled(c, s, n, now, extras)
    {
    }

    /** Dispatches one decoded stanza; a send that fails abandons the stanza's remaining replies. */
    method Handle(n: Node, extras: seq<string>)
      requires Valid()
      modifies this`framesSeen, this`waiters, this`lastUnsolicited, this`heard
      modifies this`attempts, this`replies, this`delivered
      ensures Valid() && View() == Next(config, old(View()), Frame(n, now, extras))
    {
      hide Responses, GotOut, Attempted, SetOutcome, TablesPoint, IdOf, Next;
      StepPoints(config, View(), Frame(n, now, extras));
      FrameHandled(config, View(), n, now, extras);
      framesSeen := framesSeen + 1;
      var id := IdOf(n);
      if n.tag == "iq" && id in iq {
        SetAnswer(iq[id], n);
        return;
      }
      if n.tag == "ack" && id in ack {
        SetAnswer(ack[id], n);
        return;
      }
      lastUnsolicited := now;
      heard := heard + [now];
      Reply(n, extras);
    }

    /** The replies of an unsolicited stanza, after handing a message to the callback. */
    method Reply(n: Node, extras: seq<string>)
      modifies this`attempts, this`replies, this`delivered
      ensures var rs := Responses(config.own, n, if config.hasHook then extras else []);
              && replies == old(replies) + GotOut(config.sendOk, old(attempts), rs)
              && attempts == Attempted(config.sendOk, old(attempts), rs)
      ensures delivered == old(delivered) + if n.tag == "message" && config.hasHook then [n] else []
    {
      assert replies + [] == replies && delivered + [] == delivered;
      if n.tag == "iq" {
        if IsServerPing(n) || Get(n.attrs, "type") == Text("set") {
          var _ := SendNode(IqResult(n));
        }
        return;
      }
      if n.tag == "message" {
        if config.hasHook {
          delivered := delivered + [n];
        }
        MessageReplies(n, if config.hasHook then extras else []);
        return;
      }
      if n.tag == "notification" || n.tag == "call" || n.tag == "receipt" {
        var _ := SendNode(AckOf(n));
      }
    }

    method MessageReplies(n: Node, extras: seq<string>)
      requires n.tag == "message"
      modifies this`attempts, this`replies
      ensures var rs := Responses(config.own, n, extras);
              && replies == old(replies) + GotOut(config.sendOk, old(attempts), rs)
              && attempts == Attempted(config.sendOk, old(attempts), rs)
    {
      hide AckOf, ReceiptOf, Own.IsEcho, ExtraKinds, ProtocolReceipts, GotOut, Attempted;
      ghost var before := replies;
      ghost var tail := if config.own.IsEcho(n) then ProtocolReceipts(config.own, n, ExtraKinds(n, extras)) else [];
      TwoReplies(config.sendOk, attempts, AckOf(n), ReceiptOf(config.own, n), tail);
      Regroup(before, [AckOf(n)], [ReceiptOf(config.own, n)]);
      var acked := SendNode(AckOf(n));
      if !acked {
        return;
      }
      var sent := SendNode(ReceiptOf(config.own, n));
      if !sent {
        return;
      }
      ghost var both := [AckOf(n), ReceiptOf(config.own, n)];
      Regroup(before, both, GotOut(config.sendOk, attempts, tail));
      if config.own.IsEcho(n) {
        SendProtocolReceipts(n, ExtraKinds(n, extras));
      } else {
        NoReplies(config.sendOk, attempts);
        assert both + [] == both;
      }
    }

    lemma NoReplies(ok: nat -> bool, k: nat)
      ensures GotOut(ok, k, []) == [] && Attempted(ok, k, []) == k
    {
    }

    /** What gets out of two replies and some more. */
    lemma TwoReplies(ok: nat -> bool, k: nat, a: Node, b: Node, tail: seq<Node>)
      ensures GotOut(ok, k, [a, b] + tail)
              == if !ok(k) then [] else if !ok(k + 1) then [a] else [a, b] + GotOut(ok, k + 2, tail)
      ensures Attempted(ok, k, [a, b] + tail)
              == if !ok(k) then k + 1 else if !ok(k + 1) then k + 2 else Attempted(ok, k + 2, tail)
    {
      var rs := [a, b] + tail;
      assert rs[1..] == [b] + tail && rs[1..][1..] == tail;
      assert [a, b] + GotOut(ok, k + 2, tail) == [a] + ([b] + GotOut(ok, k + 2, tail));
    }

    method MakeFuture(kind: Kind, id: string)
      requires Valid()
      modifies this
      ensures Valid() && View() == Next(config, old(View()), Register(kind, id))
      ensures Outside() == old(Outside())
    {
      StepPoints(config, View(), Register(kind, id));
      if kind.Iq? {
        iq := iq[id := |waiters|];
      } else {
        ack := ack[id := |waiters|];
      }
      waiters := waiters + [Waiter(kind, id, Pending)];
    }

    /** A waiter's owner leaves, answered or not: the id goes from its table, whoever stands there. */
    method Leave(f: nat)
      requires Valid()
      modifies this
      ensures Valid() && View() == Next(config, old(View()), Finish(f))
      ensures Outside() == old(Outside())
    {
      StepPoints(config, View(), Finish(f));
      if f < |waiters| {
        if waiters[f].kind.Iq? {
          iq := iq - {waiters[f].id};
        } else {
          ack := ack - {waiters[f].id};
        }
      }
    }

    /** A task stops waiting: its future is cancelled if it is still pending. */
    method GiveUp(f: nat)
      requires Valid()
      modifies this
      ensures Valid() && View() == Next(config, old(View()), Cancel(f))
      ensures Outside() == old(Outside())
    {
      StepPoints(config, View(), Cancel(f));
      if f < |waiters| && waiters[f].outcome.Pending? {
        waiters := waiters[f := waiters[f].(outcome := Cancelled)];
      }
    }

    method FailBucket(table: map<string, nat>)
      requires forall id :: id in table ==> table[id] < |waiters|
      modifies this`waiters
      ensures waiters == FailEach(old(waiters), table) && |waiters| == |old(waiters)|
    {
      var ids := table.Keys;
      while ids != {}
        invariant ids <= table.Keys && |waiters| == |old(waiters)|
        invariant forall i :: 0 <= i < |waiters| ==>
                    waiters[i] == if old(waiters)[i].outcome.Pending? && i in (table - ids).Values
                                  then old(waiters)[i].(outcome := Failed) else old(waiters)[i]
        decreases ids
      {
        var id :| id in ids;
        var f := table[id];
        if waiters[f].outcome.Pending? {
          waiters := waiters[f := waiters[f].(outcome := Failed)];
        }
        ValuesGrow(table, ids, id);
        ids := ids - {id};
      }
      assert table - {} == table;
    }

    lemma ValuesGrow(table: map<string, nat>, ids: set<string>, id: string)
      requires id in ids && ids <= table.Keys
      ensures (table - (ids - {id})).Values == (table - ids).Values + {table[id]}
    {
      var small, big := table - ids, table - (ids - {id});
      assert id in big && big[id] == table[id];
      forall v | v in big.Values ensures v in small.Values + {table[id]} {
        var k :| k in big && big[k] == v;
        if k != id {
          assert k in small && small[k] == v;
        }
      }
      forall v | v in small.Values ensures v in big.Values {
        var k :| k in small && small[k] == v;
        assert k in big && big[k] == v;
      }
    }

    lemma InRange(s: State)
      requires TablesPoint(s)
      ensures forall id :: id in s.iq ==> s.iq[id] < |s.waiters|
      ensures forall id :: id in s.ack ==> s.ack[id] < |s.waiters|
    {
      assert forall id :: id in s.iq ==> id in s.Table(Iq);
      assert forall id :: id in s.ack ==> id in s.Table(Ack);
    }

    method FailAll()
      requires Valid()
      modifies this
      ensures Valid() && View() == Next(config, old(View()), Stop)
      ensures Outside() == old(Outside())
    {
      hide TablesPoint, FailEach;
      StepPoints(config, View(), Stop);
      InRange(View());
      FailBucket(iq);
      FailBucket(ack);
      iq, ack := map[], map[];
    }

    lemma CloseIsStop(c: Config, s: State)
      ensures Next(c, s, Close) == Next(c, s, Stop).(disconnected := true)
    {
      hide FailWaiters;
    }

    /** The reader finds the socket closed: it says so, fails every waiter and stops reading. */
    method Closed()
      requires Valid()
      modifies this
      ensures Valid() && View() == Next(config, old(View()), Close)
      ensures Outside() == old(Outside())
    {
      hide Next, TablesPoint;
      CloseIsStop(config, View());
      StepPoints(config, View(), Close);
      FailAll();
      disconnected := true;
    }

    /** One happening, at its own time. */
    method Take(next: Arrival)
      requires Valid() && now == next.at
      modifies this
      ensures Valid() && View() == Next(config, old(View()), next.Event())
      ensures View() == Next(config, old(View()),
                             match next.what
                             case Stanza(n, extras) => Frame(n, next.at, extras)
                             case HangUp => Close
                             case Asks(k, id) => Register(k, id)
                             case GivesUp(f) => Cancel(f)
                             case Leaves(f) => Finish(f))
      ensures Outside() == old(Outside())
    {
      hide Next, TablesPoint;
      match next.what
      case Stanza(n, extras) => Handle(n, extras);
      case HangUp => Closed();
      case Asks(k, id) => MakeFuture(k, id);
      case GivesUp(f) => GiveUp(f);
      case Leaves(f) => Leave(f);
    }

    /** A happening in the middle of a run, whose idle clock it keeps. */
    method TakeNext(next: Arrival, ghost from: nat, ghost start: State, ghost trace: seq<Event>)
      returns (ghost longer: seq<Event>)
      requires Valid() && now == next.at && IdleClock(View(), from, now) && View() == Run(config, start, trace)
      modifies this
      ensures longer == trace + [next.Event()]
      ensures Valid() && IdleClock(View(), from, now) && View() == Run(config, start, longer)
      ensures lastUnsolicited >= old(lastUnsolicited) && Outside() == old(Outside())
      ensures disconnected == (old(disconnected) || next.what.HangUp?)
    {
      hide Run, Next, TablesPoint, IdleClock;
      ghost var before := View();
      OffStep(config, before, next);
      Take(next);
      ClockStep(config, before, next.Event(), from, now);
      TraceStep(config, start, trace, next.Event());
      longer := trace + [next.Event()];
    }

    /** The next thing that comes in, at its own time. */
    method Serve(ghost from: nat, ghost start: State, ghost trace: seq<Event>) returns (ghost longer: seq<Event>)
      requires incoming != [] && incoming[0].at >= now
      requires Valid() && IdleClock(View(), from, now) && View() == Run(config, start, trace)
      modifies this
      ensures now == old(incoming)[0].at && incoming == old(incoming)[1..]
      ensures var next := old(incoming)[0];
              longer == trace + if old(disconnected) && (next.what.Stanza? || next.what.HangUp?) then []
                                else [next.Event()]
      ensures disconnected == (old(disconnected) || old(incoming)[0].what.HangUp?)
      ensures Valid() && IdleClock(View(), from, now) && View() == Run(config, start, longer)
      ensures lastUnsolicited >= old(lastUnsolicited)
      ensures queries == old(queries) && tried == old(tried) && pingTimes == old(pingTimes)
    {
      hide Run, Next, TablesPoint, IdleClock, InboundSession.View;
      var next := incoming[0];
      IdleLater(View(), from, now, next.at);
      incoming := incoming[1..];
      now := next.at;
      longer := trace;
      if next.Heeded(disconnected) {
        longer := TakeNext(next, from, start, trace);
      } else {
        assert trace + [] == trace;
      }
    }

    /**
     * Sleeping until `now + d`: the reader handles everything that comes in meanwhile, each stanza
     * at its own time, unless it has found the socket closed; other tasks start and leave requests.
     */
    method Sleep(d: real, ghost from: nat) returns (ghost trace: seq<Event>, ghost n: nat)
      requires Valid() && d > 0.0 && Upcoming(now, incoming) && IdleClock(View(), from, now)
      modifies this
      ensures Valid() && now == old(now) + d && Upcoming(now, incoming) && IdleClock(View(), from, now)
      ensures View() == Run(config, old(View()), trace)
      // exactly what came in meanwhile was heeded
      ensures n <= |old(incoming)| && incoming == old(incoming)[n..]
      ensures forall i :: 0 <= i < n ==> old(incoming)[i].at <= now
      ensures trace == HeardOf(old(incoming)[..n], old(disconnected))
      ensures disconnected == Off(old(incoming)[..n], old(disconnected))
      ensures lastUnsolicited >= old(lastUnsolicited)
      ensures queries == old(queries) && tried == old(tried) && pingTimes == old(pingTimes)
    {
      var wake := now + d;
      ghost var start, entered, all, off := View(), lastUnsolicited, incoming, disconnected;
      trace, n := [], 0;
      EmptyTrace(config, start);
      ToldStart(all, off, now);
      AheadNow(now, incoming);
      hide Run, Next, TablesPoint, Told, Ahead, IdleClock, InboundSession.View;
      while incoming != [] && incoming[0].at <= wake
        invariant Valid() && now <= wake && Ahead(now, incoming)
        invariant IdleClock(View(), from, now) && lastUnsolicited >= entered
        invariant View() == Run(config, start, trace)
        invariant Told(all, n, off, trace, incoming, disconnected, now)
        invariant queries == old(queries) && tried == old(tried) && pingTimes == old(pingTimes)
        decreases |incoming|
      {
        ToldMore(all, n, off, trace, incoming, disconnected, now);
        trace := Serve(from, start, trace);
        n := n + 1;
      }
      SleptEnough(all, n, off, trace, incoming, disconnected, now, wake);
      IdleLater(View(), from, now, wake);
      now := wake;
    }

    /** A sleep in the middle of a drain. */
    method SleepOn(d: real, ghost from: nat, ghost start: State, ghost trace: seq<Event>,
                   ghost all: seq<Arrival>, ghost n: nat, ghost off: bool, ghost pings: seq<real>,
                   ghost freshId: nat -> string)
      returns (ghost longer: seq<Event>, ghost m: nat)
      requires Valid() && d > 0.0 && Upcoming(now, incoming) && IdleClock(View(), from, now)
      requires View() == Run(config, start, trace)
      requires Follows(all, n, off, pings, freshId, trace, incoming, disconnected, now)
      modifies this
      ensures Valid() && now == old(now) + d && Upcoming(now, incoming) && IdleClock(View(), from, now)
      ensures View() == Run(config, start, longer)
      ensures Follows(all, m, off, pings, freshId, longer, incoming, disconnected, now)
      ensures lastUnsolicited >= old(lastUnsolicited)
      ensures queries == old(queries) && tried == old(tried) && pingTimes == old(pingTimes)
    {
      hide Run, Next, TablesPoint, Upcoming, IdleClock, Follows, HeardOf, Off, InboundSession.View;
      ghost var before, closed, instant := incoming, disconnected, now;
      ghost var more, k := Sleep(d, from);
      RunConcat(config, start, trace, more);
      FollowsSleep(all, n, off, pings, freshId, trace, before, closed, instant, k, now);
      longer, m := trace + more, n + k;
    }

    /** A keepalive query: its waiter is registered whether or not the query gets out. */
    method SendKeepalive(id: string)
      requires Valid()
      modifies this
      ensures Valid() && View() == Next(config, old(View()), Register(Iq, id))
      ensures now == old(now) && incoming == old(incoming)
      ensures tried == old(tried) + 1 && pingTimes == old(pingTimes) + [now]
      ensures queries == old(queries) + if pingOk(old(tried)) then [KeepaliveQuery(id)] else []
    {
      MakeFuture(Iq, id);
      pingTimes := pingTimes + [now];
      if pingOk(tried) {
        queries := queries + [KeepaliveQuery(id)];
      }
      tried := tried + 1;
    }

    /** A keepalive in the middle of a drain: one more step of its run, and no time passes. */
    method Ping(id: string, ghost from: nat, ghost start: State, ghost trace: seq<Event>)
      returns (ghost longer: seq<Event>)
      requires Valid() && IdleClock(View(), from, now) && View() == Run(config, start, trace)
      modifies this
      ensures longer == trace + [Register(Iq, id)] && pingTimes == old(pingTimes) + [now]
      ensures Valid() && IdleClock(View(), from, now) && View() == Run(config, start, longer)
      ensures now == old(now) && incoming == old(incoming) && lastUnsolicited == old(lastUnsolicited)
      ensures disconnected == old(disconnected) && tried == old(tried) + 1
      ensures queries == old(queries) + if pingOk(old(tried)) then [KeepaliveQuery(id)] else []
    {
      hide Run, Next, TablesPoint, IdleClock, KeepaliveQuery, InboundSession.Outside;
      ghost var quiet := View();
      SendKeepalive(id);
      PingKeepsClock(config, quiet, id);
      ClockKept(quiet, View(), from, now);
      TraceStep(config, start, trace, Register(Iq, id));
      longer := trace + [Register(Iq, id)];
    }

    /** A keepalive in the middle of a drain, when one is due. */
    method PingOn(freshId: nat -> string, ghost first: nat, ghost before: seq<Node>, ghost earlier: seq<real>,
                  ghost started: real, ghost pings: seq<real>, last: real, sent: nat,
                  ghost from: nat, ghost start: State, ghost trace: seq<Event>,
                  ghost all: seq<Arrival>, ghost n: nat, ghost off: bool)
      returns (ghost longer: seq<Event>)
      requires Valid() && IdleClock(View(), from, now) && View() == Run(config, start, trace)
      requires KEEPALIVE <= now - last < KEEPALIVE + SHORTEST && tried == first + sent
      requires Pinged(pingOk, freshId, first, before, earlier, started, pings, last, sent, queries, pingTimes)
      requires Follows(all, n, off, pings, freshId, trace, incoming, disconnected, now)
      modifies this
      ensures Valid() && IdleClock(View(), from, now) && View() == Run(config, start, longer)
      ensures now == old(now) && incoming == old(incoming) && lastUnsolicited == old(lastUnsolicited)
      ensures disconnected == old(disconnected) && tried == old(tried) + 1
      ensures Pinged(pingOk, freshId, first, before, earlier, started, pings + [now], now, sent + 1, queries, pingTimes)
      ensures Follows(all, n, off, pings + [now], freshId, longer, incoming, disconnected, now)
    {
      hide Run, Next, TablesPoint, IdleClock, Follows, Pinged, KeepaliveQuery, InboundSession.View;
      PingedMeans(pingOk, freshId, first, before, earlier, started, pings, last, sent, queries, pingTimes);
      PingedMore(pingOk, freshId, first, before, earlier, started, pings, last, sent, queries, pingTimes, now);
      FollowsPing(all, n, off, pings, freshId, trace, incoming, disconnected, now);
      longer := Ping(freshId(sent), from, start, trace);
    }

    /**
     * Waits for silence, the hard cap or a disconnect. `pings` are the times keepalives were sent,
     * `trace` the events of the whole wait, `from` the number of stanzas heard before it.
     */
    method Drain(seconds: real, idle: real, freshId: nat -> string)
      returns (frames: nat, reason: Reason, ghost n: nat, ghost pings: seq<real>, ghost trace: seq<Event>)
      requires Valid() && Upcoming(now, incoming)
      modifies this
      ensures Valid() && frames == framesSeen
      ensures View() == Run(config, old(View()).(lastUnsolicited := old(now)), trace)
      // which is exactly what came in up to its end, in order, with the keepalives in between
      ensures n <= |old(incoming)| && incoming == old(incoming)[n..] && Upcoming(now, incoming)
      ensures frames == old(framesSeen) + HeededStanzas(old(incoming)[..n], old(disconnected))
      ensures forall i :: 0 <= i < n ==> old(incoming)[i].at <= now
      ensures trace == Merged(old(incoming)[..n], old(disconnected), pings, freshId)
      // it ends, no later than the cap and the shortest sleep
      ensures now >= old(now)
      ensures seconds >= 0.0 ==> now < old(now) + seconds + SHORTEST
      ensures seconds <= 0.0 ==> now == old(now)
      // for the reason it gives
      ensures match reason
              case Disconnected => disconnected
              case HardCap => now >= old(now) + seconds && !disconnected
              case CaughtUp => !disconnected && now < old(now) + seconds && idle <= now - old(now)
      ensures reason.CaughtUp? ==> forall i :: |old(heard)| <= i < |heard| ==> heard[i] <= now - idle
      ensures reason.CaughtUp? ==>
                QuietArrivals(config, old(View()).(lastUnsolicited := old(now)), old(incoming)[..n], old(disconnected),
                              pings, freshId, now - idle)
      // and not long after the silence it waits for
      ensures idle >= 0.0 ==> now - lastUnsolicited < idle + SHORTEST
      // pinging on the way
      ensures Spaced(old(now), pings)
      ensures tried == old(tried) + |pings| && pingTimes == old(pingTimes) + pings
      ensures queries == old(queries) + Queries(pingOk, freshId, old(tried), |pings|)
      ensures now - (if pings == [] then old(now) else pings[|pings| - 1]) < KEEPALIVE + SHORTEST
    {
      hide Run, Next, TablesPoint, Upcoming, Spaced, IdleClock, Queries, KeepaliveQuery, Nap, Pinged;
      hide InboundSession.Outside, Merged, HeardOf, Off, Follows, QuietRun, QuietArrivals;
      var started := now;
      SameTables(View(), View().(lastUnsolicited := started));
      lastUnsolicited := started;
      var deadline := started + seconds;
      var lastPing := started;
      var sent := 0;
      n, pings, trace := 0, [], [];
      ghost var all, off := incoming, disconnected;
      ghost var start, from := View(), |heard|;
      EmptyTrace(config, start);
      ClockStarts(View(), now);
      NothingPinged(pingOk, freshId, tried, queries, pingTimes, started);
      FollowsStart(all, off, freshId, now);
      hide InboundSession.View;
      while true
        invariant Valid() && Upcoming(now, incoming) && IdleClock(View(), from, now)
        invariant View() == Run(config, start, trace)
        invariant started <= lastUnsolicited && started <= now
        invariant now == started || (seconds > 0.0 && now < deadline + SHORTEST)
        invariant idle >= 0.0 ==> now - lastUnsolicited < idle + SHORTEST
        invariant Follows(all, n, off, pings, freshId, trace, incoming, disconnected, now)
        invariant Pinged(pingOk, freshId, old(tried), old(queries), old(pingTimes),
                         started, pings, lastPing, sent, queries, pingTimes)
        invariant tried == old(tried) + sent && 0.0 <= now - lastPing < KEEPALIVE + SHORTEST
        decreases ((deadline - now) * 20.0).Floor
      {
        if disconnected {
          reason := Disconnected;
          break;
        }
        if now >= deadline {
          reason := HardCap;
          break;
        }
        if now - lastUnsolicited >= idle {
          reason := CaughtUp;
          ViewFields();
          QuietSince(View(), from, now, idle);
          QuietTrace(config, start, trace, now - idle);
          break;
        }
        ghost var instant := now;
        if now - lastPing >= KEEPALIVE {
          trace := PingOn(freshId, old(tried), old(queries), old(pingTimes), started, pings, lastPing, sent,
                          from, start, trace, all, n, off);
          lastPing := now;
          sent := sent + 1;
          pings := pings + [now];
        }
        var nap := Nap(idle - (now - lastUnsolicited), deadline - now, KEEPALIVE - (now - lastPing));
        trace, n := SleepOn(nap, from, start, trace, all, n, off, pings, freshId);
        Progress(deadline, instant, now);
      }
      PingedMeans(pingOk, freshId, old(tried), old(queries), old(pingTimes),
                  started, pings, lastPing, sent, queries, pingTimes);
      FollowsMeans(all, n, off, pings, freshId, trace, incoming, disconnected, now);
      if reason.CaughtUp? {
        QuietInOrder(config, start, all, n, off, pings, freshId, started, now - idle);
      }
      frames := framesSeen;
      CountedInDrain(config, start, trace, all[..n], off, pings, freshId);
      SeenFrames();
    }
  }

  /** The shortest of the three waits, but neither below the shortest nor above the longest sleep. */
  function Nap(idle: real, cap: real, ping: real): (nap: real)
    ensures SHORTEST <= nap
    ensures nap <= SHORTEST || (nap <= idle && nap <= cap && nap <= ping)
  {
    MaxOf(SHORTEST, MinOf(MinOf(MinOf(idle, cap), ping), LONGEST))
  }

  /** The keepalives of a drain so far: well spaced, the last at `last`, and their queries as far as they got out. */
  ghost predicate Pinged(ok: nat -> bool, freshId: nat -> string, first: nat, before: seq<Node>, earlier: seq<real>,
                         started: real, pings: seq<real>, last: real, sent: nat, queries: seq<Node>, times: seq<real>)
  {
    && sent == |pings| && Spaced(started, pings)
    && last == (if pings == [] then started else pings[|pings| - 1])
    && queries == before + Queries(ok, freshId, first, sent)
    && times == earlier + pings
  }

  lemma NothingPinged(ok: nat -> bool, freshId: nat -> string, first: nat, before: seq<Node>, earlier: seq<real>,
                      started: real)
    ensures Pinged(ok, freshId, first, before, earlier, started, [], started, 0, before, earlier)
  {
    assert before + [] == before && earlier + [] == earlier;
  }

  lemma PingedMore(ok: nat -> bool, freshId: nat -> string, first: nat, before: seq<Node>, earlier: seq<real>,
                   started: real, pings: seq<real>, last: real, sent: nat, queries: seq<Node>, times: seq<real>,
                   now: real)
    requires Pinged(ok, freshId, first, before, earlier, started, pings, last, sent, queries, times)
    requires KEEPALIVE <= now - last < KEEPALIVE + SHORTEST
    ensures Pinged(ok, freshId, first, before, earlier, started, pings + [now], now, sent + 1,
                   queries + (if ok(first + sent) then [KeepaliveQuery(freshId(sent))] else []), times + [now])
  {
    hide Spaced, KeepaliveQuery;
    SpacedMore(started, pings, now);
    Regroup(before, Queries(ok, freshId, first, sent),
            if ok(first + sent) then [KeepaliveQuery(freshId(sent))] else []);
    Regroup(earlier, pings, [now]);
  }

  lemma PingedMeans(ok: nat -> bool, freshId: nat -> string, first: nat, before: seq<Node>, earlier: seq<real>,
                    started: real, pings: seq<real>, last: real, sent: nat, queries: seq<Node>, times: seq<real>)
    requires Pinged(ok, freshId, first, before, earlier, started, pings, last, sent, queries, times)
    ensures sent == |pings| && Spaced(started, pings) && times == earlier + pings
    ensures last == if pings == [] then started else pings[|pings| - 1]
    ensures queries == before + Queries(ok, freshId, first, sent)
  {
  }

  /** A reader like ours answers the keepalive, once, with a result under its id, addressed to the server. */
  lemma KeepaliveIsAnswered(own: Own, id: string, extras: seq<string>)
    ensures var q, server := KeepaliveQuery(id), Address(JID("", "s.whatsapp.net", 0, 0, 0));
            && q.tag == "iq" && Get(q.attrs, "to") == server && Get(q.attrs, "id") == Text(id)
            && Get(q.attrs, "type") == Text("get") && Get(q.attrs, "xmlns") == Text("w:p")
            && Responses(own, q, extras)
               == [Node("iq", [Attr("to", server), Attr("id", Text(id)), Attr("type", Text("result"))], Absent)]
            && Get(Responses(own, q, extras)[0].attrs, "id") == Text(id)
  {
    var attrs := KeepaliveQuery(id).attrs;
    GetAt(attrs, 0);
    GetAt(attrs, 1);
    GetAt(attrs, 2);
    GetAt(attrs, 3);
    Lookups(attrs, "from", Address(SERVER));
    Lookups(attrs, "id", Text(""));
    assert FirstUnder(attrs, "id", 2);
    QueriesAnswered(own, KeepaliveQuery(id), extras);
    var reply := [Attr("to", Address(SERVER)), Attr("id", Text(id)), Attr("type", Text("result"))];
    GetAt(reply, 1);
  }

  // --- what a drain heard ---------------------------------------------------------------------

  lemma HeardMore(all: seq<Arrival>, n: nat, off: bool)
    requires n < |all|
    ensures var next, before := all[n], Off(all[..n], off);
            && HeardOf(all[..n + 1], off)
               == HeardOf(all[..n], off) + (if next.Heeded(before) then [next.Event()] else [])
            && Off(all[..n + 1], off) == (before || next.what.HangUp?)
            && all[n..][1..] == all[n + 1..]
  {
    assert all[..n + 1][..n] == all[..n];
  }

  lemma OffStep(c: Config, s: State, next: Arrival)
    ensures Next(c, s, next.Event()).disconnected == (s.disconnected || next.what.HangUp?)
  {
    hide Responses, GotOut, Attempted;
  }

  lemma {:induction false} OffConcat(a: seq<Arrival>, b: seq<Arrival>, off: bool)
    ensures Off(a + b, off) == Off(b, Off(a, off))
    decreases |b|
  {
    if b == [] {
      assert a + b == a;
    } else {
      var n := |b| - 1;
      assert (a + b)[..|a + b| - 1] == a + b[..n];
      OffConcat(a, b[..n], off);
    }
  }

  /** A keepalive goes behind everything that happened up to its time. */
  lemma MergedPing(a: seq<Arrival>, off: bool, pings: seq<real>, freshId: nat -> string, now: real)
    requires forall i :: 0 <= i < |a| ==> a[i].at <= now
    ensures Merged(a, off, pings + [now], freshId) == Merged(a, off, pings, freshId) + [Register(Iq, freshId(|pings|))]
  {
    assert (pings + [now])[..|pings|] == pings;
  }

  /** What happens after the last keepalive goes behind it. */
  lemma {:induction false} MergedSleep(
    a: seq<Arrival>, b: seq<Arrival>, off: bool, pings: seq<real>, freshId: nat -> string)
    requires forall i :: 0 <= i < |b| && pings != [] ==> b[i].at > pings[|pings| - 1]
    ensures Merged(a + b, off, pings, freshId) == Merged(a, off, pings, freshId) + HeardOf(b, Off(a, off))
    decreases |b|
  {
    hide Off;
    if b == [] {
      assert a + b == a;
      assert Merged(a, off, pings, freshId) + [] == Merged(a, off, pings, freshId);
    } else {
      var n := |b| - 1;
      assert (a + b)[..|a + b| - 1] == a + b[..n];
      MergedSleep(a, b[..n], off, pings, freshId);
      OffConcat(a, b[..n], off);
      Regroup(Merged(a, off, pings, freshId), HeardOf(b[..n], Off(a, off)), LastHeard(b, Off(a, off)));
    }
  }

  /** How a drain stands to what comes in: the first `n` happenings, and the keepalives, are its trace. */
  ghost predicate Follows(all: seq<Arrival>, n: nat, off: bool, pings: seq<real>, freshId: nat -> string,
                          trace: seq<Event>, incoming: seq<Arrival>, disconnected: bool, now: real)
  {
    && n <= |all| && incoming == all[n..]
    && trace == Merged(all[..n], off, pings, freshId)
    && disconnected == Off(all[..n], off)
    && (forall i :: 0 <= i < n ==> all[i].at <= now)
    && (pings != [] ==> pings[|pings| - 1] <= now)
  }

  lemma FollowsStart(all: seq<Arrival>, off: bool, freshId: nat -> string, now: real)
    ensures Follows(all, 0, off, [], freshId, [], all, off, now)
  {
    assert all[0..] == all && all[..0] == [];
  }

  lemma FollowsPing(all: seq<Arrival>, n: nat, off: bool, pings: seq<real>, freshId: nat -> string,
                    trace: seq<Event>, incoming: seq<Arrival>, disconnected: bool, now: real)
    requires Follows(all, n, off, pings, freshId, trace, incoming, disconnected, now)
    ensures Follows(all, n, off, pings + [now], freshId, trace + [Register(Iq, freshId(|pings|))],
                    incoming, disconnected, now)
  {
    hide Merged, Off;
    MergedPing(all[..n], off, pings, freshId, now);
  }

  lemma FollowsSleep(all: seq<Arrival>, n: nat, off: bool, pings: seq<real>, freshId: nat -> string,
                     trace: seq<Event>, incoming: seq<Arrival>, disconnected: bool, now: real, k: nat, wake: real)
    requires Follows(all, n, off, pings, freshId, trace, incoming, disconnected, now)
    requires Upcoming(now, incoming) && k <= |incoming| && now <= wake
    requires forall i :: 0 <= i < k ==> incoming[i].at <= wake
    ensures Follows(all, n + k, off, pings, freshId, trace + HeardOf(incoming[..k], disconnected),
                    incoming[k..], Off(incoming[..k], disconnected), wake)
  {
    hide Merged, Off, HeardOf;
    assert all[..n + k] == all[..n] + incoming[..k] && incoming[k..] == all[n + k..];
    MergedSleep(all[..n], incoming[..k], off, pings, freshId);
    OffConcat(all[..n], incoming[..k], off);
    forall i | 0 <= i < n + k ensures all[i].at <= wake {
      assert i >= n ==> all[i] == incoming[i - n];
    }
  }

  lemma FollowsMeans(all: seq<Arrival>, n: nat, off: bool, pings: seq<real>, freshId: nat -> string,
                     trace: seq<Event>, incoming: seq<Arrival>, disconnected: bool, now: real)
    requires Follows(all, n, off, pings, freshId, trace, incoming, disconnected, now)
    ensures n <= |all| && incoming == all[n..] && trace == Merged(all[..n], off, pings, freshId)
    ensures forall i :: 0 <= i < n ==> all[i].at <= now
  {
  }

  /** The events of all these happenings. */
  function EventsOf(a: seq<Arrival>): seq<Event> {
    if a == [] then [] else EventsOf(a[..|a| - 1]) + [a[|a| - 1].Event()]
  }

  /** The events of those that are other tasks' doings. */
  function TaskEvents(a: seq<Arrival>): seq<Event> {
    if a == [] then []
    else
      var last := a[|a| - 1];
      TaskEvents(a[..|a| - 1])
      + match last.what
        case Asks(_, _) => [last.Event()]
        case GivesUp(_) => [last.Event()]
        case Leaves(_) => [last.Event()]
        case _ => []
  }

  /** The reader hears everything up to the first time it finds the socket closed, and other tasks go on after that. */
  lemma {:induction false} ReaderStops(a: seq<Arrival>, k: nat)
    requires k <= |a| && (forall i :: 0 <= i < k ==> !a[i].what.HangUp?) && (k < |a| ==> a[k].what.HangUp?)
    ensures HeardOf(a, false) == if k == |a| then EventsOf(a) else EventsOf(a[..k + 1]) + TaskEvents(a[k + 1..])
    ensures Off(a, false) <==> k < |a|
    decreases |a|
  {
    if a != [] {
      var n := |a| - 1;
      if k >= n {
        ReaderStops(a[..n], n);
        if k == n {
          assert a[..k + 1] == a && a[k + 1..] == [];
          assert EventsOf(a) + [] == EventsOf(a);
        }
      } else {
        ReaderStops(a[..n], k);
        assert a[..n][..k + 1] == a[..k + 1];
        assert a[k + 1..][..n - k - 1] == a[..n][k + 1..] && a[k + 1..][n - k - 1] == a[n];
        Regroup(EventsOf(a[..k + 1]), TaskEvents(a[..n][k + 1..]), LastHeard(a, false));
      }
    }
  }

  /** How many stanzas among these happenings are heeded. */
  function HeededStanzas(arrivals: seq<Arrival>, off: bool): nat {
    if arrivals == [] then 0
    else
      var n := |arrivals| - 1;
      HeededStanzas(arrivals[..n], off)
      + if arrivals[n].what.Stanza? && arrivals[n].Heeded(Off(arrivals[..n], off)) then 1 else 0
  }

  lemma {:induction false} MergedStanzas(a: seq<Arrival>, off: bool, pings: seq<real>, freshId: nat -> string)
    ensures Stanzas(Merged(a, off, pings, freshId)) == HeededStanzas(a, off)
    decreases |a| + |pings|
  {
    hide Off;
    if pings != [] && (a == [] || a[|a| - 1].at <= pings[|pings| - 1]) {
      var fewer := pings[..|pings| - 1];
      MergedStanzas(a, off, fewer, freshId);
      StanzasConcat(Merged(a, off, fewer, freshId), [Register(Iq, freshId(|pings| - 1))]);
      assert Stanzas([Register(Iq, freshId(|pings| - 1))]) == Stanzas([]);
    } else if a != [] {
      var n := |a| - 1;
      MergedStanzas(a[..n], off, pings, freshId);
      StanzasConcat(Merged(a[..n], off, pings, freshId), LastHeard(a, off));
      assert Stanzas([a[n].Event()]) == (if a[n].Event().Frame? then 1 else 0) + Stanzas([]);
    }
  }

  /** Every stanza heeded in a drain is counted once, and keepalives are not. */
  lemma CountedInDrain(c: Config, s: State, trace: seq<Event>, a: seq<Arrival>, off: bool, pings: seq<real>,
                       freshId: nat -> string)
    requires trace == Merged(a, off, pings, freshId)
    ensures Run(c, s, trace).framesSeen == s.framesSeen + HeededStanzas(a, off)
  {
    hide *;
    FramesAreCounted(c, s, trace);
    MergedStanzas(a, off, pings, freshId);
  }

  /** How many keepalives were tried before `at`. */
  function PingsBefore(pings: seq<real>, at: real): (m: nat)
    ensures m <= |pings|
  {
    if pings == [] then 0
    else if pings[|pings| - 1] < at then |pings|
    else PingsBefore(pings[..|pings| - 1], at)
  }

  /** What a drain had heard and pinged when the `i`-th happening came. */
  function Before(arrivals: seq<Arrival>, off: bool, pings: seq<real>, freshId: nat -> string, i: nat): seq<Event>
    requires i < |arrivals|
  {
    Merged(arrivals[..i], off, pings[..PingsBefore(pings, arrivals[i].at)], freshId)
  }

  /** Every happening that is heeded stands in the trace, right behind all that came before it. */
  lemma {:induction false} HappeningTold(
    a: seq<Arrival>, off: bool, pings: seq<real>, freshId: nat -> string, i: nat)
    requires i < |a| && a[i].Heeded(Off(a[..i], off))
    requires forall k :: i <= k < |a| ==> a[i].at <= a[k].at
    ensures Before(a, off, pings, freshId, i) + [a[i].Event()] <= Merged(a, off, pings, freshId)
    decreases |a| + |pings|
  {
    hide Off;
    var n := |a| - 1;
    if pings != [] && a[n].at <= pings[|pings| - 1] {
      var fewer := pings[..|pings| - 1];
      HappeningTold(a, off, fewer, freshId, i);
      var m := PingsBefore(fewer, a[i].at);
      assert fewer[..m] == pings[..m];
    } else if i < n {
      assert a[..n][..i] == a[..i];
      HappeningTold(a[..n], off, pings, freshId, i);
    } else {
      assert pings[..|pings|] == pings;
    }
  }

  /** Every heeded stanza nobody was waiting for when it came is no later than `latest`. */
  ghost predicate QuietArrivals(c: Config, s: State, arrivals: seq<Arrival>, off: bool, pings: seq<real>,
                                freshId: nat -> string, latest: real)
  {
    forall i :: 0 <= i < |arrivals| && arrivals[i].what.Stanza? && arrivals[i].Heeded(Off(arrivals[..i], off))
                && !Solicited(Run(c, s, Before(arrivals, off, pings, freshId, i)), arrivals[i].what.node)
      ==> arrivals[i].at <= latest
  }

  lemma QuietInOrder(c: Config, s: State, arrivals: seq<Arrival>, n: nat, off: bool, pings: seq<real>,
                     freshId: nat -> string, started: real, latest: real)
    requires n <= |arrivals| && Upcoming(started, arrivals)
    requires QuietRun(c, s, Merged(arrivals[..n], off, pings, freshId), latest)
    ensures QuietArrivals(c, s, arrivals[..n], off, pings, freshId, latest)
  {
    hide Run, Solicited, Off, Merged, Before;
    var a := arrivals[..n];
    var trace := Merged(a, off, pings, freshId);
    forall i | 0 <= i < |a| && a[i].what.Stanza? && a[i].Heeded(Off(a[..i], off))
               && !Solicited(Run(c, s, Before(a, off, pings, freshId, i)), a[i].what.node)
      ensures a[i].at <= latest
    {
      HappeningTold(a, off, pings, freshId, i);
      var before := Before(a, off, pings, freshId, i);
      assert trace[..|before|] == before && trace[|before|] == a[i].Event();
    }
  }

  /** Every stanza of a run that nobody was waiting for where it came is no later than `latest`. */
  ghost predicate QuietRun(c: Config, s: State, es: seq<Event>, latest: real) {
    forall k :: 0 <= k < |es| && es[k].Frame? && !Solicited(Run(c, s, es[..k]), es[k].node) ==> es[k].now <= latest
  }

  lemma HeardStep(c: Config, s: State, e: Event)
    ensures s.heard <= Next(c, s, e).heard
    ensures e.Frame? && !Solicited(s, e.node) ==> Next(c, s, e).heard == s.heard + [e.now]
  {
    hide Responses, GotOut, Attempted;
  }

  lemma {:induction false} HeardGrows(c: Config, s: State, es: seq<Event>)
    ensures s.heard <= Run(c, s, es).heard
    decreases |es|
  {
    hide Next;
    if es != [] {
      HeardStep(c, s, es[0]);
      HeardGrows(c, Next(c, s, es[0]), es[1..]);
    }
  }

  /** An unsolicited stanza is heard at its time. */
  lemma HeardInRun(c: Config, s: State, es: seq<Event>, k: nat)
    requires k < |es| && es[k].Frame? && !Solicited(Run(c, s, es[..k]), es[k].node)
    ensures var at := |Run(c, s, es[..k]).heard|;
            |s.heard| <= at < |Run(c, s, es).heard| && Run(c, s, es).heard[at] == es[k].now
  {
    hide Run, Next, Solicited;
    var before := Run(c, s, es[..k]);
    HeardGrows(c, s, es[..k]);
    TraceStep(c, s, es[..k], es[k]);
    HeardStep(c, before, es[k]);
    assert es[..k] + [es[k]] + es[k + 1..] == es;
    RunConcat(c, s, es[..k] + [es[k]], es[k + 1..]);
    HeardGrows(c, Next(c, before, es[k]), es[k + 1..]);
  }

  lemma QuietTrace(c: Config, s: State, es: seq<Event>, latest: real)
    requires forall i :: |s.heard| <= i < |Run(c, s, es).heard| ==> Run(c, s, es).heard[i] <= latest
    ensures QuietRun(c, s, es, latest)
  {
    hide Run, Solicited;
    forall k | 0 <= k < |es| && es[k].Frame? && !Solicited(Run(c, s, es[..k]), es[k].node)
      ensures es[k].now <= latest
    {
      HeardInRun(c, s, es, k);
    }
  }

  lemma SpacedMore(started: real, pings: seq<real>, now: real)
    requires Spaced(started, pings)
    requires KEEPALIVE <= now - (if pings == [] then started else pings[|pings| - 1]) < KEEPALIVE + SHORTEST
    ensures Spaced(started, pings + [now])
  {
    var more := pings + [now];
    forall i | 0 <= i < |more|
      ensures KEEPALIVE <= Gap(started, more, i) < KEEPALIVE + SHORTEST
    {
      if i < |pings| {
        assert Gap(started, more, i) == Gap(started, pings, i);
      }
    }
  }

  lemma ClockStarts(s: State, now: real)
    requires s.lastUnsolicited == now
    ensures IdleClock(s, |s.heard|, now)
  {
  }

  lemma ClockKept(s: State, s': State, from: nat, now: real)
    requires IdleClock(s, from, now) && s'.lastUnsolicited == s.lastUnsolicited && s'.heard == s.heard
    ensures IdleClock(s', from, now)
  {
  }

  lemma PingKeepsClock(c: Config, s: State, id: string)
    ensures Next(c, s, Register(Iq, id)).lastUnsolicited == s.lastUnsolicited
    ensures Next(c, s, Register(Iq, id)).heard == s.heard
    ensures Next(c, s, Register(Iq, id)).disconnected == s.disconnected
  {
  }

  lemma QuietSince(s: State, from: nat, now: real, idle: real)
    requires IdleClock(s, from, now) && now - s.lastUnsolicited >= idle
    ensures from <= |s.heard| && forall i :: from <= i < |s.heard| ==> s.heard[i] <= now - idle
  {
  }

  lemma SameTables(s: State, s': State)
    requires TablesPoint(s) && s'.waiters == s.waiters && s'.iq == s.iq && s'.ack == s.ack
    ensures TablesPoint(s')
  {
    forall k: Kind, id: string | id in s'.Table(k)
      ensures s'.Table(k)[id] < |s'.waiters|
      ensures s'.waiters[s'.Table(k)[id]].kind == k && s'.waiters[s'.Table(k)[id]].id == id
    {
      assert id in s.Table(k);
    }
  }

  /** Each round takes at least the shortest sleep off what is left. */
  lemma Progress(deadline: real, before: real, after: real)
    requires before < deadline && after >= before + SHORTEST
    ensures 0 <= ((deadline - before) * 20.0).Floor
    ensures ((deadline - after) * 20.0).Floor < ((deadline - before) * 20.0).Floor
  {
    var x, y := (deadline - before) * 20.0, (deadline - after) * 20.0;
    assert y <= x - 1.0;
    assert y.Floor as real <= y && x < x.Floor as real + 1.0;
  }

  /** What is still to come is in order and not before `now`. */
  ghost predicate Ahead(now: real, incoming: seq<Arrival>) {
    && (forall i :: 0 <= i < |incoming| ==> incoming[i].at >= now)
    && forall i, j :: 0 <= i < j < |incoming| ==> incoming[i].at <= incoming[j].at
  }

  lemma IdleLater(s: State, from: nat, now: real, later: real)
    requires IdleClock(s, from, now) && now <= later
    ensures IdleClock(s, from, later)
  {
  }

  /** How a sleep stands to what comes in: the first `n` happenings are its trace. */
  ghost predicate Told(all: seq<Arrival>, n: nat, off: bool, trace: seq<Event>,
                       incoming: seq<Arrival>, disconnected: bool, now: real)
  {
    && n <= |all| && incoming == all[n..]
    && trace == HeardOf(all[..n], off) && disconnected == Off(all[..n], off)
    && forall i :: 0 <= i < n ==> all[i].at <= now
  }

  lemma AheadNow(now: real, incoming: seq<Arrival>)
    requires Upcoming(now, incoming)
    ensures Ahead(now, incoming)
  {
  }

  lemma SleptEnough(all: seq<Arrival>, n: nat, off: bool, trace: seq<Event>,
                    incoming: seq<Arrival>, disconnected: bool, now: real, wake: real)
    requires Told(all, n, off, trace, incoming, disconnected, now) && Ahead(now, incoming) && now <= wake
    requires incoming == [] || incoming[0].at > wake
    ensures Upcoming(wake, incoming)
    ensures n <= |all| && incoming == all[n..] && forall i :: 0 <= i < n ==> all[i].at <= wake
    ensures trace == HeardOf(all[..n], off) && disconnected == Off(all[..n], off)
  {
  }

  lemma ToldStart(all: seq<Arrival>, off: bool, now: real)
    ensures Told(all, 0, off, [], all, off, now)
  {
    assert all[0..] == all && all[..0] == [];
  }

  lemma ToldMore(all: seq<Arrival>, n: nat, off: bool, trace: seq<Event>,
                 incoming: seq<Arrival>, disconnected: bool, now: real)
    requires Told(all, n, off, trace, incoming, disconnected, now) && Ahead(now, incoming) && incoming != []
    ensures var next := incoming[0];
            && now <= next.at && Ahead(next.at, incoming[1..])
            && Told(all, n + 1, off, trace + (if next.Heeded(disconnected) then [next.Event()] else []),
                    incoming[1..], disconnected || next.what.HangUp?, next.at)
  {
    hide HeardOf, Off;
    HeardMore(all, n, off);
    assert trace + [] == trace;
  }

  lemma EmptyTrace(c: Config, s: State)
    ensures Run(c, s, []) == s
  {
  }

  lemma TraceStep(c: Config, s: State, trace: seq<Event>, e: Event)
    ensures Run(c, s, trace + [e]) == Next(c, Run(c, s, trace), e)
  {
    RunConcat(c, s, trace, [e]);
    var s' := Run(c, s, trace);
    assert [e][1..] == [];
    assert Run(c, Next(c, s', e), []) == Next(c, s', e);
  }

  lemma ClockStep(c: Config, s: State, e: Event, from: nat, now: real)
    requires IdleClock(s, from, now) && (e.Frame? ==> e.now == now)
    ensures IdleClock(Next(c, s, e), from, now) && Next(c, s, e).lastUnsolicited >= s.lastUnsolicited
  {
    hide Responses, GotOut, Attempted, SetOutcome, IdOf;
  }
}
