/** The single reader of a live connection: waiter tables, stanza dispatch and the replies it owes. */
module Session {
  import opened Wrappers
  import opened Sequences
  import opened Jids
  import opened Nodes
  import Decimal

  // --- reading stanzas -------------------------------------------------------------------

  const SERVER := JID("", DEFAULT_USER_SERVER, 0, 0, 0)

  predicate Present(attrs: seq<Attr>, key: string) {
    attrs != [] && (attrs[0].key == key || Present(attrs[1..], key))
  }

  function GetOr(attrs: seq<Attr>, key: string, default: Value): Value {
    if Present(attrs, key) then Get(attrs, key) else default
  }

  predicate Truthy(v: Value) {
    match v
    case Absent => false
    case Text(s) => s != ""
    case Number(n) => n != 0
    case Truth(b) => b
    case Address(_) => true
    case Blob(b) => b != []
    case Children(ns) => ns != []
  }

  /** The id a stanza carries, "" when it has none; ids that are bytes or lists match no waiter. */
  function IdOf(n: Node): string {
    var v := Get(n.attrs, "id");
    if !Truthy(v) then ""
    else match v
      case Text(s) => s
      case Number(k) => Decimal.Text(k)
      case Truth(_) => "True"
      case Address(j) => j.Str()
      case _ => "<no id>"
  }

  function ChildrenOf(n: Node): seq<Node> {
    if n.content.Children? then n.content.children else []
  }

  predicate IsServerPing(n: Node) {
    && n.tag == "iq"
    && Get(n.attrs, "type") == Text("get")
    && (|| Get(n.attrs, "xmlns") == Text("urn:xmpp:ping")
        || Get(n.attrs, "xmlns") == Text("w:p")
        || exists i :: 0 <= i < |ChildrenOf(n)| && ChildrenOf(n)[i].tag == "ping")
  }

  /** Our own identities: the phone-number user and, once known, the hidden one. */
  datatype Own = Own(pn: string, lid: Option<string>) {
    /** Is this stanza a copy of something our own phone sent? */
    predicate IsEcho(n: Node) {
      var participant := Get(n.attrs, "participant");
      var sender := if Truthy(participant) then participant else Get(n.attrs, "from");
      sender.Address? && (sender.jid.user == pn || lid == Some(sender.jid.user))
    }
  }

  // --- the replies a stanza is owed ----------------------------------------------------------

  function CopyIf(n: Node, key: string): seq<Attr> {
    if Present(n.attrs, key) then [Attr(key, Get(n.attrs, key))] else []
  }

  function ReplyTo(n: Node): Value {
    GetOr(n.attrs, "from", Address(SERVER))
  }

  function ReplyId(n: Node): Value {
    GetOr(n.attrs, "id", Text(""))
  }

  function IqResult(n: Node): Node {
    Node("iq", [Attr("to", ReplyTo(n)), Attr("id", ReplyId(n)), Attr("type", Text("result"))], Absent)
  }

  function AckOf(n: Node): Node {
    Node("ack",
         [Attr("class", Text(n.tag)), Attr("id", ReplyId(n)), Attr("to", ReplyTo(n))]
         + CopyIf(n, "participant") + CopyIf(n, "recipient")
         + (if n.tag != "message" then CopyIf(n, "type") else []), Absent)
  }

  function ReceiptOf(own: Own, n: Node): Node {
    Node("receipt",
         [Attr("id", ReplyId(n)), Attr("to", ReplyTo(n))]
         + CopyIf(n, "participant") + CopyIf(n, "recipient")
         + (if own.IsEcho(n) then [Attr("type", Text("sender"))] else []), Absent)
  }

  function ProtocolReceipt(own: Own, n: Node, kind: string): Node {
    Node("receipt",
         [Attr("id", ReplyId(n)), Attr("type", Text(kind)),
          Attr("to", Address(JID(own.pn, DEFAULT_USER_SERVER, 0, 0, 0)))], Absent)
  }

  function ProtocolReceipts(own: Own, n: Node, kinds: seq<string>): seq<Node> {
    if kinds == [] then [] else [ProtocolReceipt(own, n, kinds[0])] + ProtocolReceipts(own, n, kinds[1..])
  }

  /** The protocol receipts an own message is owed: the callback's, then the peer one. */
  function ExtraKinds(n: Node, extras: seq<string>): seq<string> {
    extras + if Get(n.attrs, "category") == Text("peer") then ["peer_msg"] else []
  }

  /** Everything an unsolicited stanza is answered with, in order. */
  function Responses(own: Own, n: Node, extras: seq<string>): seq<Node> {
    if n.tag == "iq" then
      if IsServerPing(n) || Get(n.attrs, "type") == Text("set") then [IqResult(n)] else []
    else if n.tag == "message" then
      [AckOf(n), ReceiptOf(own, n)]
      + if own.IsEcho(n) then ProtocolReceipts(own, n, ExtraKinds(n, extras)) else []
    else if n.tag == "notification" || n.tag == "call" || n.tag == "receipt" then [AckOf(n)]
    else []
  }

  // --- the state ----------------------------------------------------------------------------

  datatype Kind = Iq | Ack

  datatype Outcome = Pending | Answered(node: Node) | Cancelled | Failed

  /** One waiter: which table it stands in, under which id, and how it came out. */
  datatype Waiter = Waiter(kind: Kind, id: string, outcome: Outcome)

  /**
   * `replies` are the stanzas the reader got out, `delivered` those handed to the message callback,
   * `heard` the times of unsolicited stanzas; `attempts` counts the reader's sends.
   */
  datatype State = State(
    waiters: seq<Waiter>, iq: map<string, nat>, ack: map<string, nat>,
    framesSeen: nat, disconnected: bool, lastUnsolicited: real,
    replies: seq<Node>, attempts: nat, delivered: seq<Node>, heard: seq<real>)
  {
    function Table(k: Kind): map<string, nat> {
      if k.Iq? then iq else ack
    }
  }

  /** What the session is built with; `sendOk` tells which of the reader's sends get out. */
  datatype Config = Config(own: Own, hasHook: bool, sendOk: nat -> bool)

  datatype Event =
    | Frame(node: Node, now: real, extras: seq<string>)
    | Close
    | Register(kind: Kind, id: string)
    | Cancel(waiter: nat)
    | Finish(waiter: nat)
    | Stop

  /** The stanzas that get out before the first send that fails. */
  function GotOut(ok: nat -> bool, attempts: nat, nodes: seq<Node>): seq<Node>
    decreases |nodes|
  {
    if nodes == [] || !ok(attempts) then [] else [nodes[0]] + GotOut(ok, attempts + 1, nodes[1..])
  }

  function Attempted(ok: nat -> bool, attempts: nat, nodes: seq<Node>): nat
    decreases |nodes|
  {
    if nodes == [] then attempts
    else if !ok(attempts) then attempts + 1
    else Attempted(ok, attempts + 1, nodes[1..])
  }

  predicate Solicited(s: State, n: Node) {
    (n.tag == "iq" && IdOf(n) in s.iq) || (n.tag == "ack" && IdOf(n) in s.ack)
  }

  function KindOf(n: Node): Kind {
    if n.tag == "iq" then Iq else Ack
  }

  function SetOutcome(ws: seq<Waiter>, f: nat, outcome: Outcome): seq<Waiter> {
    if f < |ws| && ws[f].outcome.Pending? then ws[f := ws[f].(outcome := outcome)] else ws
  }

  function FailEach(ws: seq<Waiter>, table: map<string, nat>): seq<Waiter> {
    seq(|ws|, i requires 0 <= i < |ws| =>
      if ws[i].outcome.Pending? && i in table.Values then ws[i].(outcome := Failed) else ws[i])
  }

  function FailWaiters(s: State): State {
    s.(waiters := FailEach(FailEach(s.waiters, s.iq), s.ack), iq := map[], ack := map[])
  }

  function Handled(c: Config, s: State, n: Node, now: real, extras: seq<string>): State {
    var s1 := s.(framesSeen := s.framesSeen + 1);
    if Solicited(s, n) then
      s1.(waiters := SetOutcome(s.waiters, s.Table(KindOf(n))[IdOf(n)], Answered(n)))
    else
      var rs := Responses(c.own, n, if c.hasHook then extras else []);
      s1.(lastUnsolicited := now, heard := s.heard + [now],
          delivered := s.delivered + (if n.tag == "message" && c.hasHook then [n] else []),
          replies := s.replies + GotOut(c.sendOk, s.attempts, rs),
          attempts := Attempted(c.sendOk, s.attempts, rs))
  }

  function Next(c: Config, s: State, e: Event): State {
    match e
    case Frame(n, now, extras) => Handled(c, s, n, now, extras)
    case Close => FailWaiters(s).(disconnected := true)
    case Stop => FailWaiters(s)
    case Register(k, id) =>
      var s1 := s.(waiters := s.waiters + [Waiter(k, id, Pending)]);
      if k.Iq? then s1.(iq := s.iq[id := |s.waiters|]) else s1.(ack := s.ack[id := |s.waiters|])
    case Cancel(f) => s.(waiters := SetOutcome(s.waiters, f, Cancelled))
    case Finish(f) =>
      if f >= |s.waiters| then s
      else if s.waiters[f].kind.Iq? then s.(iq := s.iq - {s.waiters[f].id})
      else s.(ack := s.ack - {s.waiters[f].id})
  }

  function Run(c: Config, s: State, es: seq<Event>): State
    decreases |es|
  {
    if es == [] then s else Run(c, Next(c, s, es[0]), es[1..])
  }

  lemma {:induction false} RunConcat(c: Config, s: State, a: seq<Event>, b: seq<Event>)
    ensures Run(c, s, a + b) == Run(c, Run(c, s, a), b)
    decreases |a|
  {
    if a == [] {
      assert a + b == b;
    } else {
      assert (a + b)[1..] == a[1..] + b;
      RunConcat(c, Next(c, s, a[0]), a[1..], b);
    }
  }

  lemma ClockAsideStep(c: Config, s: State, x: real, e: Event)
    ensures var t := Next(c, s.(lastUnsolicited := x), e);
            t == Next(c, s, e).(lastUnsolicited := t.lastUnsolicited)
  {
    hide Handled, FailEach, SetOutcome;
    if e.Frame? {
      FrameAside(c, s, x, e.node, e.now, e.extras);
    }
  }

  lemma FrameAside(c: Config, s: State, x: real, n: Node, now: real, extras: seq<string>)
    ensures var t := Handled(c, s.(lastUnsolicited := x), n, now, extras);
            t == Handled(c, s, n, now, extras).(lastUnsolicited := t.lastUnsolicited)
  {
    hide Responses, GotOut, Attempted, SetOutcome, IdOf;
    assert Solicited(s.(lastUnsolicited := x), n) == Solicited(s, n);
    assert s.(lastUnsolicited := x).Table(KindOf(n)) == s.Table(KindOf(n));
    hide Solicited, State.Table, KindOf;
  }

  /**
   * What the idle clock shows at first matters to nothing but itself: results about runs from one
   * start hold of the same runs from any other reading of the clock.
   */
  lemma {:induction false} ClockAside(c: Config, s: State, x: real, es: seq<Event>)
    ensures var t := Run(c, s.(lastUnsolicited := x), es);
            t == Run(c, s, es).(lastUnsolicited := t.lastUnsolicited)
    decreases |es|
  {
    hide Next;
    if es != [] {
      var t := Next(c, s.(lastUnsolicited := x), es[0]);
      ClockAsideStep(c, s, x, es[0]);
      ClockAside(c, Next(c, s, es[0]), t.lastUnsolicited, es[1..]);
    }
  }

  // --- replies over a whole run ----------------------------------------------------------------

  /** Table and id of every waiter registered, in order: the f-th waiter is the f-th registration. */
  function Keys(es: seq<Event>): seq<(Kind, string)>
    decreases |es|
  {
    if es == [] then []
    else
      var last := es[|es| - 1];
      Keys(es[..|es| - 1]) + if last.Register? then [(last.kind, last.id)] else []
  }

  /** After these events, does a waiter stand in the table under this id? Read off the events alone. */
  predicate Awaited(es: seq<Event>, k: Kind, id: string)
    decreases |es|
  {
    if es == [] then false
    else
      var last, before := es[|es| - 1], es[..|es| - 1];
      match last
      case Close => false
      case Stop => false
      case Register(k', id') => (k' == k && id' == id) || Awaited(before, k, id)
      case Finish(f) => !(f < |Keys(before)| && Keys(before)[f] == (k, id)) && Awaited(before, k, id)
      case _ => Awaited(before, k, id)
  }

  /** A reply someone is waiting for, given what happened before it. */
  predicate IsAnswer(before: seq<Event>, n: Node) {
    (n.tag == "iq" && Awaited(before, Iq, IdOf(n))) || (n.tag == "ack" && Awaited(before, Ack, IdOf(n)))
  }

  /** What one event is owed, given what happened before it. */
  function Owed(c: Config, before: seq<Event>, e: Event): seq<Node> {
    match e
    case Frame(n, _, extras) =>
      if IsAnswer(before, n) then [] else Responses(c.own, n, if c.hasHook then extras else [])
    case _ => []
  }

  /** What events `i` onwards are owed, concatenated in arrival order. */
  function OwedFrom(c: Config, es: seq<Event>, i: nat): seq<Node>
    requires i <= |es|
    decreases |es| - i
  {
    if i == |es| then [] else Owed(c, es[..i], es[i]) + OwedFrom(c, es, i + 1)
  }

  /** The stanzas among events `i` onwards that are messages. */
  function MessagesFrom(es: seq<Event>, i: nat): seq<Node>
    requires i <= |es|
    decreases |es| - i
  {
    if i == |es| then []
    else (if es[i].Frame? && es[i].node.tag == "message" then [es[i].node] else []) + MessagesFrom(es, i + 1)
  }

  const START := State([], map[], map[], 0, false, 0.0, [], 0, [], [])

  lemma RunStep(c: Config, s: State, es: seq<Event>, i: nat)
    requires i < |es|
    ensures Run(c, s, es[..i + 1]) == Next(c, Run(c, s, es[..i]), es[i])
  {
    hide Next;
    assert es[..i + 1] == es[..i] + [es[i]];
    RunConcat(c, s, es[..i], [es[i]]);
    var s' := Run(c, s, es[..i]);
    assert [es[i]][1..] == [];
    assert Run(c, Next(c, s', es[i]), []) == Next(c, s', es[i]);
  }

  /** The tables hold exactly the ids the events leave awaited. */
  lemma {:induction false} TablesAreAwaited(c: Config, es: seq<Event>, k: Kind, id: string)
    ensures id in Run(c, START, es).Table(k) <==> Awaited(es, k, id)
    decreases |es|
  {
    hide Run;
    if es == [] {
      EmptyRun(c);
    } else {
      var n := |es| - 1;
      TablesAreAwaited(c, es[..n], k, id);
      assert es[..n + 1] == es;
      RunStep(c, START, es, n);
      RunKeys(c, es[..n]);
      TableStep(c, Run(c, START, es[..n]), es[n], k, id);
    }
  }

  /** The waiters of a run are those its events register. */
  lemma {:induction false} RunKeys(c: Config, es: seq<Event>)
    ensures var ws := Run(c, START, es).waiters;
            && |ws| == |Keys(es)|
            && forall f :: 0 <= f < |ws| ==> (ws[f].kind, ws[f].id) == Keys(es)[f]
    decreases |es|
  {
    hide Run, Next;
    if es == [] {
      EmptyRun(c);
    } else {
      var n := |es| - 1;
      RunKeys(c, es[..n]);
      assert es[..n + 1] == es;
      RunStep(c, START, es, n);
      KeysStep(c, Run(c, START, es[..n]), es[n]);
    }
  }

  lemma KeysStep(c: Config, s: State, e: Event)
    ensures var ws := Next(c, s, e).waiters;
            && |ws| == |s.waiters| + (if e.Register? then 1 else 0)
            && (forall f :: 0 <= f < |s.waiters| ==> ws[f].kind == s.waiters[f].kind && ws[f].id == s.waiters[f].id)
            && (e.Register? ==> ws[|s.waiters|] == Waiter(e.kind, e.id, Pending))
  {
    hide Responses, GotOut, Attempted;
  }

  lemma EmptyRun(c: Config)
    ensures Run(c, START, []) == START
  {
  }

  lemma TableStep(c: Config, s: State, e: Event, k: Kind, id: string)
    ensures id in Next(c, s, e).Table(k) <==>
            match e
            case Close => false
            case Stop => false
            case Register(k', id') => (k' == k && id' == id) || id in s.Table(k)
            case Finish(f) =>
              !(f < |s.waiters| && (s.waiters[f].kind, s.waiters[f].id) == (k, id)) && id in s.Table(k)
            case _ => id in s.Table(k)
  {
  }

  lemma {:induction false} AllGetOut(ok: nat -> bool, attempts: nat, nodes: seq<Node>)
    requires forall k: nat :: ok(k)
    ensures GotOut(ok, attempts, nodes) == nodes
    decreases |nodes|
  {
    if nodes != [] {
      AllGetOut(ok, attempts + 1, nodes[1..]);
    }
  }

  /** With failing sends, what gets out of one stanza's replies is still a prefix of them. */
  lemma {:induction false} PrefixGetsOut(ok: nat -> bool, attempts: nat, nodes: seq<Node>)
    ensures GotOut(ok, attempts, nodes) <= nodes
    ensures GotOut(ok, attempts, nodes) == nodes
            || Attempted(ok, attempts, nodes) == attempts + |GotOut(ok, attempts, nodes)| + 1
    decreases |nodes|
  {
    if nodes != [] && ok(attempts) {
      PrefixGetsOut(ok, attempts + 1, nodes[1..]);
      assert nodes == [nodes[0]] + nodes[1..];
    }
  }

  lemma StepReplies(c: Config, es: seq<Event>, e: Event)
    requires forall k: nat :: c.sendOk(k)
    ensures var s := Run(c, START, es);
            && Next(c, s, e).replies == s.replies + Owed(c, es, e)
            && (c.hasHook ==> Next(c, s, e).delivered
                              == s.delivered + if e.Frame? && e.node.tag == "message" then [e.node] else [])
  {
    hide Run, Responses;
    var s := Run(c, START, es);
    if e.Frame? {
      TablesAreAwaited(c, es, Iq, IdOf(e.node));
      TablesAreAwaited(c, es, Ack, IdOf(e.node));
      AllGetOut(c.sendOk, s.attempts, Responses(c.own, e.node, if c.hasHook then e.extras else []));
    }
    assert s.replies + [] == s.replies && s.delivered + [] == s.delivered;
  }

  /**
   * Over every run with successful sends, the reader's replies are the per-stanza replies in arrival
   * order, and every message reaches the callback exactly once, whatever waiters are pending.
   */
  lemma {:induction false} RunReplies(c: Config, es: seq<Event>, i: nat)
    requires (forall k: nat :: c.sendOk(k)) && i <= |es|
    ensures Run(c, START, es).replies == Run(c, START, es[..i]).replies + OwedFrom(c, es, i)
    ensures c.hasHook ==> Run(c, START, es).delivered == Run(c, START, es[..i]).delivered + MessagesFrom(es, i)
    decreases |es| - i
  {
    hide Run, Next, Owed, Responses;
    var s := Run(c, START, es[..i]);
    if i == |es| {
      assert es[..i] == es;
      assert s.replies + [] == s.replies && s.delivered + [] == s.delivered;
    } else {
      RunStep(c, START, es, i);
      StepReplies(c, es[..i], es[i]);
      RunReplies(c, es, i + 1);
      Regroup(s.replies, Owed(c, es[..i], es[i]), OwedFrom(c, es, i + 1));
      var message := if es[i].Frame? && es[i].node.tag == "message" then [es[i].node] else [];
      Regroup(s.delivered, message, MessagesFrom(es, i + 1));
    }
  }

  // --- failing sends ---------------------------------------------------------------------------

  /** What gets out of each event's replies, from event `i` on, with so many sends tried before. */
  function PartsFrom(c: Config, es: seq<Event>, i: nat, attempts: nat): seq<seq<Node>>
    requires i <= |es|
    decreases |es| - i
  {
    if i == |es| then []
    else
      var owed := Owed(c, es[..i], es[i]);
      [GotOut(c.sendOk, attempts, owed)] + PartsFrom(c, es, i + 1, Attempted(c.sendOk, attempts, owed))
  }

  function Flat(parts: seq<seq<Node>>): seq<Node> {
    if parts == [] then [] else parts[0] + Flat(parts[1..])
  }

  /** One event's part of the replies, whichever sends fail; the callback comes before any of them. */
  lemma StepGetsOut(c: Config, es: seq<Event>, e: Event)
    ensures var s, s' := Run(c, START, es), Next(c, Run(c, START, es), e);
            && s'.replies == s.replies + GotOut(c.sendOk, s.attempts, Owed(c, es, e))
            && s'.attempts == Attempted(c.sendOk, s.attempts, Owed(c, es, e))
            && (c.hasHook ==>
                  s'.delivered == s.delivered + if e.Frame? && e.node.tag == "message" then [e.node] else [])
  {
    hide Run, Responses;
    var s := Run(c, START, es);
    if e.Frame? {
      TablesAreAwaited(c, es, Iq, IdOf(e.node));
      TablesAreAwaited(c, es, Ack, IdOf(e.node));
    }
    assert GotOut(c.sendOk, s.attempts, []) == [] && Attempted(c.sendOk, s.attempts, []) == s.attempts;
    assert s.replies + [] == s.replies && s.delivered + [] == s.delivered;
  }

  lemma {:induction false} RunParts(c: Config, es: seq<Event>, i: nat)
    requires i <= |es|
    ensures var s := Run(c, START, es[..i]);
            && Run(c, START, es).replies == s.replies + Flat(PartsFrom(c, es, i, s.attempts))
            && (c.hasHook ==> Run(c, START, es).delivered == s.delivered + MessagesFrom(es, i))
    decreases |es| - i
  {
    hide Run, Next, Owed, GotOut, Attempted;
    var s := Run(c, START, es[..i]);
    if i == |es| {
      assert es[..i] == es;
      assert s.replies + [] == s.replies && s.delivered + [] == s.delivered;
    } else {
      RunStep(c, START, es, i);
      StepGetsOut(c, es[..i], es[i]);
      RunParts(c, es, i + 1);
      var parts := PartsFrom(c, es, i, s.attempts);
      Regroup(s.replies, parts[0], Flat(parts[1..]));
      var message := if es[i].Frame? && es[i].node.tag == "message" then [es[i].node] else [];
      Regroup(s.delivered, message, MessagesFrom(es, i + 1));
    }
  }

  lemma {:induction false} PartsArePrefixes(c: Config, es: seq<Event>, i: nat, attempts: nat)
    requires i <= |es|
    ensures var parts := PartsFrom(c, es, i, attempts);
            |parts| == |es| - i && forall k :: i <= k < |es| ==> parts[k - i] <= Owed(c, es[..k], es[k])
    decreases |es| - i
  {
    hide Owed, GotOut, Attempted;
    if i < |es| {
      var owed := Owed(c, es[..i], es[i]);
      PrefixGetsOut(c.sendOk, attempts, owed);
      PartsArePrefixes(c, es, i + 1, Attempted(c.sendOk, attempts, owed));
    }
  }

  /**
   * Over every run, whichever sends fail: the replies that get out are the concatenation, in arrival
   * order, of one prefix per event's owed replies, and every message reaches the callback once.
   */
  lemma RunWithFailures(c: Config, es: seq<Event>)
    ensures var parts := PartsFrom(c, es, 0, 0);
            && Run(c, START, es).replies == Flat(parts)
            && |parts| == |es| && (forall k :: 0 <= k < |es| ==> parts[k] <= Owed(c, es[..k], es[k]))
    ensures c.hasHook ==> Run(c, START, es).delivered == MessagesFrom(es, 0)
  {
    hide Run, PartsFrom, Flat, MessagesFrom, Owed;
    RunParts(c, es, 0);
    PartsArePrefixes(c, es, 0, 0);
    assert es[..0] == [];
    EmptyRun(c);
    assert [] + Flat(PartsFrom(c, es, 0, 0)) == Flat(PartsFrom(c, es, 0, 0));
    assert [] + MessagesFrom(es, 0) == MessagesFrom(es, 0);
  }

  /** From the start of the connection. */
  lemma WholeRun(c: Config, es: seq<Event>)
    requires forall k: nat :: c.sendOk(k)
    ensures Run(c, START, es).replies == OwedFrom(c, es, 0)
    ensures c.hasHook ==> Run(c, START, es).delivered == MessagesFrom(es, 0)
  {
    hide Run, OwedFrom, MessagesFrom;
    RunReplies(c, es, 0);
    assert es[..0] == [];
    EmptyRun(c);
    assert [] + OwedFrom(c, es, 0) == OwedFrom(c, es, 0) && [] + MessagesFrom(es, 0) == MessagesFrom(es, 0);
  }

  // --- what one message is owed ------------------------------------------------------------------

  lemma {:induction false} ProtocolReceiptsAreReceipts(own: Own, n: Node, kinds: seq<string>)
    ensures var rs := ProtocolReceipts(own, n, kinds);
            |rs| == |kinds| && forall i :: 0 <= i < |kinds| ==> rs[i] == ProtocolReceipt(own, n, kinds[i])
    decreases |kinds|
  {
    if kinds != [] {
      ProtocolReceiptsAreReceipts(own, n, kinds[1..]);
    }
  }

  /**
   * A message is owed exactly one ack, first, naming its class, id and sender; then one plain
   * receipt, marked as the sender's exactly for an own echo; then, exactly for an own echo, one
   * protocol receipt per kind, the peer one last and exactly for a peer message.
   */
  lemma MessageOwed(own: Own, n: Node, extras: seq<string>)
    requires n.tag == "message"
    ensures var rs := Responses(own, n, extras);
            && |rs| == (if own.IsEcho(n) then 2 + |ExtraKinds(n, extras)| else 2)
            && rs[0].tag == "ack" && (forall i :: 1 <= i < |rs| ==> rs[i].tag == "receipt")
            && (forall i :: 0 <= i < |rs| ==> Get(rs[i].attrs, "id") == GetOr(n.attrs, "id", Text("")))
            && Get(rs[0].attrs, "class") == Text("message")
            && Get(rs[0].attrs, "to") == Get(rs[1].attrs, "to") == GetOr(n.attrs, "from", Address(SERVER))
            && (Get(rs[1].attrs, "type") == Text("sender") <==> own.IsEcho(n))
            && (forall i :: 2 <= i < |rs| ==>
                  && Get(rs[i].attrs, "type") == Text(ExtraKinds(n, extras)[i - 2])
                  && Get(rs[i].attrs, "to") == Address(JID(own.pn, DEFAULT_USER_SERVER, 0, 0, 0)))
  {
    var rs := Responses(own, n, extras);
    var kinds := ExtraKinds(n, extras);
    ProtocolReceiptsAreReceipts(own, n, kinds);
    AckAttrs(n);
    ReceiptAttrs(own, n);
    forall i | 2 <= i < |rs|
      ensures rs[i] == ProtocolReceipt(own, n, kinds[i - 2])
      ensures Get(rs[i].attrs, "id") == ReplyId(n) && Get(rs[i].attrs, "type") == Text(kinds[i - 2])
      ensures Get(rs[i].attrs, "to") == Address(JID(own.pn, DEFAULT_USER_SERVER, 0, 0, 0))
    {
      ProtocolAttrs(own, n, kinds[i - 2]);
    }
  }

  /** Looking a key up in two attribute lists put together. */
  lemma {:induction false} LookupConcat(a: seq<Attr>, b: seq<Attr>, key: string)
    ensures Present(a + b, key) <==> Present(a, key) || Present(b, key)
    ensures Get(a + b, key) == if Present(a, key) then Get(a, key) else Get(b, key)
    decreases |a|
  {
    if a == [] {
      assert a + b == b;
    } else {
      assert (a + b)[1..] == a[1..] + b;
      LookupConcat(a[1..], b, key);
    }
  }

  lemma {:induction false} NotPresent(attrs: seq<Attr>, key: string)
    requires forall i :: 0 <= i < |attrs| ==> attrs[i].key != key
    ensures !Present(attrs, key)
    decreases |attrs|
  {
    if attrs != [] {
      NotPresent(attrs[1..], key);
    }
  }

  lemma {:induction false} AbsentWithout(attrs: seq<Attr>, key: string)
    requires !Present(attrs, key)
    ensures Get(attrs, key) == Absent
    decreases |attrs|
  {
    if attrs != [] {
      AbsentWithout(attrs[1..], key);
    }
  }

  lemma CopiedKey(n: Node, key: string, other: string)
    ensures Present(CopyIf(n, key), other) <==> key == other && Present(n.attrs, key)
    ensures Get(CopyIf(n, key), other) == if key == other then Get(n.attrs, key) else Absent
  {
    if !Present(n.attrs, key) {
      AbsentWithout(n.attrs, key);
    } else {
      assert [Attr(key, Get(n.attrs, key))][1..] == [];
    }
  }

  /** Behind the fixed attributes stand the stanza's participant and recipient, if it has them, then the rest. */
  lemma CopiesStand(head: seq<Attr>, n: Node, tail: seq<Attr>, key: string)
    requires !Present(head, key)
    requires key == "participant" || key == "recipient" || key == "type"
    requires key != "type" ==> !Present(tail, key)
    ensures var attrs := head + CopyIf(n, "participant") + CopyIf(n, "recipient") + tail;
            var origin := if key == "type" then tail else n.attrs;
            (Present(attrs, key) <==> Present(origin, key)) && Get(attrs, key) == Get(origin, key)
  {
    hide CopyIf, Present, Get;
    var p, r := CopyIf(n, "participant"), CopyIf(n, "recipient");
    CopiedKey(n, "participant", key);
    CopiedKey(n, "recipient", key);
    LookupConcat(head, p, key);
    LookupConcat(head + p, r, key);
    LookupConcat(head + p + r, tail, key);
    if key != "type" {
      AbsentWithout(tail, key);
      if !Present(n.attrs, key) {
        AbsentWithout(n.attrs, key);
      }
    }
  }

  /** An ack copies participant and recipient from the stanza, and its type unless it is a message. */
  lemma AckCopies(n: Node, key: string)
    requires key == "participant" || key == "recipient" || key == "type"
    ensures Present(AckOf(n).attrs, key) <==> Present(n.attrs, key) && !(key == "type" && n.tag == "message")
    ensures Present(AckOf(n).attrs, key) ==> Get(AckOf(n).attrs, key) == Get(n.attrs, key)
  {
    hide CopyIf, Present, Get;
    var head := [Attr("class", Text(n.tag)), Attr("id", ReplyId(n)), Attr("to", ReplyTo(n))];
    var tail := if n.tag != "message" then CopyIf(n, "type") else [];
    NotPresent(head, key);
    NotPresent([], key);
    CopiedKey(n, "type", key);
    CopiesStand(head, n, tail, key);
  }

  /** A receipt copies participant and recipient too, and its type only ever marks an own echo. */
  lemma ReceiptCopies(own: Own, n: Node, key: string)
    requires key == "participant" || key == "recipient" || key == "type"
    ensures key != "type" ==>
              (Present(ReceiptOf(own, n).attrs, key) <==> Present(n.attrs, key))
              && Get(ReceiptOf(own, n).attrs, key) == Get(n.attrs, key)
    ensures key == "type" ==> Get(ReceiptOf(own, n).attrs, key) == if own.IsEcho(n) then Text("sender") else Absent
  {
    hide CopyIf, Present, Get, Own.IsEcho, ReplyId, ReplyTo;
    var head := [Attr("id", ReplyId(n)), Attr("to", ReplyTo(n))];
    var tail := if own.IsEcho(n) then [Attr("type", Text("sender"))] else [];
    NotPresent(head, key);
    if key != "type" || !own.IsEcho(n) {
      NotPresent(tail, key);
      AbsentWithout(tail, key);
    } else {
      GetAt(tail, 0);
    }
    CopiesStand(head, n, tail, key);
  }

  /** What other unsolicited stanzas are owed: pings and sets a result, notifications, calls and receipts an ack. */
  lemma OthersOwed(own: Own, n: Node, extras: seq<string>)
    requires n.tag != "message"
    ensures var rs := Responses(own, n, extras);
            && |rs| <= 1
            && (|rs| == 1 <==> IsServerPing(n) || (n.tag == "iq" && Get(n.attrs, "type") == Text("set"))
                               || n.tag == "notification" || n.tag == "call" || n.tag == "receipt")
            && forall i :: 0 <= i < |rs| ==>
                 && rs[i].tag == (if n.tag == "iq" then "iq" else "ack")
                 && Get(rs[i].attrs, "id") == ReplyId(n) && Get(rs[i].attrs, "to") == ReplyTo(n)
                 && (n.tag == "iq" ==> Get(rs[i].attrs, "type") == Text("result"))
                 && (n.tag != "iq" ==> Get(rs[i].attrs, "class") == Text(n.tag))
  {
    hide ReplyId, ReplyTo, Get;
    AckAttrs(n);
    var attrs := IqResult(n).attrs;
    GetAt(attrs, 0);
    GetAt(attrs, 1);
    GetAt(attrs, 2);
  }

  lemma GetAt(attrs: seq<Attr>, i: nat)
    requires i < |attrs| && forall j :: 0 <= j < i ==> attrs[j].key != attrs[i].key
    ensures Get(attrs, attrs[i].key) == attrs[i].value
    decreases i
  {
    if i > 0 {
      assert attrs[1..][i - 1] == attrs[i];
      GetAt(attrs[1..], i - 1);
    }
  }

  lemma AckAttrs(n: Node)
    ensures var a := AckOf(n);
            && Get(a.attrs, "class") == Text(n.tag)
            && Get(a.attrs, "id") == ReplyId(n) && Get(a.attrs, "to") == ReplyTo(n)
  {
    hide CopyIf, ReplyId, ReplyTo, Get;
    var attrs := AckOf(n).attrs;
    assert attrs[0] == Attr("class", Text(n.tag));
    assert attrs[1] == Attr("id", ReplyId(n)) && attrs[2] == Attr("to", ReplyTo(n));
    GetAt(attrs, 0);
    GetAt(attrs, 1);
    GetAt(attrs, 2);
  }

  lemma ReceiptAttrs(own: Own, n: Node)
    ensures var a := ReceiptOf(own, n);
            && Get(a.attrs, "id") == ReplyId(n) && Get(a.attrs, "to") == ReplyTo(n)
            && (Get(a.attrs, "type") == Text("sender") <==> own.IsEcho(n))
  {
    hide ReplyId, ReplyTo, Own.IsEcho, CopyIf, Get;
    ReceiptCopies(own, n, "type");
    var attrs := ReceiptOf(own, n).attrs;
    assert attrs[0] == Attr("id", ReplyId(n)) && attrs[1] == Attr("to", ReplyTo(n));
    GetAt(attrs, 0);
    GetAt(attrs, 1);
  }

  lemma ProtocolAttrs(own: Own, n: Node, kind: string)
    ensures var a := ProtocolReceipt(own, n, kind);
            && Get(a.attrs, "id") == ReplyId(n) && Get(a.attrs, "type") == Text(kind)
            && Get(a.attrs, "to") == Address(JID(own.pn, DEFAULT_USER_SERVER, 0, 0, 0))
  {
    hide ReplyId;
    GetAt(ProtocolReceipt(own, n, kind).attrs, 0);
    GetAt(ProtocolReceipt(own, n, kind).attrs, 1);
    GetAt(ProtocolReceipt(own, n, kind).attrs, 2);
  }
}
