/**
 * What the reader does with a stanza, told by the stanza's own attributes: which messages are own echoes,
 * which queries are pings, whose waiter an answer completes, and what stands in every reply.
 */
module SessionOwed {
  import opened Jids
  import opened Nodes
  import opened Session
  import opened Wrappers
  import Decimal
  import JidText

  // --- attributes ----------------------------------------------------------------------------

  /** Entry `i` is the first under this key. */
  ghost predicate FirstUnder(attrs: seq<Attr>, key: string, i: nat) {
    i < |attrs| && attrs[i].key == key && forall j :: 0 <= j < i ==> attrs[j].key != key
  }

  /** Looking a key up gives the value of its first entry, and the default when it has none. */
  lemma {:induction false} Lookups(attrs: seq<Attr>, key: string, default: Value)
    ensures forall i: nat :: FirstUnder(attrs, key, i) ==>
              Present(attrs, key) && Get(attrs, key) == GetOr(attrs, key, default) == attrs[i].value
    ensures !HasKey(attrs, key) ==>
              !Present(attrs, key) && Get(attrs, key) == Absent && GetOr(attrs, key, default) == default
  {
    if attrs != [] {
      Lookups(attrs[1..], key, default);
      forall i: nat | FirstUnder(attrs, key, i)
        ensures Present(attrs, key) && Get(attrs, key) == GetOr(attrs, key, default) == attrs[i].value
      {
        if i > 0 {
          assert FirstUnder(attrs[1..], key, i - 1) && attrs[0].key != key;
        }
      }
      if !HasKey(attrs, key) {
        assert attrs[0].key != key;
        forall i | 0 <= i < |attrs[1..]| ensures attrs[1..][i].key != key {
          assert attrs[i + 1].key != key;
        }
      }
    }
  }

  /** The id of a stanza as text: a text itself, a number in decimals, an identifier in its short form. */
  lemma IdAsText(n: Node)
    ensures match Get(n.attrs, "id")
            case Absent => IdOf(n) == ""
            case Text(s) => IdOf(n) == s
            case Number(k) => if k == 0 then IdOf(n) == "" else JidText.IntOf(IdOf(n)) == Some(k)
            case Truth(b) => IdOf(n) == if b then "True" else ""
            case Address(j) => JidText.Faithful(j) ==> JidText.Parse(IdOf(n)) == Ok(j)
            case _ => true
  {
    hide JidText.IntOf, JidText.Parse, JidText.Faithful, Decimal.Text, JID.Str;
    match Get(n.attrs, "id")
    case Number(k) => JidText.IntOfText(k);
    case Address(j) => JidText.ParseOfStr(j);
    case _ =>
  }

  // --- own echoes -------------------------------------------------------------------------------

  /** Whoever a message counts as coming from: a participant that says something, else the sender. */
  function Sender(n: Node): Value {
    match Get(n.attrs, "participant")
    case Absent => Get(n.attrs, "from")
    case Text("") => Get(n.attrs, "from")
    case Number(0) => Get(n.attrs, "from")
    case Truth(false) => Get(n.attrs, "from")
    case Blob(b) => if b == [] then Get(n.attrs, "from") else Blob(b)
    case Children(ns) => if ns == [] then Get(n.attrs, "from") else Children(ns)
    case v => v
  }

  /** A message is answered as an own echo exactly if it comes from an identifier of one of our own users. */
  lemma EchoesAreOwn(own: Own, n: Node, extras: seq<string>)
    requires n.tag == "message"
    ensures var rs, from := Responses(own, n, extras), Sender(n);
            var echo := from.Address? && (from.jid.user == own.pn || Some(from.jid.user) == own.lid);
            var peer := if Get(n.attrs, "category") == Text("peer") then 1 else 0;
            && |rs| == (if echo then 2 + |extras| + peer else 2)
            && Get(rs[1].attrs, "type") == (if echo then Text("sender") else Absent)
            && (forall i :: 2 <= i < |rs| ==>
                  && Get(rs[i].attrs, "type") == Text(if i - 2 < |extras| then extras[i - 2] else "peer_msg")
                  && Get(rs[i].attrs, "to") == Address(JID(own.pn, "s.whatsapp.net", 0, 0, 0)))
  {
    hide ReceiptOf, AckOf, ProtocolReceipt, Get;
    var rs := Responses(own, n, extras);
    assert own.IsEcho(n) <==> var from := Sender(n);
                              from.Address? && (from.jid.user == own.pn || Some(from.jid.user) == own.lid);
    hide Own.IsEcho;
    MessageOwed(own, n, extras);
    ReceiptCopies(own, n, "type");
    assert rs[1] == ReceiptOf(own, n);
  }

  // --- pings and the other replies -----------------------------------------------------------------

  /** A query is answered exactly if it sets something, or gets a ping: by its namespace or by a child. */
  lemma QueriesAnswered(own: Own, n: Node, extras: seq<string>)
    requires n.tag == "iq"
    ensures var kind, ns := Get(n.attrs, "type"), Get(n.attrs, "xmlns");
            var pings := n.content.Children?
                         && exists i :: 0 <= i < |n.content.children| && n.content.children[i].tag == "ping";
            var due := kind == Text("set")
                       || (kind == Text("get") && (ns == Text("urn:xmpp:ping") || ns == Text("w:p") || pings));
            Responses(own, n, extras)
            == if !due then []
               else [Node("iq", [Attr("to", GetOr(n.attrs, "from", Address(JID("", "s.whatsapp.net", 0, 0, 0)))),
                                 Attr("id", GetOr(n.attrs, "id", Text(""))),
                                 Attr("type", Text("result"))], Absent)]
  {
    hide Get, GetOr;
    if n.content.Children? {
      assert ChildrenOf(n) == n.content.children;
    }
  }

  /** Every ack and receipt goes to the stanza's sender, or to the server, and holds nothing but these keys. */
  lemma RepliesHold(own: Own, n: Node, i: nat)
    ensures var attrs := AckOf(n).attrs;
            && AckOf(n).content == Absent
            && Get(attrs, "to") == GetOr(n.attrs, "from", Address(JID("", "s.whatsapp.net", 0, 0, 0)))
            && (i < |attrs| ==> attrs[i].key in ["class", "id", "to", "participant", "recipient", "type"])
    ensures var attrs := ReceiptOf(own, n).attrs;
            && ReceiptOf(own, n).content == Absent
            && Get(attrs, "to") == GetOr(n.attrs, "from", Address(JID("", "s.whatsapp.net", 0, 0, 0)))
            && (i < |attrs| ==> attrs[i].key in ["id", "to", "participant", "recipient", "type"])
  {
    AckAttrs(n);
    ReceiptAttrs(own, n);
    hide Get, Own.IsEcho;
  }

  // --- waiters ------------------------------------------------------------------------------------

  /**
   * A stanza whose tag and text id someone waits for completes that waiter if it is still open, and does
   * nothing else; whatever its attributes say, it is neither answered nor heard as mailbox traffic.
   */
  lemma AnswersComplete(c: Config, s: State, n: Node, now: real, extras: seq<string>, id: string, f: nat)
    requires Get(n.attrs, "id") == Text(id)
    requires (n.tag == "iq" && id in s.iq && s.iq[id] == f) || (n.tag == "ack" && id in s.ack && s.ack[id] == f)
    ensures var s' := Next(c, s, Frame(n, now, extras));
            && s'.replies == s.replies && s'.attempts == s.attempts && s'.delivered == s.delivered
            && s'.heard == s.heard && s'.lastUnsolicited == s.lastUnsolicited
            && s'.iq == s.iq && s'.ack == s.ack
            && |s'.waiters| == |s.waiters|
            && forall k :: 0 <= k < |s.waiters| ==>
                 s'.waiters[k] == if k == f && s.waiters[k].outcome == Pending
                                  then Waiter(s.waiters[k].kind, s.waiters[k].id, Answered(n)) else s.waiters[k]
  {
    hide Responses, GotOut, Attempted;
    IdAsText(n);
  }

  /** A stanza nobody waits for is heard at its time and completes nobody. */
  lemma OthersAreHeard(c: Config, s: State, n: Node, now: real, extras: seq<string>, id: string)
    requires Get(n.attrs, "id") == Text(id) || (id == "" && Get(n.attrs, "id") == Absent)
    requires !(n.tag == "iq" && id in s.iq) && !(n.tag == "ack" && id in s.ack)
    ensures var s' := Next(c, s, Frame(n, now, extras));
            && s'.waiters == s.waiters && s'.iq == s.iq && s'.ack == s.ack
            && s'.heard == s.heard + [now] && s'.lastUnsolicited == now
            && s'.delivered == s.delivered + if n.tag == "message" && c.hasHook then [n] else []
  {
    hide Responses, GotOut, Attempted;
    IdAsText(n);
  }

  // --- the count of frames ---------------------------------------------------------------------------

  /** How many events are stanzas. */
  function Stanzas(es: seq<Event>): nat {
    if es == [] then 0 else (if es[0].Frame? then 1 else 0) + Stanzas(es[1..])
  }

  lemma {:induction false} StanzasConcat(a: seq<Event>, b: seq<Event>)
    ensures Stanzas(a + b) == Stanzas(a) + Stanzas(b)
  {
    if a == [] {
      assert a + b == b;
    } else {
      assert (a + b)[1..] == a[1..] + b;
      StanzasConcat(a[1..], b);
    }
  }

  /** Every stanza dispatched is counted, answers included, and nothing else is. */
  lemma {:induction false} FramesAreCounted(c: Config, s: State, es: seq<Event>)
    ensures Run(c, s, es).framesSeen == s.framesSeen + Stanzas(es)
    decreases |es|
  {
    if es != [] {
      FrameCounted(c, s, es[0]);
      hide Next;
      FramesAreCounted(c, Next(c, s, es[0]), es[1..]);
    }
  }

  lemma FrameCounted(c: Config, s: State, e: Event)
    ensures Next(c, s, e).framesSeen == s.framesSeen + if e.Frame? then 1 else 0
  {
    hide Responses, GotOut, Attempted, SetOutcome, IdOf;
  }
}
