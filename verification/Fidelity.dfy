/** When the wire form is the form a caller expects, and when encoding it again gives the same bytes. */
module Fidelity {
  import opened Wrappers
  import opened Bytes
  import opened Tokens
  import opened Jids
  import opened Nodes
  import opened Wire
  import opened Reading
  import opened RoundTrip
  import Decimal
  import Utf8

  // --- identifiers ---------------------------------------------------------------

  /** A hidden-identity device is agent 1, spelled out or not; otherwise the identifier itself. */
  function CanonJid(j: JID): JID {
    if j.server == "lid" && j.device > 0 && j.agent == 0 then j.(agent := 1) else j
  }

  /** The identifiers each wire form has room for, server by server. */
  predicate Representable(j: JID) {
    if j.server == "s.whatsapp.net" && j.device > 0 then j.agent == 0 && j.device < 256 && j.integrator == 0
    else if j.server == "lid" && j.device > 0 then 0 <= j.agent <= 1 && j.device < 256 && j.integrator == 0
    else if j.server == "hosted" then 2 <= j.agent < 128 && 0 <= j.device < 256 && j.integrator == 0
    else if j.server == "hosted.lid" then 128 <= j.agent < 256 && 0 <= j.device < 256 && j.integrator == 0
    else if j.server == "msgr" then j.agent == 0 && 0 <= j.device < 0x1_0000 && j.integrator == 0
    else if j.server == "interop" then
      j.agent == 0 && 0 <= j.device < 0x1_0000 && 0 <= j.integrator < 0x1_0000
    else j.agent == 0 && j.device == 0 && j.integrator == 0
  }

  /** An identifier survives the wire exactly when it is representable, and its hashed form with it. */
  lemma JidSurvives(j: JID)
    ensures WireJid(j) == CanonJid(j) <==> Representable(j)
    ensures Representable(j) ==> WireJid(j).AdString() == j.AdString()
  {
    assert CanonJid(j).ActualAgent() == j.ActualAgent();
  }

  /** The device identifiers of the four servers come back as they are, a hidden-identity one with its agent. */
  lemma DevicesComeBack(user: string, agent: int, device: int)
    requires 0 < device < 256
    ensures WireJid(JID(user, "s.whatsapp.net", 0, device, 0)) == JID(user, "s.whatsapp.net", 0, device, 0)
    ensures 0 <= agent <= 1 ==>
              WireJid(JID(user, "lid", agent, device, 0)) == JID(user, "lid", 1, device, 0)
    ensures 2 <= agent < 128 ==>
              WireJid(JID(user, "hosted", agent, device, 0)) == JID(user, "hosted", agent, device, 0)
    ensures 128 <= agent < 256 ==>
              WireJid(JID(user, "hosted.lid", agent, device, 0)) == JID(user, "hosted.lid", agent, device, 0)
  {
  }

  /**
   * The other way round: which server bytes in the agent-and-device form decode to is decided by the agent
   * byte alone, whatever user and device follow it.
   */
  lemma DecodedServer(t: Tables, d: seq<Byte>, p: nat, agent: Byte, device: Byte, user: string)
    requires t.Valid() && StringFits(t, user) && At(d, p, [247, agent, device] + StringBytes(t, user))
    ensures var server := if agent == 0 then "s.whatsapp.net" else if agent == 1 then "lid"
                          else if agent < 128 then "hosted" else "hosted.lid";
            ReadTagged(t, d, p, true)
            == Got(Address(JID(user, server, agent, device, 0)), p + 3 + |StringBytes(t, user)|)
  {
    var head: seq<Byte> := [247, agent, device];
    AtConcat(d, p, head, StringBytes(t, user));
    AtIndex(d, p, head, 0);
    AtIndex(d, p, head, 1);
    AtIndex(d, p, head, 2);
    TextAt(t, d, p + 3, user);
    hide ReadString, StringBytes, At;
    assert ReadAdJid(t, d, p + 1).Got?;
  }

  /** The identifiers written in the agent-and-device form. */
  predicate HasDeviceForm(j: JID) {
    || ((j.server == "s.whatsapp.net" || j.server == "lid") && j.device > 0)
    || j.server == "hosted" || j.server == "hosted.lid"
  }

  /** A form that falls back to the plain pair: no device is left, and the agent byte implies a plain server. */
  predicate LosesAdForm(j: JID) {
    HasDeviceForm(j) && j.device % 256 == 0 && j.agent % 256 < 2
  }

  /** Encoding the decoded identifier gives the same bytes unless the agent-and-device form is lost. */
  lemma JidReencodes(t: Tables, j: JID)
    requires t.Valid()
    ensures JidBytes(t, WireJid(j)) == JidBytes(t, j) <==> !LosesAdForm(j)
  {
    hide StringBytes;
    var w := WireJid(j);
    assert HasDeviceForm(j) == j.IsAd();
    if j.IsAd() {
      assert JidBytes(t, j)[0] == AD_JID;
      if LosesAdForm(j) {
        assert !w.IsAd() && JidBytes(t, w)[0] == JID_PAIR;
      } else {
        assert w.IsAd() && w.ActualAgent() == j.ActualAgent() % 256;
      }
    } else {
      assert !w.IsAd();
      hide JID.IsAd, WireJid;
      assert w == WireJid(j) && w.user == j.user && w.server == j.server;
      assert forall v: int :: U16(v % 0x1_0000) == U16(v) by {
        forall v: int ensures U16(v % 0x1_0000) == U16(v) {
          Low16(v);
        }
      }
    }
  }

  lemma Low16(v: int)
    ensures U16(v % 0x1_0000) == U16(v)
  {
    assert v == v / 0x1_0000 * 0x1_0000 + v % 0x1_0000;
    assert v / 256 == v / 0x1_0000 * 256 + v % 0x1_0000 / 256;
  }

  // --- stanzas -------------------------------------------------------------------------

  function NormalValue(v: Value): Value
    decreases v, 0
  {
    match v
    case Number(n) => Text(Decimal.Text(n))
    case Truth(b) => Text(if b then "true" else "false")
    case Address(j) => Address(CanonJid(j))
    case Children(ns) => Children(NormalNodes(ns))
    case _ => v
  }

  function NormalAttrs(attrs: seq<Attr>): seq<Attr>
    decreases attrs, 0
  {
    if attrs == [] then []
    else if Skipped(attrs[0].value) then NormalAttrs(attrs[1..])
    else [Attr(attrs[0].key, NormalValue(attrs[0].value))] + NormalAttrs(attrs[1..])
  }

  function NormalNodes(ns: seq<Node>): seq<Node>
    decreases ns, 0
  {
    if ns == [] then [] else [NormalNode(ns[0])] + NormalNodes(ns[1..])
  }

  /** The stanza a caller expects back: empty attributes dropped, integers and booleans as text. */
  function NormalNode(n: Node): Node
    decreases n, 1
  {
    Node(n.tag, NormalAttrs(n.attrs), NormalValue(n.content))
  }

  predicate SurvivesContent(t: Tables, v: Value)
    decreases v, 0
  {
    match v
    case Text(s) => !IsRaw(t, s)
    case Number(n) => !IsRaw(t, Decimal.Text(n))
    case Truth(b) => !IsRaw(t, TruthText(b))
    case Address(j) => Representable(j)
    case Children(ns) => ns != [] && forall i :: 0 <= i < |ns| ==> Survives(t, ns[i])
    case _ => true
  }

  /**
   * No node tagged "0", no empty child list, every identifier representable, and no content that is
   * a text long enough, or odd enough, to be written raw (it would come back as bytes).
   */
  predicate Survives(t: Tables, n: Node)
    decreases n, 1
  {
    && n.tag != "0"
    && (forall i :: 0 <= i < |n.attrs| && n.attrs[i].value.Address? ==> Representable(n.attrs[i].value.jid))
    && SurvivesContent(t, n.content)
  }

  lemma {:induction false} AttrsSurvive(attrs: seq<Attr>)
    requires forall i :: 0 <= i < |attrs| ==> AttrKind(attrs[i].value)
    ensures WireAttrs(attrs) == NormalAttrs(attrs)
            <==> forall i :: 0 <= i < |attrs| && attrs[i].value.Address? ==> Representable(attrs[i].value.jid)
    ensures |WireAttrs(attrs)| == |NormalAttrs(attrs)|
  {
    if attrs != [] {
      AttrsSurvive(attrs[1..]);
      var v := attrs[0].value;
      if v.Address? {
        JidSurvives(v.jid);
      }
      assert forall i :: 0 <= i < |attrs| ==> attrs[i] == if i == 0 then attrs[0] else attrs[1..][i - 1];
      if !Skipped(v) {
        assert WireAttrs(attrs)[0] == Attr(attrs[0].key, WireAttr(v)) && WireAttrs(attrs)[1..] == WireAttrs(attrs[1..]);
        assert NormalAttrs(attrs)[0] == Attr(attrs[0].key, NormalValue(v))
               && NormalAttrs(attrs)[1..] == NormalAttrs(attrs[1..]);
      }
    }
  }

  lemma {:induction false} NodesSurvive(t: Tables, ns: seq<Node>)
    requires forall i :: 0 <= i < |ns| ==> Shaped(ns[i])
    ensures WireNodes(t, ns) == NormalNodes(ns) <==> forall i :: 0 <= i < |ns| ==> Survives(t, ns[i])
    ensures |NormalNodes(ns)| == |ns|
    decreases ns, 0
  {
    if ns != [] {
      NodeSurvives(t, ns[0]);
      NodesSurvive(t, ns[1..]);
      assert forall i :: 0 <= i < |ns| ==> ns[i] == if i == 0 then ns[0] else ns[1..][i - 1];
      assert WireNodes(t, ns)[1..] == WireNodes(t, ns[1..]) && NormalNodes(ns)[1..] == NormalNodes(ns[1..]);
      assert NormalNodes(ns)[0] == NormalNode(ns[0]);
    }
  }

  lemma {:induction false} ContentSurvives(t: Tables, v: Value)
    requires ShapedContent(v)
    ensures WireContent(t, v) == NormalValue(v) <==> SurvivesContent(t, v)
    decreases v, 0
  {
    match v
    case Address(j) => JidSurvives(j);
    case Children(ns) => NodesSurvive(t, ns);
    case _ =>
  }

  /** The wire form is the expected form exactly when nothing in the tree is beyond the format. */
  lemma {:induction false} NodeSurvives(t: Tables, n: Node)
    requires Shaped(n)
    ensures WireNode(t, n) == NormalNode(n) <==> Survives(t, n)
    decreases n, 1
  {
    if n.tag != "0" {
      AttrsSurvive(n.attrs);
      ContentSurvives(t, n.content);
    }
  }

  /** The round trip: decoding an encoding gives the expected stanza exactly when the stanza survives. */
  lemma RoundTripIff(t: Tables, n: Node, inflate: Inflate)
    requires t.Valid() && Encodable(t, n)
    ensures Decoded(t, [0] + NodeBytes(t, n), inflate) == Ok(NormalNode(n)) <==> Survives(t, n)
  {
    hide NodeBytes, Decoded;
    DecodeOfEncode(t, n, inflate);
    NodeSurvives(t, n);
  }

  /**
   * Concrete losses: a top stanza tagged "0", an empty child list, a hosted identifier whose agent
   * is 0, and any content text that is written raw.
   */
  lemma LossyCorners(t: Tables, inflate: Inflate, s: string)
    requires t.Valid()
    ensures IsRaw(t, s) ==> WireNode(t, Node("body", [], Text(s))).content == Blob(Utf8.Encode(s))
    ensures Decoded(t, [0] + NodeBytes(t, Node("0", [], Absent)), inflate) == Err
    ensures WireNode(t, Node("list", [], Children([]))).content == Text("")
    ensures WireJid(JID("1", "hosted", 0, 5, 0)) == JID("1", "s.whatsapp.net", 0, 5, 0)
  {
    DecodeOfEncode(t, Node("0", [], Absent), inflate);
  }

  // --- encoding again -----------------------------------------------------------------

  lemma NormalJidBytes(t: Tables, j: JID)
    requires t.Valid() && Representable(j)
    ensures JidBytes(t, CanonJid(j)) == JidBytes(t, j)
  {
    hide StringBytes;
    assert j.IsAd() ==> CanonJid(j).IsAd() && CanonJid(j).ActualAgent() == j.ActualAgent();
  }

  lemma {:induction false} NormalAttrsBytes(t: Tables, attrs: seq<Attr>)
    requires t.Valid()
    requires forall i :: 0 <= i < |attrs| ==> AttrKind(attrs[i].value)
    requires forall i :: 0 <= i < |attrs| && attrs[i].value.Address? ==> Representable(attrs[i].value.jid)
    ensures AttrsBytes(t, NormalAttrs(attrs)) == AttrsBytes(t, attrs)
    ensures CountAttrs(NormalAttrs(attrs)) == CountAttrs(attrs)
  {
    hide StringBytes, JidBytes;
    if attrs != [] {
      NormalAttrsBytes(t, attrs[1..]);
      var v := attrs[0].value;
      if v.Address? {
        NormalJidBytes(t, v.jid);
      }
      if !Skipped(v) {
        DecimalText(v);
        var normal := NormalAttrs(attrs);
        assert normal[0] == Attr(attrs[0].key, NormalValue(v)) && normal[1..] == NormalAttrs(attrs[1..]);
        assert ValueBytes(t, NormalValue(v)) == ValueBytes(t, v);
      }
    }
  }

  /** A coerced attribute is never empty. */
  lemma DecimalText(v: Value)
    requires AttrKind(v) && !Skipped(v)
    ensures !Skipped(NormalValue(v))
  {
    if v.Number? {
      assert |Decimal.Text(v.number)| > 0;
    }
  }

  lemma {:induction false} NormalNodesBytes(t: Tables, ns: seq<Node>)
    requires t.Valid() && forall i :: 0 <= i < |ns| ==> Shaped(ns[i]) && Survives(t, ns[i])
    ensures NodesBytes(t, NormalNodes(ns)) == NodesBytes(t, ns) && |NormalNodes(ns)| == |ns|
    decreases ns, 0
  {
    if ns != [] {
      NormalNodeBytes(t, ns[0]);
      NormalNodesBytes(t, ns[1..]);
      assert NormalNodes(ns)[1..] == NormalNodes(ns[1..]);
    }
  }

  lemma {:induction false} NormalContentBytes(t: Tables, v: Value)
    requires t.Valid() && ShapedContent(v) && SurvivesContent(t, v)
    ensures ValueBytes(t, NormalValue(v)) == ValueBytes(t, v)
    decreases v, 0
  {
    match v
    case Address(j) => NormalJidBytes(t, j);
    case Children(ns) => NormalNodesBytes(t, ns);
    case _ =>
  }

  /** Encoding what was decoded gives the very bytes that were decoded. */
  lemma {:induction false} NormalNodeBytes(t: Tables, n: Node)
    requires t.Valid() && Shaped(n) && Survives(t, n)
    ensures NodeBytes(t, NormalNode(n)) == NodeBytes(t, n)
    decreases n, 1
  {
    hide StringBytes, ListStart, AttrsBytes;
    NormalAttrsBytes(t, n.attrs);
    NormalContentBytes(t, n.content);
  }

  // --- encoding again, exactly ----------------------------------------------------------

  predicate ReencodesContent(v: Value)
    decreases v, 0
  {
    match v
    case Address(j) => !LosesAdForm(j)
    case Children(ns) => ns != [] && forall i :: 0 <= i < |ns| ==> Reencodes(ns[i])
    case _ => true
  }

  /** No node tagged "0", no empty child list, and no identifier that loses its agent-and-device form. */
  predicate Reencodes(n: Node)
    decreases n, 1
  {
    && n.tag != "0"
    && (forall i :: 0 <= i < |n.attrs| && n.attrs[i].value.Address? ==> !LosesAdForm(n.attrs[i].value.jid))
    && ReencodesContent(n.content)
  }

  /** Two byte strings differ at a position both have, so whatever follows them cannot make up for it. */
  ghost predicate Diverge(a: seq<Byte>, b: seq<Byte>) {
    exists i :: 0 <= i < |a| && i < |b| && a[i] != b[i]
  }

  /** What encoding again comes to: the same bytes, or bytes that diverge. */
  ghost predicate SameOrDiverge(same: bool, a: seq<Byte>, b: seq<Byte>) {
    if same then a == b else Diverge(a, b)
  }

  lemma DivergeAt(a: seq<Byte>, b: seq<Byte>, i: nat)
    requires i < |a| && i < |b| && a[i] != b[i]
    ensures Diverge(a, b)
  {
  }

  /** The first part decides where it diverges, the second where the first is the same. */
  lemma Together(p: bool, a: seq<Byte>, b: seq<Byte>, q: bool, x: seq<Byte>, y: seq<Byte>)
    requires SameOrDiverge(p, a, b) && SameOrDiverge(q, x, y)
    ensures SameOrDiverge(p && q, a + x, b + y)
  {
    if !p {
      var i :| 0 <= i < |a| && i < |b| && a[i] != b[i];
      assert (a + x)[i] == a[i] && (b + y)[i] == b[i];
    } else if !q {
      var i :| 0 <= i < |x| && i < |y| && x[i] != y[i];
      assert (a + x)[|a| + i] == x[i] && (b + y)[|a| + i] == y[i];
    }
  }

  lemma JidAgain(t: Tables, j: JID)
    requires t.Valid()
    ensures SameOrDiverge(!LosesAdForm(j), JidBytes(t, WireJid(j)), JidBytes(t, j))
  {
    hide StringBytes;
    JidReencodes(t, j);
    if LosesAdForm(j) {
      assert JidBytes(t, j)[0] == AD_JID && JidBytes(t, WireJid(j))[0] == JID_PAIR;
      DivergeAt(JidBytes(t, WireJid(j)), JidBytes(t, j), 0);
    }
  }

  lemma AttrAgain(t: Tables, v: Value)
    requires t.Valid()
    ensures SameOrDiverge(v.Address? ==> !LosesAdForm(v.jid), ValueBytes(t, WireAttr(v)), ValueBytes(t, v))
    ensures !Skipped(v) ==> !Skipped(WireAttr(v))
  {
    hide StringBytes, JidBytes, WireJid, LosesAdForm, Diverge, NodesBytes, RawBytes;
    match v
    case Address(j) => JidAgain(t, j);
    case Number(n) => assert |Decimal.Text(n)| > 0;
    case _ =>
  }

  lemma {:induction false} AttrsAgain(t: Tables, attrs: seq<Attr>)
    requires t.Valid()
    ensures var same := forall i :: 0 <= i < |attrs| && attrs[i].value.Address? ==> !LosesAdForm(attrs[i].value.jid);
            SameOrDiverge(same, AttrsBytes(t, WireAttrs(attrs)), AttrsBytes(t, attrs))
    ensures CountAttrs(WireAttrs(attrs)) == CountAttrs(attrs)
    decreases |attrs|
  {
    hide StringBytes, ValueBytes, WireAttr, LosesAdForm, SameOrDiverge;
    NoneAgain();
    if attrs != [] {
      var (key, v) := (attrs[0].key, attrs[0].value);
      assert forall i :: 0 <= i < |attrs| ==> attrs[i] == if i == 0 then attrs[0] else attrs[1..][i - 1];
      AttrsAgain(t, attrs[1..]);
      var rest := forall i :: 0 <= i < |attrs[1..]| && attrs[1..][i].value.Address?
                              ==> !LosesAdForm(attrs[1..][i].value.jid);
      if !Skipped(v) {
        AttrAgain(t, v);
        var wire := WireAttrs(attrs);
        assert wire[0] == Attr(key, WireAttr(v)) && wire[1..] == WireAttrs(attrs[1..]);
        var first := v.Address? ==> !LosesAdForm(v.jid);
        KeyAgain(StringBytes(t, key));
        Together(true, StringBytes(t, key), StringBytes(t, key), first, ValueBytes(t, WireAttr(v)), ValueBytes(t, v));
        Together(first, StringBytes(t, key) + ValueBytes(t, WireAttr(v)), StringBytes(t, key) + ValueBytes(t, v),
                 rest, AttrsBytes(t, wire[1..]), AttrsBytes(t, attrs[1..]));
      }
    }
  }

  lemma NoneAgain()
    ensures SameOrDiverge(true, [], [])
  {
  }

  lemma KeyAgain(a: seq<Byte>)
    ensures SameOrDiverge(true, a, a)
  {
  }

  lemma {:induction false} NodesAgain(t: Tables, ns: seq<Node>)
    requires t.Valid()
    ensures SameOrDiverge(forall i :: 0 <= i < |ns| ==> Reencodes(ns[i]),
                          NodesBytes(t, WireNodes(t, ns)), NodesBytes(t, ns))
    decreases ns, 0
  {
    hide SameOrDiverge, NodeBytes, WireNode, Reencodes;
    NoneAgain();
    if ns != [] {
      NodeAgain(t, ns[0]);
      NodesAgain(t, ns[1..]);
      assert forall i :: 0 <= i < |ns| ==> ns[i] == if i == 0 then ns[0] else ns[1..][i - 1];
      assert WireNodes(t, ns)[1..] == WireNodes(t, ns[1..]);
      Together(Reencodes(ns[0]), NodeBytes(t, WireNode(t, ns[0])), NodeBytes(t, ns[0]),
               forall i :: 0 <= i < |ns[1..]| ==> Reencodes(ns[1..][i]),
               NodesBytes(t, WireNodes(t, ns[1..])), NodesBytes(t, ns[1..]));
    }
  }

  lemma {:induction false} ContentAgain(t: Tables, v: Value)
    requires t.Valid()
    ensures SameOrDiverge(ReencodesContent(v), ValueBytes(t, WireContent(t, v)), ValueBytes(t, v))
    decreases v, 0
  {
    hide SameOrDiverge, Reencodes, LosesAdForm, WireJid, JidBytes, WireNode, NodeBytes;
    match v
    case Address(j) => JidAgain(t, j);
    case Children(ns) =>
      if ns == [] {
        EmptyListAgain(t);
      } else {
        NodesAgain(t, ns);
        KeyAgain(ListStart(|ns|));
        Together(true, ListStart(|ns|), ListStart(|ns|),
                 forall i :: 0 <= i < |ns| ==> Reencodes(ns[i]), NodesBytes(t, WireNodes(t, ns)), NodesBytes(t, ns));
      }
    case Text(s) =>
      TextAgain(t, s);
    case Number(n) =>
      TextAgain(t, Decimal.Text(n));
    case Truth(b) =>
      TextAgain(t, TruthText(b));
    case _ => KeyAgain(ValueBytes(t, v));
  }

  /** A content text comes back as text or as bytes, and is written the same way. */
  lemma TextAgain(t: Tables, s: string)
    requires t.Valid()
    ensures SameOrDiverge(true, ValueBytes(t, StringBack(t, s, false)), StringBytes(t, s))
  {
    hide Utf8.Encode, PackedBytes, Packable;
  }

  /** The empty list comes back as the empty text, which is never written as one zero byte. */
  lemma EmptyListAgain(t: Tables)
    requires t.Valid()
    ensures SameOrDiverge(false, ValueBytes(t, Text("")), ValueBytes(t, Children([])))
  {
    assert ValueBytes(t, Children([])) == [LIST_EMPTY];
    assert StringBytes(t, "")[0] >= DICTIONARY_0;
    DivergeAt(ValueBytes(t, Text("")), ValueBytes(t, Children([])), 0);
  }

  lemma {:induction false} NodeAgain(t: Tables, n: Node)
    requires t.Valid()
    ensures SameOrDiverge(Reencodes(n), NodeBytes(t, WireNode(t, n)), NodeBytes(t, n))
    decreases n, 1
  {
    hide SameOrDiverge, LosesAdForm, StringBytes, AttrsBytes, ValueBytes, WireAttrs, WireContent, ListStart;
    if n.tag == "0" {
      ZeroAgain(t, n);
    } else {
      var tag, w := StringBytes(t, n.tag), WireNode(t, n);
      AttrsAgain(t, n.attrs);
      NoneAgain();
      var attrs := forall i :: 0 <= i < |n.attrs| && n.attrs[i].value.Address? ==> !LosesAdForm(n.attrs[i].value.jid);
      ContentAgain(t, n.content);
      var head := ListStart(ListSize(n)) + tag;
      KeyAgain(head);
      Together(true, head, head, attrs, AttrsBytes(t, w.attrs), AttrsBytes(t, n.attrs));
      var before, after := if w.content.Absent? then [] else ValueBytes(t, w.content),
                           if n.content.Absent? then [] else ValueBytes(t, n.content);
      AbsentAgain(t, n.content);
      Together(attrs, head + AttrsBytes(t, w.attrs), head + AttrsBytes(t, n.attrs),
               ReencodesContent(n.content), before, after);
    }
  }

  lemma AbsentAgain(t: Tables, v: Value)
    ensures WireContent(t, v).Absent? <==> v.Absent?
    ensures v.Absent? ==> ReencodesContent(v)
  {
  }

  /** The reserved tag is written with a list of no items, the nameless node it becomes with one. */
  lemma ZeroAgain(t: Tables, n: Node)
    requires t.Valid() && n.tag == "0"
    ensures SameOrDiverge(false, NodeBytes(t, WireNode(t, n)), NodeBytes(t, n))
  {
    hide StringBytes;
    assert NodeBytes(t, WireNode(t, n))[1] == 1;
    DivergeAt(NodeBytes(t, WireNode(t, n)), NodeBytes(t, n), 1);
  }

  /** Encoding what an encoding decodes to gives the same bytes exactly for these stanzas. */
  lemma ReencodesIff(t: Tables, n: Node, inflate: Inflate)
    requires t.Valid()
    ensures NodeBytes(t, WireNode(t, n)) == NodeBytes(t, n) <==> Reencodes(n)
    ensures Encodable(t, n) && n.tag != "0" ==>
              Decoded(t, [0] + NodeBytes(t, n), inflate) == Ok(WireNode(t, n))
  {
    hide NodeBytes, WireNode, Reencodes, Decoded;
    NodeAgain(t, n);
    if Encodable(t, n) {
      DecodeOfEncode(t, n, inflate);
    }
  }
}
