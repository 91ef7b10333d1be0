/**
 * Decoding an encoding. `WireNode` says, for every stanza the encoder accepts, what comes back;
 * module `Fidelity` says when that is the stanza a caller expects.
 */
module RoundTrip {
  import opened Wrappers
  import opened Sequences
  import opened Bytes
  import opened Tokens
  import opened Jids
  import opened Nodes
  import opened Wire
  import opened Reading
  import Decimal
  import Utf8

  // --- integers and packed strings ------------------------------------------

  lemma U16At(d: seq<Byte>, p: nat, v: int)
    requires At(d, p, U16(v))
    ensures BigEndian(Slice(d, p, 2)) == v % 0x1_0000
  {
    SliceAt(d, p, U16(v));
    U16Value(v);
  }

  lemma UnpackOfPack(hex: bool, c: char)
    requires PackChar(hex, c)
    ensures Unpack(hex, Pack(hex, c)) == Some(c)
  {
  }

  lemma {:induction false} PairsAt(d: seq<Byte>, p: nat, hex: bool, s: string)
    requires forall i :: 0 <= i < |s| ==> PackChar(hex, s[i])
    requires At(d, p, PackedPairs(hex, s))
    ensures |PackedPairs(hex, s)| == (|s| + 1) / 2
    ensures ReadPairs(d, p, hex, (|s| + 1) / 2, |s| % 2 != 0) == Got(s, p + (|s| + 1) / 2)
    decreases |s|
  {
    hide Unpack, At;
    if |s| == 1 {
      LastPair(d, p, hex, s);
    } else if s != [] {
      hide ReadPairs;
      var high, low := Pack(hex, s[0]), Pack(hex, s[1]);
      var b: Byte := high * 16 + low;
      assert b / 16 == high && b % 16 == low;
      AtConcat(d, p, [b], PackedPairs(hex, s[2..]));
      AtIndex(d, p, [b], 0);
      UnpackOfPack(hex, s[0]);
      UnpackOfPack(hex, s[1]);
      PairsAt(d, p + 1, hex, s[2..]);
      PairStep(d, p, hex, s);
    } else {
      NoPairs(d, p, hex);
    }
  }

  lemma NoPairs(d: seq<Byte>, p: nat, hex: bool)
    ensures ReadPairs(d, p, hex, 0, false) == Got("", p)
  {
  }

  lemma LastPair(d: seq<Byte>, p: nat, hex: bool, s: string)
    requires |s| == 1 && PackChar(hex, s[0]) && At(d, p, PackedPairs(hex, s))
    ensures |PackedPairs(hex, s)| == 1 && ReadPairs(d, p, hex, 1, true) == Got(s, p + 1)
  {
    hide Unpack;
    assert s == [s[0]];
    AtIndex(d, p, PackedPairs(hex, s), 0);
    UnpackOfPack(hex, s[0]);
  }

  lemma PairStep(d: seq<Byte>, p: nat, hex: bool, s: string)
    requires |s| >= 2 && p < |d|
    requires Unpack(hex, d[p] / 16) == Some(s[0]) && Unpack(hex, d[p] % 16) == Some(s[1])
    requires ReadPairs(d, p + 1, hex, (|s[2..]| + 1) / 2, |s[2..]| % 2 != 0) == Got(s[2..], p + 1 + (|s[2..]| + 1) / 2)
    ensures ReadPairs(d, p, hex, (|s| + 1) / 2, |s| % 2 != 0) == Got(s, p + (|s| + 1) / 2)
  {
    assert (|s| + 1) / 2 == (|s[2..]| + 1) / 2 + 1;
    assert s == [s[0], s[1]] + s[2..];
  }

  /** Packing `n` characters takes ceil(n / 2) + 2 bytes, and unpacking them gives the string back. */
  lemma PackedAt(d: seq<Byte>, p: nat, hex: bool, s: string)
    requires Packable(hex, s) && At(d, p, PackedBytes(hex, s))
    ensures |PackedBytes(hex, s)| == (|s| + 1) / 2 + 2
    ensures p < |d| && d[p] == (if hex then HEX_8 else NIBBLE_8)
    ensures ReadPacked(d, p + 1, hex) == Got(s, p + |PackedBytes(hex, s)|)
  {
    hide At, ReadPairs, PackedPairs;
    var head: seq<Byte> := [if hex then HEX_8 else NIBBLE_8, PackedHeader(|s|)];
    AtConcat(d, p, head, PackedPairs(hex, s));
    AtIndex(d, p, head, 0);
    AtIndex(d, p, head, 1);
    PairsAt(d, p + 2, hex, s);
  }

  // --- raw bytes and strings -------------------------------------------------

  lemma U20Digits(n: nat)
    requires n < 0x10_0000
    ensures n / 0x1_0000 % 16 % 16 * 0x1_0000 + n / 256 % 256 * 256 + n % 256 == n
  {
    assert n == n / 256 * 256 + n % 256;
    assert n / 256 == n / 0x1_0000 * 256 + n / 256 % 256;
  }

  /** The length announced by a prefix, read from just after its tag byte. */
  function AnnouncedLength(d: seq<Byte>, p: nat, tag: Byte): Read<nat> {
    if tag == BINARY_8 then
      match ReadU8(d, p) { case Got(n, q) => Got(n, q) case Fail => Fail }
    else if tag == BINARY_20 then ReadU20(d, p)
    else Got(BigEndian(Slice(d, p, 4)), p + 4)
  }

  lemma LengthAt(d: seq<Byte>, p: nat, n: nat)
    requires n < LENGTH_LIMIT && At(d, p, LengthPrefix(n))
    ensures p < |d| && d[p] in {BINARY_8, BINARY_20, BINARY_32}
    ensures AnnouncedLength(d, p + 1, d[p]) == Got(n, p + |LengthPrefix(n)|)
  {
    var head := LengthPrefix(n);
    AtIndex(d, p, head, 0);
    if n < 0x10_0000 {
      AtIndex(d, p, head, 1);
      if n >= 256 {
        AtIndex(d, p, head, 2);
        AtIndex(d, p, head, 3);
        U20Digits(n);
      }
    } else {
      AtConcat(d, p, [BINARY_32], U32(n));
      SliceAt(d, p + 1, U32(n));
      U32Value(n);
    }
  }

  lemma RawAt(t: Tables, d: seq<Byte>, p: nat, b: seq<Byte>, asString: bool)
    requires t.Valid() && |b| < LENGTH_LIMIT && At(d, p, RawBytes(b))
    ensures ReadTagged(t, d, p, asString) == AsValue(b, asString, p + |RawBytes(b)|)
  {
    hide At, LengthPrefix, Utf8.Decode, ReadU20;
    AtConcat(d, p, LengthPrefix(|b|), b);
    LengthAt(d, p, |b|);
    SliceAt(d, p + |LengthPrefix(|b|)|, b);
    RawTag(t, d, p, asString);
    hide ReadTagged, AnnouncedLength;
  }

  /** A length tag announces raw bytes. */
  lemma RawTag(t: Tables, d: seq<Byte>, p: nat, asString: bool)
    requires t.Valid() && p < |d| && d[p] in {BINARY_8, BINARY_20, BINARY_32}
    ensures ReadTagged(t, d, p, asString) == ReadBlob(d, AnnouncedLength(d, p + 1, d[p]), asString)
  {
    hide Utf8.Decode, ReadU20, ReadBlob;
  }

  /** What a written string comes back as: text, except a raw one in content position. */
  function StringBack(t: Tables, s: string, asString: bool): Value {
    if IsRaw(t, s) && !asString then Blob(Utf8.Encode(s)) else Text(s)
  }

  /** Whichever of the five encodings is chosen, reading consumes exactly its bytes. */
  lemma StringAt(t: Tables, d: seq<Byte>, p: nat, s: string, asString: bool)
    requires t.Valid() && StringFits(t, s) && At(d, p, StringBytes(t, s))
    ensures ReadTagged(t, d, p, asString) == Got(StringBack(t, s, asString), p + |StringBytes(t, s)|)
  {
    if SingleIndex(t, s).Some? {
      AtIndex(d, p, StringBytes(t, s), 0);
    } else if DoubleIndex(t, s).Some? {
      AtIndex(d, p, StringBytes(t, s), 0);
      AtIndex(d, p, StringBytes(t, s), 1);
    } else if Packable(false, s) {
      PackedAt(d, p, false, s);
    } else if Packable(true, s) {
      PackedAt(d, p, true, s);
    } else {
      RawAt(t, d, p, Utf8.Encode(s), asString);
      Utf8.DecodeOfEncode(s);
    }
  }

  lemma TextAt(t: Tables, d: seq<Byte>, p: nat, s: string)
    requires t.Valid() && StringFits(t, s) && At(d, p, StringBytes(t, s))
    ensures ReadString(t, d, p) == Got(s, p + |StringBytes(t, s)|)
  {
    StringAt(t, d, p, s, true);
  }

  // --- identifiers --------------------------------------------------------------

  /** The identifier that comes back: truncated fields, and the server the agent byte implies. */
  function WireJid(j: JID): JID {
    if j.IsAd() then
      var agent: Byte := j.ActualAgent() % 256;
      JID(j.user, ServerOfAgent(agent), agent, j.device % 256, 0)
    else if j.server == MESSENGER_SERVER then JID(j.user, j.server, 0, j.device % 0x1_0000, 0)
    else if j.server == INTEROP_SERVER then
      JID(j.user, j.server, 0, j.device % 0x1_0000, j.integrator % 0x1_0000)
    else JID(j.user, j.server, 0, 0, 0)
  }

  lemma AdJidAt(t: Tables, d: seq<Byte>, p: nat, j: JID)
    requires t.Valid() && JidFits(t, j) && At(d, p, JidBytes(t, j)) && j.IsAd()
    ensures p < |d| && d[p] == AD_JID
    ensures ReadAdJid(t, d, p + 1) == Got(WireJid(j), p + |JidBytes(t, j)|)
  {
    var head: seq<Byte> := [AD_JID, j.ActualAgent() % 256, j.device % 256];
    AtConcat(d, p, head, StringBytes(t, j.user));
    AtIndex(d, p, head, 0);
    AtIndex(d, p, head, 1);
    AtIndex(d, p, head, 2);
    TextAt(t, d, p + 3, j.user);
  }

  lemma FbJidAt(t: Tables, d: seq<Byte>, p: nat, j: JID)
    requires t.Valid() && JidFits(t, j) && At(d, p, JidBytes(t, j))
    requires !j.IsAd() && j.server == MESSENGER_SERVER
    ensures p < |d| && d[p] == FB_JID
    ensures ReadFbJid(t, d, p + 1) == Got(WireJid(j), p + |JidBytes(t, j)|)
  {
    hide At, StringBytes, StringFits, ReadString, BigEndian, Slice, U16;
    var user, server := StringBytes(t, j.user), StringBytes(t, j.server);
    AtConcat(d, p, [FB_JID] + user + U16(j.device), server);
    AtConcat(d, p, [FB_JID] + user, U16(j.device));
    AtConcat(d, p, [FB_JID], user);
    AtIndex(d, p, [FB_JID], 0);
    TextAt(t, d, p + 1, j.user);
    U16At(d, p + 1 + |user|, j.device);
    TextAt(t, d, p + 1 + |user| + 2, j.server);
  }

  lemma InteropJidAt(t: Tables, d: seq<Byte>, p: nat, j: JID)
    requires t.Valid() && JidFits(t, j) && At(d, p, JidBytes(t, j))
    requires !j.IsAd() && j.server == INTEROP_SERVER
    ensures p < |d| && d[p] == INTEROP_JID
    ensures ReadInteropJid(t, d, p + 1) == Got(WireJid(j), p + |JidBytes(t, j)|)
  {
    hide At, StringBytes, StringFits, ReadString, BigEndian, Slice, U16;
    var user, server := StringBytes(t, j.user), StringBytes(t, j.server);
    AtConcat(d, p, [INTEROP_JID] + user + U16(j.device) + U16(j.integrator), server);
    AtConcat(d, p, [INTEROP_JID] + user + U16(j.device), U16(j.integrator));
    AtConcat(d, p, [INTEROP_JID] + user, U16(j.device));
    AtConcat(d, p, [INTEROP_JID], user);
    AtIndex(d, p, [INTEROP_JID], 0);
    TextAt(t, d, p + 1, j.user);
    U16At(d, p + 1 + |user|, j.device);
    U16At(d, p + 1 + |user| + 2, j.integrator);
    TextAt(t, d, p + 1 + |user| + 4, j.server);
  }

  function UserBytes(t: Tables, user: string): seq<Byte>
    requires t.Valid()
  {
    if user == "" then [LIST_EMPTY] else StringBytes(t, user)
  }

  lemma UserAt(t: Tables, d: seq<Byte>, p: nat, user: string)
    requires t.Valid() && StringFits(t, user) && At(d, p, UserBytes(t, user))
    ensures p < |d|
    ensures (if d[p] == LIST_EMPTY then Got("", p + 1) else OnlyText(ReadValue(t, d, p + 1, d[p], true)))
            == Got(user, p + |UserBytes(t, user)|)
  {
    AtIndex(d, p, UserBytes(t, user), 0);
    if user != "" {
      TextAt(t, d, p, user);
    }
  }

  lemma JidPairAt(t: Tables, d: seq<Byte>, p: nat, j: JID)
    requires t.Valid() && JidFits(t, j) && At(d, p, JidBytes(t, j))
    requires !j.IsAd() && j.server != MESSENGER_SERVER && j.server != INTEROP_SERVER
    ensures p < |d| && d[p] == JID_PAIR
    ensures ReadJidPair(t, d, p + 1) == Got(WireJid(j), p + |JidBytes(t, j)|)
  {
    hide At, StringBytes, StringFits, ReadString, ReadValue;
    var user, server := UserBytes(t, j.user), StringBytes(t, j.server);
    assert JidBytes(t, j) == [JID_PAIR] + user + server;
    AtConcat(d, p, [JID_PAIR] + user, server);
    AtConcat(d, p, [JID_PAIR], user);
    AtIndex(d, p, [JID_PAIR], 0);
    UserAt(t, d, p + 1, j.user);
    TextAt(t, d, p + 1 + |user|, j.server);
  }

  lemma JidAt(t: Tables, d: seq<Byte>, p: nat, j: JID, asString: bool)
    requires t.Valid() && JidFits(t, j) && At(d, p, JidBytes(t, j))
    ensures ReadTagged(t, d, p, asString) == Got(Address(WireJid(j)), p + |JidBytes(t, j)|)
  {
    if j.IsAd() {
      AdJidAt(t, d, p, j);
    } else if j.server == MESSENGER_SERVER {
      FbJidAt(t, d, p, j);
    } else if j.server == INTEROP_SERVER {
      InteropJidAt(t, d, p, j);
    } else {
      JidPairAt(t, d, p, j);
    }
  }

  // --- stanzas ---------------------------------------------------------------------

  /** Attribute values the stanza type documents: texts, integers, booleans and identifiers, or nothing. */
  predicate AttrKind(v: Value) {
    !v.Blob? && !v.Children?
  }

  /** Counts fit their 16-bit fields, dictionaries hold each key once, attributes are of a documented kind. */
  ghost predicate Shaped(n: Node)
    decreases n, 1
  {
    n.tag == "0"
    || (&& ListSize(n) < 0x1_0000
        && DistinctKeys(n.attrs)
        && (forall i :: 0 <= i < |n.attrs| ==> AttrKind(n.attrs[i].value))
        && ShapedContent(n.content))
  }

  ghost predicate ShapedContent(v: Value)
    decreases v, 0
  {
    v.Children? ==>
      |v.children| < 0x1_0000 && forall i :: 0 <= i < |v.children| ==> Shaped(v.children[i])
  }

  ghost predicate Encodable(t: Tables, n: Node) {
    Shaped(n) && NodeFits(t, n)
  }

  function WireAttr(v: Value): Value {
    match v
    case Number(n) => Text(Decimal.Text(n))
    case Truth(b) => Text(TruthText(b))
    case Address(j) => Address(WireJid(j))
    case _ => v
  }

  function WireAttrs(attrs: seq<Attr>): seq<Attr> {
    if attrs == [] then []
    else if Skipped(attrs[0].value) then WireAttrs(attrs[1..])
    else [Attr(attrs[0].key, WireAttr(attrs[0].value))] + WireAttrs(attrs[1..])
  }

  /** What a content comes back as; an empty child list comes back as the empty text. */
  function WireContent(t: Tables, v: Value): Value
    decreases v, 0
  {
    match v
    case Absent => Absent
    case Text(s) => StringBack(t, s, false)
    case Number(n) => StringBack(t, Decimal.Text(n), false)
    case Truth(b) => StringBack(t, TruthText(b), false)
    case Address(j) => Address(WireJid(j))
    case Blob(b) => v
    case Children(ns) => if ns == [] then Text("") else Children(WireNodes(t, ns))
  }

  function WireNodes(t: Tables, ns: seq<Node>): (r: seq<Node>)
    ensures |r| == |ns|
    ensures forall i :: 0 <= i < |ns| ==> r[i] == WireNode(t, ns[i])
    decreases ns, 0
  {
    if ns == [] then [] else [WireNode(t, ns[0])] + WireNodes(t, ns[1..])
  }

  /** What a stanza comes back as; a child tagged "0" comes back nameless and empty. */
  function WireNode(t: Tables, n: Node): Node
    decreases n, 1
  {
    if n.tag == "0" then Node("", [], Absent)
    else Node(n.tag, WireAttrs(n.attrs), WireContent(t, n.content))
  }

  lemma ListStartAt(d: seq<Byte>, p: nat, n: nat)
    requires n < 0x1_0000 && At(d, p, ListStart(n))
    ensures p < |d| && (n > 0 ==> d[p] == LIST_8 || d[p] == LIST_16) && (n == 0 ==> d[p] == LIST_EMPTY)
    ensures ReadListSize(d, p + 1, d[p]) == Got(n, p + |ListStart(n)|)
  {
    AtIndex(d, p, ListStart(n), 0);
    if 0 < n < 256 {
      AtIndex(d, p, ListStart(n), 1);
    } else if 256 <= n {
      AtConcat(d, p, [LIST_16], U16(n));
      U16At(d, p + 1, n);
    }
  }

  lemma AttrAt(t: Tables, d: seq<Byte>, p: nat, v: Value)
    requires t.Valid() && ValueFits(t, v) && AttrKind(v) && !Skipped(v) && At(d, p, ValueBytes(t, v))
    ensures ReadTagged(t, d, p, true) == Got(WireAttr(v), p + |ValueBytes(t, v)|)
  {
    hide At, ReadTagged;
    match v
    case Address(j) => JidAt(t, d, p, j, true);
    case Text(s) => StringAt(t, d, p, s, true);
    case Truth(b) => StringAt(t, d, p, TruthText(b), true);
    case Number(n) => StringAt(t, d, p, Decimal.Text(n), true);
  }

  lemma FreshKeys(out: seq<Attr>, attrs: seq<Attr>, first: Attr)
    requires attrs != [] && DistinctKeys(attrs) && first.key == attrs[0].key
    requires forall i :: 0 <= i < |attrs| ==> !HasKey(out, attrs[i].key)
    ensures DistinctKeys(attrs[1..])
    ensures Put(out, first.key, first.value) == out + [first]
    ensures forall i :: 0 <= i < |attrs[1..]| ==> !HasKey(out + [first], attrs[1..][i].key)
  {
    assert !HasKey(out, attrs[0].key);
    forall i | 0 <= i < |attrs[1..]|
      ensures !HasKey(out + [first], attrs[1..][i].key)
    {
      assert attrs[1..][i] == attrs[i + 1] && !HasKey(out, attrs[i + 1].key);
    }
  }

  lemma {:induction false} AttrsAt(t: Tables, d: seq<Byte>, p: nat, attrs: seq<Attr>, out: seq<Attr>)
    requires t.Valid() && At(d, p, AttrsBytes(t, attrs))
    requires forall i :: 0 <= i < |attrs| ==> AttrKind(attrs[i].value)
    requires forall i :: 0 <= i < |attrs| && !Skipped(attrs[i].value) ==>
               StringFits(t, attrs[i].key) && ValueFits(t, attrs[i].value)
    requires DistinctKeys(attrs) && forall i :: 0 <= i < |attrs| ==> !HasKey(out, attrs[i].key)
    ensures ReadAttrs(t, d, p, CountAttrs(attrs), out) == Got(out + WireAttrs(attrs), p + |AttrsBytes(t, attrs)|)
    decreases |attrs|
  {
    hide At, ReadTagged, ReadString, StringFits, ValueFits, StringBytes, ValueBytes;
    hide HasKey, DistinctKeys, Put, WireAttr;
    if attrs == [] {
      assert out + [] == out;
    } else {
      var key, v, rest := attrs[0].key, attrs[0].value, attrs[1..];
      FreshKeys(out, attrs, Attr(key, v));
      if Skipped(v) {
        AttrsAt(t, d, p, rest, out);
      } else {
        var kb, vb := StringBytes(t, key), ValueBytes(t, v);
        AtConcat(d, p, kb + vb, AttrsBytes(t, rest));
        AtConcat(d, p, kb, vb);
        TextAt(t, d, p, key);
        AttrAt(t, d, p + |kb|, v);
        var first := Attr(key, WireAttr(v));
        FreshKeys(out, attrs, first);
        AttrsAt(t, d, p + |kb| + |vb|, rest, out + [first]);
        assert out + [first] + WireAttrs(rest) == out + ([first] + WireAttrs(rest));
      }
    }
  }

  lemma {:induction false} ContentAt(t: Tables, d: seq<Byte>, p: nat, v: Value)
    requires t.Valid() && ShapedContent(v) && ValueFits(t, v) && !v.Absent? && At(d, p, ValueBytes(t, v))
    ensures ReadTagged(t, d, p, false) == Got(WireContent(t, v), p + |ValueBytes(t, v)|)
    decreases v, 0
  {
    match v
    case Address(j) => JidAt(t, d, p, j, false);
    case Text(s) => StringAt(t, d, p, s, false);
    case Truth(b) => StringAt(t, d, p, TruthText(b), false);
    case Number(n) => StringAt(t, d, p, Decimal.Text(n), false);
    case Blob(b) => RawAt(t, d, p, b, false);
    case Children(ns) => ChildrenAt(t, d, p, ns);
  }

  lemma {:induction false} ChildrenAt(t: Tables, d: seq<Byte>, p: nat, ns: seq<Node>)
    requires t.Valid() && |ns| < 0x1_0000
    requires forall i :: 0 <= i < |ns| ==> Shaped(ns[i]) && NodeFits(t, ns[i])
    requires At(d, p, ValueBytes(t, Children(ns)))
    ensures ReadTagged(t, d, p, false) == Got(WireContent(t, Children(ns)), p + |ValueBytes(t, Children(ns))|)
    decreases ns, 1
  {
    hide At, Shaped, NodeFits, NodesBytes, ListStart, ReadList;
    AtConcat(d, p, ListStart(|ns|), NodesBytes(t, ns));
    ListStartAt(d, p, |ns|);
    NodesAt(t, d, p + |ListStart(|ns|)|, ns);
    EmptyList(t);
  }

  lemma EmptyList(t: Tables)
    requires t.Valid()
    ensures |ListStart(0)| == 1 && NodesBytes(t, []) == [] && WireContent(t, Absent) == Absent
  {
  }

  lemma {:induction false} NodesAt(t: Tables, d: seq<Byte>, p: nat, ns: seq<Node>)
    requires t.Valid() && At(d, p, NodesBytes(t, ns))
    requires forall i :: 0 <= i < |ns| ==> Shaped(ns[i]) && NodeFits(t, ns[i])
    ensures ReadList(t, d, p, |ns|) == Got(WireNodes(t, ns), p + |NodesBytes(t, ns)|)
    decreases ns, 0
  {
    hide At, Shaped, NodeFits, NodeBytes, WireNode, ReadNodeInList;
    if ns != [] {
      AtConcat(d, p, NodeBytes(t, ns[0]), NodesBytes(t, ns[1..]));
      NodeAt(t, d, p, ns[0]);
      NodesAt(t, d, p + |NodeBytes(t, ns[0])|, ns[1..]);
    }
  }

  /** Reading a written node back, whatever stands before and after it: exactly its bytes are consumed. */
  lemma {:induction false} NodeAt(t: Tables, d: seq<Byte>, p: nat, n: Node)
    requires t.Valid() && Encodable(t, n) && At(d, p, NodeBytes(t, n))
    ensures ReadNodeInList(t, d, p) == Got(WireNode(t, n), p + |NodeBytes(t, n)|)
    decreases n, 2
  {
    hide At, NodeBytes, BodyBytes, Encodable, ListStart, ListSize, ReadBody, ReadListSize, ReadNodeInList, WireNode;
    if n.tag == "0" {
      ZeroAt(t, d, p, n);
    } else {
      ListFits(t, n);
      BodySplit(t, n);
      AtConcat(d, p, ListStart(ListSize(n)), BodyBytes(t, n));
      ListStartAt(d, p, ListSize(n));
      InList(t, d, p, ListSize(n), p + |ListStart(ListSize(n))|);
      BodyAt(t, d, p + |ListStart(ListSize(n))|, n);
    }
  }

  /** The reserved tag is written as one header byte and an empty list, and reads back as a nameless node. */
  lemma ZeroAt(t: Tables, d: seq<Byte>, p: nat, n: Node)
    requires t.Valid() && n.tag == "0" && At(d, p, NodeBytes(t, n))
    ensures ReadNodeInList(t, d, p) == Got(WireNode(t, n), p + |NodeBytes(t, n)|)
  {
    hide ReadBody;
    AtIndex(d, p, [LIST_8, LIST_EMPTY], 0);
    AtIndex(d, p, [LIST_8, LIST_EMPTY], 1);
  }

  lemma InList(t: Tables, d: seq<Byte>, p: nat, size: nat, q: nat)
    requires t.Valid() && p < |d| && size > 0 && ReadListSize(d, p + 1, d[p]) == Got(size, q)
    ensures ReadNodeInList(t, d, p) == ReadBody(t, d, q, size)
  {
    hide ReadBody, ReadListSize;
  }

  /** What follows the list header of a node. */
  function BodyBytes(t: Tables, n: Node): seq<Byte>
    requires t.Valid()
  {
    StringBytes(t, n.tag) + AttrsBytes(t, n.attrs) + if n.content.Absent? then [] else ValueBytes(t, n.content)
  }

  lemma ListFits(t: Tables, n: Node)
    requires t.Valid() && Encodable(t, n) && n.tag != "0"
    ensures 0 < ListSize(n) < 0x1_0000
  {
  }

  lemma BodySplit(t: Tables, n: Node)
    requires t.Valid() && n.tag != "0"
    ensures NodeBytes(t, n) == ListStart(ListSize(n)) + BodyBytes(t, n)
  {
    hide StringBytes, AttrsBytes, ValueBytes, ListStart;
    Regroup3(ListStart(ListSize(n)), StringBytes(t, n.tag), AttrsBytes(t, n.attrs),
            if n.content.Absent? then [] else ValueBytes(t, n.content));
  }

  lemma {:induction false} BodyAt(t: Tables, d: seq<Byte>, p: nat, n: Node)
    requires t.Valid() && Encodable(t, n) && n.tag != "0" && At(d, p, BodyBytes(t, n))
    ensures ReadBody(t, d, p, ListSize(n)) == Got(WireNode(t, n), p + |BodyBytes(t, n)|)
    decreases n, 1
  {
    hide At, StringFits, StringBytes, AttrsBytes, ValueBytes, ReadTagged, ReadAttrs, WireContent, ReadString, HasKey;
    var tag, attrs := StringBytes(t, n.tag), AttrsBytes(t, n.attrs);
    var content := if n.content.Absent? then [] else ValueBytes(t, n.content);
    AtConcat(d, p, tag + attrs, content);
    AtConcat(d, p, tag, attrs);
    TextAt(t, d, p, n.tag);
    NoKeys(n.attrs);
    AttrsAt(t, d, p + |tag|, n.attrs, []);
    assert [] + WireAttrs(n.attrs) == WireAttrs(n.attrs);
    assert (ListSize(n) - 1) / 2 == CountAttrs(n.attrs);
    EmptyList(t);
    if !n.content.Absent? {
      ContentAt(t, d, p + |tag| + |attrs|, n.content);
    }
  }

  lemma NoKeys(attrs: seq<Attr>)
    ensures forall i :: 0 <= i < |attrs| ==> !HasKey([], attrs[i].key)
  {
  }

  // --- main results --------------------------------------------------------------------

  /**
   * Decoding the encoding of any stanza the encoder accepts: no byte is left over, and what comes
   * back is its wire form. Only a top-level stanza tagged "0" is refused.
   */
  lemma DecodeOfEncode(t: Tables, n: Node, inflate: Inflate)
    requires t.Valid() && Encodable(t, n)
    ensures Decoded(t, [0] + NodeBytes(t, n), inflate) == if n.tag == "0" then Err else Ok(WireNode(t, n))
  {
    hide NodeBytes, ReadNode, ReadNodeInList, WireNode, Shaped, NodeFits;
    var d := NodeBytes(t, n);
    assert ([0] + d)[1..] == d;
    NodeAt(t, d, 0, n) by {
      assert At(d, 0, d);
    }
    TopOfList(t, d, n);
  }

  /** At the top an empty list is no stanza; otherwise a stanza reads as it does inside a list. */
  lemma TopOfList(t: Tables, d: seq<Byte>, n: Node)
    requires t.Valid() && Encodable(t, n) && d == NodeBytes(t, n)
    ensures match ReadNode(t, d, 0)
            case Got(None, _) => n.tag == "0"
            case Got(Some(node), q) => n.tag != "0" && ReadNodeInList(t, d, 0) == Got(node, q)
            case Fail => ReadNodeInList(t, d, 0) == Fail
  {
    hide BodyBytes, ReadBody, ReadListSize, ListStart, Encodable;
    if n.tag != "0" {
      BodySplit(t, n);
      ListFits(t, n);
      AtConcat(d, 0, ListStart(ListSize(n)), BodyBytes(t, n));
      ListStartAt(d, 0, ListSize(n));
    } else {
      EmptyTop(t, d);
    }
  }

  lemma EmptyTop(t: Tables, d: seq<Byte>)
    requires t.Valid() && d == [LIST_8, LIST_EMPTY]
    ensures ReadHeader(d, 0) == Got(0, 2)
  {
  }

  /**
   * The flag byte: with bit 1 set the rest is inflated and then read like an unflagged frame, or fails with it;
   * any other flag but zero is refused, and so is the frame without a byte.
   */
  lemma FlagByte(t: Tables, flag: Byte, rest: seq<Byte>, inflate: Inflate)
    requires t.Valid()
    ensures Decoded(t, [flag] + rest, inflate)
            == if (flag / 2) % 2 == 1 then
                 (match inflate(rest)
                  case Err => Err
                  case Ok(payload) => Decoded(t, [0] + payload, inflate))
               else if flag != 0 then Err
               else match ReadNode(t, rest, 0)
                 case Got(Some(node), p) => if p == |rest| then Ok(node) else Err
                 case _ => Err
    ensures Decoded(t, [], inflate) == Err
  {
    hide ReadNode;
    assert ([flag] + rest)[1..] == rest;
    if (flag / 2) % 2 == 1 && inflate(rest).Ok? {
      var payload := inflate(rest).value;
      assert ([0] + payload)[1..] == payload;
    }
  }

  /** A stanza inflated from a flagged frame comes back as from a plain one. */
  lemma DecodeOfCompressed(t: Tables, n: Node, z: seq<Byte>, inflate: Inflate)
    requires t.Valid() && Encodable(t, n) && inflate(z) == Ok(NodeBytes(t, n))
    ensures Decoded(t, [2] + z, inflate) == if n.tag == "0" then Err else Ok(WireNode(t, n))
  {
    hide ReadNode, NodeBytes, WireNode, Decoded;
    FlagByte(t, 2, z, inflate);
    DecodeOfEncode(t, n, inflate);
  }
}
