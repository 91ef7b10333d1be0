/** What each production reads: the decoder as functions of a buffer and a position. */
module Reading {
  import opened Wrappers
  import opened Bytes
  import opened Tokens
  import opened Jids
  import opened Nodes
  import Utf8

  function ReadU8(d: seq<Byte>, p: nat): (r: Read<Byte>)
    ensures r.Got? ==> r.pos == p + 1 <= |d|
  {
    if p < |d| then Got(d[p], p + 1) else Fail
  }

  function ReadU20(d: seq<Byte>, p: nat): Read<nat> {
    if p + 2 < |d| then
      var b0: int, b1: int, b2: int := d[p], d[p + 1], d[p + 2];
      Got(b0 % 16 * 0x1_0000 + b1 * 256 + b2, p + 3)
    else Fail
  }

  function ReadListSize(d: seq<Byte>, p: nat, tag: Byte): (r: Read<nat>)
    ensures r.Got? ==> r.pos >= p
  {
    if tag == LIST_EMPTY then Got(0, p)
    else if tag == LIST_8 then
      match ReadU8(d, p) { case Got(n, q) => Got(n, q) case Fail => Fail }
    else if tag == LIST_16 then Got(BigEndian(Slice(d, p, 2)), p + 2)
    else Fail
  }

  function Unpack(hex: bool, v: int): (r: Option<char>)
    requires 0 <= v < 16
  {
    if v <= 9 then Some(('0' as int + v) as char)
    else if hex then Some(('A' as int + v - 10) as char)
    else if v == 10 then Some('-')
    else if v == 11 then Some('.')
    else None
  }

  /** Unpacks `count` bytes; with `odd`, the low half of the last one is padding. */
  function ReadPairs(d: seq<Byte>, p: nat, hex: bool, count: nat, odd: bool): (r: Read<string>)
    ensures r.Got? ==> r.pos == p + count
    decreases count
  {
    if count == 0 then Got("", p)
    else match ReadU8(d, p)
      case Fail => Fail
      case Got(b, _) =>
        var high := Unpack(hex, b / 16);
        if high.None? then Fail
        else if count == 1 && odd then Got([high.value], p + 1)
        else
          var low := Unpack(hex, b % 16);
          if low.None? then Fail
          else match ReadPairs(d, p + 1, hex, count - 1, odd)
            case Fail => Fail
            case Got(rest, q) => Got([high.value, low.value] + rest, q)
  }

  function ReadPacked(d: seq<Byte>, p: nat, hex: bool): (r: Read<string>)
    ensures r.Got? ==> r.pos > p
  {
    match ReadU8(d, p)
    case Fail => Fail
    case Got(header, q) => ReadPairs(d, q, hex, header % 0x80, header >= 0x80)
  }

  /** Raw bytes become text in attribute position and stay bytes in content position. */
  function AsValue(b: seq<Byte>, asString: bool, pos: nat): Read<Value> {
    if !asString then Got(Blob(b), pos)
    else match Utf8.Decode(b)
      case Some(s) => Got(Text(s), pos)
      case None => Fail
  }

  function ReadBlob(d: seq<Byte>, length: Read<nat>, asString: bool): Read<Value> {
    match length
    case Fail => Fail
    case Got(n, p) => AsValue(Slice(d, p, n), asString, p + n)
  }

  function ServerOfAgent(agent: Byte): string {
    if agent == 0 then DEFAULT_USER_SERVER
    else if agent == 1 then HIDDEN_USER_SERVER
    else if agent < 128 then HOSTED_SERVER
    else HOSTED_LID_SERVER
  }

  ghost function Left(d: seq<Byte>, p: nat): nat {
    if p < |d| then |d| - p else 0
  }

  /** The value announced by `tag`, the position being just after that byte. */
  function ReadValue(t: Tables, d: seq<Byte>, p: nat, tag: Byte, asString: bool): (r: Read<Value>)
    requires t.Valid()
    ensures r.Got? ==> r.pos >= p
    decreases Left(d, p), 3
  {
    if 1 <= tag <= |t.single| - 1 then Got(Text(t.single[tag]), p)
    else if tag == LIST_EMPTY then Got(Text(""), p)
    else if DICTIONARY_0 <= tag <= DICTIONARY_3 then
      match ReadU8(d, p)
      case Fail => Fail
      case Got(i, q) =>
        var dict := t.double[tag as int - DICTIONARY_0 as int];
        if i < |dict| then Got(Text(dict[i]), q) else Fail
    else if tag == JID_PAIR then AsAddress(ReadJidPair(t, d, p))
    else if tag == AD_JID then AsAddress(ReadAdJid(t, d, p))
    else if tag == FB_JID then AsAddress(ReadFbJid(t, d, p))
    else if tag == INTEROP_JID then AsAddress(ReadInteropJid(t, d, p))
    else if tag == NIBBLE_8 || tag == HEX_8 then
      match ReadPacked(d, p, tag == HEX_8)
      case Fail => Fail
      case Got(s, q) => Got(Text(s), q)
    else if tag == BINARY_8 then
      ReadBlob(d, match ReadU8(d, p) { case Got(n, q) => Got(n, q) case Fail => Fail }, asString)
    else if tag == BINARY_20 then ReadBlob(d, ReadU20(d, p), asString)
    else if tag == BINARY_32 then ReadBlob(d, Got(BigEndian(Slice(d, p, 4)), p + 4), asString)
    else if tag == LIST_8 || tag == LIST_16 then
      match ReadListSize(d, p, tag)
      case Fail => Fail
      case Got(size, q) =>
        match ReadList(t, d, q, size)
        case Fail => Fail
        case Got(ns, q') => Got(Children(ns), q')
    else Fail
  }

  function AsAddress(j: Read<JID>): Read<Value> {
    match j
    case Fail => Fail
    case Got(jid, q) => Got(Address(jid), q)
  }

  /** A tag byte and the value it announces. */
  function ReadTagged(t: Tables, d: seq<Byte>, p: nat, asString: bool): (r: Read<Value>)
    requires t.Valid()
    ensures r.Got? ==> r.pos > p && p < |d|
    decreases Left(d, p), 0
  {
    match ReadU8(d, p)
    case Fail => Fail
    case Got(tag, q) => ReadValue(t, d, q, tag, asString)
  }

  function OnlyText(v: Read<Value>): Read<string> {
    match v
    case Got(Text(s), q) => Got(s, q)
    case _ => Fail
  }

  /** A tag byte and a text; anything else is an error. */
  function ReadString(t: Tables, d: seq<Byte>, p: nat): (r: Read<string>)
    requires t.Valid()
    ensures r.Got? ==> r.pos > p && p < |d|
    decreases Left(d, p), 1
  {
    OnlyText(ReadTagged(t, d, p, true))
  }

  function ReadJidPair(t: Tables, d: seq<Byte>, p: nat): (r: Read<JID>)
    requires t.Valid()
    ensures r.Got? ==> r.pos >= p
    decreases Left(d, p), 2
  {
    match ReadU8(d, p)
    case Fail => Fail
    case Got(tag, q) =>
      var user := if tag == LIST_EMPTY then Got("", q) else OnlyText(ReadValue(t, d, q, tag, true));
      match user
      case Fail => Fail
      case Got(u, q1) =>
        match ReadString(t, d, q1)
        case Fail => Fail
        case Got(server, q2) => Got(JID(u, server, 0, 0, 0), q2)
  }

  function ReadAdJid(t: Tables, d: seq<Byte>, p: nat): (r: Read<JID>)
    requires t.Valid()
    ensures r.Got? ==> r.pos >= p
    decreases Left(d, p), 2
  {
    match ReadU8(d, p)
    case Fail => Fail
    case Got(agent, q) =>
      match ReadU8(d, q)
      case Fail => Fail
      case Got(device, q1) =>
        match ReadString(t, d, q1)
        case Fail => Fail
        case Got(user, q2) => Got(JID(user, ServerOfAgent(agent), agent, device, 0), q2)
  }

  function ReadFbJid(t: Tables, d: seq<Byte>, p: nat): (r: Read<JID>)
    requires t.Valid()
    ensures r.Got? ==> r.pos >= p
    decreases Left(d, p), 2
  {
    match ReadString(t, d, p)
    case Fail => Fail
    case Got(user, q) =>
      match ReadString(t, d, q + 2)
      case Fail => Fail
      case Got(server, q') => Got(JID(user, server, 0, BigEndian(Slice(d, q, 2)), 0), q')
  }

  function ReadInteropJid(t: Tables, d: seq<Byte>, p: nat): (r: Read<JID>)
    requires t.Valid()
    ensures r.Got? ==> r.pos >= p
    decreases Left(d, p), 2
  {
    match ReadString(t, d, p)
    case Fail => Fail
    case Got(user, q) =>
      match ReadString(t, d, q + 4)
      case Fail => Fail
      case Got(server, q') =>
        Got(JID(user, server, 0, BigEndian(Slice(d, q, 2)), BigEndian(Slice(d, q + 2, 2))), q')
  }

  /** `n` key-value pairs stored into the dictionary `out`. */
  function ReadAttrs(t: Tables, d: seq<Byte>, p: nat, n: nat, out: seq<Attr>): (r: Read<seq<Attr>>)
    requires t.Valid()
    ensures r.Got? ==> r.pos >= p
    decreases Left(d, p), 2
  {
    if n == 0 then Got(out, p)
    else match ReadString(t, d, p)
      case Fail => Fail
      case Got(key, q) =>
        match ReadTagged(t, d, q, true)
        case Fail => Fail
        case Got(val, q') => ReadAttrs(t, d, q', n - 1, Put(out, key, val))
  }

  /** Tag, attributes and content of a node whose list header announced `size` items. */
  function ReadBody(t: Tables, d: seq<Byte>, p: nat, size: nat): (r: Read<Node>)
    requires t.Valid() && size > 0
    ensures r.Got? ==> r.pos > p && p < |d|
    decreases Left(d, p), 2
  {
    match ReadString(t, d, p)
    case Fail => Fail
    case Got(tag, q) =>
      match ReadAttrs(t, d, q, (size - 1) / 2, [])
      case Fail => Fail
      case Got(attrs, q1) =>
        if size % 2 != 0 then Got(Node(tag, attrs, Absent), q1)
        else match ReadTagged(t, d, q1, false)
          case Fail => Fail
          case Got(content, q2) => Got(Node(tag, attrs, content), q2)
  }

  /** A list header; for a node it announces the number of items. */
  function ReadHeader(d: seq<Byte>, p: nat): (r: Read<nat>)
    ensures r.Got? ==> r.pos > p && p < |d|
  {
    match ReadU8(d, p)
    case Fail => Fail
    case Got(tag, q) => ReadListSize(d, q, tag)
  }

  function ReadNodeInList(t: Tables, d: seq<Byte>, p: nat): (r: Read<Node>)
    requires t.Valid()
    ensures r.Got? ==> r.pos > p && p < |d|
    decreases Left(d, p), 1
  {
    match ReadHeader(d, p)
    case Fail => Fail
    case Got(size, q) =>
      if size == 0 then Got(Node("", [], Absent), q) else ReadBody(t, d, q, size)
  }

  function ReadList(t: Tables, d: seq<Byte>, p: nat, n: nat): (r: Read<seq<Node>>)
    requires t.Valid()
    ensures r.Got? ==> r.pos >= p
    decreases Left(d, p), 2
  {
    if n == 0 then Got([], p)
    else match ReadNodeInList(t, d, p)
      case Fail => Fail
      case Got(node, q) =>
        match ReadList(t, d, q, n - 1)
        case Fail => Fail
        case Got(rest, q') => Got([node] + rest, q')
  }

  /** The top node; None stands for the empty list. */
  function ReadNode(t: Tables, d: seq<Byte>, p: nat): (r: Read<Option<Node>>)
    requires t.Valid()
  {
    match ReadHeader(d, p)
    case Fail => Fail
    case Got(size, q) =>
      if size == 0 then Got(None, q)
      else match ReadBody(t, d, q, size)
        case Fail => Fail
        case Got(node, q') => Got(Some(node), q')
  }

  /** The decompressor of flagged frames. */
  type Inflate = seq<Byte> -> Result<seq<Byte>>

  /** The payload behind the leading flag byte. */
  function Payload(data: seq<Byte>, inflate: Inflate): Result<seq<Byte>> {
    if data == [] then Err
    else if data[0] / 2 % 2 == 1 then inflate(data[1..])
    else if data[0] != 0 then Err
    else Ok(data[1..])
  }

  /** The stanza in a frame; bytes left over after it are an error. */
  function Decoded(t: Tables, data: seq<Byte>, inflate: Inflate): Result<Node>
    requires t.Valid()
  {
    match Payload(data, inflate)
    case Err => Err
    case Ok(payload) =>
      match ReadNode(t, payload, 0)
      case Got(Some(node), p) => if p == |payload| then Ok(node) else Err
      case _ => Err
  }
}
