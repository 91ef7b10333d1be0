/** What each production writes: the byte strings of the encoder, as functions. */
module Wire {
  import opened Bytes
  import opened Tokens
  import opened Jids
  import opened Nodes
  import Decimal
  import Utf8

  // --- packed strings ---------------------------------------------------

  predicate NibbleChar(c: char) {
    '0' <= c <= '9' || c == '-' || c == '.'
  }

  predicate HexChar(c: char) {
    '0' <= c <= '9' || 'A' <= c <= 'F'
  }

  predicate PackChar(hex: bool, c: char) {
    if hex then HexChar(c) else NibbleChar(c)
  }

  predicate Packable(hex: bool, s: string) {
    0 < |s| <= PACKED_MAX && forall i :: 0 <= i < |s| ==> PackChar(hex, s[i])
  }

  function Pack(hex: bool, c: char): (v: int)
    requires PackChar(hex, c)
    ensures 0 <= v < 16
  {
    if '0' <= c <= '9' then c as int - '0' as int
    else if hex then 10 + (c as int - 'A' as int)
    else if c == '-' then 10
    else 11
  }

  /** The value both packers give to the pad character. */
  const PAD := 15

  function PackedPairs(hex: bool, s: string): seq<Byte>
    requires forall i :: 0 <= i < |s| ==> PackChar(hex, s[i])
  {
    if s == [] then []
    else if |s| == 1 then [Pack(hex, s[0]) * 16 + PAD]
    else [Pack(hex, s[0]) * 16 + Pack(hex, s[1])] + PackedPairs(hex, s[2..])
  }

  /** Number of packed bytes, with the odd-length flag in the top bit. */
  function PackedHeader(n: nat): (h: Byte)
    requires n <= PACKED_MAX
  {
    (n + 1) / 2 + (if n % 2 != 0 then 0x80 else 0)
  }

  function PackedBytes(hex: bool, s: string): seq<Byte>
    requires Packable(hex, s)
  {
    [if hex then HEX_8 else NIBBLE_8, PackedHeader(|s|)] + PackedPairs(hex, s)
  }

  // --- lengths and strings ----------------------------------------------

  const LENGTH_LIMIT := 0x8000_0000

  function LengthPrefix(n: nat): seq<Byte> {
    if n < 256 then [BINARY_8, n]
    else if n < 0x10_0000 then [BINARY_20, n / 0x1_0000 % 16, n / 256 % 256, n % 256]
    else [BINARY_32] + U32(n)
  }

  function RawBytes(b: seq<Byte>): seq<Byte> {
    LengthPrefix(|b|) + b
  }

  function ListStart(n: nat): seq<Byte> {
    if n == 0 then [LIST_EMPTY]
    else if n < 256 then [LIST_8, n]
    else [LIST_16] + U16(n)
  }

  /** Neither a token nor packable: written as raw UTF-8. */
  predicate IsRaw(t: Tables, s: string) {
    SingleIndex(t, s).None? && DoubleIndex(t, s).None? && !Packable(false, s) && !Packable(true, s)
  }

  predicate StringFits(t: Tables, s: string) {
    IsRaw(t, s) ==> |Utf8.Encode(s)| < LENGTH_LIMIT
  }

  function StringBytes(t: Tables, s: string): (b: seq<Byte>)
    requires t.Valid()
    ensures |b| >= 1
  {
    match SingleIndex(t, s)
    case Some(i) => [i]
    case None =>
      match DoubleIndex(t, s)
      case Some((d, i)) => [DICTIONARY_0 as int + d, i]
      case None =>
        if Packable(false, s) then PackedBytes(false, s)
        else if Packable(true, s) then PackedBytes(true, s)
        else RawBytes(Utf8.Encode(s))
  }

  // --- identifiers --------------------------------------------------------

  predicate JidFits(t: Tables, j: JID) {
    StringFits(t, j.user) && (j.IsAd() || StringFits(t, j.server))
  }

  function JidBytes(t: Tables, j: JID): seq<Byte>
    requires t.Valid()
  {
    if j.IsAd() then
      [AD_JID, j.ActualAgent() % 256, j.device % 256] + StringBytes(t, j.user)
    else if j.server == MESSENGER_SERVER then
      [FB_JID] + StringBytes(t, j.user) + U16(j.device) + StringBytes(t, j.server)
    else if j.server == INTEROP_SERVER then
      [INTEROP_JID] + StringBytes(t, j.user) + U16(j.device) + U16(j.integrator) + StringBytes(t, j.server)
    else
      [JID_PAIR] + (if j.user == "" then [LIST_EMPTY] else StringBytes(t, j.user)) + StringBytes(t, j.server)
  }

  // --- values and nodes -----------------------------------------------------

  /** Attributes that carry nothing are not written. */
  predicate Skipped(v: Value) {
    v == Absent || v == Text("")
  }

  function CountAttrs(attrs: seq<Attr>): nat {
    if attrs == [] then 0
    else (if Skipped(attrs[0].value) then 0 else 1) + CountAttrs(attrs[1..])
  }

  function TruthText(b: bool): string {
    if b then "true" else "false"
  }

  function ListSize(n: Node): nat {
    2 * CountAttrs(n.attrs) + 1 + if n.content.Absent? then 0 else 1
  }

  function ValueBytes(t: Tables, v: Value): seq<Byte>
    requires t.Valid()
    decreases v, 1
  {
    match v
    case Absent => [LIST_EMPTY]
    case Address(j) => JidBytes(t, j)
    case Text(s) => StringBytes(t, s)
    case Truth(b) => StringBytes(t, TruthText(b))
    case Number(n) => StringBytes(t, Decimal.Text(n))
    case Blob(b) => RawBytes(b)
    case Children(ns) => ListStart(|ns|) + NodesBytes(t, ns)
  }

  function NodesBytes(t: Tables, ns: seq<Node>): seq<Byte>
    requires t.Valid()
    decreases ns, 0
  {
    if ns == [] then [] else NodeBytes(t, ns[0]) + NodesBytes(t, ns[1..])
  }

  function AttrsBytes(t: Tables, attrs: seq<Attr>): seq<Byte>
    requires t.Valid()
    decreases attrs, 0
  {
    if attrs == [] then []
    else if Skipped(attrs[0].value) then AttrsBytes(t, attrs[1..])
    else StringBytes(t, attrs[0].key) + ValueBytes(t, attrs[0].value) + AttrsBytes(t, attrs[1..])
  }

  function NodeBytes(t: Tables, n: Node): seq<Byte>
    requires t.Valid()
    decreases n, 2
  {
    if n.tag == "0" then [LIST_8, LIST_EMPTY]
    else
      ListStart(ListSize(n)) + StringBytes(t, n.tag) + AttrsBytes(t, n.attrs)
      + if n.content.Absent? then [] else ValueBytes(t, n.content)
  }

  predicate ValueFits(t: Tables, v: Value)
    decreases v, 1
  {
    match v
    case Absent => true
    case Address(j) => JidFits(t, j)
    case Text(s) => StringFits(t, s)
    case Truth(b) => StringFits(t, TruthText(b))
    case Number(n) => StringFits(t, Decimal.Text(n))
    case Blob(b) => |b| < LENGTH_LIMIT
    case Children(ns) => forall i :: 0 <= i < |ns| ==> NodeFits(t, ns[i])
  }

  /** Every length in the tree is one the encoder accepts. */
  predicate NodeFits(t: Tables, n: Node)
    decreases n, 2
  {
    n.tag == "0"
    || (&& StringFits(t, n.tag)
        && (forall i :: 0 <= i < |n.attrs| && !Skipped(n.attrs[i].value) ==>
              StringFits(t, n.attrs[i].key) && ValueFits(t, n.attrs[i].value))
        && ValueFits(t, n.content))
  }
}
