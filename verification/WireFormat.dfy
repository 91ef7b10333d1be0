/** The bytes of the format themselves: which tag announces what, and what each byte behind it is worth. */
module WireFormat {
  import opened Wrappers
  import opened Bytes
  import opened Tokens
  import opened Jids
  import opened Nodes
  import opened Wire
  import Utf8

  // --- packed strings --------------------------------------------------------------------------

  const NIBBLES := "0123456789-."
  const HEXITS := "0123456789ABCDEF"

  function Alphabet(hex: bool): string {
    if hex then HEXITS else NIBBLES
  }

  /** A character is packed as its place in the alphabet, and packable exactly if it has one. */
  lemma PackedPlace(hex: bool, c: char)
    ensures PackChar(hex, c) <==> c in Alphabet(hex)
    ensures PackChar(hex, c) ==> Pack(hex, c) < |Alphabet(hex)| && Alphabet(hex)[Pack(hex, c)] == c
  {
    if hex {
      HexPlace(c);
    } else {
      NibblePlace(c);
    }
  }

  lemma HexPlace(c: char)
    ensures HexChar(c) <==> c in HEXITS
    ensures HexChar(c) ==> HEXITS[Pack(true, c)] == c
  {
    assert |HEXITS| == 16;
    assert forall i :: 0 <= i < 16 ==> HEXITS[i] as int == if i < 10 then 48 + i else 55 + i;
    if HexChar(c) {
      assert HEXITS[Pack(true, c)] == c;
    }
  }

  lemma NibblePlace(c: char)
    ensures NibbleChar(c) <==> c in NIBBLES
    ensures NibbleChar(c) ==> Pack(false, c) < 12 && NIBBLES[Pack(false, c)] == c
  {
    assert |NIBBLES| == 12;
    assert forall i :: 0 <= i < 10 ==> NIBBLES[i] as int == 48 + i;
    assert NIBBLES[10] == '-' && NIBBLES[11] == '.';
    if NibbleChar(c) {
      assert NIBBLES[Pack(false, c)] == c;
    }
  }

  /**
   * A packed string is its tag, the number of bytes with the odd flag on top, and one byte per pair: the first
   * character's place above the second's, and 15 where there is no second.
   */
  lemma {:induction false} PairBytes(hex: bool, s: string, k: nat)
    requires forall i :: 0 <= i < |s| ==> PackChar(hex, s[i])
    requires 2 * k < |s|
    ensures |PackedPairs(hex, s)| == (|s| + 1) / 2
    ensures PackedPairs(hex, s)[k]
            == 16 * Pack(hex, s[2 * k]) + if 2 * k + 1 < |s| then Pack(hex, s[2 * k + 1]) else 15
    decreases |s|
  {
    if |s| > 2 {
      var rest := s[2..];
      assert forall i :: 0 <= i < |rest| ==> rest[i] == s[i + 2];
      PairBytes(hex, rest, if k > 0 then k - 1 else 0);
    }
  }

  lemma PackedForm(hex: bool, s: string, k: nat)
    requires Packable(hex, s) && 2 * k < |s|
    ensures var b := PackedBytes(hex, s);
            && |b| == 2 + (|s| + 1) / 2
            && b[0] == (if hex then 251 else 255)
            && b[1] == (|s| + 1) / 2 + 128 * (|s| % 2)
            && b[2 + k] == 16 * Pack(hex, s[2 * k]) + if 2 * k + 1 < |s| then Pack(hex, s[2 * k + 1]) else 15
  {
    PairBytes(hex, s, k);
  }

  predicate NoToken(t: Tables, s: string) {
    SingleIndex(t, s).None? && DoubleIndex(t, s).None?
  }

  /** Packable are one to 127 characters of the alphabet. */
  predicate FitsAlphabet(hex: bool, s: string) {
    1 <= |s| <= 127 && forall i :: 0 <= i < |s| ==> s[i] in Alphabet(hex)
  }

  /** A text that is no token is packed as digits if it can be, else as hexadecimal, and else written raw. */
  lemma WhichForm(t: Tables, s: string)
    requires t.Valid()
    ensures NoToken(t, s) ==>
              StringBytes(t, s)
              == if FitsAlphabet(false, s) then PackedBytes(false, s)
                 else if FitsAlphabet(true, s) then PackedBytes(true, s)
                 else LengthPrefix(|Utf8.Encode(s)|) + Utf8.Encode(s)
    ensures StringFits(t, s)
            <==> (NoToken(t, s) && !FitsAlphabet(false, s) && !FitsAlphabet(true, s) ==>
                    |Utf8.Encode(s)| < 0x8000_0000)
    ensures NoToken(t, s) && s == "" ==> StringBytes(t, s) == [252, 0]
  {
    hide Alphabet, PackChar, Utf8.Encode, PackedBytes, LengthPrefix;
    PackableIff(false, s);
    PackableIff(true, s);
    if s == "" {
      assert Utf8.Encode("") == [] by { NoText(); }
      assert LengthPrefix(0) == [252, 0] by { NoLength(); }
    }
  }

  lemma NoText()
    ensures Utf8.Encode("") == []
  {
  }

  lemma NoLength()
    ensures LengthPrefix(0) == [252, 0]
  {
  }

  lemma PackableIff(hex: bool, s: string)
    ensures Packable(hex, s) <==> FitsAlphabet(hex, s)
    ensures FitsAlphabet(hex, s) ==> s != ""
  {
    hide Alphabet, PackChar;
    forall i | 0 <= i < |s| ensures PackChar(hex, s[i]) <==> s[i] in Alphabet(hex) {
      PackedPlace(hex, s[i]);
    }
  }

  /** An identifier can be written exactly if its user can, and its server where that is written. */
  lemma JidFitsIff(t: Tables, j: JID)
    ensures JidFits(t, j)
            <==> StringFits(t, j.user)
                 && (|| ((j.server == "s.whatsapp.net" || j.server == "lid") && j.device > 0)
                     || j.server == "hosted" || j.server == "hosted.lid"
                     || StringFits(t, j.server))
  {
    hide StringFits;
  }

  // --- lengths -------------------------------------------------------------------------------------

  /** Lengths below 2^8, 2^20 and 2^31 follow the tags 252, 253 and 254 in one, three and four big-endian bytes. */
  lemma LengthForm(n: nat)
    requires n < 0x8000_0000
    ensures var b := LengthPrefix(n);
            && b != [] && BigEndian(b[1..]) == n
            && b[0] == (if n < 256 then 252 else if n < 0x10_0000 then 253 else 254)
            && |b| == (if n < 256 then 2 else if n < 0x10_0000 then 4 else 5)
  {
    hide BigEndian;
    if n < 256 {
      OneByte(n);
      assert [BINARY_8, n][1..] == [n];
    } else if n < 0x10_0000 {
      ThreeBytes(n / 0x1_0000, n / 256 % 256, n % 256);
      assert n == n / 256 * 256 + n % 256 && n / 256 == n / 0x1_0000 * 256 + n / 256 % 256;
    } else {
      U32Value(n);
      assert ([BINARY_32] + U32(n))[1..] == U32(n);
    }
  }

  lemma OneByte(n: Byte)
    ensures BigEndian([n]) == n
  {
    assert [n][..0] == [];
  }

  lemma ThreeBytes(a: Byte, b: Byte, c: Byte)
    ensures BigEndian([a, b, c]) == a * 0x1_0000 + b * 256 + c
  {
    assert [a, b, c][..2] == [a, b] && [a, b][..1] == [a];
    OneByte(a);
  }

  /** List headers: 0 alone for no items, 248 and one byte, or 249 and two big-endian bytes. */
  lemma ListForm(n: nat)
    requires n < 0x1_0000
    ensures var b := ListStart(n);
            && (n == 0 ==> b == [0])
            && (0 < n < 256 ==> b == [248, n])
            && (n >= 256 ==> |b| == 3 && b[0] == 249 && BigEndian(b[1..]) == n)
  {
    if n >= 256 {
      U16Value(n);
      assert ([LIST_16] + U16(n))[1..] == U16(n);
    }
  }

  // --- identifiers and stanzas -----------------------------------------------------------------------

  /** Identifiers byte by byte, for any user and any device. */
  lemma JidForms(t: Tables, user: string, device: int, integrator: int)
    requires t.Valid() && 0 <= device < 0x1_0000 && 0 <= integrator < 0x1_0000
    ensures 0 < device < 256 ==>
              && JidBytes(t, JID(user, "s.whatsapp.net", 0, device, 0)) == [247, 0, device] + StringBytes(t, user)
              && JidBytes(t, JID(user, "lid", 0, device, 0)) == [247, 1, device] + StringBytes(t, user)
    ensures user != "" ==>
              JidBytes(t, JID(user, "g.us", 0, 0, 0)) == [250] + StringBytes(t, user) + StringBytes(t, "g.us")
    ensures JidBytes(t, JID("", "s.whatsapp.net", 0, 0, 0)) == [250, 0] + StringBytes(t, "s.whatsapp.net")
    ensures JidBytes(t, JID(user, "msgr", 0, device, 0))
            == [246] + StringBytes(t, user) + [device / 256, device % 256] + StringBytes(t, "msgr")
    ensures JidBytes(t, JID(user, "interop", 0, device, integrator))
            == [245] + StringBytes(t, user) + [device / 256, device % 256, integrator / 256, integrator % 256]
               + StringBytes(t, "interop")
  {
    hide StringBytes;
    var u := [245] + StringBytes(t, user);
    assert u + U16(device) + U16(integrator) == u + [device / 256, device % 256, integrator / 256, integrator % 256];
  }

  /** A user of eleven digits, a hexadecimal id, a text and bytes, written without tokens. */
  lemma KnownStrings(t: Tables)
    requires t.Valid() && NoToken(t, "15551234567") && NoToken(t, "AABBCCDD1122") && NoToken(t, "XYZ_1234")
    ensures StringBytes(t, "15551234567") == [255, 0x86, 0x15, 0x55, 0x12, 0x34, 0x56, 0x7F]
    ensures StringBytes(t, "AABBCCDD1122") == [251, 6, 0xAA, 0xBB, 0xCC, 0xDD, 0x11, 0x22]
    ensures StringBytes(t, "XYZ_1234") == [252, 8, 88, 89, 90, 95, 49, 50, 51, 52]
    ensures ValueBytes(t, Blob([1, 2, 3, 4])) == [252, 4, 1, 2, 3, 4]
  {
    hide Packable, PackedBytes, Utf8.Encode, SingleIndex, DoubleIndex;
    DigitsPacked();
    HexPacked();
    TextRaw();
    RawText(t);
    assert RawBytes([1, 2, 3, 4]) == [252, 4, 1, 2, 3, 4];
  }

  lemma RawText(t: Tables)
    requires t.Valid() && NoToken(t, "XYZ_1234")
    ensures StringBytes(t, "XYZ_1234") == [252, 8, 88, 89, 90, 95, 49, 50, 51, 52]
  {
    hide Packable, PackedBytes, Utf8.Encode, SingleIndex, DoubleIndex;
    TextRaw();
    var b: seq<Byte> := [88, 89, 90, 95, 49, 50, 51, 52];
    assert RawBytes(b) == [252, 8] + b;
  }

  lemma DigitsPacked()
    ensures Packable(false, "15551234567")
    ensures PackedBytes(false, "15551234567") == [255, 0x86, 0x15, 0x55, 0x12, 0x34, 0x56, 0x7F]
  {
    var s := "15551234567";
    assert Packable(false, s);
    PackedForm(false, s, 0); PackedForm(false, s, 1); PackedForm(false, s, 2);
    PackedForm(false, s, 3); PackedForm(false, s, 4); PackedForm(false, s, 5);
  }

  lemma HexPacked()
    ensures !Packable(false, "AABBCCDD1122") && Packable(true, "AABBCCDD1122")
    ensures PackedBytes(true, "AABBCCDD1122") == [251, 6, 0xAA, 0xBB, 0xCC, 0xDD, 0x11, 0x22]
  {
    var s := "AABBCCDD1122";
    assert !NibbleChar(s[0]);
    assert Packable(true, s);
    PackedForm(true, s, 0); PackedForm(true, s, 1); PackedForm(true, s, 2);
    PackedForm(true, s, 3); PackedForm(true, s, 4); PackedForm(true, s, 5);
  }

  lemma TextRaw()
    ensures !Packable(false, "XYZ_1234") && !Packable(true, "XYZ_1234")
    ensures Utf8.Encode("XYZ_1234") == [88, 89, 90, 95, 49, 50, 51, 52]
  {
    var s := "XYZ_1234";
    assert !NibbleChar(s[0]) && !HexChar(s[0]);
    Utf8.AsciiBytes(s);
  }

  /** Tokens are their index, or their dictionary's tag and their place in it. */
  lemma KnownTokens(t: Tables, s: string, i: nat, d: nat)
    requires t.Valid() && s != ""
    ensures i < 236 && t.single[i] == s && s !in t.single[i + 1..] ==> StringBytes(t, s) == [i]
    ensures s !in t.single && d < 4 && i < |t.double[d]| && t.double[d][i] == s && s !in t.double[d][i + 1..]
            && (forall e :: d < e < 4 ==> s !in t.double[e]) ==>
              StringBytes(t, s) == [236 + d, i]
  {
    if i < 236 && t.single[i] == s && s !in t.single[i + 1..] {
      LastIs(t.single, s, i);
    }
    if s !in t.single && d < 4 && i < |t.double[d]| && t.double[d][i] == s && s !in t.double[d][i + 1..]
       && (forall e :: d < e < 4 ==> s !in t.double[e]) {
      LastIs(t.double[d], s, i);
      LastDictionary(t.double, s, d, i);
    }
  }

  lemma LastIs(xs: seq<string>, s: string, i: nat)
    requires i < |xs| && xs[i] == s && s !in xs[i + 1..]
    ensures LastIndex(xs, s) == Some(i)
    decreases |xs|
  {
    var n := |xs| - 1;
    if i < n {
      assert xs[i + 1..][n - i - 1] == xs[n];
      assert xs[..n][i + 1..] == xs[i + 1..][..n - i - 1];
      LastIs(xs[..n], s, i);
    }
  }

  lemma LastDictionary(ds: seq<seq<string>>, s: string, d: nat, i: nat)
    requires d < |ds| && LastIndex(ds[d], s) == Some(i) && forall e :: d < e < |ds| ==> s !in ds[e]
    ensures DoubleIndexIn(ds, s) == Some((d, i))
    decreases |ds|
  {
    if d < |ds| - 1 {
      LastDictionary(ds[..|ds| - 1], s, d, i);
    }
  }

  /**
   * A stanza: two items per attribute that is written, one for the tag and one for a content; tag, then keys
   * each followed by its value, then the content.
   */
  lemma KnownStanzas(t: Tables, b: seq<Byte>)
    requires t.Valid()
    ensures NodeBytes(t, Node("ping", [], Absent)) == [248, 1] + StringBytes(t, "ping")
    ensures NodeBytes(t, Node("iq", [Attr("type", Text("set")), Attr("id", Text("")), Attr("to", Absent)], Absent))
            == [248, 3] + StringBytes(t, "iq") + StringBytes(t, "type") + StringBytes(t, "set")
    ensures var children := Children([Node("add", [], Absent), Node("0", [], Absent)]);
            NodeBytes(t, Node("iq", [Attr("id", Number(7))], children))
            == [248, 4] + StringBytes(t, "iq") + StringBytes(t, "id") + StringBytes(t, "7")
               + ([248, 2] + ([248, 1] + StringBytes(t, "add") + [248, 0]))
    ensures NodeBytes(t, Node("enc", [Attr("v", Truth(true))], Blob(b)))
            == [248, 4] + StringBytes(t, "enc") + StringBytes(t, "v") + StringBytes(t, "true") + RawBytes(b)
  {
    hide StringBytes, RawBytes;
    Ping(t);
    Attributes(t);
    Nested(t);
    Content(t, b);
  }

  lemma Ping(t: Tables)
    requires t.Valid()
    ensures NodeBytes(t, Node("ping", [], Absent)) == [248, 1] + StringBytes(t, "ping")
  {
    hide StringBytes;
    var s := StringBytes(t, "ping");
    assert AttrsBytes(t, []) == [];
    assert [248, 1] + s + [] + [] == [248, 1] + s;
  }

  lemma Attributes(t: Tables)
    requires t.Valid()
    ensures NodeBytes(t, Node("iq", [Attr("type", Text("set")), Attr("id", Text("")), Attr("to", Absent)], Absent))
            == [248, 3] + StringBytes(t, "iq") + StringBytes(t, "type") + StringBytes(t, "set")
  {
    hide StringBytes;
    var attrs := [Attr("type", Text("set")), Attr("id", Text("")), Attr("to", Absent)];
    var rest, last := [Attr("id", Text("")), Attr("to", Absent)], [Attr("to", Absent)];
    assert attrs[1..] == rest && rest[1..] == last && last[1..] == [];
    assert CountAttrs([]) == 0 && AttrsBytes(t, []) == [];
    assert CountAttrs(last) == 0 && AttrsBytes(t, last) == [];
    assert CountAttrs(rest) == 0 && AttrsBytes(t, rest) == [];
    assert CountAttrs(attrs) == 1;
    var head, k, v := [248, 3] + StringBytes(t, "iq"), StringBytes(t, "type"), StringBytes(t, "set");
    assert AttrsBytes(t, attrs) == k + v + [];
    assert head + (k + v + []) + [] == head + k + v;
  }

  lemma Nested(t: Tables)
    requires t.Valid()
    ensures var children := Children([Node("add", [], Absent), Node("0", [], Absent)]);
            NodeBytes(t, Node("iq", [Attr("id", Number(7))], children))
            == [248, 4] + StringBytes(t, "iq") + StringBytes(t, "id") + StringBytes(t, "7")
               + ([248, 2] + ([248, 1] + StringBytes(t, "add") + [248, 0]))
  {
    hide StringBytes;
    var attrs, add, zero := [Attr("id", Number(7))], Node("add", [], Absent), Node("0", [], Absent);
    assert attrs[1..] == [] && CountAttrs([]) == 0 && AttrsBytes(t, []) == [];
    assert CountAttrs(attrs) == 1;
    var head, k, v := [248, 4] + StringBytes(t, "iq"), StringBytes(t, "id"), StringBytes(t, "7");
    assert AttrsBytes(t, attrs) == k + v + [];
    var a := [248, 1] + StringBytes(t, "add");
    assert NodeBytes(t, add) == a + [] + [] == a;
    assert NodeBytes(t, zero) == [248, 0];
    assert [zero][1..] == [] && [add, zero][1..] == [zero] && NodesBytes(t, []) == [];
    assert NodesBytes(t, [zero]) == [248, 0] + [] == [248, 0];
    assert NodesBytes(t, [add, zero]) == a + [248, 0];
    assert ValueBytes(t, Children([add, zero])) == [248, 2] + (a + [248, 0]);
    assert head + (k + v + []) == head + k + v;
  }

  lemma Content(t: Tables, b: seq<Byte>)
    requires t.Valid()
    ensures NodeBytes(t, Node("enc", [Attr("v", Truth(true))], Blob(b)))
            == [248, 4] + StringBytes(t, "enc") + StringBytes(t, "v") + StringBytes(t, "true") + RawBytes(b)
  {
    hide StringBytes, RawBytes;
    var attrs := [Attr("v", Truth(true))];
    assert attrs[1..] == [] && CountAttrs([]) == 0 && AttrsBytes(t, []) == [];
    assert CountAttrs(attrs) == 1;
    var head, k, v := [248, 4] + StringBytes(t, "enc"), StringBytes(t, "v"), StringBytes(t, "true");
    assert AttrsBytes(t, attrs) == k + v + [];
    assert head + (k + v + []) == head + k + v;
  }
}
