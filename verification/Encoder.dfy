/** The encoder itself: a growing buffer and the productions that append to it. */
module Encoder {
  import opened Wrappers
  import opened Sequences
  import opened Bytes
  import opened Tokens
  import opened Jids
  import opened Nodes
  import opened Wire
  import Decimal
  import Utf8

  /** Two half bytes as one byte. */
  function Nibbles(high: int, low: int): Byte
    requires 0 <= high < 16 && 0 <= low < 16
  {
    high * 16 + low
  }

  class Writer {
    ghost const tables: Tables
    const ix: Indexes
    var buf: seq<Byte>

    ghost predicate Valid() {
      tables.Valid() && ix.Of(tables)
    }

    constructor (ix: Indexes, ghost tables: Tables)
      requires tables.Valid() && ix.Of(tables)
      ensures Valid() && this.tables == tables && buf == [0]
    {
      this.ix := ix;
      this.tables := tables;
      buf := [0];
    }

    method PushByte(b: int)
      modifies this
      ensures buf == old(buf) + [b % 256]
    {
      buf := buf + [b % 256];
    }

    method Push(data: seq<Byte>)
      modifies this
      ensures buf == old(buf) + data
    {
      buf := buf + data;
    }

    method PushU16(v: int)
      modifies this
      ensures buf == old(buf) + U16(v)
    {
      buf := buf + U16(v);
    }

    method PushU20(v: nat)
      modifies this
      ensures buf == old(buf) + [v / 0x1_0000 % 16, v / 256 % 256, v % 256]
    {
      PushByte(v / 0x1_0000 % 16);
      PushByte(v / 256);
      PushByte(v);
    }

    method WriteListStart(size: nat)
      modifies this
      ensures buf == old(buf) + ListStart(size)
    {
      if size == 0 {
        PushByte(LIST_EMPTY);
      } else if size < 256 {
        PushByte(LIST_8);
        PushByte(size);
      } else {
        PushByte(LIST_16);
        PushU16(size);
      }
    }

    method WriteByteLength(length: nat) returns (ok: bool)
      modifies this
      ensures ok <==> length < LENGTH_LIMIT
      ensures ok ==> buf == old(buf) + LengthPrefix(length)
    {
      ok := true;
      if length < 256 {
        PushByte(BINARY_8);
        PushByte(length);
      } else if length < 0x10_0000 {
        PushByte(BINARY_20);
        PushU20(length);
      } else if length < 0x8000_0000 {
        PushByte(BINARY_32);
        Push(U32(length));
      } else {
        ok := false;
      }
    }

    method WriteBytes(data: seq<Byte>) returns (ok: bool)
      modifies this
      ensures ok <==> |data| < LENGTH_LIMIT
      ensures ok ==> buf == old(buf) + RawBytes(data)
    {
      ok := WriteByteLength(|data|);
      if ok {
        Push(data);
      }
    }

    /** The tag, and the number of bytes to come with the odd-length flag. */
    method WritePackedHead(n: nat, hex: bool)
      requires n <= PACKED_MAX
      modifies this
      ensures buf == old(buf) + [if hex then HEX_8 else NIBBLE_8, PackedHeader(n)]
    {
      PushByte(if hex then HEX_8 else NIBBLE_8);
      var rounded := (n + 1) / 2;
      PushByte(if n % 2 != 0 then rounded + 0x80 else rounded);
    }

    method WritePacked(s: string, hex: bool)
      requires Packable(hex, s)
      modifies this
      ensures buf == old(buf) + PackedBytes(hex, s)
    {
      hide PackedPairs, Pack, PackChar, Nibbles;
      ghost var base := buf;
      WritePackedHead(|s|, hex);
      ghost var done: seq<Byte> := [if hex then HEX_8 else NIBBLE_8, PackedHeader(|s|)];
      assert s[0..] == s;
      assert done + PackedPairs(hex, s) == PackedBytes(hex, s);
      hide PackedBytes, PackedHeader;
      var half := |s| / 2;
      for i := 0 to half
        invariant buf == base + done
        invariant done + PackedPairs(hex, s[2 * i..]) == PackedBytes(hex, s)
      {
        var pair := Nibbles(Pack(hex, s[2 * i]), Pack(hex, s[2 * i + 1]));
        PackedStep(hex, s, i, done);
        PushByte(pair);
        Regroup(base, done, [pair]);
        done := done + [pair];
      }
      PackedEnd(hex, s, half, done);
      if |s| % 2 != 0 {
        var last := Nibbles(Pack(hex, s[|s| - 1]), PAD);
        PushByte(last);
        Regroup(base, done, [last]);
      }
    }

    lemma PackedEnd(hex: bool, s: string, half: nat, done: seq<Byte>)
      requires Packable(hex, s) && half == |s| / 2
      requires done + PackedPairs(hex, s[2 * half..]) == PackedBytes(hex, s)
      ensures PackedBytes(hex, s) == if |s| % 2 != 0 then done + [Nibbles(Pack(hex, s[|s| - 1]), PAD)] else done
    {
      hide PackedBytes, PackChar, Pack;
      var rest := s[2 * half..];
      assert rest == if |s| % 2 != 0 then [s[|s| - 1]] else [];
      assert done + [] == done;
    }

    lemma FirstPair(hex: bool, s: string)
      requires |s| >= 2 && forall i :: 0 <= i < |s| ==> PackChar(hex, s[i])
      ensures PackedPairs(hex, s) == [Pack(hex, s[0]) * 16 + Pack(hex, s[1])] + PackedPairs(hex, s[2..])
    {
    }

    lemma PackedStep(hex: bool, s: string, i: nat, done: seq<Byte>)
      requires Packable(hex, s) && 2 * i + 1 < |s|
      ensures done + [Nibbles(Pack(hex, s[2 * i]), Pack(hex, s[2 * i + 1]))] + PackedPairs(hex, s[2 * (i + 1)..])
              == done + PackedPairs(hex, s[2 * i..])
    {
      var rest := s[2 * i..];
      assert rest[2..] == s[2 * (i + 1)..] && rest[0] == s[2 * i] && rest[1] == s[2 * i + 1];
      FirstPair(hex, rest);
      hide PackedPairs, Pack, PackChar;
      Regroup(done, [Pack(hex, rest[0]) * 16 + Pack(hex, rest[1])], PackedPairs(hex, rest[2..]));
    }

    method WriteString(s: string) returns (ok: bool)
      requires Valid()
      modifies this
      ensures ok <==> StringFits(tables, s)
      ensures ok ==> buf == old(buf) + StringBytes(tables, s)
    {
      IndexesInvert(tables, ix, s);
      assert ix.SingleByteIndex(s) == SingleIndex(tables, s) && ix.DoubleByteIndex(s) == DoubleIndex(tables, s);
      ok := true;
      var single := ix.SingleByteIndex(s);
      if single.Some? {
        PushByte(single.value);
        return;
      }
      var double := ix.DoubleByteIndex(s);
      if double.Some? {
        PushByte(DICTIONARY_0 as int + double.value.0);
        PushByte(double.value.1);
      } else if Packable(false, s) {
        WritePacked(s, false);
      } else if Packable(true, s) {
        WritePacked(s, true);
      } else {
        ok := WriteBytes(Utf8.Encode(s));
      }
    }

    method WriteJid(j: JID) returns (ok: bool)
      requires Valid()
      modifies this
      ensures ok <==> JidFits(tables, j)
      ensures ok ==> buf == old(buf) + JidBytes(tables, j)
    {
      if j.IsAd() {
        PushByte(AD_JID);
        PushByte(j.ActualAgent());
        PushByte(j.device);
        assert buf == old(buf) + [AD_JID, j.ActualAgent() % 256, j.device % 256];
        ok := WriteString(j.user);
        Regroup(old(buf), [AD_JID, j.ActualAgent() % 256, j.device % 256], StringBytes(tables, j.user));
      } else if j.server == MESSENGER_SERVER {
        ok := WriteMessengerJid(j);
      } else if j.server == INTEROP_SERVER {
        ok := WriteInteropJid(j);
      } else {
        PushByte(JID_PAIR);
        ghost var user := if j.user == "" then [LIST_EMPTY] else StringBytes(tables, j.user);
        if j.user == "" {
          PushByte(LIST_EMPTY);
          ok := true;
          assert |Utf8.Encode(j.user)| == 0;
        } else {
          ok := WriteString(j.user);
        }
        if ok {
          ok := WriteString(j.server);
          Regroup3(old(buf), [JID_PAIR], user, StringBytes(tables, j.server));
        }
      }
    }

    method WriteMessengerJid(j: JID) returns (ok: bool)
      requires Valid() && j.server == MESSENGER_SERVER
      modifies this
      ensures ok <==> JidFits(tables, j)
      ensures ok ==> buf == old(buf) + JidBytes(tables, j)
    {
      hide StringBytes, StringFits;
      PushByte(FB_JID);
      ok := WriteString(j.user);
      if ok {
        ghost var head := [FB_JID] + StringBytes(tables, j.user);
        Regroup(old(buf), [FB_JID], StringBytes(tables, j.user));
        PushU16(j.device);
        Regroup(old(buf), head, U16(j.device));
        ok := WriteString(j.server);
        Regroup(old(buf), head + U16(j.device), StringBytes(tables, j.server));
      }
    }

    method WriteInteropJid(j: JID) returns (ok: bool)
      requires Valid() && j.server == INTEROP_SERVER
      modifies this
      ensures ok <==> JidFits(tables, j)
      ensures ok ==> buf == old(buf) + JidBytes(tables, j)
    {
      hide StringBytes, StringFits;
      PushByte(INTEROP_JID);
      ok := WriteString(j.user);
      if ok {
        ghost var head := [INTEROP_JID] + StringBytes(tables, j.user);
        Regroup(old(buf), [INTEROP_JID], StringBytes(tables, j.user));
        PushU16(j.device);
        Regroup(old(buf), head, U16(j.device));
        PushU16(j.integrator);
        ok := WriteString(j.server);
        Regroup3(old(buf), head + U16(j.device), U16(j.integrator), StringBytes(tables, j.server));
      }
    }

    method WriteAny(value: Value) returns (ok: bool)
      requires Valid()
      modifies this
      ensures ok <==> ValueFits(tables, value)
      ensures ok ==> buf == old(buf) + ValueBytes(tables, value)
      decreases value, 1
    {
      match value
      case Absent =>
        PushByte(LIST_EMPTY);
        ok := true;
      case Address(j) => ok := WriteJid(j);
      case Text(s) => ok := WriteString(s);
      case Truth(b) => ok := WriteString(TruthText(b));
      case Number(n) => ok := WriteString(Decimal.Text(n));
      case Blob(b) => ok := WriteBytes(b);
      case Children(ns) =>
        ghost var base := buf;
        WriteListStart(|ns|);
        ok := WriteNodes(ns);
        Regroup(base, ListStart(|ns|), NodesBytes(tables, ns));
    }

    method WriteNodes(ns: seq<Node>) returns (ok: bool)
      requires Valid()
      modifies this
      ensures ok <==> forall i :: 0 <= i < |ns| ==> NodeFits(tables, ns[i])
      ensures ok ==> buf == old(buf) + NodesBytes(tables, ns)
      decreases ns, 0
    {
      ok := true;
      ghost var done: seq<Byte> := [];
      for i := 0 to |ns|
        invariant ok && buf == old(buf) + done
        invariant done + NodesBytes(tables, ns[i..]) == NodesBytes(tables, ns)
        invariant forall k :: 0 <= k < i ==> NodeFits(tables, ns[k])
      {
        assert ns[i..][1..] == ns[i + 1..];
        ok := WriteNode(ns[i]);
        if !ok {
          return;
        }
        Regroup(old(buf), done, NodeBytes(tables, ns[i]));
        Regroup(done, NodeBytes(tables, ns[i]), NodesBytes(tables, ns[i + 1..]));
        done := done + NodeBytes(tables, ns[i]);
      }
      assert done + [] == done;
    }

    method WriteAttrs(attrs: seq<Attr>) returns (ok: bool)
      requires Valid()
      modifies this
      ensures ok <==> forall i :: 0 <= i < |attrs| && !Skipped(attrs[i].value) ==>
                        StringFits(tables, attrs[i].key) && ValueFits(tables, attrs[i].value)
      ensures ok ==> buf == old(buf) + AttrsBytes(tables, attrs)
      decreases attrs, 0
    {
      ok := true;
      ghost var done: seq<Byte> := [];
      for i := 0 to |attrs|
        invariant ok && buf == old(buf) + done
        invariant done + AttrsBytes(tables, attrs[i..]) == AttrsBytes(tables, attrs)
        invariant forall k :: 0 <= k < i && !Skipped(attrs[k].value) ==>
                    StringFits(tables, attrs[k].key) && ValueFits(tables, attrs[k].value)
      {
        assert attrs[i..][1..] == attrs[i + 1..];
        var val := attrs[i].value;
        if val != Absent && val != Text("") {
          ok := WriteString(attrs[i].key);
          if !ok {
            return;
          }
          ok := WriteAny(val);
          if !ok {
            return;
          }
          ghost var key, body := StringBytes(tables, attrs[i].key), ValueBytes(tables, val);
          Regroup3(old(buf), done, key, body);
          Regroup(done, key, body);
          Regroup(done, key + body, AttrsBytes(tables, attrs[i + 1..]));
          done := done + (key + body);
        }
      }
      assert done + [] == done;
    }

    method WriteNode(n: Node) returns (ok: bool)
      requires Valid()
      modifies this
      ensures ok <==> NodeFits(tables, n)
      ensures ok ==> buf == old(buf) + NodeBytes(tables, n)
      decreases n, 2
    {
      if n.tag == "0" {
        PushByte(LIST_8);
        PushByte(LIST_EMPTY);
        return true;
      }
      WriteListStart(ListSize(n));
      ok := WriteString(n.tag);
      if ok {
        ok := WriteAttrs(n.attrs);
      }
      if ok {
        ghost var start, tag, attrs := ListStart(ListSize(n)), StringBytes(tables, n.tag), AttrsBytes(tables, n.attrs);
        Regroup3(old(buf), start, tag, attrs);
        if !n.content.Absent? {
          ok := WriteAny(n.content);
          Regroup(old(buf), start + tag + attrs, ValueBytes(tables, n.content));
        }
      }
    }
  }

  /** Serialises a stanza; Err when some string or blob is too long to have a length prefix. */
  method EncodeNode(ix: Indexes, ghost tables: Tables, n: Node) returns (r: Result<seq<Byte>>)
    requires tables.Valid() && ix.Of(tables)
    ensures r.Ok? <==> NodeFits(tables, n)
    ensures r.Ok? ==> r.value == [0] + NodeBytes(tables, n)
  {
    var w := new Writer(ix, tables);
    var ok := w.WriteNode(n);
    r := if ok then Ok(w.buf) else Err;
  }
}
