/** The decoder itself: a buffer, a moving position and the productions that advance it. */
module Decoder {
  import opened Wrappers
  import opened Bytes
  import opened Tokens
  import opened Jids
  import opened Nodes
  import opened Reading
  import Utf8

  /** The outcome of a method that started at `p`: the function's outcome, with the position moved. */
  ghost predicate Agrees<T(!new)>(spec: Read<T>, r: Result<T>, pos: nat) {
    match spec
    case Fail => r == Err
    case Got(v, q) => r == Ok(v) && pos == q
  }

  /** `spec` yields what `rest` yields with `done` put in front of it. */
  ghost predicate Extends<T(!new)>(spec: Read<seq<T>>, done: seq<T>, rest: Read<seq<T>>) {
    match rest
    case Fail => spec == Fail
    case Got(xs, q) => spec.Got? && spec.value == done + xs && spec.pos == q
  }

  class Reader {
    const tables: Tables
    const data: seq<Byte>
    var pos: nat

    constructor (tables: Tables, data: seq<Byte>)
      ensures this.tables == tables && this.data == data && pos == 0
    {
      this.tables := tables;
      this.data := data;
      pos := 0;
    }

    method U8() returns (r: Result<Byte>)
      modifies this
      ensures Agrees(ReadU8(data, old(pos)), r, pos)
    {
      if pos < |data| {
        r := Ok(data[pos]);
        pos := pos + 1;
      } else {
        r := Err;
      }
    }

    method Take(n: nat) returns (b: seq<Byte>)
      modifies this
      ensures b == Slice(data, old(pos), n) && pos == old(pos) + n
    {
      b := data[Min(pos, |data|)..Min(pos + n, |data|)];
      pos := pos + n;
    }

    method U20() returns (r: Result<nat>)
      modifies this
      ensures Agrees(ReadU20(data, old(pos)), r, pos)
    {
      if pos + 2 < |data| {
        var b0: int, b1: int, b2: int := data[pos], data[pos + 1], data[pos + 2];
        r := Ok(b0 % 16 * 0x1_0000 + b1 * 256 + b2);
        pos := pos + 3;
      } else {
        r := Err;
      }
    }

    method ListSize(tag: Byte) returns (r: Result<nat>)
      modifies this
      ensures Agrees(ReadListSize(data, old(pos), tag), r, pos)
    {
      if tag == LIST_EMPTY {
        r := Ok(0);
      } else if tag == LIST_8 {
        var n := U8();
        r := if n.Ok? then Ok(n.value) else Err;
      } else if tag == LIST_16 {
        var b := Take(2);
        r := Ok(BigEndian(b));
      } else {
        r := Err;
      }
    }

    method Packed(hex: bool) returns (r: Result<string>)
      modifies this
      ensures Agrees(ReadPacked(data, old(pos), hex), r, pos)
    {
      var header := U8();
      if header.Err? {
        return Err;
      }
      var odd, count := header.value >= 0x80, header.value % 0x80;
      ghost var spec := ReadPairs(data, pos, hex, count, odd);
      hide Unpack, ReadPairs, Extends;
      assert ReadPacked(data, old(pos), hex) == spec;
      hide ReadPacked;
      PairsStart(spec);
      var chars := "";
      for i := 0 to count
        invariant pos == old(pos) + 1 + i
        invariant Extends(spec, chars, ReadPairs(data, pos, hex, count - i, odd))
      {
        PairsStep(spec, data, pos, hex, count - i, odd, chars);
        var b := U8();
        if b.Err? {
          return Err;
        }
        var high := Unpack(hex, b.value / 16);
        if high.None? {
          return Err;
        }
        chars := chars + [high.value];
        if i == count - 1 && odd {
          continue;
        }
        var low := Unpack(hex, b.value % 16);
        if low.None? {
          return Err;
        }
        chars := chars + [low.value];
      }
      PairsDone(spec, data, pos, hex, odd, chars);
      r := Ok(chars);
    }

    lemma PairsStart(spec: Read<string>)
      ensures Extends(spec, "", spec)
    {
      assert spec.Got? ==> "" + spec.value == spec.value;
    }

    lemma PairsDone(spec: Read<string>, d: seq<Byte>, p: nat, hex: bool, odd: bool, chars: string)
      requires Extends(spec, chars, ReadPairs(d, p, hex, 0, odd))
      ensures spec == Got(chars, p)
    {
      assert chars + "" == chars;
    }

    /** One packed byte: what it adds, or why it fails. */
    lemma PairsStep(spec: Read<string>, d: seq<Byte>, p: nat, hex: bool, n: nat, odd: bool, chars: string)
      requires n > 0 && Extends(spec, chars, ReadPairs(d, p, hex, n, odd))
      ensures p >= |d| || Unpack(hex, d[p] / 16).None? ==> spec == Fail
      ensures p < |d| && Unpack(hex, d[p] / 16).Some? ==>
                var more := chars + [Unpack(hex, d[p] / 16).value];
                if n == 1 && odd then Extends(spec, more, ReadPairs(d, p + 1, hex, n - 1, odd))
                else match Unpack(hex, d[p] % 16)
                  case None => spec == Fail
                  case Some(c) => Extends(spec, more + [c], ReadPairs(d, p + 1, hex, n - 1, odd))
    {
      hide Unpack;
      if p < |d| && Unpack(hex, d[p] / 16).Some? {
        var high := Unpack(hex, d[p] / 16).value;
        if n == 1 && odd {
          assert chars + [high] + "" == chars + [high];
        } else if Unpack(hex, d[p] % 16).Some? {
          var low := Unpack(hex, d[p] % 16).value;
          var rest := ReadPairs(d, p + 1, hex, n - 1, odd);
          assert rest.Got? ==> chars + ([high, low] + rest.value) == chars + [high] + [low] + rest.value;
        }
      }
    }

    method Raw(length: Result<nat>, asString: bool) returns (r: Result<Value>)
      modifies this
      ensures Agrees(ReadBlob(data, if length.Ok? then Got(length.value, old(pos)) else Fail, asString), r, pos)
    {
      if length.Err? {
        return Err;
      }
      var b := Take(length.value);
      if !asString {
        return Ok(Blob(b));
      }
      var s := Utf8.Decode(b);
      r := if s.Some? then Ok(Text(s.value)) else Err;
    }

    method ValueOf(tag: Byte, asString: bool) returns (r: Result<Value>)
      requires tables.Valid()
      modifies this
      ensures Agrees(ReadValue(tables, data, old(pos), tag, asString), r, pos)
      decreases Left(data, pos), 4
    {
      if 1 <= tag <= |tables.single| - 1 {
        r := Ok(Text(tables.single[tag]));
      } else if tag == LIST_EMPTY {
        r := Ok(Text(""));
      } else if DICTIONARY_0 <= tag <= DICTIONARY_3 {
        var i := U8();
        var dict := tables.double[tag as int - DICTIONARY_0 as int];
        r := if i.Ok? && i.value < |dict| then Ok(Text(dict[i.value])) else Err;
      } else if tag == JID_PAIR || tag == AD_JID || tag == FB_JID || tag == INTEROP_JID {
        var j := Jid(tag);
        r := if j.Ok? then Ok(Address(j.value)) else Err;
      } else if tag == NIBBLE_8 || tag == HEX_8 {
        var s := Packed(tag == HEX_8);
        r := if s.Ok? then Ok(Text(s.value)) else Err;
      } else if tag == BINARY_8 {
        var n := U8();
        r := Raw(if n.Ok? then Ok(n.value) else Err, asString);
      } else if tag == BINARY_20 {
        var n := U20();
        r := Raw(n, asString);
      } else if tag == BINARY_32 {
        var b := Take(4);
        r := Raw(Ok(BigEndian(b)), asString);
      } else if tag == LIST_8 || tag == LIST_16 {
        var size := ListSize(tag);
        if size.Err? {
          return Err;
        }
        var ns := List(size.value);
        r := if ns.Ok? then Ok(Children(ns.value)) else Err;
      } else {
        r := Err;
      }
    }

    method Jid(tag: Byte) returns (r: Result<JID>)
      requires tables.Valid()
      requires tag == JID_PAIR || tag == AD_JID || tag == FB_JID || tag == INTEROP_JID
      modifies this
      ensures Agrees(if tag == JID_PAIR then ReadJidPair(tables, data, old(pos))
                     else if tag == AD_JID then ReadAdJid(tables, data, old(pos))
                     else if tag == FB_JID then ReadFbJid(tables, data, old(pos))
                     else ReadInteropJid(tables, data, old(pos)), r, pos)
      decreases Left(data, pos), 3
    {
      if tag == JID_PAIR {
        r := JidPair();
      } else if tag == AD_JID {
        r := AdJid();
      } else if tag == FB_JID {
        r := FbJid();
      } else {
        r := InteropJid();
      }
    }

    method Tagged(asString: bool) returns (r: Result<Value>)
      requires tables.Valid()
      modifies this
      ensures Agrees(ReadTagged(tables, data, old(pos), asString), r, pos)
      decreases Left(data, pos), 0
    {
      var tag := U8();
      if tag.Err? {
        return Err;
      }
      r := ValueOf(tag.value, asString);
    }

    method Str() returns (r: Result<string>)
      requires tables.Valid()
      modifies this
      ensures Agrees(ReadString(tables, data, old(pos)), r, pos)
      decreases Left(data, pos), 1
    {
      var v := Tagged(true);
      r := if v.Ok? && v.value.Text? then Ok(v.value.text) else Err;
    }

    method JidPair() returns (r: Result<JID>)
      requires tables.Valid()
      modifies this
      ensures Agrees(ReadJidPair(tables, data, old(pos)), r, pos)
      decreases Left(data, pos), 2
    {
      var tag := U8();
      if tag.Err? {
        return Err;
      }
      var user := "";
      if tag.value != LIST_EMPTY {
        var v := ValueOf(tag.value, true);
        if v.Err? || !v.value.Text? {
          return Err;
        }
        user := v.value.text;
      }
      var server := Str();
      r := if server.Ok? then Ok(JID(user, server.value, 0, 0, 0)) else Err;
    }

    method AdJid() returns (r: Result<JID>)
      requires tables.Valid()
      modifies this
      ensures Agrees(ReadAdJid(tables, data, old(pos)), r, pos)
      decreases Left(data, pos), 2
    {
      var agent := U8();
      if agent.Err? {
        return Err;
      }
      var device := U8();
      if device.Err? {
        return Err;
      }
      var user := Str();
      r := if user.Ok? then Ok(JID(user.value, ServerOfAgent(agent.value), agent.value, device.value, 0)) else Err;
    }

    method FbJid() returns (r: Result<JID>)
      requires tables.Valid()
      modifies this
      ensures Agrees(ReadFbJid(tables, data, old(pos)), r, pos)
      decreases Left(data, pos), 2
    {
      var user := Str();
      if user.Err? {
        return Err;
      }
      var device := Take(2);
      var server := Str();
      r := if server.Ok? then Ok(JID(user.value, server.value, 0, BigEndian(device), 0)) else Err;
    }

    method InteropJid() returns (r: Result<JID>)
      requires tables.Valid()
      modifies this
      ensures Agrees(ReadInteropJid(tables, data, old(pos)), r, pos)
      decreases Left(data, pos), 2
    {
      var user := Str();
      if user.Err? {
        return Err;
      }
      var device := Take(2);
      var integrator := Take(2);
      var server := Str();
      r := if server.Ok? then Ok(JID(user.value, server.value, 0, BigEndian(device), BigEndian(integrator))) else Err;
    }

    method Attrs(n: nat) returns (r: Result<seq<Attr>>)
      requires tables.Valid()
      modifies this
      ensures Agrees(ReadAttrs(tables, data, old(pos), n, []), r, pos)
      decreases Left(data, pos), 2
    {
      var out: seq<Attr> := [];
      for i := 0 to n
        invariant pos >= old(pos)
        invariant ReadAttrs(tables, data, pos, n - i, out) == ReadAttrs(tables, data, old(pos), n, [])
      {
        var key := Str();
        if key.Err? {
          return Err;
        }
        var val := Tagged(true);
        if val.Err? {
          return Err;
        }
        out := Put(out, key.value, val.value);
      }
      r := Ok(out);
    }

    method Body(size: nat) returns (r: Result<Node>)
      requires tables.Valid() && size > 0
      modifies this
      ensures Agrees(ReadBody(tables, data, old(pos), size), r, pos)
      decreases Left(data, pos), 2
    {
      var tag := Str();
      if tag.Err? {
        return Err;
      }
      var attrs := Attrs((size - 1) / 2);
      if attrs.Err? {
        return Err;
      }
      if size % 2 != 0 {
        return Ok(Node(tag.value, attrs.value, Absent));
      }
      var content := Tagged(false);
      r := if content.Ok? then Ok(Node(tag.value, attrs.value, content.value)) else Err;
    }

    method Header() returns (r: Result<nat>)
      modifies this
      ensures Agrees(ReadHeader(data, old(pos)), r, pos)
    {
      var tag := U8();
      if tag.Err? {
        return Err;
      }
      r := ListSize(tag.value);
    }

    method NodeInList() returns (r: Result<Node>)
      requires tables.Valid()
      modifies this
      ensures Agrees(ReadNodeInList(tables, data, old(pos)), r, pos)
      decreases Left(data, pos), 1
    {
      var size := Header();
      if size.Err? {
        return Err;
      }
      if size.value == 0 {
        return Ok(Node("", [], Absent));
      }
      r := Body(size.value);
    }

    method List(n: nat) returns (r: Result<seq<Node>>)
      requires tables.Valid()
      modifies this
      ensures Agrees(ReadList(tables, data, old(pos), n), r, pos)
      decreases Left(data, pos), 2
    {
      var ns: seq<Node> := [];
      for i := 0 to n
        invariant pos >= old(pos)
        invariant Extends(ReadList(tables, data, old(pos), n), ns, ReadList(tables, data, pos, n - i))
      {
        var node := NodeInList();
        if node.Err? {
          return Err;
        }
        ns := ns + [node.value];
      }
      assert ns + [] == ns;
      r := Ok(ns);
    }

    method TopNode() returns (r: Result<Option<Node>>)
      requires tables.Valid()
      modifies this
      ensures Agrees(ReadNode(tables, data, old(pos)), r, pos)
    {
      var size := Header();
      if size.Err? {
        return Err;
      }
      if size.value == 0 {
        return Ok(None);
      }
      var node := Body(size.value);
      r := if node.Ok? then Ok(Some(node.value)) else Err;
    }
  }

  method DecodeNode(tables: Tables, data: seq<Byte>, inflate: Inflate) returns (r: Result<Node>)
    requires tables.Valid()
    ensures r == Decoded(tables, data, inflate)
  {
    var payload := Payload(data, inflate);
    if payload.Err? {
      return Err;
    }
    var reader := new Reader(tables, payload.value);
    var node := reader.TopNode();
    if node.Err? || node.value.None? || reader.pos != |payload.value| {
      return Err;
    }
    r := Ok(node.value.value);
  }
}
