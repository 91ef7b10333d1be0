/** Reading looks at no byte behind the position it ends at, so a frame that is cut short is refused. */
module CutFrames {
  import opened Wrappers
  import opened Bytes
  import opened Tokens
  import opened Jids
  import opened Nodes
  import opened Wire
  import opened Reading
  import opened RoundTrip
  import Utf8

  /** What is read within the first `k` bytes is what is read when there are more. */
  ghost predicate Local<T>(cut: Read<T>, whole: Read<T>, k: nat) {
    cut.Got? && cut.pos <= k ==> whole == cut
  }

  lemma SliceLocal(d: seq<Byte>, k: nat, p: nat, n: nat)
    requires k <= |d| && p + n <= k
    ensures Slice(d[..k], p, n) == Slice(d, p, n)
  {
    assert d[..k][p..p + n] == d[p..p + n];
  }

  lemma U8Local(d: seq<Byte>, k: nat, p: nat)
    requires k <= |d|
    ensures Local(ReadU8(d[..k], p), ReadU8(d, p), k)
  {
  }

  lemma SizeLocal(d: seq<Byte>, k: nat, p: nat, tag: Byte)
    requires k <= |d|
    ensures Local(ReadListSize(d[..k], p, tag), ReadListSize(d, p, tag), k)
  {
    hide BigEndian, Slice;
    U8Local(d, k, p);
    if p + 2 <= k {
      SliceLocal(d, k, p, 2);
    }
  }

  lemma HeaderLocal(d: seq<Byte>, k: nat, p: nat)
    requires k <= |d|
    ensures Local(ReadHeader(d[..k], p), ReadHeader(d, p), k)
  {
    hide ReadListSize;
    U8Local(d, k, p);
    if p < k {
      SizeLocal(d, k, p + 1, d[p]);
    }
  }

  lemma {:induction false} PairsLocal(d: seq<Byte>, k: nat, p: nat, hex: bool, count: nat, odd: bool)
    requires k <= |d|
    ensures Local(ReadPairs(d[..k], p, hex, count, odd), ReadPairs(d, p, hex, count, odd), k)
    decreases count
  {
    hide Unpack;
    U8Local(d, k, p);
    if count > 0 {
      PairsLocal(d, k, p + 1, hex, count - 1, odd);
    }
  }

  lemma PackedLocal(d: seq<Byte>, k: nat, p: nat, hex: bool)
    requires k <= |d|
    ensures Local(ReadPacked(d[..k], p, hex), ReadPacked(d, p, hex), k)
  {
    hide ReadPairs;
    U8Local(d, k, p);
    if p < k {
      PairsLocal(d, k, p + 1, hex, d[p] % 0x80, d[p] >= 0x80);
    }
  }

  /** Raw bytes whose announced length was itself read within the cut. */
  lemma BlobLocal(d: seq<Byte>, k: nat, cut: Read<nat>, whole: Read<nat>, asString: bool)
    requires k <= |d| && Local(cut, whole, k)
    ensures Local(ReadBlob(d[..k], cut, asString), ReadBlob(d, whole, asString), k)
  {
    hide Slice, Utf8.Decode;
    if cut.Got? && cut.pos + cut.value <= k {
      SliceLocal(d, k, cut.pos, cut.value);
    }
  }

  lemma LengthLocal(d: seq<Byte>, k: nat, p: nat, tag: Byte)
    requires k <= |d|
    ensures Local(AnnouncedLength(d[..k], p, tag), AnnouncedLength(d, p, tag), k)
  {
    hide BigEndian, Slice;
    U8Local(d, k, p);
    if p + 4 <= k {
      SliceLocal(d, k, p, 4);
    }
  }

  /** The value behind a tag that announces raw bytes. */
  lemma RawValue(t: Tables, d: seq<Byte>, p: nat, tag: Byte, asString: bool)
    requires t.Valid() && tag in {BINARY_8, BINARY_20, BINARY_32}
    ensures ReadValue(t, d, p, tag, asString) == ReadBlob(d, AnnouncedLength(d, p, tag), asString)
  {
    hide ReadBlob, ReadU20;
  }

  lemma {:induction false} ValueLocal(t: Tables, d: seq<Byte>, k: nat, p: nat, tag: Byte, asString: bool)
    requires t.Valid() && k <= |d|
    ensures Local(ReadValue(t, d[..k], p, tag, asString), ReadValue(t, d, p, tag, asString), k)
    decreases Left(d, p), 3
  {
    hide ReadJidPair, ReadAdJid, ReadFbJid, ReadInteropJid, ReadPacked, ReadList, ReadListSize;
    hide ReadBlob, AnnouncedLength;
    if tag in {BINARY_8, BINARY_20, BINARY_32} {
      RawValue(t, d, p, tag, asString);
      RawValue(t, d[..k], p, tag, asString);
      LengthLocal(d, k, p, tag);
      BlobLocal(d, k, AnnouncedLength(d[..k], p, tag), AnnouncedLength(d, p, tag), asString);
    } else if tag == JID_PAIR {
      JidPairLocal(t, d, k, p);
    } else if tag == AD_JID {
      AdJidLocal(t, d, k, p);
    } else if tag == FB_JID {
      FbJidLocal(t, d, k, p);
    } else if tag == INTEROP_JID {
      InteropJidLocal(t, d, k, p);
    } else if tag == NIBBLE_8 || tag == HEX_8 {
      PackedLocal(d, k, p, tag == HEX_8);
    } else if tag == LIST_8 || tag == LIST_16 {
      SizeLocal(d, k, p, tag);
      var size := ReadListSize(d[..k], p, tag);
      if size.Got? {
        ListLocal(t, d, k, size.pos, size.value);
      }
    } else {
      U8Local(d, k, p);
    }
  }

  lemma {:induction false} TaggedLocal(t: Tables, d: seq<Byte>, k: nat, p: nat, asString: bool)
    requires t.Valid() && k <= |d|
    ensures Local(ReadTagged(t, d[..k], p, asString), ReadTagged(t, d, p, asString), k)
    decreases Left(d, p), 0
  {
    hide ReadValue;
    U8Local(d, k, p);
    if p < k {
      ValueLocal(t, d, k, p + 1, d[p], asString);
    }
  }

  lemma {:induction false} StringLocal(t: Tables, d: seq<Byte>, k: nat, p: nat)
    requires t.Valid() && k <= |d|
    ensures Local(ReadString(t, d[..k], p), ReadString(t, d, p), k)
    decreases Left(d, p), 1
  {
    hide ReadTagged;
    TaggedLocal(t, d, k, p, true);
  }

  lemma {:induction false} JidPairLocal(t: Tables, d: seq<Byte>, k: nat, p: nat)
    requires t.Valid() && k <= |d|
    ensures Local(ReadJidPair(t, d[..k], p), ReadJidPair(t, d, p), k)
    decreases Left(d, p), 2
  {
    hide ReadValue, ReadString;
    U8Local(d, k, p);
    if p < k {
      ValueLocal(t, d, k, p + 1, d[p], true);
      var user := if d[p] == LIST_EMPTY then Got("", p + 1) else OnlyText(ReadValue(t, d[..k], p + 1, d[p], true));
      if user.Got? {
        StringLocal(t, d, k, user.pos);
      }
    }
  }

  lemma {:induction false} AdJidLocal(t: Tables, d: seq<Byte>, k: nat, p: nat)
    requires t.Valid() && k <= |d|
    ensures Local(ReadAdJid(t, d[..k], p), ReadAdJid(t, d, p), k)
    decreases Left(d, p), 2
  {
    hide ReadString;
    U8Local(d, k, p);
    U8Local(d, k, p + 1);
    if p + 1 < k {
      StringLocal(t, d, k, p + 2);
    }
  }

  lemma {:induction false} FbJidLocal(t: Tables, d: seq<Byte>, k: nat, p: nat)
    requires t.Valid() && k <= |d|
    ensures Local(ReadFbJid(t, d[..k], p), ReadFbJid(t, d, p), k)
    decreases Left(d, p), 2
  {
    hide ReadString, BigEndian, Slice;
    StringLocal(t, d, k, p);
    var user := ReadString(t, d[..k], p);
    if user.Got? {
      StringLocal(t, d, k, user.pos + 2);
      if user.pos + 2 <= k {
        SliceLocal(d, k, user.pos, 2);
      }
    }
  }

  lemma {:induction false} InteropJidLocal(t: Tables, d: seq<Byte>, k: nat, p: nat)
    requires t.Valid() && k <= |d|
    ensures Local(ReadInteropJid(t, d[..k], p), ReadInteropJid(t, d, p), k)
    decreases Left(d, p), 2
  {
    hide ReadString, BigEndian, Slice;
    StringLocal(t, d, k, p);
    var user := ReadString(t, d[..k], p);
    if user.Got? {
      StringLocal(t, d, k, user.pos + 4);
      if user.pos + 4 <= k {
        SliceLocal(d, k, user.pos, 2);
        SliceLocal(d, k, user.pos + 2, 2);
      }
    }
  }

  lemma {:induction false} AttrsLocal(t: Tables, d: seq<Byte>, k: nat, p: nat, n: nat, out: seq<Attr>)
    requires t.Valid() && k <= |d|
    ensures Local(ReadAttrs(t, d[..k], p, n, out), ReadAttrs(t, d, p, n, out), k)
    decreases Left(d, p), 2
  {
    hide ReadString, ReadTagged, Put;
    if n > 0 {
      StringLocal(t, d, k, p);
      var key := ReadString(t, d[..k], p);
      if key.Got? {
        TaggedLocal(t, d, k, key.pos, true);
        var val := ReadTagged(t, d[..k], key.pos, true);
        if val.Got? {
          AttrsLocal(t, d, k, val.pos, n - 1, Put(out, key.value, val.value));
        }
      }
    }
  }

  lemma {:induction false} BodyLocal(t: Tables, d: seq<Byte>, k: nat, p: nat, size: nat)
    requires t.Valid() && k <= |d| && size > 0
    ensures Local(ReadBody(t, d[..k], p, size), ReadBody(t, d, p, size), k)
    decreases Left(d, p), 2
  {
    hide ReadString, ReadTagged, ReadAttrs;
    StringLocal(t, d, k, p);
    var tag := ReadString(t, d[..k], p);
    if tag.Got? {
      AttrsLocal(t, d, k, tag.pos, (size - 1) / 2, []);
      var attrs := ReadAttrs(t, d[..k], tag.pos, (size - 1) / 2, []);
      if attrs.Got? {
        TaggedLocal(t, d, k, attrs.pos, false);
      }
    }
  }

  lemma {:induction false} NodeLocal(t: Tables, d: seq<Byte>, k: nat, p: nat)
    requires t.Valid() && k <= |d|
    ensures Local(ReadNodeInList(t, d[..k], p), ReadNodeInList(t, d, p), k)
    decreases Left(d, p), 1
  {
    hide ReadHeader, ReadBody;
    HeaderLocal(d, k, p);
    var size := ReadHeader(d[..k], p);
    if size.Got? && size.value > 0 {
      BodyLocal(t, d, k, size.pos, size.value);
    }
  }

  lemma {:induction false} ListLocal(t: Tables, d: seq<Byte>, k: nat, p: nat, n: nat)
    requires t.Valid() && k <= |d|
    ensures Local(ReadList(t, d[..k], p, n), ReadList(t, d, p, n), k)
    decreases Left(d, p), 2
  {
    hide ReadNodeInList;
    if n > 0 {
      NodeLocal(t, d, k, p);
      var node := ReadNodeInList(t, d[..k], p);
      if node.Got? {
        ListLocal(t, d, k, node.pos, n - 1);
      }
    }
  }

  lemma TopLocal(t: Tables, d: seq<Byte>, k: nat)
    requires t.Valid() && k <= |d|
    ensures Local(ReadNode(t, d[..k], 0), ReadNode(t, d, 0), k)
  {
    hide ReadHeader, ReadBody;
    HeaderLocal(d, k, 0);
    var size := ReadHeader(d[..k], 0);
    if size.Got? && size.value > 0 {
      BodyLocal(t, d, k, size.pos, size.value);
    }
  }

  /** A frame cut short anywhere inside the stanza is refused, although slices stop silently at its end. */
  lemma CutIsRefused(t: Tables, n: Node, k: nat, inflate: Inflate)
    requires t.Valid() && Encodable(t, n) && k < |NodeBytes(t, n)|
    ensures Decoded(t, [0] + NodeBytes(t, n)[..k], inflate) == Err
  {
    hide NodeBytes, ReadNode, ReadNodeInList, WireNode, Encodable;
    var d := NodeBytes(t, n);
    assert ([0] + d[..k])[1..] == d[..k];
    TopLocal(t, d, k);
    NodeAt(t, d, 0, n) by {
      assert At(d, 0, d);
    }
    TopOfList(t, d, n);
  }
}
