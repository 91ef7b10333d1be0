/** The protobuf wire format: the field writers, and the walker that groups fields by number. */
module Protobuf {
  import opened Wrappers
  import opened Sequences
  import opened Bytes

  /** A value, or one of the two errors the walker raises: reading past the end, or a malformed field. */
  datatype Outcome<+T> = Value(value: T) | IndexError | ValueError

  const TWO64 := 0x1_0000_0000_0000_0000

  // --- varints -----------------------------------------------------------------

  function Varint(n: nat): (b: seq<Byte>)
    ensures |b| >= 1
  {
    if n < 0x80 then [n] else [n % 0x80 + 0x80] + Varint(n / 0x80)
  }

  /** Negative and oversized integers are written modulo 2^64. */
  function VarintBytes(n: int): seq<Byte> {
    Varint(n % TWO64)
  }

  method WriteVarint(n: int) returns (out: seq<Byte>)
    ensures out == VarintBytes(n)
  {
    var rest := n % TWO64;
    out := [];
    while rest >= 0x80
      invariant rest >= 0 && out + Varint(rest) == VarintBytes(n)
    {
      out := out + [rest % 0x80 + 0x80];
      rest := rest / 0x80;
    }
    out := out + [rest];
  }

  function Pow2(k: nat): (p: nat)
    ensures p >= 1
  {
    if k == 0 then 1 else 2 * Pow2(k - 1)
  }

  lemma Pow2Seven(k: nat)
    ensures Pow2(k + 7) == 128 * Pow2(k)
  {
    assert Pow2(k + 7) == 2 * Pow2(k + 6) == 4 * Pow2(k + 5) == 8 * Pow2(k + 4);
    assert Pow2(k + 4) == 2 * Pow2(k + 3) == 4 * Pow2(k + 2) == 8 * Pow2(k + 1);
  }

  /** The varint at `i`, its first byte weighing 2^shift; more than ten bytes are an error. */
  function VarintFrom(d: seq<Byte>, i: nat, shift: nat): (r: Outcome<(nat, nat)>)
    ensures r.Value? ==> i < r.value.1 <= |d|
    decreases |d| - i
  {
    if i >= |d| then IndexError
    else
      var b: int := d[i];
      if b < 0x80 then Value((b, i + 1))
      else if shift + 7 >= 64 then ValueError
      else match VarintFrom(d, i + 1, shift + 7)
        case Value((high, j)) => Value((b % 0x80 + 0x80 * high, j))
        case IndexError => IndexError
        case ValueError => ValueError
  }

  /** `spec` is what remains to be read at weight 2^shift on top of `result`. */
  ghost predicate Accumulates(spec: Outcome<(nat, nat)>, result: nat, shift: nat, rest: Outcome<(nat, nat)>) {
    match rest
    case Value((v, j)) => spec.Value? && spec.value.0 == result + v * Pow2(shift) && spec.value.1 == j
    case IndexError => spec == IndexError
    case ValueError => spec == ValueError
  }

  lemma AccumulatesStep(result: nat, low: nat, high: nat, shift: nat)
    ensures result + (low + 0x80 * high) * Pow2(shift) == result + low * Pow2(shift) + high * Pow2(shift + 7)
  {
    Pow2Seven(shift);
    assert (low + 0x80 * high) * Pow2(shift) == low * Pow2(shift) + high * (0x80 * Pow2(shift));
  }

  method ReadVarint(d: seq<Byte>, start: nat) returns (r: Outcome<(nat, nat)>)
    ensures r == VarintFrom(d, start, 0)
  {
    hide Pow2;
    Pow2Ends();
    var result: nat, shift: nat, i: nat := 0, 0, start;
    ghost var spec := VarintFrom(d, start, 0);
    while true
      invariant Accumulates(spec, result, shift, VarintFrom(d, i, shift))
      decreases |d| - i
    {
      if i >= |d| {
        return IndexError;
      }
      var b: int := d[i];
      i := i + 1;
      var low := b % 0x80;
      // The bits below 2^shift are already filled, so or-ing the shifted group in is adding it.
      ghost var before := result;
      result := result + low * Pow2(shift);
      if b < 0x80 {
        return Value((result, i));
      }
      if shift + 7 >= 64 {
        return ValueError;
      }
      if VarintFrom(d, i, shift + 7).Value? {
        AccumulatesStep(before, low, VarintFrom(d, i, shift + 7).value.0, shift);
      }
      shift := shift + 7;
    }
  }

  /** Every value below 2^64 reads back, ten-byte varints included, and exactly its bytes are consumed. */
  lemma {:induction false} VarintAt(d: seq<Byte>, i: nat, n: nat, shift: nat)
    requires shift <= 64 && n < Pow2(64 - shift) && At(d, i, Varint(n))
    ensures VarintFrom(d, i, shift) == Value((n, i + |Varint(n)|))
    decreases n
  {
    AtIndex(d, i, Varint(n), 0);
    if n >= 0x80 {
      AtConcat(d, i, [n % 0x80 + 0x80], Varint(n / 0x80));
      Continues(n, shift);
      VarintAt(d, i + 1, n / 0x80, shift + 7);
    }
  }

  /** The bytes from `i` up to `n` all announce another one. */
  predicate Continuing(d: seq<Byte>, i: nat, n: nat)
    requires n <= |d|
  {
    forall k :: i <= k < n ==> d[k] >= 0x80
  }

  /**
   * When reading fails, at the k-th of ten groups: running out of bytes while all of them continue
   * is an IndexError, a tenth byte that still continues a ValueError, and nothing else fails.
   */
  lemma {:induction false} VarintErrors(d: seq<Byte>, i: nat, k: nat)
    requires k < 10
    ensures VarintFrom(d, i, 7 * k) == IndexError <==> |d| < i + 10 - k && Continuing(d, i, |d|)
    ensures VarintFrom(d, i, 7 * k) == ValueError <==> i + 10 - k <= |d| && Continuing(d, i, i + 10 - k)
    decreases 10 - k
  {
    if i < |d| && d[i] >= 0x80 && k < 9 {
      VarintErrors(d, i + 1, k + 1);
    }
  }

  lemma Continues(n: nat, shift: nat)
    requires shift <= 64 && 0x80 <= n < Pow2(64 - shift)
    ensures shift + 7 < 64 && n / 0x80 < Pow2(64 - (shift + 7))
  {
    Pow2Seven(0);
    if shift + 7 >= 64 {
      Pow2Grows(64 - shift, 7);
    } else {
      Pow2Seven(64 - (shift + 7));
    }
  }

  lemma {:induction false} Pow2Grows(a: nat, b: nat)
    requires a <= b
    ensures Pow2(a) <= Pow2(b)
    decreases b
  {
    if a < b {
      Pow2Grows(a, b - 1);
    }
  }

  lemma Pow2Ends()
    ensures Pow2(0) == 1 && Pow2(64) == 2 * Pow2(63)
  {
  }

  lemma Pow2Is64()
    ensures Pow2(64) == TWO64
  {
    hide Pow2;
    Pow2Ends();
    Pow2Seven(0); Pow2Seven(7); Pow2Seven(14); Pow2Seven(21); Pow2Seven(28);
    Pow2Seven(35); Pow2Seven(42); Pow2Seven(49); Pow2Seven(56);
  }

  lemma VarintBytesAt(d: seq<Byte>, i: nat, n: int)
    requires At(d, i, VarintBytes(n))
    ensures VarintFrom(d, i, 0) == Value((n % TWO64, i + |VarintBytes(n)|))
  {
    Pow2Is64();
    VarintAt(d, i, n % TWO64, 0);
  }

  // --- fields ------------------------------------------------------------------------

  datatype Field = VarintField(num: nat, n: int) | DataField(num: nat, body: seq<Byte>)

  datatype Val = Int(n: nat) | Data(b: seq<Byte>)

  type Fields = map<nat, seq<Val>>

  function Tag(num: nat, wire: nat): seq<Byte> {
    VarintBytes(num * 8 + wire)
  }

  function LengthDelim(num: nat, body: seq<Byte>): seq<Byte> {
    Tag(num, 2) + VarintBytes(|body|) + body
  }

  function VarintFieldBytes(num: nat, n: int): seq<Byte> {
    Tag(num, 0) + VarintBytes(n)
  }

  function FieldBytes(f: Field): seq<Byte> {
    match f
    case VarintField(num, n) => VarintFieldBytes(num, n)
    case DataField(num, body) => LengthDelim(num, body)
  }

  function Message(fs: seq<Field>): seq<Byte> {
    if fs == [] then [] else FieldBytes(fs[0]) + Message(fs[1..])
  }

  /** The field number leaves room for its wire type, and the body has a length that is not cut. */
  predicate Writable(f: Field) {
    f.num * 8 + 7 < TWO64 && (f.DataField? ==> |f.body| < TWO64)
  }

  function ValOf(f: Field): Val {
    match f
    case VarintField(_, n) => Int(n % TWO64)
    case DataField(_, body) => Data(body)
  }

  function Add(out: Fields, num: nat, v: Val): Fields {
    out[num := (if num in out then out[num] else []) + [v]]
  }

  /** The value of a field of wire type `wire` starting at `i`, and the position after it. */
  function ValueAt(d: seq<Byte>, i: nat, wire: nat): (r: Outcome<(Val, nat)>)
    ensures r.Value? ==> r.value.1 >= i
  {
    if wire == 0 then
      match VarintFrom(d, i, 0)
      case Value((n, j)) => Value((Int(n), j))
      case IndexError => IndexError
      case ValueError => ValueError
    else if wire == 1 then Value((Int(LittleEndian(Slice(d, i, 8))), i + 8))
    else if wire == 2 then
      match VarintFrom(d, i, 0)
      case Value((n, j)) => Value((Data(Slice(d, j, n)), j + n))
      case IndexError => IndexError
      case ValueError => ValueError
    else if wire == 5 then Value((Int(LittleEndian(Slice(d, i, 4))), i + 4))
    else ValueError
  }

  function FieldsFrom(d: seq<Byte>, i: nat, out: Fields): Outcome<Fields>
    decreases |d| - i
  {
    if i >= |d| then Value(out)
    else match VarintFrom(d, i, 0)
      case IndexError => IndexError
      case ValueError => ValueError
      case Value((tag, j)) =>
        match ValueAt(d, j, tag % 8)
        case IndexError => IndexError
        case ValueError => ValueError
        case Value((v, k)) => FieldsFrom(d, k, Add(out, tag / 8, v))
  }

  /** All the values of a message, in encoded order under each field number. */
  function Parse(d: seq<Byte>): Outcome<Fields> {
    FieldsFrom(d, 0, map[])
  }

  method DecodeFields(d: seq<Byte>) returns (r: Outcome<Fields>)
    ensures r == Parse(d)
  {
    hide VarintFrom, Slice, LittleEndian, Add;
    var out: Fields := map[];
    var i := 0;
    while i < |d|
      invariant FieldsFrom(d, i, out) == Parse(d)
      decreases |d| - i
    {
      var tag := ReadVarint(d, i);
      if !tag.Value? {
        return if tag.IndexError? then IndexError else ValueError;
      }
      var j, wire := tag.value.1, tag.value.0 % 8;
      var v: Val;
      if wire == 0 {
        var n := ReadVarint(d, j);
        if !n.Value? {
          return if n.IndexError? then IndexError else ValueError;
        }
        v, i := Int(n.value.0), n.value.1;
      } else if wire == 1 {
        v, i := Int(LittleEndian(Slice(d, j, 8))), j + 8;
      } else if wire == 2 {
        var n := ReadVarint(d, j);
        if !n.Value? {
          return if n.IndexError? then IndexError else ValueError;
        }
        v, i := Data(Slice(d, n.value.1, n.value.0)), n.value.1 + n.value.0;
      } else if wire == 5 {
        v, i := Int(LittleEndian(Slice(d, j, 4))), j + 4;
      } else {
        return ValueError;
      }
      out := Add(out, tag.value.0 / 8, v);
    }
    r := Value(out);
  }

  // --- when parsing raises --------------------------------------------------------------

  /** From `i` on fewer than ten bytes are left, and every one of them announces another. */
  predicate CutAt(d: seq<Byte>, i: nat) {
    |d| < i + 10 && Continuing(d, i, |d|)
  }

  /** The ten bytes from `i` on all announce another. */
  predicate OverlongAt(d: seq<Byte>, i: nat) {
    i + 10 <= |d| && Continuing(d, i, i + 10)
  }

  /** Where the field starting at `i` ends, if it can be read. */
  function FieldEnd(d: seq<Byte>, i: nat): (r: Option<nat>)
    ensures r.Some? ==> r.value > i
  {
    match VarintFrom(d, i, 0)
    case Value((tag, j)) =>
      (match ValueAt(d, j, tag % 8)
       case Value((_, k)) => Some(k)
       case _ => None)
    case _ => None
  }

  /** Can the walk from boundary `i` get to boundary `b`? */
  predicate Reaches(d: seq<Byte>, i: nat, b: nat)
    decreases |d| - i
  {
    i < |d| && (i == b || (FieldEnd(d, i).Some? && Reaches(d, FieldEnd(d, i).value, b)))
  }

  /** At a field starting at `b`, the tag is cut, or the varint behind a tag that calls for one. */
  predicate FieldCut(d: seq<Byte>, b: nat) {
    || CutAt(d, b)
    || match VarintFrom(d, b, 0)
       case Value((tag, j)) => (tag % 8 == 0 || tag % 8 == 2) && CutAt(d, j)
       case _ => false
  }

  /** At a field starting at `b`, a varint is too long, or the wire type is none of the four. */
  predicate FieldBad(d: seq<Byte>, b: nat) {
    || OverlongAt(d, b)
    || match VarintFrom(d, b, 0)
       case Value((tag, j)) =>
         if tag % 8 == 0 || tag % 8 == 2 then OverlongAt(d, j) else tag % 8 != 1 && tag % 8 != 5
       case _ => false
  }

  /** The walk over a message's fields gets to one that is cut short. */
  ghost predicate Cut(d: seq<Byte>) {
    exists b: nat :: Reaches(d, 0, b) && FieldCut(d, b)
  }

  /** The walk gets to one that is malformed. */
  ghost predicate Malformed(d: seq<Byte>) {
    exists b: nat :: Reaches(d, 0, b) && FieldBad(d, b)
  }

  /** One field raises exactly when it is cut or bad, and never both. */
  lemma FieldErrors(d: seq<Byte>, i: nat)
    ensures FieldEnd(d, i).None? <==> FieldCut(d, i) || FieldBad(d, i)
    ensures !(FieldCut(d, i) && FieldBad(d, i))
    ensures forall out :: i < |d| && FieldCut(d, i) ==> FieldsFrom(d, i, out) == IndexError
    ensures forall out :: i < |d| && FieldBad(d, i) ==> FieldsFrom(d, i, out) == ValueError
  {
    hide LittleEndian, Slice, Add;
    VarintErrors(d, i, 0);
    match VarintFrom(d, i, 0)
    case Value((tag, j)) => VarintErrors(d, j, 0);
    case _ =>
  }

  lemma {:induction false} WalkErrors(d: seq<Byte>, i: nat, out: Fields)
    ensures FieldsFrom(d, i, out) == IndexError <==> exists b: nat :: Reaches(d, i, b) && FieldCut(d, b)
    ensures FieldsFrom(d, i, out) == ValueError <==> exists b: nat :: Reaches(d, i, b) && FieldBad(d, b)
    decreases |d| - i
  {
    hide FieldCut, FieldBad, Add, LittleEndian, Slice, VarintFrom;
    if i < |d| {
      FieldErrors(d, i);
      assert Reaches(d, i, i);
      match FieldEnd(d, i)
      case None =>
        assert forall b: nat :: Reaches(d, i, b) ==> b == i;
      case Some(k) =>
        var (tag, j) := VarintFrom(d, i, 0).value;
        var (v, _) := ValueAt(d, j, tag % 8).value;
        WalkErrors(d, k, Add(out, tag / 8, v));
        assert forall b: nat :: Reaches(d, i, b) <==> b == i || Reaches(d, k, b);
    }
  }

  /** Parsing raises an IndexError exactly on cut messages, and a ValueError exactly on malformed ones. */
  lemma ParseErrors(d: seq<Byte>)
    ensures Parse(d) == IndexError <==> Cut(d)
    ensures Parse(d) == ValueError <==> Malformed(d)
  {
    hide FieldsFrom, Reaches, FieldCut, FieldBad;
    WalkErrors(d, 0, map[]);
  }

  // --- what was written is what is read ------------------------------------------------

  /** The values written under a number, in order. */
  function ValuesOf(fs: seq<Field>, num: nat): seq<Val> {
    if fs == [] then []
    else (if fs[0].num == num then [ValOf(fs[0])] else []) + ValuesOf(fs[1..], num)
  }

  function Collect(fs: seq<Field>, out: Fields): Fields {
    if fs == [] then out else Collect(fs[1..], Add(out, fs[0].num, ValOf(fs[0])))
  }

  lemma FieldAt(d: seq<Byte>, i: nat, f: Field)
    requires Writable(f) && At(d, i, FieldBytes(f))
    ensures match VarintFrom(d, i, 0)
            case Value((tag, j)) =>
              tag / 8 == f.num && ValueAt(d, j, tag % 8) == Value((ValOf(f), i + |FieldBytes(f)|))
            case _ => false
  {
    hide At, VarintFrom, VarintBytes, Slice;
    var wire := if f.VarintField? then 0 else 2;
    var tag := Tag(f.num, wire);
    match f
    case VarintField(num, n) =>
      AtConcat(d, i, tag, VarintBytes(n));
      VarintBytesAt(d, i, num * 8 + wire);
      VarintBytesAt(d, i + |tag|, n);
    case DataField(num, body) =>
      AtConcat(d, i, tag + VarintBytes(|body|), body);
      AtConcat(d, i, tag, VarintBytes(|body|));
      VarintBytesAt(d, i, num * 8 + wire);
      VarintBytesAt(d, i + |tag|, |body|);
      SliceAt(d, i + |tag| + |VarintBytes(|body|)|, body);
  }

  lemma {:induction false} MessageAt(d: seq<Byte>, i: nat, fs: seq<Field>, out: Fields)
    requires (forall k :: 0 <= k < |fs| ==> Writable(fs[k])) && At(d, i, Message(fs)) && i + |Message(fs)| == |d|
    ensures FieldsFrom(d, i, out) == Value(Collect(fs, out))
    decreases |fs|
  {
    hide At, VarintFrom, FieldBytes, ValueAt, Writable, ValOf, Add;
    if fs != [] {
      var rest := fs[1..];
      AtConcat(d, i, FieldBytes(fs[0]), Message(rest));
      FieldAt(d, i, fs[0]);
      MessageAt(d, i + |FieldBytes(fs[0])|, rest, Add(out, fs[0].num, ValOf(fs[0])));
      SomeBytes(fs[0]);
    }
  }

  lemma SomeBytes(f: Field)
    ensures |FieldBytes(f)| >= 1
  {
  }

  lemma {:induction false} CollectValues(fs: seq<Field>, out: Fields, num: nat)
    ensures var old' := if num in out then out[num] else [];
            var all := old' + ValuesOf(fs, num);
            if num in Collect(fs, out) then Collect(fs, out)[num] == all
            else all == []
    decreases |fs|
  {
    if fs != [] {
      CollectValues(fs[1..], Add(out, fs[0].num, ValOf(fs[0])), num);
    }
  }

  lemma {:induction false} CollectNonEmpty(fs: seq<Field>, out: Fields)
    requires forall num :: num in out ==> out[num] != []
    ensures forall num :: num in Collect(fs, out) ==> Collect(fs, out)[num] != []
    decreases |fs|
  {
    if fs != [] {
      CollectNonEmpty(fs[1..], Add(out, fs[0].num, ValOf(fs[0])));
    }
  }

  /** Walking the concatenation of any fields gives, for each number, exactly its values in order. */
  lemma ParseOfMessage(fs: seq<Field>)
    requires forall k :: 0 <= k < |fs| ==> Writable(fs[k])
    ensures Parse(Message(fs)).Value?
    ensures var m := Parse(Message(fs)).value;
            forall num: nat :: (num in m <==> ValuesOf(fs, num) != []) && (num in m ==> m[num] == ValuesOf(fs, num))
  {
    assert At(Message(fs), 0, Message(fs));
    MessageAt(Message(fs), 0, fs, map[]);
    CollectNonEmpty(fs, map[]);
    forall num: nat
      ensures num in Collect(fs, map[]) <==> ValuesOf(fs, num) != []
      ensures num in Collect(fs, map[]) ==> Collect(fs, map[])[num] == ValuesOf(fs, num)
    {
      CollectValues(fs, map[], num);
      assert [] + ValuesOf(fs, num) == ValuesOf(fs, num);
    }
  }

  /** The first value written under a number is the one at the first index carrying it. */
  lemma {:induction false} FirstValue(fs: seq<Field>, i: nat)
    requires i < |fs| && forall k :: 0 <= k < i ==> fs[k].num != fs[i].num
    ensures ValuesOf(fs, fs[i].num) != [] && ValuesOf(fs, fs[i].num)[0] == ValOf(fs[i])
    decreases i
  {
    if i > 0 {
      FirstValue(fs[1..], i - 1);
    }
  }

  lemma {:induction false} NoValue(fs: seq<Field>, num: nat)
    requires forall k :: 0 <= k < |fs| ==> fs[k].num != num
    ensures ValuesOf(fs, num) == []
    decreases |fs|
  {
    if fs != [] {
      NoValue(fs[1..], num);
    }
  }

  // --- lists of fields ------------------------------------------------------------------

  lemma MessageOf1(a: Field)
    ensures Message([a]) == FieldBytes(a)
  {
  }

  lemma MessageOf2(a: Field, b: Field)
    ensures Message([a, b]) == FieldBytes(a) + FieldBytes(b)
  {
    assert [a, b][1..] == [b];
    MessageOf1(b);
  }

  lemma {:induction false} MessageConcat(a: seq<Field>, b: seq<Field>)
    ensures Message(a + b) == Message(a) + Message(b)
    decreases |a|
  {
    if a == [] {
      assert a + b == b;
    } else {
      assert (a + b)[1..] == a[1..] + b;
      MessageConcat(a[1..], b);
    }
  }

  lemma MessageOf5(a: Field, b: Field, c: Field, d: Field, e: Field)
    ensures Message([a, b, c, d, e]) == FieldBytes(a) + FieldBytes(b) + FieldBytes(c) + FieldBytes(d) + FieldBytes(e)
  {
    hide FieldBytes;
    MessageConcat([a, b, c], [d, e]);
    assert [a, b, c] + [d, e] == [a, b, c, d, e];
    MessageOf3(a, b, c);
    MessageOf2(d, e);
    Regroup(FieldBytes(a) + FieldBytes(b) + FieldBytes(c), FieldBytes(d), FieldBytes(e));
  }

  lemma MessageOf3(a: Field, b: Field, c: Field)
    ensures Message([a, b, c]) == FieldBytes(a) + FieldBytes(b) + FieldBytes(c)
  {
    hide FieldBytes;
    MessageConcat([a, b], [c]);
    assert [a, b] + [c] == [a, b, c];
    MessageOf2(a, b);
    MessageOf1(c);
  }

  lemma {:induction false} OnlyValue(fs: seq<Field>, i: nat)
    requires i < |fs| && forall k :: 0 <= k < |fs| && k != i ==> fs[k].num != fs[i].num
    ensures ValuesOf(fs, fs[i].num) == [ValOf(fs[i])]
    decreases i
  {
    if i == 0 {
      NoValue(fs[1..], fs[0].num);
    } else {
      OnlyValue(fs[1..], i - 1);
    }
  }

  lemma {:induction false} PartsFit(fs: seq<Field>, i: nat)
    requires i < |fs| && fs[i].DataField?
    ensures |fs[i].body| <= |Message(fs)|
    decreases i
  {
    if i > 0 {
      PartsFit(fs[1..], i - 1);
    }
  }

  // --- bytes spelled out -------------------------------------------------------------------

  /** Eight bytes behind a tag of wire type 1, or four behind one of type 5, are a little-endian number. */
  lemma FixedField(num: nat, wire: nat, b: seq<Byte>)
    requires num * 8 + wire < TWO64
    requires (wire == 1 && |b| == 8) || (wire == 5 && |b| == 4)
    ensures Parse(Tag(num, wire) + b) == Value(map[num := [Int(LittleEndian(b))]])
  {
    hide VarintFrom, VarintBytes, LittleEndian;
    var d, tag := Tag(num, wire) + b, Tag(num, wire);
    assert At(d, 0, tag) && At(d, |tag|, b);
    VarintBytesAt(d, 0, num * 8 + wire);
    SliceAt(d, |tag|, b);
    var t, v := num * 8 + wire, Int(LittleEndian(b));
    assert t % TWO64 == t && t % 8 == wire && t / 8 == num;
    assert ValueAt(d, |tag|, wire) == Value((v, |d|));
    var out: Fields, none: seq<Val> := map[], [];
    assert none + [v] == [v];
    assert Add(out, num, v) == map[num := [v]];
    OneFieldWalked(d, out, t, |tag|, v);
  }

  lemma OneFieldWalked(d: seq<Byte>, out: Fields, tag: nat, j: nat, v: Val)
    requires d != [] && VarintFrom(d, 0, 0) == Value((tag, j)) && ValueAt(d, j, tag % 8) == Value((v, |d|))
    ensures FieldsFrom(d, 0, out) == Value(Add(out, tag / 8, v))
  {
    hide VarintFrom, ValueAt, Add;
    assert FieldsFrom(d, |d|, Add(out, tag / 8, v)) == Value(Add(out, tag / 8, v));
  }

  /** Field 1 holding 42 or 300, twice 1 and 2, and field 12 holding "abc", byte by byte. */
  lemma KnownMessages()
    ensures Message([VarintField(1, 42)]) == [0x08, 0x2A] && Message([VarintField(1, 300)]) == [0x08, 0xAC, 0x02]
    ensures Message([VarintField(1, 1), VarintField(1, 2)]) == [0x08, 0x01, 0x08, 0x02]
    ensures Message([DataField(12, [97, 98, 99])]) == [0x62, 0x03, 97, 98, 99]
    ensures Message([VarintField(1, -1)])
            == [0x08, 0xFF, 0xFF, 0xFF, 0xFF, 0xFF, 0xFF, 0xFF, 0xFF, 0xFF, 0x01]
  {
    assert VarintBytes(8) == [8] && VarintBytes(42) == [42] && VarintBytes(98) == [98] && VarintBytes(3) == [3];
    assert VarintBytes(1) == [1] && VarintBytes(2) == [2];
    assert VarintBytes(300) == [0xAC] + Varint(2);
    MinusOne();
    hide VarintBytes, Message;
    MessageOf1(VarintField(1, 42));
    MessageOf1(VarintField(1, 300));
    MessageOf1(VarintField(1, -1));
    MessageOf2(VarintField(1, 1), VarintField(1, 2));
    MessageOf1(DataField(12, [97, 98, 99]));
  }

  /** Another seven ones below. */
  lemma SevenOnes(n: nat)
    requires n > 0
    ensures Varint(128 * n + 127) == [0xFF] + Varint(n)
  {
    assert (128 * n + 127) / 128 == n && (128 * n + 127) % 128 == 127;
  }

  lemma MinusOne()
    ensures VarintBytes(-1) == [0xFF, 0xFF, 0xFF, 0xFF, 0xFF, 0xFF, 0xFF, 0xFF, 0xFF, 0x01]
  {
    assert Varint(1) == [1];
    hide Varint;
    SevenOnes(1);
    SevenOnes(0xFF);
    SevenOnes(0x7FFF);
    SevenOnes(0x3F_FFFF);
    SevenOnes(0x1FFF_FFFF);
    SevenOnes(0xF_FFFF_FFFF);
    SevenOnes(0x7FF_FFFF_FFFF);
    SevenOnes(0x3_FFFF_FFFF_FFFF);
    SevenOnes(0x1FF_FFFF_FFFF_FFFF);
    assert -1 % TWO64 == 0xFFFF_FFFF_FFFF_FFFF;
  }
}
