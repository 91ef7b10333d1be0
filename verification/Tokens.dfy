/** Token tables, tag bytes and the two lookup dictionaries of the binary XML format. */
module Tokens {
  import opened Wrappers
  import opened Bytes

  const LIST_EMPTY: Byte := 0
  const DICTIONARY_0: Byte := 236
  const DICTIONARY_3: Byte := 239
  const INTEROP_JID: Byte := 245
  const FB_JID: Byte := 246
  const AD_JID: Byte := 247
  const LIST_8: Byte := 248
  const LIST_16: Byte := 249
  const JID_PAIR: Byte := 250
  const HEX_8: Byte := 251
  const BINARY_8: Byte := 252
  const BINARY_20: Byte := 253
  const BINARY_32: Byte := 254
  const NIBBLE_8: Byte := 255
  const PACKED_MAX := 127

  /** The single-byte table and the dictionaries of double-byte tokens. */
  datatype Tables = Tables(single: seq<string>, double: seq<seq<string>>) {
    /** The shape the tag bytes leave room for: slot 0 is the empty list's byte. */
    ghost predicate Valid() {
      && |single| == 236
      && single[0] == ""
      && |double| == 4
      && forall d :: 0 <= d < 4 ==> |double[d]| <= 256
    }
  }

  /** Position of the last occurrence of `s`. */
  function LastIndex(xs: seq<string>, s: string): (r: Option<nat>)
    ensures r.Some? ==> r.value < |xs| && xs[r.value] == s && s !in xs[r.value + 1..]
    ensures r.None? <==> s !in xs
  {
    if xs == [] then None
    else if xs[|xs| - 1] == s then Some(|xs| - 1)
    else LastIndex(xs[..|xs| - 1], s)
  }

  function SingleIndex(t: Tables, s: string): Option<nat> {
    if s == "" then None else LastIndex(t.single, s)
  }

  /** Dictionary and position of the last occurrence of `s`, over the dictionaries in order. */
  function DoubleIndexIn(ds: seq<seq<string>>, s: string): (r: Option<(nat, nat)>)
    ensures r.Some? ==> r.value.0 < |ds| && r.value.1 < |ds[r.value.0]| && ds[r.value.0][r.value.1] == s
    ensures r.None? <==> forall d :: 0 <= d < |ds| ==> s !in ds[d]
  {
    if ds == [] then None
    else match LastIndex(ds[|ds| - 1], s)
      case Some(i) => Some((|ds| - 1, i))
      case None => DoubleIndexIn(ds[..|ds| - 1], s)
  }

  function DoubleIndex(t: Tables, s: string): Option<(nat, nat)> {
    DoubleIndexIn(t.double, s)
  }

  /** The dictionaries filled at import time. */
  datatype Indexes = Indexes(single: map<string, nat>, double: map<string, (nat, nat)>) {
    function SingleByteIndex(s: string): Option<nat> {
      if s in single then Some(single[s]) else None
    }

    function DoubleByteIndex(s: string): Option<(nat, nat)> {
      if s in double then Some(double[s]) else None
    }

    /** These dictionaries are the ones built from `t`. */
    ghost predicate Of(t: Tables) {
      forall s: string :: SingleByteIndex(s) == SingleIndex(t, s) && DoubleByteIndex(s) == DoubleIndex(t, s)
    }
  }

  method BuildSingle(xs: seq<string>) returns (single: map<string, nat>)
    ensures forall s: string ::
              (if s in single then Some(single[s]) else None) == if s == "" then None else LastIndex(xs, s)
  {
    single := map[];
    for i := 0 to |xs|
      invariant forall s: string ::
                  (if s in single then Some(single[s]) else None) == if s == "" then None else LastIndex(xs[..i], s)
    {
      assert xs[..i + 1][..i] == xs[..i];
      if xs[i] != "" {
        single := single[xs[i] := i];
      }
    }
    assert xs[..|xs|] == xs;
  }

  method BuildDictionary(double: map<string, (nat, nat)>, d: nat, dict: seq<string>)
    returns (result: map<string, (nat, nat)>)
    ensures forall s: string :: s in result <==> s in double || s in dict
    ensures forall s: string | s in result ::
              result[s] == if s in dict then (d, LastIndex(dict, s).value) else double[s]
  {
    result := double;
    for i := 0 to |dict|
      invariant forall s: string :: s in result <==> s in double || s in dict[..i]
      invariant forall s: string | s in result ::
                  result[s] == if s in dict[..i] then (d, LastIndex(dict[..i], s).value) else double[s]
    {
      assert dict[..i + 1][..i] == dict[..i];
      result := result[dict[i] := (d, i)];
    }
    assert dict[..|dict|] == dict;
  }

  method BuildIndexes(t: Tables) returns (ix: Indexes)
    ensures ix.Of(t)
  {
    var single := BuildSingle(t.single);
    var double: map<string, (nat, nat)> := map[];
    for d := 0 to |t.double|
      invariant forall s: string ::
                  (if s in double then Some(double[s]) else None) == DoubleIndexIn(t.double[..d], s)
    {
      assert t.double[..d + 1][..d] == t.double[..d];
      double := BuildDictionary(double, d, t.double[d]);
    }
    assert t.double[..|t.double|] == t.double;
    ix := Indexes(single, double);
  }

  /** Every index the dictionaries hand out points back at the looked-up token, whatever repeats the tables hold. */
  lemma IndexesInvert(t: Tables, ix: Indexes, s: string)
    requires t.Valid() && ix.Of(t)
    ensures match ix.SingleByteIndex(s)
            case Some(i) => 1 <= i < DICTIONARY_0 && t.single[i] == s
            case None => s == "" || s !in t.single
    ensures match ix.DoubleByteIndex(s)
            case Some((d, i)) => d < 4 && i < 256 && i < |t.double[d]| && t.double[d][i] == s
            case None => forall d :: 0 <= d < 4 ==> s !in t.double[d]
  {
    assert ix.SingleByteIndex(s) == SingleIndex(t, s) && ix.DoubleByteIndex(s) == DoubleIndex(t, s);
  }
}
