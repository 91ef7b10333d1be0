/** Signing, and the verifier's recovery of the sign bit and the scalar from a signature. */
module Xeddsa {
  import opened Wrappers
  import opened Bytes
  import opened Edwards
  import EdwardsLaw

  type Data = seq<Byte>

  /** `i` inverts `x` modulo P. */
  predicate Inverts(i: int, x: int) {
    i * x % P == 1
  }

  /** The hash, and inversion modulo P (None when there is no inverse). */
  datatype Primitives = Primitives(sha512: Data -> Data, inv: int -> Option<int>) {
    /** P being prime, exactly the multiples of P have no inverse. */
    ghost predicate Lawful() {
      forall z: int :: (inv(z).None? <==> z % P == 0) && (inv(z).Some? ==> Inverts(inv(z).value, z))
    }
  }

  // --- encoding a point --------------------------------------------------------------------

  /** The `n` low bits of a number, lowest first. */
  function BitsOf(v: nat, n: nat): (bits: seq<int>)
    ensures |bits| == n && forall i :: 0 <= i < n ==> bits[i] == 0 || bits[i] == 1
    decreases n
  {
    if n == 0 then [] else [v % 2] + BitsOf(v / 2, n - 1)
  }

  /** Bits packed eight to a byte, lowest first. */
  function Pack(bits: seq<int>): Data
    requires forall i :: 0 <= i < |bits| ==> bits[i] == 0 || bits[i] == 1
  {
    if |bits| < 8 then []
    else
      [bits[0] + 2 * bits[1] + 4 * bits[2] + 8 * bits[3] + 16 * bits[4] + 32 * bits[5] + 64 * bits[6] + 128 * bits[7]]
      + Pack(bits[8..])
  }

  function Affine(p: Point, inv: int -> Option<int>): (r: (int, int))
    ensures 0 <= r.0 < P && 0 <= r.1 < P
  {
    var zinv := inv(p.Z).GetOr(0);
    (p.X * zinv % P, p.Y * zinv % P)
  }

  /** The affine coordinates are the quotients X/Z and Y/Z modulo P, and 0 where Z has no inverse. */
  lemma AffineQuotients(c: Primitives, p: Point)
    requires c.Lawful()
    ensures var (x, y) := Affine(p, c.inv);
            if p.Z % P == 0 then x == y == 0
            else EdwardsLaw.Eqv(x * p.Z, p.X) && EdwardsLaw.Eqv(y * p.Z, p.Y)
  {
    if p.Z % P == 0 {
      assert c.inv(p.Z).None?;
      return;
    }
    assert c.inv(p.Z).Some? && Inverts(c.inv(p.Z).value, p.Z);
    var i := c.inv(p.Z).value;
    assert EdwardsLaw.Eqv(i * p.Z, 1);
    hide EdwardsLaw.Eqv;
    QuotientTimes(p.X, p.Z, i);
    QuotientTimes(p.Y, p.Z, i);
  }

  lemma QuotientTimes(x: int, z: int, i: int)
    requires EdwardsLaw.Eqv(i * z, 1)
    ensures EdwardsLaw.Eqv(x * i % P * z, x)
  {
    hide EdwardsLaw.Eqv;
    EdwardsLaw.EqvMod(x * i);
    EdwardsLaw.EqvRefl(x);
    EdwardsLaw.EqvRefl(z);
    EdwardsLaw.EqvMul(x * i % P, x * i, z, z);
    EdwardsLaw.EqvMul(x, x, i * z, 1);
    assert x * i * z == x * (i * z);
    EdwardsLaw.EqvTrans(x * i % P * z, x * i * z, x);
  }

  /** 255 bits of y, then the parity of x. */
  function EncodePoint(p: Point, inv: int -> Option<int>): Data {
    var (x, y) := Affine(p, inv);
    Pack(BitsOf(y, 255) + [x % 2])
  }

  lemma Two(v: nat, n: nat)
    requires n >= 2
    ensures BitsOf(v, n) == [v % 2, v / 2 % 2] + BitsOf(v / 4, n - 2)
    ensures v % 4 == v % 2 + 2 * (v / 2 % 2)
  {
    assert v / 2 / 2 == v / 4;
  }

  lemma Four(v: nat, n: nat)
    requires n >= 4
    ensures BitsOf(v, n) == [v % 2, v / 2 % 2, v / 4 % 2, v / 8 % 2] + BitsOf(v / 16, n - 4)
    ensures v % 16 == v % 2 + 2 * (v / 2 % 2) + 4 * (v / 4 % 2) + 8 * (v / 8 % 2)
  {
    hide BitsOf;
    Two(v, n);
    Two(v / 4, n - 2);
    assert v / 4 / 2 == v / 8 && v / 4 / 4 == v / 16;
    assert v % 16 == v % 4 + 4 * (v / 4 % 4);
  }

  /** The first eight bits are the low byte, the others those of the rest. */
  lemma Eight(v: nat, n: nat, tail: seq<int>)
    requires n >= 8 && forall i :: 0 <= i < |tail| ==> tail[i] == 0 || tail[i] == 1
    ensures Pack(BitsOf(v, n) + tail) == [v % 256] + Pack(BitsOf(v / 256, n - 8) + tail)
  {
    hide BitsOf;
    Four(v, n);
    Four(v / 16, n - 4);
    assert v / 16 / 2 == v / 32 && v / 16 / 4 == v / 64 && v / 16 / 8 == v / 128 && v / 16 / 16 == v / 256;
    assert v % 256 == v % 16 + 16 * (v / 16 % 16);
    var bits := BitsOf(v, n) + tail;
    assert bits == [v % 2, v / 2 % 2, v / 4 % 2, v / 8 % 2, v / 16 % 2, v / 32 % 2, v / 64 % 2, v / 128 % 2]
                   + (BitsOf(v / 256, n - 8) + tail);
    assert bits[8..] == BitsOf(v / 256, n - 8) + tail;
  }

  /** All but the top bit of an n-byte number and one bit in its place. */
  lemma {:induction false} PackTop(v: nat, n: nat, bit: int)
    requires n > 0 && v < Scaled(128, n) && (bit == 0 || bit == 1)
    ensures TopPacked(LittleBytes(v, n), BitsOf(v, 8 * n - 1) + [bit], bit)
    decreases n
  {
    if n == 1 {
      SevenBits(v, bit);
    } else {
      hide Pack, BitsOf, TopPacked;
      PackTop(v / 256, n - 1, bit);
      PackStep(v, n, bit);
    }
  }

  ghost predicate TopPacked(b: Data, bits: seq<int>, bit: int) {
    && (forall i :: 0 <= i < |bits| ==> bits[i] == 0 || bits[i] == 1)
    && (bit == 0 || bit == 1)
    && b != [] && b[|b| - 1] < 128 && Pack(bits) == b[|b| - 1 := b[|b| - 1] + 128 * bit]
  }

  lemma PackStep(v: nat, n: nat, bit: int)
    requires n > 1 && (bit == 0 || bit == 1)
    requires TopPacked(LittleBytes(v / 256, n - 1), BitsOf(v / 256, 8 * (n - 1) - 1) + [bit], bit)
    ensures TopPacked(LittleBytes(v, n), BitsOf(v, 8 * n - 1) + [bit], bit)
  {
    assert LittleBytes(v, n) == [v % 256] + LittleBytes(v / 256, n - 1);
    hide BitsOf, Pack, LittleBytes, TopPacked;
    Eight(v, 8 * n - 1, [bit]);
    assert 8 * n - 1 - 8 == 8 * (n - 1) - 1;
    TopStep(v % 256, LittleBytes(v / 256, n - 1),
            BitsOf(v / 256, 8 * (n - 1) - 1) + [bit], BitsOf(v, 8 * n - 1) + [bit], bit);
  }

  lemma TopStep(low: Byte, rest: Data, bits: seq<int>, all: seq<int>, bit: int)
    requires TopPacked(rest, bits, bit)
    requires (forall i :: 0 <= i < |all| ==> all[i] == 0 || all[i] == 1) && Pack(all) == [low] + Pack(bits)
    ensures TopPacked([low] + rest, all, bit)
  {
    hide Pack;
    var b, n := [low] + rest, |rest|;
    var top: Byte := rest[n - 1];
    assert b[n] == top;
    var v: Byte := if bit == 1 then top + 128 else top;
    assert v == top + 128 * bit;
    LastReplaced(low, rest, v);
  }

  lemma LastReplaced(low: Byte, rest: Data, v: Byte)
    requires rest != []
    ensures ([low] + rest)[|rest| := v] == [low] + rest[|rest| - 1 := v]
  {
  }

  lemma SevenBits(v: nat, bit: int)
    requires v < 128 && (bit == 0 || bit == 1)
    ensures Pack(BitsOf(v, 7) + [bit]) == [v + 128 * bit] && LittleBytes(v, 1) == [v]
  {
    SevenBitsOf(v);
    hide BitsOf, Pack;
    PackOne(BitsOf(v, 7) + [bit]);
    assert LittleBytes(v / 256, 0) == [];
  }

  lemma PackOne(bits: seq<int>)
    requires |bits| == 8 && forall i :: 0 <= i < |bits| ==> bits[i] == 0 || bits[i] == 1
    ensures Pack(bits) == [bits[0] + 2 * bits[1] + 4 * bits[2] + 8 * bits[3] + 16 * bits[4] + 32 * bits[5]
                           + 64 * bits[6] + 128 * bits[7]]
  {
    assert bits[8..] == [];
  }

  lemma SevenBitsOf(v: nat)
    requires v < 128
    ensures var b := BitsOf(v, 7); v == b[0] + 2 * b[1] + 4 * b[2] + 8 * b[3] + 16 * b[4] + 32 * b[5] + 64 * b[6]
  {
    hide BitsOf;
    Four(v, 7);
    Two(v / 16, 3);
    OneBit(v / 64);
    assert v / 16 / 2 == v / 32 && v / 16 / 4 == v / 64;
    assert v == v % 16 + 16 * (v / 16) && v / 16 == v / 16 % 4 + 4 * (v / 64);
  }

  lemma OneBit(v: nat)
    requires v < 2
    ensures BitsOf(v, 1) == [v]
  {
    assert BitsOf(v / 2, 0) == [];
  }

  lemma ScaledFour(c: nat, n: nat)
    requires n > 0
    ensures Scaled(c, n + 4) == 0x1_0000_0000 * Scaled(c, n)
  {
    assert Scaled(c, n + 4) == 256 * Scaled(c, n + 3) == 256 * 256 * Scaled(c, n + 2);
    assert Scaled(c, n + 2) == 256 * Scaled(c, n + 1) == 256 * 256 * Scaled(c, n);
  }

  lemma ScaledStart(c: nat)
    ensures Scaled(c, 4) == 0x100_0000 * c
  {
    assert Scaled(c, 2) == 256 * c;
    assert Scaled(c, 3) == 256 * Scaled(c, 2);
  }

  lemma Scaled32(c: nat)
    ensures Scaled(c, 32) == 0x100000000000000000000000000000000000000000000000000000000000000 * c
  {
    hide Scaled;
    ScaledStart(c);
    ScaledFour(c, 4); ScaledFour(c, 8); ScaledFour(c, 12); ScaledFour(c, 16);
    ScaledFour(c, 20); ScaledFour(c, 24); ScaledFour(c, 28);
  }

  lemma Sizes()
    ensures P < Scaled(128, 32) && L < Scaled(32, 32)
  {
    Constants();
    Scaled32(128);
    Scaled32(32);
  }

  /** An encoded point is 32 bytes: y in little-endian order, and the parity of x in the free top bit. */
  lemma EncodedPoint(p: Point, inv: int -> Option<int>)
    ensures var (x, y) := Affine(p, inv);
            var b := LittleBytes(y, 32);
            && b[31] < 128
            && LittleEndian(b) == y
            && EncodePoint(p, inv) == b[31 := b[31] + 128 * (x % 2)]
  {
    hide BitsOf, Pack, LittleBytes;
    var (x, y) := Affine(p, inv);
    Sizes();
    PackTop(y, 32, x % 2);
    LittleBytesValue(y, 32, 128);
  }

  // --- signing ---------------------------------------------------------------------------------

  const DIVERSIFIER: Data := [
    0xFE, 0xFF, 0xFF, 0xFF, 0xFF, 0xFF, 0xFF, 0xFF, 0xFF, 0xFF, 0xFF, 0xFF, 0xFF, 0xFF, 0xFF, 0xFF,
    0xFF, 0xFF, 0xFF, 0xFF, 0xFF, 0xFF, 0xFF, 0xFF, 0xFF, 0xFF, 0xFF, 0xFF, 0xFF, 0xFF, 0xFF, 0xFF]

  /** The scalar bytes: the three low bits and the top bit cleared, the next one set. */
  function Clamped(priv: Data): Data
    requires |priv| == 32
  {
    priv[0 := priv[0] / 8 * 8][31 := priv[31] % 64 + 64]
  }

  /** What the nonce is hashed from. */
  function NonceInput(scalar: Data, message: Data, random: Data): Data {
    DIVERSIFIER + scalar + message + random
  }

  /** The hash of both encodings and the message, modulo the order. */
  function Challenge(c: Primitives, R: Point, A: Point, message: Data): nat {
    LittleEndian(c.sha512(EncodePoint(R, c.inv) + EncodePoint(A, c.inv) + message)) % L
  }

  /** Everything a signature is made of. */
  datatype Parts = Parts(a: nat, A: Point, r: nat, R: Point, k: nat, s: nat)

  function SignParts(c: Primitives, priv: Data, message: Data, random: Data): (p: Parts)
    requires |priv| == 32
    ensures p.s < L
  {
    var scalar := Clamped(priv);
    var a := LittleEndian(scalar);
    var A := ScalarMul(BASE, a);
    var r := LittleEndian(c.sha512(NonceInput(scalar, message, random))) % L;
    var R := ScalarMul(BASE, r);
    var k := Challenge(c, R, A, message);
    Parts(a, A, r, R, k, Residue(r, k, a))
  }

  function Residue(r: nat, k: nat, a: nat): (s: nat)
    ensures s < L
  {
    (r + k * a) % L
  }

  const TWO256: nat := 0x1_0000_0000_0000_0000_0000_0000_0000_0000_0000_0000_0000_0000_0000_0000_0000_0000
  const TWO254: nat := 0x4000_0000_0000_0000_0000_0000_0000_0000_0000_0000_0000_0000_0000_0000_0000_0000

  /** `hash_i` of the XEdDSA scheme: the hash of 2^256 - 1 - i in 32 little-endian bytes and the input. */
  function HashI(c: Primitives, i: nat, input: Data): nat
    requires i < 256
  {
    LittleEndian(c.sha512(LittleBytes(TWO256 - 1 - i, 32) + input))
  }

  lemma {:induction false} AllOnes(n: nat, i: nat)
    requires n > 0 && i < 256 && Scaled(256, n) > i
    ensures LittleBytes(Scaled(256, n) - 1 - i, n) == [255 - i] + seq(n - 1, _ => 255)
  {
    if n == 1 {
      LowDigit(256 - 1 - i, 0, 255 - i, 1);
    } else {
      var rest := Scaled(256, n - 1);
      AllOnes(n - 1, 0);
      LowDigit(Scaled(256, n) - 1 - i, rest - 1, 255 - i, n);
    }
  }

  lemma LowDigit(v: nat, high: nat, low: Byte, n: nat)
    requires n > 0 && v == 256 * high + low
    ensures LittleBytes(v, n) == [low] + LittleBytes(high, n - 1)
  {
    assert v % 256 == low && v / 256 == high;
  }

  /** The nonce is hash_1 of scalar, message and randomness, and the challenge the hash of R, A and the message. */
  lemma NonceAndChallenge(c: Primitives, priv: Data, message: Data, random: Data)
    requires |priv| == 32
    ensures var p := SignParts(c, priv, message, random);
            && p.r == HashI(c, 1, Clamped(priv) + message + random) % L
            && p.k == LittleEndian(c.sha512(EncodePoint(p.R, c.inv) + EncodePoint(p.A, c.inv) + message)) % L
  {
    hide LittleEndian, EncodePoint, ScalarMul, Clamped, LittleBytes, Scaled;
    Scaled32(256);
    AllOnes(32, 1);
    var scalar := Clamped(priv);
    assert LittleBytes(TWO256 - 2, 32) == DIVERSIFIER;
    assert NonceInput(scalar, message, random) == DIVERSIFIER + (scalar + message + random);
  }

  /** No two different keys, messages or random strings are hashed to a nonce from the same input. */
  lemma NonceInputIff(a: Data, m: Data, z: Data, a': Data, m': Data, z': Data)
    requires |a| == |a'| == 32 && |z| == |z'| == 64
    ensures NonceInput(a, m, z) == NonceInput(a', m', z') <==> a == a' && m == m' && z == z'
  {
    if NonceInput(a, m, z) == NonceInput(a', m', z') {
      var i, i' := NonceInput(a, m, z), NonceInput(a', m', z');
      assert a == i[32..64] == i'[32..64] == a';
      assert z == i[|i| - 64..] == i'[|i'| - 64..] == z';
      assert m == i[64..|i| - 64] == i'[64..|i'| - 64] == m';
    }
  }

  /** `x` with its top bit set when the top bit of `y` is. */
  function OrTopBit(x: Byte, y: Byte): Byte {
    if y >= 128 then x % 128 + 128 else x
  }

  /** The signature: R, then s with the sign of A or-ed into its top bit. */
  function Signature(c: Primitives, p: Parts): Data
    requires p.s < L
  {
    EncodedPoint(p.A, c.inv);
    var A, s := EncodePoint(p.A, c.inv), LittleBytes(p.s, 32);
    EncodePoint(p.R, c.inv) + s[31 := OrTopBit(s[31], A[31])]
  }

  method XeddsaSign(c: Primitives, priv: Data, message: Data, random: Data) returns (r: Result<Data>)
    ensures r.Ok? <==> |priv| == 32 && |random| == 64
    ensures r.Ok? ==> r.value == Signature(c, SignParts(c, priv, message, random))
  {
    if |priv| != 32 {
      return Err;
    }
    if |random| != 64 {
      return Err;
    }
    hide LittleBytes, EncodePoint, ScalarMul, LittleEndian, Clamped, Affine, OrTopBit;
    var aBytes := Clamp(priv);
    var a := LittleEndian(aBytes);
    var APoint := ScalarMul(BASE, a);
    var A := EncodePoint(APoint, c.inv);
    var rr := LittleEndian(c.sha512(DIVERSIFIER + aBytes + message + random)) % L;
    var RPoint := ScalarMul(BASE, rr);
    var R := EncodePoint(RPoint, c.inv);
    var k := LittleEndian(c.sha512(R + A + message)) % L;
    var s := Residue(rr, k, a);
    EncodedPoint(APoint, c.inv);
    EncodedPoint(RPoint, c.inv);
    var sig := MoveSignBit(R, LittleBytes(s, 32), A);
    r := Ok(sig);
  }

  method Clamp(priv: Data) returns (scalar: Data)
    requires |priv| == 32
    ensures scalar == Clamped(priv)
  {
    var a := new Byte[32](i requires 0 <= i < 32 => priv[i]);
    assert a[..] == priv;
    a[0] := a[0] / 8 * 8;
    a[31] := a[31] % 128;
    a[31] := if a[31] < 64 then a[31] + 64 else a[31];
    assert a[..] == Clamped(priv);
    scalar := a[..];
  }

  method MoveSignBit(R: Data, s: Data, A: Data) returns (signature: Data)
    requires |R| == |s| == |A| == 32
    ensures signature == R + s[31 := OrTopBit(s[31], A[31])]
  {
    var both := R + s;
    var sig := new Byte[64](i requires 0 <= i < 64 => both[i]);
    assert sig[..] == both;
    sig[63] := OrTopBit(sig[63], A[31]);
    assert sig[..] == R + s[31 := OrTopBit(s[31], A[31])];
    signature := sig[..];
  }

  // --- verifying ---------------------------------------------------------------------------------

  /** The public key as a number, its top bit ignored. */
  function MontX(pub: Data): nat
    requires |pub| == 32
  {
    LittleEndian(pub[31 := pub[31] % 128]) % P
  }

  /** A number below 2^255 in little-endian order is read modulo P, whatever the free top bit holds. */
  lemma TopBitIgnored(u: nat, bit: nat)
    requires u < Scaled(128, 32) && bit <= 1
    ensures LittleBytes(u, 32)[31] < 128
    ensures var b := LittleBytes(u, 32); MontX(b[31 := b[31] + 128 * bit]) == u % P
  {
    hide LittleBytes, LittleEndian, Scaled;
    LittleBytesValue(u, 32, 128);
    var b := LittleBytes(u, 32);
    assert b[31 := b[31] + 128 * bit][31 := b[31]] == b;
  }

  /** The Edwards y of a Montgomery x; it has none when x + 1 is not invertible. */
  function MontXToEdY(pub: Data, inv: int -> Option<int>): (r: Option<int>)
    requires |pub| == 32
    ensures r.Some? ==> 0 <= r.value < P
  {
    match inv((MontX(pub) + 1) % P)
    case None => None
    case Some(i) => Some((MontX(pub) - 1) * i % P)
  }

  /** The key and the signature an Ed25519 verifier is given. */
  function EdInputs(y: nat, signature: Data): (Data, Data)
    requires |signature| == 64
  {
    var key := LittleBytes(y, 32);
    (key[31 := OrTopBit(key[31], signature[63])], signature[63 := signature[63] % 128])
  }

  /** False on wrong lengths; Err when the public key has no Edwards form, an error nothing catches. */
  function Verified(c: Primitives, ed25519: (Data, Data, Data) -> bool, pub: Data, message: Data, signature: Data)
    : Result<bool>
  {
    if |pub| != 32 || |signature| != 64 then Ok(false)
    else match MontXToEdY(pub, c.inv)
      case None => Err
      case Some(y) => var (key, sig) := EdInputs(y, signature); Ok(ed25519(key, sig, message))
  }

  method Verify(c: Primitives, ed25519: (Data, Data, Data) -> bool, pub: Data, message: Data, signature: Data)
    returns (r: Result<bool>)
    ensures r == Verified(c, ed25519, pub, message, signature)
    ensures |pub| != 32 || |signature| != 64 ==> r == Ok(false)
    ensures c.Lawful() ==> (r == Err <==> |pub| == 32 && |signature| == 64 && MontX(pub) == P - 1)
  {
    VerifyRaises(c, ed25519, pub, message, signature);
    if |pub| != 32 || |signature| != 64 {
      return Ok(false);
    }
    hide LittleBytes, LittleEndian, MontXToEdY, MontX, Primitives.Lawful;
    var y := MontXToEdY(pub, c.inv);
    if y.None? {
      return Err;
    }
    var key, sig := TakeSignBit(LittleBytes(y.value, 32), signature);
    r := Ok(ed25519(key, sig, message));
  }

  /**
   * What Ed25519 is asked about any key and signature: its key bytes hold y with the top bit of the
   * signature on top, and its signature is the given one without that bit.
   */
  lemma VerifierAsks(c: Primitives, ed25519: (Data, Data, Data) -> bool, pub: Data, message: Data, signature: Data)
    requires |pub| == 32 && |signature| == 64 && MontXToEdY(pub, c.inv).Some?
    ensures var y, bit := MontXToEdY(pub, c.inv).value, signature[63] / 128;
            exists key: Data, sig: Data ::
              && |key| == 32 && LittleEndian(key) == y + Scaled(128 * bit, 32)
              && |sig| == 64 && sig[..63] == signature[..63] && sig[63] == signature[63] - 128 * bit
              && Verified(c, ed25519, pub, message, signature) == Ok(ed25519(key, sig, message))
  {
    hide LittleBytes, LittleEndian, Scaled, MontXToEdY, EdInputs;
    var y := MontXToEdY(pub, c.inv).value;
    var (key, sig) := EdInputs(y, signature);
    SignBitMoved(y, signature);
    assert Verified(c, ed25519, pub, message, signature) == Ok(ed25519(key, sig, message));
  }

  lemma SignBitMoved(y: nat, signature: Data)
    requires y < P && |signature| == 64
    ensures var ((key, sig), bit) := (EdInputs(y, signature), signature[63] / 128);
            && |key| == 32 && LittleEndian(key) == y + Scaled(128 * bit, 32)
            && |sig| == 64 && sig[..63] == signature[..63] && sig[63] == signature[63] - 128 * bit
  {
    hide LittleBytes, LittleEndian, Scaled;
    var bit := signature[63] / 128;
    Sizes();
    LittleBytesValue(y, 32, 128);
    var b := LittleBytes(y, 32);
    var key := b[31 := OrTopBit(b[31], signature[63])];
    assert key[31] == b[31] + 128 * bit;
    LittleTop(b);
    LittleTop(key);
    assert key[..31] == b[..31];
    Scaled32(b[31]);
    Scaled32(key[31]);
    Scaled32(128 * bit);
  }

  /** Verifying raises exactly when both lengths are right and the public key is P - 1. */
  lemma VerifyRaises(c: Primitives, ed25519: (Data, Data, Data) -> bool, pub: Data, message: Data, signature: Data)
    ensures c.Lawful() ==>
              (Verified(c, ed25519, pub, message, signature) == Err
               <==> |pub| == 32 && |signature| == 64 && MontX(pub) == P - 1)
  {
    hide LittleBytes, LittleEndian, EdInputs;
    if |pub| == 32 && c.Lawful() {
      var x := MontX(pub);
      assert (x + 1) % P == 0 <==> x == P - 1;
      assert c.inv((x + 1) % P).None? <==> (x + 1) % P % P == 0;
    }
  }

  /** The key that raises: P - 1 in little-endian order, whatever the message and the signature. */
  lemma RaisingKey(c: Primitives, ed25519: (Data, Data, Data) -> bool, message: Data, signature: Data)
    requires c.Lawful() && |signature| == 64
    ensures Verified(c, ed25519, LittleBytes(P - 1, 32), message, signature) == Err
  {
    hide LittleBytes, LittleEndian, EdInputs, Scaled, Verified;
    var pub := LittleBytes(P - 1, 32);
    Sizes();
    LittleBytesValue(P - 1, 32, 128);
    assert pub[31 := pub[31] % 128] == pub;
    VerifyRaises(c, ed25519, pub, message, signature);
  }

  method TakeSignBit(edY: Data, signature: Data) returns (key: Data, sig: Data)
    requires |edY| == 32 && |signature| == 64
    ensures key == edY[31 := OrTopBit(edY[31], signature[63])]
    ensures sig == signature[63 := signature[63] % 128]
  {
    var k := new Byte[32](i requires 0 <= i < 32 => edY[i]);
    var s := new Byte[64](i requires 0 <= i < 64 => signature[i]);
    assert k[..] == edY && s[..] == signature;
    k[31] := OrTopBit(k[31], s[63]);
    s[63] := s[63] % 128;
    assert k[..] == edY[31 := OrTopBit(edY[31], signature[63])];
    assert s[..] == signature[63 := signature[63] % 128];
    key, sig := k[..], s[..];
  }

  // --- what the signer packs the verifier unpacks ---------------------------------------------------

  /**
   * The clamped scalar is the key modulo 2^254, rounded down to a multiple of 8, plus 2^254; so it is a
   * multiple of 8 between 2^254 and 2^255.
   */
  lemma ClampedScalar(priv: Data)
    requires |priv| == 32
    ensures var a := LittleEndian(Clamped(priv));
            && a == LittleEndian(priv) % TWO254 / 8 * 8 + TWO254
            && a % 8 == 0 && TWO254 <= a < 2 * TWO254
  {
    hide Scaled, LittleEndian;
    var b := Clamped(priv);
    assert b[0] % 8 == 0 && 64 <= b[31] < 128;
    LittleBounds(b, 64);
    Scaled32(b[31] as int + 1);
    Scaled32(128);
    Scaled32(64);
    LowByte(b);
    LowByte(priv);
    LittleTop(priv);
    LittleTop(b);
    Scaled32(priv[31]);
    Scaled32(b[31]);
    LowReplaced(priv[..31], priv[0] / 8 * 8);
    assert b[..31] == priv[..31][0 := priv[0] / 8 * 8];
    LittleBounds(priv[..31], 0);
    Scaled31(priv[30] as int + 1);
    Rounded(LittleEndian(priv), LittleEndian(priv[..31]), priv[31], priv[0] % 8);
  }

  lemma Scaled31(c: nat)
    ensures Scaled(c, 31) == 0x1000000000000000000000000000000000000000000000000000000000000 * c
  {
    Scaled32(c);
  }

  lemma Rounded(v: nat, low: nat, top: nat, rest: nat)
    requires v == low + 0x100000000000000000000000000000000000000000000000000000000000000 * top
    requires low < 0x100000000000000000000000000000000000000000000000000000000000000
    requires rest == v % 8
    ensures v % TWO254 / 8 * 8
            == low - rest + 0x100000000000000000000000000000000000000000000000000000000000000 * (top % 64)
  {
    var w := low + 0x100000000000000000000000000000000000000000000000000000000000000 * (top % 64);
    assert v == TWO254 * (top / 64) + w;
    ModUnique(v, top / 64, w, TWO254);
    assert v == 8 * (0x800000000000000000000000000000000000000000000000000000000000000 * (top / 64)) + w;
    Eighths(v, 0x800000000000000000000000000000000000000000000000000000000000000 * (top / 64), w);
  }

  lemma Eighths(v: nat, k: nat, w: nat)
    requires v == 8 * k + w
    ensures w / 8 * 8 == w - v % 8
  {
  }

  lemma {:induction false} LittleTop(b: Data)
    requires b != []
    ensures LittleEndian(b) == LittleEndian(b[..|b| - 1]) + Scaled(b[|b| - 1], |b|)
    decreases |b|
  {
    if |b| == 1 {
      assert b[1..] == [];
    } else {
      LittleTop(b[1..]);
      assert b[1..][..|b| - 2] == b[..|b| - 1][1..];
    }
  }

  lemma LowReplaced(b: Data, low: Byte)
    requires b != []
    ensures LittleEndian(b[0 := low]) == LittleEndian(b) - b[0] + low
  {
    assert b[0 := low][1..] == b[1..];
  }

  lemma LowByte(b: Data)
    requires b != []
    ensures LittleEndian(b) % 8 == b[0] % 8
  {
    assert LittleEndian(b) == b[0] as int + 8 * (32 * LittleEndian(b[1..]));
  }

  lemma {:induction false} LittleBounds(b: Data, c: nat)
    requires b != [] && c <= b[|b| - 1]
    ensures Scaled(c, |b|) <= LittleEndian(b) < Scaled(b[|b| - 1] as int + 1, |b|)
    decreases |b|
  {
    if |b| == 1 {
      assert b[1..] == [];
    } else {
      LittleBounds(b[1..], c);
    }
  }

  /**
   * The verifier hands Ed25519 exactly the encoding of A and exactly R followed by s, provided the
   * public key is the Montgomery form of A: the borrowed top bit is recovered together with s.
   */
  lemma SignBitRecovered(c: Primitives, p: Parts, y: nat)
    requires p.s < L && y == Affine(p.A, c.inv).1
    ensures |Signature(c, p)| == 64
    ensures EdInputs(y, Signature(c, p)) == (EncodePoint(p.A, c.inv), EncodePoint(p.R, c.inv) + LittleBytes(p.s, 32))
    ensures LittleEndian(LittleBytes(p.s, 32)) == p.s
  {
    hide LittleBytes, EncodePoint, LittleEndian, Scaled, Affine;
    EncodedPoint(p.A, c.inv);
    EncodedPoint(p.R, c.inv);
    SmallTop(p.s);
    var s, A, R, edY := LittleBytes(p.s, 32), EncodePoint(p.A, c.inv), EncodePoint(p.R, c.inv), LittleBytes(y, 32);
    TopBitBack(R, s, A, edY, Affine(p.A, c.inv).0 % 2);
  }

  /** What makes `x` the Montgomery form of Edwards y: x * (1 - y) and 1 + y agree modulo P. */
  predicate MontgomeryForm(x: int, y: int) {
    (x * (1 - y) - (1 + y)) % P == 0
  }

  /** The verifier's conversion takes the Montgomery form of y back to y: such a form is never P - 1. */
  lemma MontgomeryBack(pub: Data, c: Primitives, y: int)
    requires c.Lawful() && |pub| == 32 && 0 <= y < P && MontgomeryForm(MontX(pub), y)
    ensures MontXToEdY(pub, c.inv) == Some(y)
  {
    hide LittleEndian;
    var x := MontX(pub);
    if x == P - 1 {
      NoFormAtMinusOne(y);
      assert false;
    }
    assert (x + 1) % P == x + 1;
    assert c.inv(x + 1).Some? && Inverts(c.inv(x + 1).value, x + 1);
    QuotientIsY(x, y, c.inv(x + 1).value, P);
  }

  lemma NoFormAtMinusOne(y: int)
    ensures !MontgomeryForm(P - 1, y)
  {
    assert (P - 1) * (1 - y) - (1 + y) == P * (-y) + (P - 2);
    ModUnique((P - 1) * (1 - y) - (1 + y), -y, P - 2, P);
  }

  lemma QuotientIsY(x: int, y: int, i: int, p: int)
    requires p > 0 && 0 <= y < p && (x * (1 - y) - (1 + y)) % p == 0 && i * ((x + 1) % p) % p == 1
    ensures (x - 1) * i % p == y
  {
    var w, j := (x + 1) % p, (x + 1) / p;
    var k, m := (x * (1 - y) - (1 + y)) / p, i * w / p;
    assert x * (1 - y) - (1 + y) == (x - 1) - y * (x + 1);
    var q := y * m + ((y * j) * i + k * i);
    Collected(x - 1, x + 1, y, i, p, w, j, k, m);
    ModUnique((x - 1) * i, q, y, p);
  }

  lemma Collected(a: int, b: int, y: int, i: int, p: int, w: int, j: int, k: int, m: int)
    requires a == y * b + p * k && b == p * j + w && i * w == 1 + p * m
    ensures a * i == p * (y * m + ((y * j) * i + k * i)) + y
  {
    Scales(y, b, p, j, w);
    Spread(p, y * j, y * w, k, i);
    Cancels(y, w, i, p, m);
    assert a * i == p * ((y * j) * i + k * i) + (y + p * (y * m));
  }

  lemma Scales(y: int, b: int, p: int, j: int, w: int)
    requires b == p * j + w
    ensures y * b == p * (y * j) + y * w
  {
    assert y * (p * j) == p * (y * j);
  }

  lemma Cancels(y: int, w: int, i: int, p: int, m: int)
    requires i * w == 1 + p * m
    ensures (y * w) * i == y + p * (y * m)
  {
    assert (y * w) * i == y * (i * w);
    assert y * (p * m) == p * (y * m);
  }

  lemma Spread(p: int, u: int, v: int, k: int, i: int)
    ensures (p * u + v + p * k) * i == p * (u * i + k * i) + v * i
  {
    assert (p * u + v + p * k) * i == (p * u) * i + v * i + (p * k) * i;
    assert (p * u) * i == p * (u * i) && (p * k) * i == p * (k * i);
  }

  /** Signing and verifying meet: from the signer's public key the verifier reconstructs A, R and s exactly. */
  lemma VerifierSeesTheSigner(c: Primitives, p: Parts, pub: Data)
    requires c.Lawful() && p.s < L && |pub| == 32 && MontgomeryForm(MontX(pub), Affine(p.A, c.inv).1)
    ensures |Signature(c, p)| == 64
    ensures var y := MontXToEdY(pub, c.inv);
            && y.Some?
            && EdInputs(y.value, Signature(c, p))
               == (EncodePoint(p.A, c.inv), EncodePoint(p.R, c.inv) + LittleBytes(p.s, 32))
  {
    hide *;
    var y := Affine(p.A, c.inv).1;
    MontgomeryBack(pub, c, y);
    SignBitRecovered(c, p, y);
  }

  lemma SmallTop(s: nat)
    requires s < L
    ensures LittleEndian(LittleBytes(s, 32)) == s && LittleBytes(s, 32)[31] < 32
  {
    Sizes();
    LittleBytesValue(s, 32, 32);
  }

  /** A free top bit survives being moved from one string to another and back. */
  lemma TopBitBack(R: Data, s: Data, A: Data, edY: Data, bit: int)
    requires |R| == |s| == |A| == |edY| == 32 && s[31] < 128 && edY[31] < 128 && 0 <= bit <= 1
    requires A == edY[31 := edY[31] + 128 * bit]
    ensures var sig := R + s[31 := OrTopBit(s[31], A[31])];
            edY[31 := OrTopBit(edY[31], sig[63])] == A && sig[63 := sig[63] % 128] == R + s
  {
    var sig := R + s[31 := OrTopBit(s[31], A[31])];
    assert sig[63] == OrTopBit(s[31], A[31]);
    assert sig[63 := s[31]] == R + s;
  }

  /** And the scalar it recovers satisfies the verification equation. */
  lemma SignedPartsVerify(g: Group, c: Primitives, priv: Data, message: Data, random: Data)
    requires |priv| == 32
    requires g.Laws() && g.curve(BASE) && g.same(Fold(BASE, L), IDENTITY)
    ensures var p := SignParts(c, priv, message, random);
            g.same(ScalarMul(BASE, p.s), EdwardsAdd(p.R, ScalarMul(p.A, p.k)))
  {
    hide *;
    var p := SignParts(c, priv, message, random);
    PartsOf(c, priv, message, random);
    SignatureEquation(g, BASE, L, p.r, p.k, p.a, p.s);
  }

  lemma PartsOf(c: Primitives, priv: Data, message: Data, random: Data)
    requires |priv| == 32
    ensures var p := SignParts(c, priv, message, random);
            && L > 0 && p.A == ScalarMul(BASE, p.a) && p.R == ScalarMul(BASE, p.r) && p.s == (p.r + p.k * p.a) % L
            && p.s < L && p.k == Challenge(c, p.R, p.A, message)
  {
    hide LittleEndian, EncodePoint, ScalarMul, Clamped, Challenge;
  }

  /** An Ed25519 verifier that accepts any curve points satisfying the equation of section 5.1.7 of RFC 8032. */
  ghost predicate Accepts(g: Group, c: Primitives, ed25519: (Data, Data, Data) -> bool) {
    forall A: Point, R: Point, s: nat, message: Data ::
      g.curve(A) && g.curve(R) && s < L && Equation(g, c, A, R, s, message)
      ==> ed25519(EncodePoint(A, c.inv), EncodePoint(R, c.inv) + LittleBytes(s, 32), message)
  }

  predicate Equation(g: Group, c: Primitives, A: Point, R: Point, s: nat, message: Data) {
    var k := LittleEndian(c.sha512(EncodePoint(R, c.inv) + EncodePoint(A, c.inv) + message)) % L;
    g.same(ScalarMul(BASE, s), EdwardsAdd(R, ScalarMul(A, k)))
  }

  /** The base point has order L in this group. */
  ghost predicate BaseOrder(g: Group) {
    g.Laws() && g.curve(BASE) && g.same(Fold(BASE, L), IDENTITY)
  }

  /** What is signed verifies: the answer under the signer's Montgomery key is true. */
  lemma SignThenVerify(g: Group, c: Primitives, ed25519: (Data, Data, Data) -> bool,
                       priv: Data, message: Data, random: Data, p: Parts, pub: Data)
    requires BaseOrder(g) && c.Lawful() && Accepts(g, c, ed25519)
    requires |priv| == 32 && p == SignParts(c, priv, message, random)
    requires |pub| == 32 && MontgomeryForm(MontX(pub), Affine(p.A, c.inv).1)
    ensures Verified(c, ed25519, pub, message, Signature(c, p)) == Ok(true)
  {
    hide *;
    BaseHasOrder(g);
    PartsOf(c, priv, message, random);
    SignedPartsVerify(g, c, priv, message, random);
    VerifierSeesTheSigner(c, p, pub);
    ScalarMulIsFold(g, BASE, p.a);
    ScalarMulIsFold(g, BASE, p.r);
    Answer(g, c, ed25519, p, message, pub);
  }

  lemma BaseHasOrder(g: Group)
    requires BaseOrder(g)
    ensures g.Laws() && g.curve(BASE) && g.same(Fold(BASE, L), IDENTITY)
  {
    hide EdwardsAdd, Fold, Group.Laws;
  }

  lemma Answer(g: Group, c: Primitives, ed25519: (Data, Data, Data) -> bool, p: Parts, message: Data, pub: Data)
    requires p.s < L && p.k == Challenge(c, p.R, p.A, message) && Accepts(g, c, ed25519)
    requires g.curve(p.A) && g.curve(p.R) && g.same(ScalarMul(BASE, p.s), EdwardsAdd(p.R, ScalarMul(p.A, p.k)))
    requires |pub| == 32 && |Signature(c, p)| == 64 && MontXToEdY(pub, c.inv).Some?
    requires EdInputs(MontXToEdY(pub, c.inv).value, Signature(c, p))
             == (EncodePoint(p.A, c.inv), EncodePoint(p.R, c.inv) + LittleBytes(p.s, 32))
    ensures Verified(c, ed25519, pub, message, Signature(c, p)) == Ok(true)
  {
    hide LittleBytes, LittleEndian, EncodePoint, MontXToEdY, EdInputs, Signature, ScalarMul, EdwardsAdd;
    assert Equation(g, c, p.A, p.R, p.s, message);
  }
}
