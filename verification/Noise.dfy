/** The symmetric state of the Noise XX handshake and the sockets that follow it. */
module Noise {
  import opened Wrappers
  import opened Sequences
  import opened Bytes
  import Utf8

  type Data = seq<Byte>

  /** The primitives: hash, keyed hash, authenticated encryption and Diffie-Hellman. */
  datatype Suite = Suite(
    sha: Data -> Data,
    hmac: (Data, Data) -> Data,
    seal: (Data, Data, Data, Data) -> Data,
    open: (Data, Data, Data, Data) -> Option<Data>,
    dh: (Data, Data) -> Option<Data>,
    pub: Data -> Data)
  {
    /** Decryption undoes encryption, and both ends of an exchange compute the same secret. */
    ghost predicate Lawful() {
      && (forall k: Data, n: Data, aad: Data, m: Data :: open(k, n, aad, seal(k, n, aad, m)) == Some(m))
      && (forall k: Data, n: Data, aad: Data, m: Data :: seal(k, n, aad, m) != [])
      && (forall a: Data, b: Data :: dh(a, pub(b)).Some?)
      && (forall a: Data, b: Data :: dh(a, pub(b)) == dh(b, pub(a)))
      && (forall a: Data :: |pub(a)| == 32)
    }

    /** Two 32-byte outputs of the extract-and-expand derivation with an empty info. */
    function HkdfPair(salt: Data, ikm: Data): (Data, Data) {
      var prk := hmac(salt, ikm);
      var t1 := hmac(prk, [1]);
      (t1, hmac(prk, t1 + [2]))
    }

    /** Extraction: the pseudorandom key of section 2.2 of RFC 5869. */
    function Extract(salt: Data, ikm: Data): Data {
      hmac(salt, ikm)
    }

    /** Block T(i) of the expansion of section 2.3 of RFC 5869: T(0) is empty, each block chains the one before. */
    function Block(prk: Data, info: Data, i: nat): Data
      requires i < 256
    {
      if i == 0 then [] else hmac(prk, Block(prk, info, i - 1) + info + [i])
    }

    /** The pair is the first two blocks expanded, with an empty info, from what is extracted. */
    lemma HkdfPairIsHkdf(salt: Data, ikm: Data)
      ensures HkdfPair(salt, ikm) == (Block(Extract(salt, ikm), [], 1), Block(Extract(salt, ikm), [], 2))
    {
      var prk := Extract(salt, ikm);
      assert Block(prk, [], 0) + [] + [1] == [1];
      assert Block(prk, [], 1) + [] + [2] == Block(prk, [], 1) + [2];
    }
  }

  const TWO32 := 0x1_0000_0000

  /** Eight zero bytes and the counter, cut to 32 bits, big-endian. */
  function Iv(counter: nat): Data {
    [0, 0, 0, 0, 0, 0, 0, 0] + U32(counter % TWO32)
  }

  /** The nonce is 12 bytes, worth the counter modulo 2^32 as one big-endian number. */
  lemma IvValue(counter: nat)
    ensures |Iv(counter)| == 12 && BigEndian(Iv(counter)) == counter % TWO32
  {
    hide U32;
    var n := U32(counter % TWO32);
    U32Value(counter % TWO32);
    assert counter % TWO32 % 0x1_0000_0000 == counter % TWO32;
    var zeros: Data := [0, 0, 0, 0, 0, 0, 0, 0];
    assert BigEndian(zeros) == 0 by { ZerosAreNothing(zeros); }
    LeadingZeros(zeros, n);
  }

  lemma {:induction false} ZerosAreNothing(zeros: Data)
    requires forall i :: 0 <= i < |zeros| ==> zeros[i] == 0
    ensures BigEndian(zeros) == 0
  {
    if zeros != [] {
      ZerosAreNothing(zeros[..|zeros| - 1]);
    }
  }

  lemma {:induction false} LeadingZeros(zeros: Data, b: Data)
    requires BigEndian(zeros) == 0
    ensures BigEndian(zeros + b) == BigEndian(b)
    decreases |b|
  {
    if b == [] {
      assert zeros + b == zeros;
    } else {
      LeadingZeros(zeros, b[..|b| - 1]);
      assert (zeros + b)[..|zeros + b| - 1] == zeros + b[..|b| - 1];
    }
  }

  lemma IvEqual(a: nat, b: nat)
    ensures Iv(a) == Iv(b) <==> a % TWO32 == b % TWO32
  {
    hide U32, BigEndian;
    U32Value(a % TWO32);
    U32Value(b % TWO32);
    assert Iv(a)[8..] == U32(a % TWO32) && Iv(b)[8..] == U32(b % TWO32);
  }

  // --- symmetric state ----------------------------------------------------------------

  datatype Sym = Sym(hash: Data, salt: Data, key: Data, counter: nat)

  function Authenticated(s: Suite, y: Sym, data: Data): Sym {
    y.(hash := s.sha(y.hash + data))
  }

  function Started(s: Suite, pattern: Data, header: Data): Sym {
    var h := if |pattern| == 32 then pattern else s.sha(pattern);
    Authenticated(s, Sym(h, h, h, 0), header)
  }

  function Sealed(s: Suite, y: Sym, m: Data): (Sym, Data) {
    var ct := s.seal(y.key, Iv(y.counter), y.hash, m);
    (Authenticated(s, y.(counter := y.counter + 1), ct), ct)
  }

  /** The plaintext, or None when the ciphertext is rejected. */
  function Opened(s: Suite, y: Sym, ct: Data): Option<(Sym, Data)> {
    match s.open(y.key, Iv(y.counter), y.hash, ct)
    case None => None
    case Some(m) => Some((Authenticated(s, y.(counter := y.counter + 1), ct), m))
  }

  function Mixed(s: Suite, y: Sym, data: Data): Sym {
    var (salt, key) := s.HkdfPair(y.salt, data);
    Sym(y.hash, salt, key, 0)
  }

  function SharedMixed(s: Suite, y: Sym, priv: Data, pub: Data): Option<Sym> {
    match s.dh(priv, pub)
    case None => None
    case Some(secret) => Some(Mixed(s, y, secret))
  }

  /** One nonce used under one key, a key being named by how many replacements came before it. */
  datatype Use = Use(epoch: nat, nonce: Data)

  class NoiseHandshake {
    const suite: Suite
    var hash: Data
    var salt: Data
    var aead: Option<Data>
    var counter: nat
    ghost var epoch: nat
    ghost var uses: seq<Use>

    ghost function State(): Sym
      reads this
    {
      Sym(hash, salt, aead.GetOr([]), counter)
    }

    constructor (suite: Suite)
      ensures this.suite == suite && aead == None && counter == 0 && epoch == 0 && uses == []
    {
      this.suite := suite;
      hash, salt, aead, counter := [], [], None, 0;
      epoch, uses := 0, [];
    }

    method Start(pattern: string, header: Data)
      modifies this
      ensures aead.Some? && State() == Started(suite, Utf8.Encode(pattern), header)
      ensures epoch == old(epoch) && uses == old(uses)
    {
      var data := Utf8.Encode(pattern);
      var h := if |data| == 32 then data else suite.sha(data);
      hash, salt, aead, counter := h, h, Some(h), 0;
      Authenticate(header);
    }

    method Authenticate(data: Data)
      modifies this
      ensures State() == Authenticated(suite, old(State()), data) && aead == old(aead)
      ensures epoch == old(epoch) && uses == old(uses)
    {
      hash := suite.sha(hash + data);
    }

    method Encrypt(plaintext: Data) returns (ct: Data)
      requires aead.Some?
      modifies this
      ensures (State(), ct) == Sealed(suite, old(State()), plaintext) && aead.Some?
      ensures epoch == old(epoch) && uses == old(uses) + [Use(epoch, Iv(old(counter)))]
    {
      var c := counter;
      counter := c + 1;
      uses := uses + [Use(epoch, Iv(c))];
      ct := suite.seal(aead.value, Iv(c), hash, plaintext);
      Authenticate(ct);
    }

    /** A rejected ciphertext leaves hash, salt and key alone, but its counter value is spent. */
    method Decrypt(ct: Data) returns (r: Result<Data>)
      requires aead.Some?
      modifies this
      ensures aead.Some?
      ensures match Opened(suite, old(State()), ct)
              case Some((y, m)) => State() == y && r == Ok(m)
              case None => State() == old(State()).(counter := old(counter) + 1) && r == Err
      ensures epoch == old(epoch) && uses == old(uses) + [Use(epoch, Iv(old(counter)))]
    {
      var c := counter;
      counter := c + 1;
      uses := uses + [Use(epoch, Iv(c))];
      var pt := suite.open(aead.value, Iv(c), hash, ct);
      if pt.None? {
        return Err;
      }
      Authenticate(ct);
      r := Ok(pt.value);
    }

    method MixIntoKey(data: Data)
      modifies this
      ensures aead.Some? && State() == Mixed(suite, old(State()), data)
      ensures epoch == old(epoch) + 1 && uses == old(uses)
    {
      counter := 0;
      var (write, read) := suite.HkdfPair(salt, data);
      salt := write;
      aead := Some(read);
      epoch := epoch + 1;
    }

    method MixSharedSecret(priv: Data, pub: Data) returns (ok: bool)
      modifies this
      ensures ok <==> suite.dh(priv, pub).Some?
      ensures ok ==> aead.Some? && SharedMixed(suite, old(State()), priv, pub) == Some(State())
    {
      var secret := suite.dh(priv, pub);
      ok := secret.Some?;
      if ok {
        MixIntoKey(secret.value);
      }
    }

    /** The traffic keys: (write, read). */
    method Finish() returns (write: Data, read: Data)
      ensures write == suite.Block(suite.Extract(salt, []), [], 1)
      ensures read == suite.Block(suite.Extract(salt, []), [], 2)
    {
      suite.HkdfPairIsHkdf(salt, []);
      var pair := suite.HkdfPair(salt, []);
      write, read := pair.0, pair.1;
    }

    method Apply(op: Op)
      requires aead.Some?
      modifies this
      ensures aead.Some?
      ensures epoch == EpochAfter(op, old(epoch)) && counter == CounterAfter(op, old(counter))
      ensures uses == old(uses) + UsesOf([op], old(epoch), old(counter))
    {
      match op
      case Fold(data) => Authenticate(data);
      case Seal(m) => var _ := Encrypt(m);
      case Open(ct) => var _ := Decrypt(ct);
      case Mix(data) => MixIntoKey(data);
      assert uses == old(uses) + UsesOf([op], old(epoch), old(counter));
    }

    /** Any sequence of operations on a fresh state uses exactly the nonces `UsesOf` lists. */
    method Run(ops: seq<Op>)
      requires aead.Some? && epoch == 0 && counter == 0 && uses == []
      modifies this
      ensures uses == UsesOf(ops, 0, 0)
    {
      for i := 0 to |ops|
        invariant aead.Some?
        invariant uses + UsesOf(ops[i..], epoch, counter) == UsesOf(ops, 0, 0)
      {
        assert ops[i..][0] == ops[i] && ops[i..][1..] == ops[i + 1..];
        UsesStep(ops[i..], epoch, counter);
        Regroup(uses, UsesOf([ops[i]], epoch, counter),
               UsesOf(ops[i + 1..], EpochAfter(ops[i], epoch), CounterAfter(ops[i], counter)));
        Apply(ops[i]);
      }
      assert uses + [] == uses;
    }
  }

  // --- nonces ---------------------------------------------------------------------------

  datatype Op = Fold(data: Data) | Seal(plaintext: Data) | Open(ciphertext: Data) | Mix(ikm: Data)

  function EpochAfter(op: Op, epoch: nat): nat {
    if op.Mix? then epoch + 1 else epoch
  }

  function CounterAfter(op: Op, counter: nat): nat {
    match op
    case Fold(_) => counter
    case Mix(_) => 0
    case _ => counter + 1
  }

  function UsesOf(ops: seq<Op>, epoch: nat, counter: nat): seq<Use> {
    if ops == [] then []
    else
      (if ops[0].Seal? || ops[0].Open? then [Use(epoch, Iv(counter))] else [])
      + UsesOf(ops[1..], EpochAfter(ops[0], epoch), CounterAfter(ops[0], counter))
  }

  lemma UsesStep(ops: seq<Op>, epoch: nat, counter: nat)
    requires ops != []
    ensures UsesOf(ops, epoch, counter)
            == UsesOf([ops[0]], epoch, counter)
               + UsesOf(ops[1..], EpochAfter(ops[0], epoch), CounterAfter(ops[0], counter))
  {
    assert [ops[0]][1..] == [];
  }

  ghost predicate Distinct(uses: seq<Use>) {
    forall i, j :: 0 <= i < j < |uses| ==> uses[i] != uses[j]
  }

  /** No key is used with 2^32 counter values or more behind it. */
  predicate Bounded(ops: seq<Op>, counter: nat) {
    ops == []
    || (&& (ops[0].Seal? || ops[0].Open? ==> counter < TWO32)
        && Bounded(ops[1..], CounterAfter(ops[0], counter)))
  }

  lemma {:induction false} LaterUses(ops: seq<Op>, epoch: nat, counter: nat, u: Use)
    requires Bounded(ops, counter) && u in UsesOf(ops, epoch, counter)
    ensures u.epoch >= epoch
    ensures u.epoch == epoch ==> exists k :: counter <= k < TWO32 && u.nonce == Iv(k)
    decreases |ops|
  {
    var op := ops[0];
    var rest := UsesOf(ops[1..], EpochAfter(op, epoch), CounterAfter(op, counter));
    if u in rest {
      LaterUses(ops[1..], EpochAfter(op, epoch), CounterAfter(op, counter), u);
    } else {
      assert u == Use(epoch, Iv(counter));
    }
  }

  lemma {:induction false} BoundedIsDistinct(ops: seq<Op>, epoch: nat, counter: nat)
    requires Bounded(ops, counter)
    ensures Distinct(UsesOf(ops, epoch, counter))
    decreases |ops|
  {
    hide Iv;
    if ops != [] {
      var op := ops[0];
      var rest := UsesOf(ops[1..], EpochAfter(op, epoch), CounterAfter(op, counter));
      BoundedIsDistinct(ops[1..], EpochAfter(op, epoch), CounterAfter(op, counter));
      if op.Seal? || op.Open? {
        var first := Use(epoch, Iv(counter));
        if first in rest {
          LaterUses(ops[1..], epoch, counter + 1, first);
          var k :| counter + 1 <= k < TWO32 && first.nonce == Iv(k);
          IvEqual(counter, k);
          assert false;
        }
        assert UsesOf(ops, epoch, counter) == [first] + rest;
      }
    }
  }

  lemma {:induction false} UnboundedRepeats(ops: seq<Op>, epoch: nat, counter: nat)
    requires !Bounded(ops, counter) && counter <= TWO32
    ensures Use(epoch, Iv(0)) in UsesOf(ops, epoch, counter) || !Distinct(UsesOf(ops, epoch, counter))
    ensures counter == 0 ==> !Distinct(UsesOf(ops, epoch, counter))
    decreases |ops|
  {
    var op := ops[0];
    var rest := UsesOf(ops[1..], EpochAfter(op, epoch), CounterAfter(op, counter));
    if op.Seal? || op.Open? {
      assert UsesOf(ops, epoch, counter) == [Use(epoch, Iv(counter))] + rest;
      IvEqual(0, TWO32);
      if counter < TWO32 {
        UnboundedRepeats(ops[1..], epoch, counter + 1);
        RepeatsBehind(Use(epoch, Iv(counter)), rest);
      } else {
        assert UsesOf(ops, epoch, counter)[0] == Use(epoch, Iv(0));
      }
    } else {
      assert UsesOf(ops, epoch, counter) == rest;
      UnboundedRepeats(ops[1..], EpochAfter(op, epoch), CounterAfter(op, counter));
    }
  }

  lemma RepeatsBehind(first: Use, rest: seq<Use>)
    ensures first in rest || !Distinct(rest) ==> !Distinct([first] + rest)
  {
    var all := [first] + rest;
    if first in rest {
      var i :| 0 <= i < |rest| && rest[i] == first;
      assert all[0] == all[i + 1];
    } else if !Distinct(rest) {
      var i, j :| 0 <= i < j < |rest| && rest[i] == rest[j];
      assert all[i + 1] == all[j + 1];
    }
  }

  /** No nonce is used twice under a key, exactly when no key sees 2^32 counter values pass. */
  lemma NoncesNeverRepeat(ops: seq<Op>)
    ensures Distinct(UsesOf(ops, 0, 0)) <==> Bounded(ops, 0)
  {
    if Bounded(ops, 0) {
      BoundedIsDistinct(ops, 0, 0);
    } else {
      UnboundedRepeats(ops, 0, 0);
    }
  }

  // --- post-handshake sockets ----------------------------------------------------------------

  class NoiseSocket {
    const suite: Suite
    const writeKey: Data
    const readKey: Data
    var writeCtr: nat
    var readCtr: nat

    constructor (suite: Suite, writeKey: Data, readKey: Data)
      ensures this.suite == suite && this.writeKey == writeKey && this.readKey == readKey
      ensures writeCtr == 0 && readCtr == 0
    {
      this.suite, this.writeKey, this.readKey := suite, writeKey, readKey;
      writeCtr, readCtr := 0, 0;
    }

    method EncryptFrame(plaintext: Data) returns (ct: Data)
      modifies this
      ensures ct == suite.seal(writeKey, Iv(old(writeCtr)), [], plaintext)
      ensures writeCtr == old(writeCtr) + 1 && readCtr == old(readCtr)
    {
      ct := suite.seal(writeKey, Iv(writeCtr), [], plaintext);
      writeCtr := writeCtr + 1;
    }

    /** A rejected ciphertext leaves the read counter where it was. */
    method DecryptFrame(ct: Data) returns (r: Result<Data>)
      modifies this
      ensures match suite.open(readKey, Iv(old(readCtr)), [], ct)
              case Some(m) => r == Ok(m) && readCtr == old(readCtr) + 1
              case None => r == Err && readCtr == old(readCtr)
      ensures writeCtr == old(writeCtr)
    {
      var pt := suite.open(readKey, Iv(readCtr), [], ct);
      if pt.None? {
        return Err;
      }
      readCtr := readCtr + 1;
      r := Ok(pt.value);
    }

    method EncryptAll(plaintexts: seq<Data>) returns (cts: seq<Data>)
      modifies this
      ensures cts == SealedFrames(suite, writeKey, old(writeCtr), plaintexts)
      ensures readCtr == old(readCtr)
    {
      cts := [];
      for i := 0 to |plaintexts|
        invariant readCtr == old(readCtr)
        invariant cts + SealedFrames(suite, writeKey, writeCtr, plaintexts[i..])
                  == SealedFrames(suite, writeKey, old(writeCtr), plaintexts)
      {
        assert plaintexts[i..][1..] == plaintexts[i + 1..];
        var ct := EncryptFrame(plaintexts[i]);
        cts := cts + [ct];
      }
      assert cts + [] == cts;
    }

    /** Feeds every ciphertext to the socket and keeps what it accepts. */
    method DecryptAll(cts: seq<Data>) returns (accepted: seq<Data>)
      modifies this
      ensures accepted == AcceptedFrames(suite, readKey, old(readCtr), cts)
      ensures writeCtr == old(writeCtr)
    {
      accepted := [];
      for i := 0 to |cts|
        invariant writeCtr == old(writeCtr)
        invariant accepted + AcceptedFrames(suite, readKey, readCtr, cts[i..])
                  == AcceptedFrames(suite, readKey, old(readCtr), cts)
      {
        assert cts[i..][1..] == cts[i + 1..];
        var pt := DecryptFrame(cts[i]);
        if pt.Ok? {
          accepted := accepted + [pt.value];
        }
      }
      assert accepted + [] == accepted;
    }
  }

  function SealedFrames(s: Suite, key: Data, counter: nat, plaintexts: seq<Data>): (cts: seq<Data>)
    ensures |cts| == |plaintexts|
    decreases |plaintexts|
  {
    if plaintexts == [] then []
    else [s.seal(key, Iv(counter), [], plaintexts[0])] + SealedFrames(s, key, counter + 1, plaintexts[1..])
  }

  /** Frame `i` is sealed under the key, the nonce of the counter `i` later, and nothing else. */
  lemma {:induction false} SealedAt(s: Suite, key: Data, counter: nat, plaintexts: seq<Data>, i: nat)
    requires i < |plaintexts|
    ensures SealedFrames(s, key, counter, plaintexts)[i] == s.seal(key, Iv(counter + i), [], plaintexts[i])
    decreases i
  {
    if i > 0 {
      SealedAt(s, key, counter + 1, plaintexts[1..], i - 1);
    }
  }

  function AcceptedFrames(s: Suite, key: Data, counter: nat, cts: seq<Data>): seq<Data>
    decreases |cts|
  {
    if cts == [] then []
    else match s.open(key, Iv(counter), [], cts[0])
      case Some(m) => [m] + AcceptedFrames(s, key, counter + 1, cts[1..])
      case None => AcceptedFrames(s, key, counter, cts[1..])
  }

  /** `cts` are the sealed frames in order, with any ciphertexts the reader rejects at that point in between. */
  ghost predicate WithNoise(s: Suite, key: Data, counter: nat, plaintexts: seq<Data>, cts: seq<Data>)
    decreases |cts|
  {
    if cts == [] then plaintexts == []
    else
      || (&& plaintexts != []
          && cts[0] == s.seal(key, Iv(counter), [], plaintexts[0])
          && WithNoise(s, key, counter + 1, plaintexts[1..], cts[1..]))
      || (s.open(key, Iv(counter), [], cts[0]).None? && WithNoise(s, key, counter, plaintexts, cts[1..]))
  }

  /** Rejected ciphertexts never shift the genuine frames: exactly the plaintexts come out. */
  lemma {:induction false} GenuineFramesDecrypt(
    s: Suite, key: Data, counter: nat, plaintexts: seq<Data>, cts: seq<Data>)
    requires s.Lawful() && WithNoise(s, key, counter, plaintexts, cts)
    ensures AcceptedFrames(s, key, counter, cts) == plaintexts
    decreases |cts|
  {
    if cts != [] {
      if s.open(key, Iv(counter), [], cts[0]).None? {
        assert WithNoise(s, key, counter, plaintexts, cts[1..]);
        GenuineFramesDecrypt(s, key, counter, plaintexts, cts[1..]);
      } else {
        GenuineFramesDecrypt(s, key, counter + 1, plaintexts[1..], cts[1..]);
        assert plaintexts == [plaintexts[0]] + plaintexts[1..];
      }
    }
  }

  /** An undisturbed stream is the special case with no noise, across counter wrap-around too. */
  lemma {:induction false} InOrderFrames(s: Suite, key: Data, counter: nat, plaintexts: seq<Data>)
    ensures WithNoise(s, key, counter, plaintexts, SealedFrames(s, key, counter, plaintexts))
    decreases |plaintexts|
  {
    if plaintexts != [] {
      InOrderFrames(s, key, counter + 1, plaintexts[1..]);
      assert SealedFrames(s, key, counter, plaintexts)[1..] == SealedFrames(s, key, counter + 1, plaintexts[1..]);
    }
  }

  function Seals(plaintexts: seq<Data>): seq<Op> {
    if plaintexts == [] then [] else [Seal(plaintexts[0])] + Seals(plaintexts[1..])
  }

  lemma {:induction false} SealsBounded(plaintexts: seq<Data>, counter: nat)
    requires counter <= TWO32
    ensures Bounded(Seals(plaintexts), counter) <==> counter + |plaintexts| <= TWO32
    decreases |plaintexts|
  {
    if plaintexts != [] {
      assert Seals(plaintexts)[1..] == Seals(plaintexts[1..]);
      if counter < TWO32 {
        SealsBounded(plaintexts[1..], counter + 1);
      }
    }
  }

  /** A socket never repeats a nonce exactly as long as it writes at most 2^32 frames. */
  lemma SocketNonces(plaintexts: seq<Data>)
    ensures Distinct(UsesOf(Seals(plaintexts), 0, 0)) <==> |plaintexts| <= TWO32
  {
    NoncesNeverRepeat(Seals(plaintexts));
    SealsBounded(plaintexts, 0);
  }
}
