/** Sending over the sealed connection: the counter moves before a frame can be lost, and the peer notices. */
module Channel {
  import opened Wrappers
  import opened Sequences
  import opened Bytes
  import opened Noise
  import opened Frames

  /** A frame opens under no counter but its own, up to 2^32. */
  ghost predicate Binding(s: Suite) {
    forall key: Data, a: nat, b: nat, m: Data :: a % TWO32 != b % TWO32 ==>
      s.open(key, Iv(b), [], s.seal(key, Iv(a), [], m)) == None
  }

  // --- sending -------------------------------------------------------------------------------

  /** One send: sealed first, then framed and handed to the connection, either of which may fail. */
  method SendNode(fs: FrameSocket, ns: NoiseSocket, plaintext: Data, through: bool) returns (r: Result<()>)
    modifies fs, ns
    ensures ns.writeCtr == old(ns.writeCtr) + 1 && ns.readCtr == old(ns.readCtr)
    ensures var ct := ns.suite.seal(ns.writeKey, Iv(old(ns.writeCtr)), [], plaintext);
            && (r.Ok? <==> |ct| < FRAME_MAX_SIZE && through)
            && fs.headerSent == (old(fs.headerSent) || |ct| < FRAME_MAX_SIZE)
            && fs.sent == if r.Ok? then old(fs.sent) + (if old(fs.headerSent) then [] else WA_HEADER) + FrameBytes(ct)
                          else old(fs.sent)
  {
    var ct := ns.EncryptFrame(plaintext);
    r := fs.Send(ct, through);
  }

  /** The frames of a run of sends that get out, behind what was sent before. */
  function SentFrames(s: Suite, key: Data, counter: nat, plaintexts: seq<Data>, through: nat -> bool): seq<Data> {
    Delivered(SealedFrames(s, key, counter, plaintexts), through)
  }

  /** A run of sends, each of which may fail, after the header has gone out. */
  method SendNodes(fs: FrameSocket, ns: NoiseSocket, plaintexts: seq<Data>, through: nat -> bool)
    requires fs.headerSent
    modifies fs, ns
    ensures ns.writeCtr == old(ns.writeCtr) + |plaintexts| && ns.readCtr == old(ns.readCtr) && fs.headerSent
    ensures fs.sent == old(fs.sent)
                       + Stream(SentFrames(ns.suite, ns.writeKey, old(ns.writeCtr), plaintexts, through))
  {
    hide FrameBytes, Stream, Iv, Delivered, SealedFrames, WA_HEADER;
    ghost var first, before := ns.writeCtr, fs.sent;
    ghost var all := SealedFrames(ns.suite, ns.writeKey, first, plaintexts);
    NothingSent(before, through);
    assert all[..0] == [];
    for i := 0 to |plaintexts|
      invariant ns.writeCtr == first + i && ns.readCtr == old(ns.readCtr) && fs.headerSent
      invariant fs.sent == before + Stream(Delivered(all[..i], through))
    {
      SealedAt(ns.suite, ns.writeKey, first, plaintexts, i);
      SentMore(before, all, i, through);
      var _ := SendNode(fs, ns, plaintexts[i], through(i));
    }
    assert all[..|all|] == all;
  }

  lemma NothingSent(before: seq<Byte>, through: nat -> bool)
    ensures before + Stream(Delivered([], through)) == before
  {
    EmptyStream();
    assert before + [] == before;
  }

  lemma SentMore(before: seq<Byte>, all: seq<Data>, i: nat, through: nat -> bool)
    requires i < |all|
    ensures var sent := before + Stream(Delivered(all[..i], through));
            before + Stream(Delivered(all[..i + 1], through))
            == if |all[i]| < FRAME_MAX_SIZE && through(i) then sent + [] + FrameBytes(all[i]) else sent
  {
    hide FrameBytes, Stream, Delivered;
    var front := Delivered(all[..i], through);
    assert all[..i + 1] == all[..i] + [all[i]];
    DeliveredMore(all[..i], all[i], through);
    StreamAppend(front, all[i]);
    assert front + [] == front;
    Regroup(before, Stream(front), FrameBytes(all[i]));
    assert before + Stream(front) + [] == before + Stream(front);
  }

  lemma {:induction false} SealedAt(s: Suite, key: Data, counter: nat, ms: seq<Data>, i: nat)
    requires i < |ms|
    ensures SealedFrames(s, key, counter, ms)[i] == s.seal(key, Iv(counter + i), [], ms[i])
    decreases |ms|
  {
    hide Iv;
    if i > 0 {
      SealedAt(s, key, counter + 1, ms[1..], i - 1);
    }
  }

  // --- receiving -----------------------------------------------------------------------------

  /** Frames none of which opens under the counter the reader stands at. */
  lemma {:induction false} AllRejected(s: Suite, key: Data, counter: nat, cts: seq<Data>)
    requires forall i :: 0 <= i < |cts| ==> s.open(key, Iv(counter), [], cts[i]) == None
    ensures AcceptedFrames(s, key, counter, cts) == []
    decreases |cts|
  {
    hide Iv;
    if cts != [] {
      AllRejected(s, key, counter, cts[1..]);
    }
  }

  /** A reader that has fallen behind accepts nothing of what follows. */
  lemma SkewedFrames(s: Suite, key: Data, counter: nat, from: nat, ms: seq<Data>)
    requires Binding(s) && counter < from && from + |ms| <= counter + TWO32
    ensures AcceptedFrames(s, key, counter, SealedFrames(s, key, from, ms)) == []
  {
    hide Iv, SealedFrames, AcceptedFrames;
    var cts := SealedFrames(s, key, from, ms);
    forall i | 0 <= i < |cts| ensures s.open(key, Iv(counter), [], cts[i]) == None {
      SealedAt(s, key, from, ms, i);
      OtherCounter(counter, from + i);
    }
    AllRejected(s, key, counter, cts);
  }

  lemma OtherCounter(a: nat, b: nat)
    requires a < b < a + TWO32
    ensures a % TWO32 != b % TWO32
  {
  }

  /** Genuine frames in front are accepted, and the rest meets the counter after them. */
  lemma {:induction false} FrontAccepted(s: Suite, key: Data, counter: nat, ms: seq<Data>, rest: seq<Data>)
    requires s.Lawful()
    ensures AcceptedFrames(s, key, counter, SealedFrames(s, key, counter, ms) + rest)
            == ms + AcceptedFrames(s, key, counter + |ms|, rest)
    decreases |ms|
  {
    hide Iv;
    var cts := SealedFrames(s, key, counter, ms);
    if ms == [] {
      assert cts + rest == rest;
    } else {
      assert (cts + rest)[1..] == SealedFrames(s, key, counter + 1, ms[1..]) + rest;
      assert s.open(key, Iv(counter), [], s.seal(key, Iv(counter), [], ms[0])) == Some(ms[0]);
      FrontAccepted(s, key, counter + 1, ms[1..], rest);
      assert ms == [ms[0]] + ms[1..];
    }
  }

  // --- what the peer accepts of a run of sends ---------------------------------------------------

  /** Does the `i`-th send of a run get out? */
  predicate GetsOut(cts: seq<Data>, through: nat -> bool, i: nat)
    requires i < |cts|
  {
    |cts[i]| < FRAME_MAX_SIZE && through(i)
  }

  /** The first send that fails, or their number. */
  function FirstLost(cts: seq<Data>, through: nat -> bool): (f: nat)
    ensures f <= |cts|
    ensures forall i :: 0 <= i < f ==> GetsOut(cts, through, i)
    ensures f < |cts| ==> !GetsOut(cts, through, f)
  {
    FirstLostFrom(cts, through, 0)
  }

  function FirstLostFrom(cts: seq<Data>, through: nat -> bool, i: nat): (f: nat)
    requires i <= |cts|
    ensures i <= f <= |cts|
    ensures forall k :: i <= k < f ==> GetsOut(cts, through, k)
    ensures f < |cts| ==> !GetsOut(cts, through, f)
    decreases |cts| - i
  {
    if i == |cts| || !GetsOut(cts, through, i) then i else FirstLostFrom(cts, through, i + 1)
  }

  /** The frames that get out from the `f`-th send up to the `n`-th. */
  function OutBetween(cts: seq<Data>, through: nat -> bool, f: nat, n: nat): (tail: seq<Data>)
    requires f <= n <= |cts|
    ensures forall x :: x in tail ==> exists i :: f <= i < n && GetsOut(cts, through, i) && cts[i] == x
    ensures tail == [] <==> forall i :: f <= i < n ==> !GetsOut(cts, through, i)
    decreases n
  {
    if f == n then []
    else OutBetween(cts, through, f, n - 1) + if GetsOut(cts, through, n - 1) then [cts[n - 1]] else []
  }

  /** What gets out is everything before the first failure and some of what comes after it. */
  lemma {:induction false} DeliveredSplits(cts: seq<Data>, through: nat -> bool, f: nat, n: nat)
    requires f <= n <= |cts| && forall i :: 0 <= i < f ==> GetsOut(cts, through, i)
    ensures Delivered(cts[..n], through) == cts[..f] + OutBetween(cts, through, f, n)
    decreases n
  {
    hide Delivered;
    if n == 0 {
      NothingDelivered(through);
      assert cts[..0] == [];
    } else {
      var front, last := cts[..n - 1], cts[n - 1];
      assert cts[..n] == front + [last];
      DeliveredMore(front, last, through);
      if f == n {
        DeliveredSplits(cts, through, f - 1, n - 1);
        assert GetsOut(cts, through, n - 1);
        assert cts[..n - 1] + [] == cts[..n - 1] && cts[..n] + [] == cts[..n];
      } else {
        DeliveredSplits(cts, through, f, n - 1);
        Regroup(cts[..f], OutBetween(cts, through, f, n - 1), if GetsOut(cts, through, n - 1) then [last] else []);
      }
    }
  }

  lemma NothingDelivered(through: nat -> bool)
    ensures Delivered([], through) == []
  {
  }

  /** The peer's parser finds exactly the frames that got out. */
  lemma FramesArrive(s: Suite, key: Data, counter: nat, ms: seq<Data>, through: nat -> bool)
    ensures var stream := Stream(SentFrames(s, key, counter, ms, through));
            FramesOf(stream) == SentFrames(s, key, counter, ms, through) && RestOf(stream) == []
  {
    StreamParses(SentFrames(s, key, counter, ms, through));
  }

  /** Of a run of sends the peer accepts exactly the messages before the first that failed. */
  lemma PeerAccepts(s: Suite, key: Data, counter: nat, ms: seq<Data>, through: nat -> bool)
    requires s.Lawful() && Binding(s) && |ms| <= TWO32
    ensures var f := FirstLost(SealedFrames(s, key, counter, ms), through);
            f <= |ms| && AcceptedFrames(s, key, counter, SentFrames(s, key, counter, ms, through)) == ms[..f]
  {
    hide Iv, AcceptedFrames, SealedFrames, Suite.Lawful, GetsOut, Delivered, Binding, FirstLost, OutBetween;
    var cts := SealedFrames(s, key, counter, ms);
    var f := FirstLost(cts, through);
    DeliveredSplits(cts, through, f, |cts|);
    assert cts[..|cts|] == cts;
    var tail := OutBetween(cts, through, f, |cts|);
    SealedFront(s, key, counter, ms, f);
    FrontAccepted(s, key, counter, ms[..f], tail);
    TailRejected(s, key, counter, ms, through, f);
    assert ms[..f] + [] == ms[..f];
  }

  /** Whatever gets out after a failure is rejected by a reader that stands at the failed frame. */
  lemma TailRejected(s: Suite, key: Data, counter: nat, ms: seq<Data>, through: nat -> bool, f: nat)
    requires Binding(s) && f <= |ms| <= TWO32
    requires f < |ms| ==> !GetsOut(SealedFrames(s, key, counter, ms), through, f)
    ensures AcceptedFrames(s, key, counter + f, OutBetween(SealedFrames(s, key, counter, ms), through, f, |ms|)) == []
  {
    hide Iv, AcceptedFrames, SealedFrames, GetsOut;
    var cts := SealedFrames(s, key, counter, ms);
    var tail := OutBetween(cts, through, f, |ms|);
    forall k | 0 <= k < |tail| ensures s.open(key, Iv(counter + f), [], tail[k]) == None {
      assert tail[k] in tail;
      var i :| f <= i < |ms| && GetsOut(cts, through, i) && cts[i] == tail[k];
      SealedAt(s, key, counter, ms, i);
      OtherCounter(counter + f, counter + i);
    }
    AllRejected(s, key, counter + f, tail);
  }

  lemma {:induction false} SealedFront(s: Suite, key: Data, counter: nat, ms: seq<Data>, f: nat)
    requires f <= |ms|
    ensures SealedFrames(s, key, counter, ms)[..f] == SealedFrames(s, key, counter, ms[..f])
    decreases |ms|
  {
    hide Iv;
    if f > 0 {
      assert ms[..f][1..] == ms[1..][..f - 1];
      SealedFront(s, key, counter + 1, ms[1..], f - 1);
    }
  }

  /** The peer accepts as many messages as got out exactly when nothing got out after a failure. */
  lemma AllThatGotOutIff(s: Suite, key: Data, counter: nat, ms: seq<Data>, through: nat -> bool)
    requires s.Lawful() && Binding(s) && |ms| <= TWO32
    ensures var cts := SealedFrames(s, key, counter, ms);
            |AcceptedFrames(s, key, counter, SentFrames(s, key, counter, ms, through))|
            == |SentFrames(s, key, counter, ms, through)|
            <==> forall i, j :: 0 <= j < i < |cts| && GetsOut(cts, through, i) ==> GetsOut(cts, through, j)
  {
    hide Iv, AcceptedFrames, SealedFrames, Suite.Lawful, GetsOut, Delivered, Binding;
    var cts := SealedFrames(s, key, counter, ms);
    var f := FirstLost(cts, through);
    PeerAccepts(s, key, counter, ms, through);
    DeliveredSplits(cts, through, f, |cts|);
    assert cts[..|cts|] == cts;
  }
}
