/** Length-prefixed frames over a byte stream: the streaming parser and the one-time header. */
module Frames {
  import opened Wrappers
  import opened Sequences
  import opened Bytes

  const FRAME_LEN_BYTES := 3
  const FRAME_MAX_SIZE := 0x100_0000

  /** Three-byte big-endian length, then the payload. */
  function FrameBytes(payload: seq<Byte>): seq<Byte> {
    [|payload| / 0x1_0000 % 256, |payload| / 256 % 256, |payload| % 256] + payload
  }

  function EncodeFrame(payload: seq<Byte>): Result<seq<Byte>> {
    if |payload| >= FRAME_MAX_SIZE then Err else Ok(FrameBytes(payload))
  }

  function Stream(payloads: seq<seq<Byte>>): seq<Byte> {
    if payloads == [] then [] else FrameBytes(payloads[0]) + Stream(payloads[1..])
  }

  /** Length announced by the first three bytes. */
  function Announced(buf: seq<Byte>): (n: nat)
    requires |buf| >= 3
    ensures n < FRAME_MAX_SIZE
  {
    var b0: int, b1: int, b2: int := buf[0], buf[1], buf[2];
    b0 * 0x1_0000 + b1 * 256 + b2
  }

  /**
   * Byte by byte: three bytes worth the length as one big-endian number, then the payload; the parser reads the
   * same number off them; 2^24 bytes and more are refused; the header is "WA", 6 and the dictionary version 3.
   */
  lemma FrameForm(payload: seq<Byte>)
    ensures match EncodeFrame(payload)
            case Err => |payload| >= 0x100_0000
            case Ok(f) =>
              && |payload| < 0x100_0000
              && |f| == 3 + |payload| && BigEndian(f[..3]) == |payload| == Announced(f) && f[3..] == payload
    ensures WA_HEADER == [0x57, 0x41, 6, 3]
  {
    var n := |payload|;
    if n >= 0x100_0000 {
      return;
    }
    var b: seq<Byte> := [n / 0x1_0000 % 256, n / 256 % 256, n % 256];
    assert FrameBytes(payload)[..3] == b;
    assert b[..2][..1] == b[..1] && b[..1][..0] == [];
    assert BigEndian(b[..1]) == b[0] && BigEndian(b[..2]) == BigEndian(b[..1]) * 256 + b[1];
    assert n == n / 256 * 256 + n % 256 && n / 256 == n / 0x1_0000 * 256 + n / 256 % 256;
  }

  /** Does the buffer hold a whole frame? */
  predicate HasFrame(buf: seq<Byte>) {
    |buf| >= FRAME_LEN_BYTES && |buf| >= FRAME_LEN_BYTES + Announced(buf)
  }

  /** The complete frames at the front of a buffer. */
  function FramesOf(buf: seq<Byte>): seq<seq<Byte>>
    decreases |buf|
  {
    if !HasFrame(buf) then []
    else [buf[3..3 + Announced(buf)]] + FramesOf(buf[3 + Announced(buf)..])
  }

  /** What stays in the buffer after them. */
  function RestOf(buf: seq<Byte>): (r: seq<Byte>)
    ensures !HasFrame(r)
    decreases |buf|
  {
    if !HasFrame(buf) then buf else RestOf(buf[3 + Announced(buf)..])
  }

  class FrameParser {
    var buf: seq<Byte>

    /** Between calls no complete frame waits in the buffer. */
    ghost predicate Valid()
      reads this
    {
      !HasFrame(buf)
    }

    constructor ()
      ensures Valid() && buf == []
    {
      buf := [];
    }

    /** Takes any chunk, returns the frames it completes; the too-large error is never raised. */
    method Feed(data: seq<Byte>) returns (r: Result<seq<seq<Byte>>>)
      modifies this
      ensures Valid()
      ensures r == Ok(FramesOf(old(buf) + data))
      ensures buf == RestOf(old(buf) + data)
    {
      buf := buf + data;
      ghost var all := buf;
      var frames: seq<seq<Byte>> := [];
      while true
        invariant frames + FramesOf(buf) == FramesOf(all)
        invariant RestOf(buf) == RestOf(all)
        decreases |buf|
      {
        if |buf| < FRAME_LEN_BYTES {
          break;
        }
        var b0: int, b1: int, b2: int := buf[0], buf[1], buf[2];
        var length := b0 * 0x1_0000 + b1 * 256 + b2;
        if length > FRAME_MAX_SIZE {
          return Err;
        }
        var total := FRAME_LEN_BYTES + length;
        if |buf| < total {
          break;
        }
        var frame := buf[FRAME_LEN_BYTES..total];
        buf := buf[total..];
        frames := frames + [frame];
      }
      assert frames + [] == frames;
      r := Ok(frames);
    }
  }

  /** The parser fed a list of chunks, one after the other. */
  method FeedAll(parser: FrameParser, chunks: seq<seq<Byte>>) returns (frames: seq<seq<Byte>>)
    requires parser.Valid()
    modifies parser
    ensures parser.Valid()
    ensures frames == FramesOf(old(parser.buf) + Concat(chunks))
    ensures parser.buf == RestOf(old(parser.buf) + Concat(chunks))
  {
    frames := [];
    ghost var start := parser.buf;
    assert chunks[..0] == [] && start + Concat([]) == start;
    for i := 0 to |chunks|
      invariant parser.Valid()
      invariant frames == FramesOf(start + Concat(chunks[..i]))
      invariant parser.buf == RestOf(start + Concat(chunks[..i]))
    {
      assert chunks[..i + 1] == chunks[..i] + [chunks[i]];
      ConcatAppend(chunks[..i], [chunks[i]]);
      assert Concat([chunks[i]]) == chunks[i];
      Regroup(start, Concat(chunks[..i]), chunks[i]);
      Resume(start + Concat(chunks[..i]), chunks[i]);
      var more := parser.Feed(chunks[i]);
      frames := frames + more.value;
    }
    assert chunks[..|chunks|] == chunks;
  }

  /** Parsing can stop at any byte and resume from what it left in the buffer. */
  lemma {:induction false} Resume(a: seq<Byte>, b: seq<Byte>)
    ensures FramesOf(a + b) == FramesOf(a) + FramesOf(RestOf(a) + b)
    ensures RestOf(a + b) == RestOf(RestOf(a) + b)
    decreases |a|
  {
    if HasFrame(a) {
      var total := 3 + Announced(a);
      assert Announced(a + b) == Announced(a);
      assert (a + b)[3..total] == a[3..total] && (a + b)[total..] == a[total..] + b;
      Resume(a[total..], b);
    }
  }

  lemma FrameFirst(payload: seq<Byte>, rest: seq<Byte>)
    requires |payload| < FRAME_MAX_SIZE
    ensures var s := FrameBytes(payload) + rest;
            HasFrame(s) && Announced(s) == |payload| && s[3..3 + |payload|] == payload && s[3 + |payload|..] == rest
  {
    var n := |payload|;
    assert n == n / 256 * 256 + n % 256;
    assert n / 256 == n / 0x1_0000 * 256 + n / 256 % 256;
  }

  lemma {:induction false} StreamParses(payloads: seq<seq<Byte>>)
    requires forall i :: 0 <= i < |payloads| ==> |payloads[i]| < FRAME_MAX_SIZE
    ensures FramesOf(Stream(payloads)) == payloads && RestOf(Stream(payloads)) == []
    decreases |payloads|
  {
    if payloads != [] {
      FrameFirst(payloads[0], Stream(payloads[1..]));
      StreamParses(payloads[1..]);
      assert payloads == [payloads[0]] + payloads[1..];
    }
  }

  lemma FrameAgain(buf: seq<Byte>)
    requires HasFrame(buf)
    ensures buf == FrameBytes(buf[3..3 + Announced(buf)]) + buf[3 + Announced(buf)..]
  {
    var n := Announced(buf);
    var b0: int, b1: int, b2: int := buf[0], buf[1], buf[2];
    assert n / 256 == b0 * 256 + b1;
    assert buf == buf[..3] + buf[3..3 + n] + buf[3 + n..];
  }

  /** At all times the input fed is the re-encoding of the frames emitted, followed by the buffer. */
  lemma {:induction false} NothingLost(input: seq<Byte>)
    ensures input == Stream(FramesOf(input)) + RestOf(input)
    decreases |input|
  {
    if HasFrame(input) {
      var total := 3 + Announced(input);
      FrameAgain(input);
      NothingLost(input[total..]);
      var frames := FramesOf(input);
      assert frames[1..] == FramesOf(input[total..]);
      Regroup(FrameBytes(frames[0]), Stream(frames[1..]), RestOf(input));
    }
  }

  /** However the stream of a payload sequence is cut into chunks, exactly the payloads come out and nothing is left. */
  method Reassemble(payloads: seq<seq<Byte>>, chunks: seq<seq<Byte>>) returns (frames: seq<seq<Byte>>)
    requires forall i :: 0 <= i < |payloads| ==> |payloads[i]| < FRAME_MAX_SIZE
    requires Concat(chunks) == Stream(payloads)
    ensures frames == payloads
  {
    var parser := new FrameParser();
    frames := FeedAll(parser, chunks);
    assert [] + Concat(chunks) == Concat(chunks);
    StreamParses(payloads);
  }

  // --- the socket ------------------------------------------------------------------------

  const WA_HEADER: seq<Byte> := ['W' as int, 'A' as int, 6, 3]

  class FrameSocket {
    var headerSent: bool
    /** Every byte handed to the connection so far. */
    var sent: seq<Byte>

    constructor ()
      ensures !headerSent && sent == []
    {
      headerSent := false;
      sent := [];
    }

    /**
     * Sends one frame, the very first one behind the header. A payload too large to announce is
     * refused before anything changes; when the connection fails, the header counts as sent all the same.
     */
    method Send(payload: seq<Byte>, through: bool) returns (r: Result<()>)
      modifies this
      ensures r.Ok? <==> |payload| < FRAME_MAX_SIZE && through
      ensures headerSent == (old(headerSent) || |payload| < FRAME_MAX_SIZE)
      ensures sent == if r.Ok? then old(sent) + (if old(headerSent) then [] else WA_HEADER) + FrameBytes(payload)
                      else old(sent)
    {
      var frame := EncodeFrame(payload);
      if frame.Err? {
        return Err;
      }
      var buf := frame.value;
      if !headerSent {
        buf := WA_HEADER + buf;
        headerSent := true;
      }
      if !through {
        return Err;
      }
      sent := sent + buf;
      r := Ok(());
    }
  }

  /** The first payload of a run that is not too large. */
  function FirstAccepted(payloads: seq<seq<Byte>>): (i: nat)
    ensures i <= |payloads| && forall k :: 0 <= k < i ==> |payloads[k]| >= FRAME_MAX_SIZE
    ensures i < |payloads| ==> |payloads[i]| < FRAME_MAX_SIZE
  {
    if payloads == [] || |payloads[0]| < FRAME_MAX_SIZE then 0 else 1 + FirstAccepted(payloads[1..])
  }

  /** Did the send that carried the header get through? */
  predicate HeaderThrough(payloads: seq<seq<Byte>>, through: nat -> bool) {
    FirstAccepted(payloads) < |payloads| && through(FirstAccepted(payloads))
  }

  /** The payloads of a run that get through: none too large, and no failing connection. */
  function Delivered(payloads: seq<seq<Byte>>, through: nat -> bool): (d: seq<seq<Byte>>)
    ensures forall i :: 0 <= i < |d| ==> |d[i]| < FRAME_MAX_SIZE
  {
    if payloads == [] then []
    else
      var n := |payloads| - 1;
      Delivered(payloads[..n], through)
      + if |payloads[n]| < FRAME_MAX_SIZE && through(n) then [payloads[n]] else []
  }

  /** What a run of sends writes: the header, if its send gets through, then the frames that do. */
  function Written(payloads: seq<seq<Byte>>, through: nat -> bool): seq<Byte> {
    (if HeaderThrough(payloads, through) then WA_HEADER else []) + Stream(Delivered(payloads, through))
  }

  lemma {:induction false} StreamAppend(a: seq<seq<Byte>>, payload: seq<Byte>)
    ensures Stream(a + [payload]) == Stream(a) + FrameBytes(payload)
    decreases |a|
  {
    if a == [] {
      assert a + [payload] == [payload];
    } else {
      assert (a + [payload])[1..] == a[1..] + [payload];
      StreamAppend(a[1..], payload);
    }
  }

  lemma {:induction false} FirstStays(payloads: seq<seq<Byte>>, payload: seq<Byte>)
    ensures FirstAccepted(payloads + [payload])
            == if FirstAccepted(payloads) < |payloads| then FirstAccepted(payloads)
               else if |payload| < FRAME_MAX_SIZE then |payloads| else |payloads| + 1
    decreases |payloads|
  {
    if payloads == [] {
      assert payloads + [payload] == [payload] && [payload][1..] == [];
    } else {
      assert (payloads + [payload])[1..] == payloads[1..] + [payload];
      FirstStays(payloads[1..], payload);
    }
  }

  /** Before the first payload is accepted nothing gets through. */
  lemma {:induction false} NothingYet(payloads: seq<seq<Byte>>, through: nat -> bool)
    requires FirstAccepted(payloads) == |payloads|
    ensures Delivered(payloads, through) == []
    decreases |payloads|
  {
    if payloads != [] {
      var n := |payloads| - 1;
      assert payloads == payloads[..n] + [payloads[n]];
      FirstStays(payloads[..n], payloads[n]);
      NothingYet(payloads[..n], through);
    }
  }

  lemma OneMoreSent(payloads: seq<seq<Byte>>, payload: seq<Byte>, through: nat -> bool)
    ensures var n, accepted := |payloads|, |payload| < FRAME_MAX_SIZE;
            var headerSent := FirstAccepted(payloads) < n;
            && (FirstAccepted(payloads + [payload]) < n + 1 <==> headerSent || accepted)
            && Written(payloads + [payload], through)
               == if accepted && through(n) then
                    Written(payloads, through) + (if headerSent then [] else WA_HEADER) + FrameBytes(payload)
                  else Written(payloads, through)
  {
    hide FirstAccepted, Stream, FrameBytes, HeaderThrough, Delivered;
    var before, front := Delivered(payloads, through), HeaderThrough(payloads, through);
    FirstStays(payloads, payload);
    HeaderMore(payloads, payload, through);
    DeliveredMore(payloads, payload, through);
    StreamAppend(before, payload);
    EmptyStream();
    if FirstAccepted(payloads) == |payloads| {
      NothingYet(payloads, through);
    }
    var stream := Stream(before);
    assert before + [] == before;
    hide WA_HEADER;
    Assemble(front, FirstAccepted(payloads) < |payloads|, stream, FrameBytes(payload));
  }

  /** The next frame behind what is written, with the header in between if it is the first. */
  lemma Assemble(front: bool, headerSent: bool, stream: seq<Byte>, frame: seq<Byte>)
    requires !headerSent ==> !front && stream == []
    ensures (if front || !headerSent then WA_HEADER else []) + (stream + frame)
            == (if front then WA_HEADER else []) + stream + (if headerSent then [] else WA_HEADER) + frame
  {
    hide WA_HEADER;
    var h := WA_HEADER;
    if headerSent {
      var start := if front then h else [];
      assert start + stream + [] == start + stream;
    } else {
      assert [] + stream + h == h && stream + frame == frame;
    }
  }

  lemma HeaderMore(payloads: seq<seq<Byte>>, payload: seq<Byte>, through: nat -> bool)
    ensures HeaderThrough(payloads + [payload], through)
            <==> HeaderThrough(payloads, through)
                 || (FirstAccepted(payloads) == |payloads| && |payload| < FRAME_MAX_SIZE && through(|payloads|))
    ensures HeaderThrough(payloads, through) ==> FirstAccepted(payloads) < |payloads|
  {
    hide FirstAccepted;
    FirstStays(payloads, payload);
  }

  lemma DeliveredMore(payloads: seq<seq<Byte>>, payload: seq<Byte>, through: nat -> bool)
    ensures Delivered(payloads + [payload], through)
            == Delivered(payloads, through)
               + if |payload| < FRAME_MAX_SIZE && through(|payloads|) then [payload] else []
  {
    var all := payloads + [payload];
    assert all[..|payloads|] == payloads && all[|payloads|] == payload;
  }

  lemma EmptyStream()
    ensures Stream([]) == []
  {
  }

  /** A run of sends writes the header at most once, at the front, then the frames that get through, in order. */
  method SendAll(payloads: seq<seq<Byte>>, through: nat -> bool) returns (sent: seq<Byte>)
    ensures sent == Written(payloads, through)
  {
    hide Written, FirstAccepted;
    var socket := new FrameSocket();
    NothingWritten(through);
    for i := 0 to |payloads|
      invariant fresh(socket)
      invariant socket.headerSent <==> FirstAccepted(payloads[..i]) < i
      invariant socket.sent == Written(payloads[..i], through)
    {
      assert payloads[..i + 1] == payloads[..i] + [payloads[i]];
      OneMoreSent(payloads[..i], payloads[i], through);
      var _ := socket.Send(payloads[i], through(i));
    }
    assert payloads[..|payloads|] == payloads;
    sent := socket.sent;
  }

  lemma NothingWritten(through: nat -> bool)
    ensures Written([], through) == [] && FirstAccepted([]) == 0
  {
  }

  /**
   * What one end sends, the other end, past the header, turns back into the payloads that got
   * through. If the send that carried the header failed, no later one carries it, even on a
   * connection that has recovered.
   */
  lemma SentFramesParse(payloads: seq<seq<Byte>>, through: nat -> bool)
    ensures var sent := Written(payloads, through);
            if HeaderThrough(payloads, through) then
              && |sent| >= 4 && sent[..4] == WA_HEADER
              && FramesOf(sent[4..]) == Delivered(payloads, through) && RestOf(sent[4..]) == []
            else
              sent == Stream(Delivered(payloads, through)) && FramesOf(sent) == Delivered(payloads, through)
  {
    hide HeaderThrough, Delivered, FramesOf, RestOf;
    StreamParses(Delivered(payloads, through));
    var stream := Stream(Delivered(payloads, through));
    assert (WA_HEADER + stream)[..4] == WA_HEADER && (WA_HEADER + stream)[4..] == stream;
    assert [] + stream == stream;
  }

  /** The first of two sends fails and the second gets through: its frame goes out without the header. */
  lemma HeaderLost(through: nat -> bool)
    requires !through(0) && through(1)
    ensures Written([[1], [2]], through) == FrameBytes([2])
  {
    hide Written, FirstAccepted, FrameBytes;
    NothingWritten(through);
    OneMoreSent([], [1], through);
    assert [] + [[1]] == [[1]] && [[1]] + [[2]] == [[1], [2]];
    OneMoreSent([[1]], [2], through);
    assert [] + [] + FrameBytes([2]) == FrameBytes([2]);
  }
}
