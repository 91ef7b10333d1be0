/** The on-demand history request, nested four messages deep. */
module PeerRequest {
  import opened Bytes
  import opened Protobuf
  import Utf8

  method BuildHistorySyncOnDemand(chatJid: string, oldestMsgId: string, oldestTs: int, oldestFromMe: bool, count: int)
    returns (body: seq<Byte>)
    ensures body == Message(OnDemandFields(chatJid, oldestMsgId, oldestTs, oldestFromMe, count))
  {
    hide Message, LengthDelim, VarintFieldBytes;
    body := [];
    body := body + LengthDelim(1, Utf8.Encode(chatJid));
    body := body + LengthDelim(2, Utf8.Encode(oldestMsgId));
    body := body + VarintFieldBytes(3, if oldestFromMe then 1 else 0);
    body := body + VarintFieldBytes(4, count);
    body := body + VarintFieldBytes(5, oldestTs);
    MessageOf5(DataField(1, Utf8.Encode(chatJid)), DataField(2, Utf8.Encode(oldestMsgId)),
               VarintField(3, if oldestFromMe then 1 else 0), VarintField(4, count), VarintField(5, oldestTs));
  }

  function OnDemandFields(chatJid: string, oldestMsgId: string, oldestTs: int, oldestFromMe: bool, count: int)
    : seq<Field>
  {
    [DataField(1, Utf8.Encode(chatJid)), DataField(2, Utf8.Encode(oldestMsgId)),
     VarintField(3, if oldestFromMe then 1 else 0), VarintField(4, count), VarintField(5, oldestTs)]
  }

  method BuildPeerDataRequest(chatJid: string, oldestMsgId: string, oldestTs: int, oldestFromMe: bool, count: int)
    returns (msg: seq<Byte>)
    ensures msg == RequestBytes(OnDemandFields(chatJid, oldestMsgId, oldestTs, oldestFromMe, count))
  {
    var hsod := BuildHistorySyncOnDemand(chatJid, oldestMsgId, oldestTs, oldestFromMe, count);
    var pdor := VarintFieldBytes(1, 3);
    pdor := pdor + LengthDelim(4, hsod);
    MessageOf2(VarintField(1, 3), DataField(4, hsod));
    var pm := VarintFieldBytes(2, 16);
    pm := pm + LengthDelim(16, pdor);
    MessageOf2(VarintField(2, 16), DataField(16, pdor));
    msg := LengthDelim(12, pm);
    MessageOf1(DataField(12, pm));
  }

  /** A request body inside its three envelopes. */
  function RequestBytes(body: seq<Field>): seq<Byte> {
    var pdor := Message([VarintField(1, 3), DataField(4, Message(body))]);
    var pm := Message([VarintField(2, 16), DataField(16, pdor)]);
    Message([DataField(12, pm)])
  }

  /** The only value of a field, when it is length-delimited. */
  function Inside(d: seq<Byte>, num: nat): (r: seq<Byte>) {
    match Parse(d)
    case Value(m) => if num in m && |m[num]| == 1 && m[num][0].Data? then m[num][0].b else []
    case _ => []
  }

  lemma InsideOf(fs: seq<Field>, i: nat)
    requires (forall k :: 0 <= k < |fs| ==> Writable(fs[k])) && i < |fs| && fs[i].DataField?
    requires forall k :: 0 <= k < |fs| && k != i ==> fs[k].num != fs[i].num
    ensures Inside(Message(fs), fs[i].num) == fs[i].body
  {
    hide Message, Parse, Writable;
    ParseOfMessage(fs);
    OnlyValue(fs, i);
  }

  /**
   * Opening the envelopes of a request gives every argument back: both texts, the flag, and the two
   * integers modulo 2^64; on the way stand the message type 16, a peer data operation, and the operation 3,
   * history sync on demand. The only assumption is that the request has a length.
   */
  lemma RequestParses(chatJid: string, oldestMsgId: string, oldestTs: int, oldestFromMe: bool, count: int)
    requires |RequestBytes(OnDemandFields(chatJid, oldestMsgId, oldestTs, oldestFromMe, count))| < TWO64
    ensures var body := Inside(Inside(Inside(
              RequestBytes(OnDemandFields(chatJid, oldestMsgId, oldestTs, oldestFromMe, count)), 12), 16), 4);
            && Parse(body).Value?
            && Parse(body).value == map[
                 1 := [Data(Utf8.Encode(chatJid))],
                 2 := [Data(Utf8.Encode(oldestMsgId))],
                 3 := [Int(if oldestFromMe then 1 else 0)],
                 4 := [Int(count % TWO64)],
                 5 := [Int(oldestTs % TWO64)]]
    ensures var pm := Inside(RequestBytes(OnDemandFields(chatJid, oldestMsgId, oldestTs, oldestFromMe, count)), 12);
            && Parse(pm).Value? && Parse(Inside(pm, 16)).Value?
            && 2 in Parse(pm).value && Parse(pm).value[2] == [Int(16)]
            && 1 in Parse(Inside(pm, 16)).value && Parse(Inside(pm, 16)).value[1] == [Int(3)]
  {
    var body := OnDemandFields(chatJid, oldestMsgId, oldestTs, oldestFromMe, count);
    hide Message, Inside, Parse, ValuesOf;
    var pdor := [VarintField(1, 3), DataField(4, Message(body))];
    var pm := [VarintField(2, 16), DataField(16, Message(pdor))];
    var msg := [DataField(12, Message(pm))];
    PartsFit(msg, 0);
    PartsFit(pm, 1);
    PartsFit(pdor, 1);
    InsideOf(msg, 0);
    InsideOf(pm, 1);
    InsideOf(pdor, 1);
    ParseOfMessage(pm);
    ParseOfMessage(pdor);
    OnlyValue(pm, 0);
    OnlyValue(pdor, 0);
    PartsFit(body, 0);
    PartsFit(body, 1);
    ParseOfMessage(body);
    OnlyValue(body, 0); OnlyValue(body, 1); OnlyValue(body, 2); OnlyValue(body, 3); OnlyValue(body, 4);
    var m := Parse(Message(body)).value;
    forall num: nat | num !in {1, 2, 3, 4, 5} ensures num !in m {
      NoValue(body, num);
    }
  }
}
