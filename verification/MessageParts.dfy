/** Which parts of a message the extractors look at, named one by one, and what a reader finds in a built one. */
module MessageParts {
  import opened Wrappers
  import opened Sequences
  import opened Bytes
  import opened Protobuf
  import opened Messages
  import opened PeerRequest
  import Utf8

  // --- media ------------------------------------------------------------------------------------

  /** Where each kind of content keeps a part of its reference, part by part. */
  function PartOf(kind: string, name: string): Option<nat> {
    var timed := kind == "audio" || kind == "video";
    match name
    case "url" => Some(1)
    case "mimetype" => Some(2)
    case "file_sha256" => Some(if timed then 3 else 4)
    case "file_length" => Some(if timed then 4 else 5)
    case "seconds" => if timed then Some(5) else None
    case "ptt" => if kind == "audio" then Some(6) else None
    case "file_name" => if kind == "document" then Some(8) else None
    case "media_key" => Some(if kind == "image" then 8 else if kind == "video" then 6 else 7)
    case "file_enc_sha256" => Some(if kind == "audio" then 8 else if kind == "video" then 11 else 9)
    case "direct_path" =>
      Some(if kind == "audio" then 9 else if kind == "image" then 11 else if kind == "video" then 13 else 10)
    case _ => None
  }

  /** The content a message is taken for: audio first, then image, video and document. */
  function MediaContent(top: Fields): Option<(string, seq<Byte>)> {
    if FirstBytes(top, 8).Some? then Some(("audio", FirstBytes(top, 8).value))
    else if FirstBytes(top, 3).Some? then Some(("image", FirstBytes(top, 3).value))
    else if FirstBytes(top, 9).Some? then Some(("video", FirstBytes(top, 9).value))
    else if FirstBytes(top, 7).Some? then Some(("document", FirstBytes(top, 7).value))
    else None
  }

  /** The first value of a part, if the content has one. */
  function PartIn(kind: string, name: string, inner: Fields): Option<Val> {
    match PartOf(kind, name)
    case None => None
    case Some(num) => if num in inner && inner[num] != [] then Some(inner[num][0]) else None
  }

  /** A part that says something: a number other than 0, bytes other than none. */
  predicate Says(part: Option<Val>, repair: seq<Byte> -> string, binary: bool) {
    match part
    case None => false
    case Some(Int(n)) => n != 0
    case Some(Data(b)) => if binary then b != [] else Lenient(b, repair) != ""
  }

  lemma KindsAndFields()
    ensures |MEDIA_LAYOUT| == 4
    ensures MEDIA_LAYOUT[0].field == 8 && MEDIA_LAYOUT[1].field == 3 && MEDIA_LAYOUT[2].field == 9
    ensures MEDIA_LAYOUT[3].field == 7
    ensures MEDIA_LAYOUT[0].kind == "audio" && MEDIA_LAYOUT[1].kind == "image" && MEDIA_LAYOUT[2].kind == "video"
    ensures MEDIA_LAYOUT[3].kind == "document"
  {
  }

  predicate Named(slots: seq<(string, nat)>, name: string) {
    exists i :: 0 <= i < |slots| && slots[i].0 == name
  }

  /** A layout's slots are the parts of its kind, each named once. */
  ghost predicate SlotsAre(layout: Layout) {
    && (forall name: string :: PartOf(layout.kind, name).Some? ==> Named(layout.slots, name))
    && (forall i :: 0 <= i < |layout.slots| ==> PartOf(layout.kind, layout.slots[i].0) == Some(layout.slots[i].1))
    && (forall i, j :: 0 <= i < j < |layout.slots| ==> layout.slots[i].1 != layout.slots[j].1)
  }

  /** The parts of every kind, by name. */
  lemma PartNumbers(kind: string)
    ensures PartOf(kind, "url") == Some(1) && PartOf(kind, "mimetype") == Some(2)
    ensures var timed := kind == "audio" || kind == "video";
            && PartOf(kind, "file_sha256") == Some(if timed then 3 else 4)
            && PartOf(kind, "file_length") == Some(if timed then 4 else 5)
            && PartOf(kind, "seconds") == (if timed then Some(5) else None)
    ensures PartOf(kind, "ptt") == if kind == "audio" then Some(6) else None
    ensures PartOf(kind, "file_name") == if kind == "document" then Some(8) else None
    ensures PartOf(kind, "media_key") == Some(if kind == "image" then 8 else if kind == "video" then 6 else 7)
    ensures PartOf(kind, "file_enc_sha256") == Some(if kind == "audio" then 8 else if kind == "video" then 11 else 9)
    ensures PartOf(kind, "direct_path")
            == Some(if kind == "audio" then 9 else if kind == "image" then 11 else if kind == "video" then 13 else 10)
  {
  }

  lemma PartNames(kind: string, name: string)
    requires PartOf(kind, name).Some?
    ensures || name == "url" || name == "mimetype" || name == "file_sha256" || name == "file_length"
            || ((kind == "audio" || kind == "video") && name == "seconds") || (kind == "audio" && name == "ptt")
            || (kind == "document" && name == "file_name")
            || name == "media_key" || name == "file_enc_sha256" || name == "direct_path"
  {
  }

  /** Slots that follow the parts of a kind, at growing numbers, and leave none out. */
  lemma FromParts(layout: Layout)
    requires forall i :: 0 <= i < |layout.slots| ==> PartOf(layout.kind, layout.slots[i].0) == Some(layout.slots[i].1)
    requires forall i :: 0 < i < |layout.slots| ==> layout.slots[i - 1].1 < layout.slots[i].1
    requires forall name: string :: PartOf(layout.kind, name).Some? ==> Named(layout.slots, name)
    ensures SlotsAre(layout)
  {
    hide PartOf, Named;
    forall i, j | 0 <= i < j < |layout.slots| ensures layout.slots[i].1 < layout.slots[j].1 {
      Grown(layout.slots, i, j);
    }
  }

  lemma {:induction false} Grown(slots: seq<(string, nat)>, i: nat, j: nat)
    requires i < j < |slots| && forall k :: 0 < k < |slots| ==> slots[k - 1].1 < slots[k].1
    ensures slots[i].1 < slots[j].1
    decreases j - i
  {
    if i + 1 < j {
      Grown(slots, i, j - 1);
    }
  }

  lemma AllNamed(slots: seq<(string, nat)>)
    ensures forall i :: 0 <= i < |slots| ==> Named(slots, slots[i].0)
  {
  }

  lemma AudioSlots()
    ensures SlotsAre(MEDIA_LAYOUT[0])
  {
    hide SlotsAre, PartOf;
    AudioParts(MEDIA_LAYOUT[0].slots, MEDIA_LAYOUT[0].field);
  }

  lemma AudioParts(s: seq<(string, nat)>, field: nat)
    requires |s| == 9 && s[0] == ("url", 1) && s[1] == ("mimetype", 2) && s[2] == ("file_sha256", 3)
    requires s[3] == ("file_length", 4) && s[4] == ("seconds", 5) && s[5] == ("ptt", 6)
    requires s[6] == ("media_key", 7) && s[7] == ("file_enc_sha256", 8) && s[8] == ("direct_path", 9)
    ensures SlotsAre(Layout(field, "audio", s))
  {
    hide PartOf, SlotsAre, Named;
    PartNumbers("audio");
    AllNamed(s);
    forall name: string | PartOf("audio", name).Some? ensures Named(s, name) {
      PartNames("audio", name);
    }
    FromParts(Layout(field, "audio", s));
  }

  lemma ImageSlots()
    ensures SlotsAre(MEDIA_LAYOUT[1])
  {
    hide SlotsAre, PartOf;
    ImageParts(MEDIA_LAYOUT[1].slots, MEDIA_LAYOUT[1].field);
  }

  lemma ImageParts(s: seq<(string, nat)>, field: nat)
    requires |s| == 7 && s[0] == ("url", 1) && s[1] == ("mimetype", 2) && s[2] == ("file_sha256", 4)
    requires s[3] == ("file_length", 5) && s[4] == ("media_key", 8) && s[5] == ("file_enc_sha256", 9)
    requires s[6] == ("direct_path", 11)
    ensures SlotsAre(Layout(field, "image", s))
  {
    hide PartOf, SlotsAre, Named;
    PartNumbers("image");
    AllNamed(s);
    forall name: string | PartOf("image", name).Some? ensures Named(s, name) {
      PartNames("image", name);
    }
    FromParts(Layout(field, "image", s));
  }

  lemma VideoSlots()
    ensures SlotsAre(MEDIA_LAYOUT[2])
  {
    hide SlotsAre, PartOf;
    VideoParts(MEDIA_LAYOUT[2].slots, MEDIA_LAYOUT[2].field);
  }

  lemma VideoParts(s: seq<(string, nat)>, field: nat)
    requires |s| == 8 && s[0] == ("url", 1) && s[1] == ("mimetype", 2) && s[2] == ("file_sha256", 3)
    requires s[3] == ("file_length", 4) && s[4] == ("seconds", 5) && s[5] == ("media_key", 6)
    requires s[6] == ("file_enc_sha256", 11) && s[7] == ("direct_path", 13)
    ensures SlotsAre(Layout(field, "video", s))
  {
    hide PartOf, SlotsAre, Named;
    PartNumbers("video");
    AllNamed(s);
    forall name: string | PartOf("video", name).Some? ensures Named(s, name) {
      PartNames("video", name);
    }
    FromParts(Layout(field, "video", s));
  }

  lemma DocumentSlots()
    ensures SlotsAre(MEDIA_LAYOUT[3])
  {
    hide SlotsAre, PartOf;
    DocumentParts(MEDIA_LAYOUT[3].slots, MEDIA_LAYOUT[3].field);
  }

  lemma DocumentParts(s: seq<(string, nat)>, field: nat)
    requires |s| == 8 && s[0] == ("url", 1) && s[1] == ("mimetype", 2) && s[2] == ("file_sha256", 4)
    requires s[3] == ("file_length", 5) && s[4] == ("media_key", 7) && s[5] == ("file_name", 8)
    requires s[6] == ("file_enc_sha256", 9) && s[7] == ("direct_path", 10)
    ensures SlotsAre(Layout(field, "document", s))
  {
    hide PartOf, SlotsAre, Named;
    PartNumbers("document");
    AllNamed(s);
    forall name: string | PartOf("document", name).Some? ensures Named(s, name) {
      PartNames("document", name);
    }
    FromParts(Layout(field, "document", s));
  }

  /** With every name different, a name is filled exactly if its slot is, with the slot's first value. */
  lemma {:induction false} FilledEntries(
    slots: seq<(string, nat)>, m: Fields, repair: seq<Byte> -> string, acc: map<string, RefValue>, name: string)
    requires forall i, j :: 0 <= i < j < |slots| ==> slots[i].0 != slots[j].0
    ensures !Named(slots, name) ==>
              (name in Entries(slots, m, repair, acc) <==> name in acc)
              && (name in acc ==> Entries(slots, m, repair, acc)[name] == acc[name])
    ensures forall i :: 0 <= i < |slots| && slots[i].0 == name && name !in acc ==>
              var e, num := Entries(slots, m, repair, acc), slots[i].1;
              && (name in e <==> num in m && m[num] != [])
              && (name in e ==> e[name] == RefOf(name, m[num][0], repair))
    decreases |slots|
  {
    hide RefOf;
    if slots != [] {
      var (first, num) := slots[0];
      var rest := slots[1..];
      var acc' := if num in m && m[num] != [] then acc[first := RefOf(first, m[num][0], repair)] else acc;
      assert forall i :: 0 <= i < |rest| ==> rest[i] == slots[i + 1];
      FilledEntries(rest, m, repair, acc', name);
      if Named(rest, name) {
        var i :| 0 <= i < |rest| && rest[i].0 == name;
        assert slots[i + 1].0 == name;
      }
    }
  }

  /** The reference of one kind of content, part by part. */
  lemma EntriesAreParts(layout: Layout, inner: Fields, repair: seq<Byte> -> string, name: string)
    requires SlotsAre(layout)
    ensures var e, part := Entries(layout.slots, inner, repair, map[]), PartIn(layout.kind, name, inner);
            && (name in e <==> part.Some?)
            && (name in e ==>
                  e[name] == match part.value
                             case Int(n) => RefNumber(n)
                             case Data(b) =>
                               if name == "media_key" || name == "file_sha256" || name == "file_enc_sha256" then
                                 RefBase64(b)
                               else RefText(Lenient(b, repair)))
  {
    hide Entries, PartOf, Lenient;
    forall i, j | 0 <= i < j < |layout.slots| ensures layout.slots[i].0 != layout.slots[j].0 {
      assert PartOf(layout.kind, layout.slots[i].0) != PartOf(layout.kind, layout.slots[j].0);
    }
    FilledEntries(layout.slots, inner, repair, map[], name);
    if Named(layout.slots, name) {
      var i :| 0 <= i < |layout.slots| && layout.slots[i].0 == name;
      assert PartOf(layout.kind, layout.slots[i].0) == Some(layout.slots[i].1);
    }
  }

  /**
   * What a message with a media content yields: the parts of its kind, each the first value of its number,
   * if it has a key and a place to fetch from; nothing if it has not, or its content is malformed.
   */
  lemma MediaYields(plaintext: seq<Byte>, depth: nat, repair: seq<Byte> -> string)
    requires depth <= 4 && Parse(plaintext).Value? && MediaContent(Parse(plaintext).value).Some?
    ensures var (kind, content) := MediaContent(Parse(plaintext).value).value;
            var r := ExtractMedia(plaintext, depth, repair);
            match Parse(content)
            case IndexError => r == IndexError
            case ValueError => r == Value(None)
            case Value(inner) =>
              && r.Value?
              && (r.value.Some? <==>
                    && Says(PartIn(kind, "media_key", inner), repair, true)
                    && (Says(PartIn(kind, "url", inner), repair, false)
                        || Says(PartIn(kind, "direct_path", inner), repair, false)))
              && (r.value.Some? ==>
                    && r.value.value.kind == kind
                    && forall name: string ::
                         var e, part := r.value.value.entries, PartIn(kind, name, inner);
                         && (name in e <==> part.Some?)
                         && (name in e ==>
                               e[name] == match part.value
                                          case Int(n) => RefNumber(n)
                                          case Data(b) =>
                                            if name == "media_key" || name == "file_sha256"
                                               || name == "file_enc_sha256" then RefBase64(b)
                                            else RefText(Lenient(b, repair))))
  {
    hide Parse, FirstBytes, Entries, PartIn, SlotsAre, Lenient, PartOf;
    var top := Parse(plaintext).value;
    var layout := ChosenLayout(top);
    var (kind, content) := MediaContent(top).value;
    if Parse(content).Value? {
      var inner := Parse(content).value;
      forall name: string
        ensures var e, part := Entries(layout.slots, inner, repair, map[]), PartIn(kind, name, inner);
                && (name in e <==> part.Some?)
                && (name in e ==>
                      e[name] == match part.value
                                 case Int(n) => RefNumber(n)
                                 case Data(b) =>
                                   if name == "media_key" || name == "file_sha256" || name == "file_enc_sha256" then
                                     RefBase64(b)
                                   else RefText(Lenient(b, repair)))
      {
        EntriesAreParts(layout, inner, repair, name);
      }
    }
  }

  lemma ChosenLayout(top: Fields) returns (layout: Layout)
    requires MediaContent(top).Some?
    ensures FirstLayout(top, MEDIA_LAYOUT) == Some((layout, MediaContent(top).value.1))
    ensures SlotsAre(layout) && layout.kind == MediaContent(top).value.0
  {
    hide FirstBytes, SlotsAre, PartOf;
    AudioSlots();
    ImageSlots();
    VideoSlots();
    DocumentSlots();
    KindsAndFields();
    var l := MEDIA_LAYOUT;
    assert l[1..][1..] == l[2..] && l[2..][1..] == l[3..] && l[3..][1..] == [];
    hide MEDIA_LAYOUT;
    assert FirstLayout(top, l[3..])
           == if FirstBytes(top, 7).Some? then Some((l[3], FirstBytes(top, 7).value)) else None;
    assert FirstLayout(top, l[2..])
           == if FirstBytes(top, 9).Some? then Some((l[2], FirstBytes(top, 9).value)) else FirstLayout(top, l[3..]);
    assert FirstLayout(top, l[1..])
           == if FirstBytes(top, 3).Some? then Some((l[1], FirstBytes(top, 3).value)) else FirstLayout(top, l[2..]);
    layout := FirstLayout(top, l).value.0;
  }

  // --- replies and wrappers --------------------------------------------------------------------------

  /** The content whose context is looked at: the first of six kinds. */
  function QuotingContent(top: Fields): Option<seq<Byte>> {
    if FirstBytes(top, 6).Some? then FirstBytes(top, 6)
    else if FirstBytes(top, 3).Some? then FirstBytes(top, 3)
    else if FirstBytes(top, 9).Some? then FirstBytes(top, 9)
    else if FirstBytes(top, 7).Some? then FirstBytes(top, 7)
    else if FirstBytes(top, 8).Some? then FirstBytes(top, 8)
    else FirstBytes(top, 26)
  }

  /** What one wrapper holds; a malformed one holds nothing. */
  function Through(top: Fields, outer: nat, inner: nat): Outcome<Option<seq<Byte>>> {
    match FirstBytes(top, outer)
    case None => Value(None)
    case Some(wrapped) =>
      match Parse(wrapped)
      case IndexError => IndexError
      case ValueError => Value(None)
      case Value(f) => Value(FirstBytes(f, inner))
  }

  function Else(first: Outcome<Option<seq<Byte>>>, then_: Outcome<Option<seq<Byte>>>): Outcome<Option<seq<Byte>>> {
    if first == Value(None) then then_ else first
  }

  /** Five wrappers, in this order. */
  function InWrappers(top: Fields): Outcome<Option<seq<Byte>>> {
    Else(Through(top, 31, 2), Else(Through(top, 40, 1),
         Else(Through(top, 37, 1), Else(Through(top, 55, 1), Through(top, 53, 1)))))
  }

  lemma WrappersInOrder(top: Fields)
    ensures Nested(top, WRAPPERS) == InWrappers(top)
  {
    hide Parse, FirstBytes;
    var w := WRAPPERS;
    assert w == [(31, 2), (40, 1), (37, 1), (55, 1), (53, 1)];
    var w1, w2: seq<(nat, nat)>, w3: seq<(nat, nat)> := w[1..], w[2..], w[3..];
    var w4: seq<(nat, nat)>, w5: seq<(nat, nat)> := w[4..], w[5..];
    assert w1[1..] == w2 && w2[1..] == w3 && w3[1..] == w4 && w4[1..] == w5 && |w5| == 0;
    hide Nested, WRAPPERS;
    NestedStep(top, w);
    NestedStep(top, w1);
    NestedStep(top, w2);
    NestedStep(top, w3);
    NestedStep(top, w4);
    NestedNowhere(top);
  }

  lemma NestedStep(top: Fields, wrappers: seq<(nat, nat)>)
    requires wrappers != []
    ensures Nested(top, wrappers) == Else(Through(top, wrappers[0].0, wrappers[0].1), Nested(top, wrappers[1..]))
    ensures Nested(top, wrappers) != ValueError
    decreases |wrappers|
  {
    hide Parse, FirstBytes;
    if |wrappers| > 1 {
      NestedStep(top, wrappers[1..]);
    }
  }

  lemma NestedNowhere(top: Fields)
    ensures Nested(top, []).Value? && Nested(top, []).value == None
  {
  }

  lemma FirstContent(top: Fields)
    ensures match FirstOf(top, CONTENT_WITH_CONTEXT)
            case Some((_, content)) => QuotingContent(top) == Some(content)
            case None => QuotingContent(top) == None
  {
    hide FirstBytes;
    var c := CONTENT_WITH_CONTEXT;
    assert c == [6, 3, 9, 7, 8, 26];
    var c1, c2, c3, c4, c5 := c[1..], c[2..], c[3..], c[4..], c[5..];
    assert c1[1..] == c2 && c2[1..] == c3 && c3[1..] == c4 && c4[1..] == c5 && |c5[1..]| == 0;
    hide FirstOf;
    FirstOfStep(top, c);
    FirstOfStep(top, c1);
    FirstOfStep(top, c2);
    FirstOfStep(top, c3);
    FirstOfStep(top, c4);
    FirstOfStep(top, c5);
    FirstOfNone(top, []);
  }

  lemma FirstOfStep(top: Fields, nums: seq<nat>)
    requires nums != []
    ensures FirstOf(top, nums)
            == if FirstBytes(top, nums[0]).Some? then Some((nums[0], FirstBytes(top, nums[0]).value))
               else FirstOf(top, nums[1..])
  {
  }

  /** What a context names, as text; malformed or missing parts name nothing. */
  function QuotedBy(content: seq<Byte>): Outcome<string> {
    match Parse(content)
    case IndexError => IndexError
    case ValueError => Value("")
    case Value(f) =>
      if FirstBytes(f, 17).None? then Value("")
      else match Parse(FirstBytes(f, 17).value)
        case IndexError => IndexError
        case ValueError => Value("")
        case Value(c) => Value(if FirstBytes(c, 1).Some? then Utf8.Decode(FirstBytes(c, 1).value).GetOr("") else "")
  }

  /**
   * The extractor's answer, step by step: a content's context decides; without one the wrapped message does,
   * one layer further down.
   */
  lemma QuotedYields(plaintext: seq<Byte>, depth: nat)
    ensures depth > 4 || !Parse(plaintext).Value? ==> ExtractQuotedId(plaintext, depth) == Value("")
    ensures depth <= 4 && Parse(plaintext).Value? ==>
            var top, r := Parse(plaintext).value, ExtractQuotedId(plaintext, depth);
            if QuotingContent(top).Some? then r == QuotedBy(QuotingContent(top).value)
            else match InWrappers(top)
              case Value(Some(message)) => r == ExtractQuotedId(message, depth + 1)
              case Value(None) => r == Value("")
              case _ => r == IndexError
  {
    hide Parse, FirstBytes, Utf8.Decode, FirstOf, QuotingContent, Nested, InWrappers;
    if Parse(plaintext).Value? {
      var top := Parse(plaintext).value;
      FirstContent(top);
      WrappersInOrder(top);
      NestedStep(top, WRAPPERS);
    }
  }

  /** The destination of an own copy: field 1 of field 31, and "" when either is missing, empty or malformed. */
  lemma DestinationYields(plaintext: seq<Byte>, repair: seq<Byte> -> string)
    ensures var r := DeviceSentDestination(plaintext, repair);
            match Parse(plaintext)
            case IndexError => r == IndexError
            case ValueError => r == Value("")
            case Value(top) =>
              if FirstBytes(top, 31).None? then r == Value("")
              else match Parse(FirstBytes(top, 31).value)
                case IndexError => r == IndexError
                case ValueError => r == Value("")
                case Value(f) =>
                  match FirstBytes(f, 1)
                  case None => r == Value("")
                  case Some(to) =>
                    && (to == [] ==> r == Value(""))
                    && (to != [] && Utf8.Decode(to).Some? ==> r == Value(Utf8.Decode(to).value))
                    && (to != [] && Utf8.Decode(to).None? ==> r == Value(repair(to)))
  {
    hide Parse, FirstBytes, Utf8.Decode;
  }

  /** And the media extractor's, when the message has no media content itself; beyond five messages it gives up. */
  lemma MediaWithin(plaintext: seq<Byte>, depth: nat, repair: seq<Byte> -> string)
    ensures depth > 4 || !Parse(plaintext).Value? ==> ExtractMedia(plaintext, depth, repair) == Value(None)
    ensures depth <= 4 && Parse(plaintext).Value? && MediaContent(Parse(plaintext).value).None? ==>
            var r := ExtractMedia(plaintext, depth, repair);
            match InWrappers(Parse(plaintext).value)
            case Value(Some(message)) => r == ExtractMedia(message, depth + 1, repair)
            case Value(None) => r == Value(None)
            case _ => r == IndexError
  {
    hide Parse, FirstBytes, Nested, InWrappers;
    if Parse(plaintext).Value? && MediaContent(Parse(plaintext).value).None? {
      var top := Parse(plaintext).value;
      KindsAndFields();
      FirstLayoutNone(top, MEDIA_LAYOUT);
      WrappersInOrder(top);
      NestedStep(top, WRAPPERS);
    }
  }

  // --- built messages -------------------------------------------------------------------------------------

  /** Opening a built reply gives the text, the quoted id, the participant and the preview back. */
  lemma ReplyParses(text: string, quotedId: string, participant: string, quotedText: string)
    requires |ReplyPlaintext(text, quotedId, participant, quotedText)| < TWO64
    ensures var extended := Inside(ReplyPlaintext(text, quotedId, participant, quotedText), 6);
            var context := Inside(extended, 17);
            && Inside(extended, 1) == Utf8.Encode(text)
            && Inside(context, 1) == Utf8.Encode(quotedId) && Inside(context, 2) == Utf8.Encode(participant)
            && Inside(Inside(context, 3), 1) == Utf8.Encode(quotedText)
  {
    hide Inside, Parse, VarintBytes, Utf8.Encode;
    var q := [TextField(1, quotedText)];
    MessageOf1(q[0]);
    var c := [TextField(1, quotedId), TextField(2, participant), DataField(3, Message(q))];
    MessageOf3(c[0], c[1], c[2]);
    var e := [TextField(1, text), DataField(17, Message(c))];
    MessageOf2(e[0], e[1]);
    var m := [DataField(6, Message(e))];
    MessageOf1(m[0]);
    assert ReplyPlaintext(text, quotedId, participant, quotedText) == Message(m);
    hide ReplyPlaintext, Message;
    PartsFit(m, 0);
    InsideOf(m, 0);
    PartsFit(e, 0); PartsFit(e, 1);
    InsideOf(e, 0); InsideOf(e, 1);
    PartsFit(c, 0); PartsFit(c, 1); PartsFit(c, 2);
    InsideOf(c, 0); InsideOf(c, 1); InsideOf(c, 2);
    PartsFit(q, 0);
    InsideOf(q, 0);
  }

  /** The fields of a document, number by number; optional ones that are missing or empty are not there. */
  function DocumentField(doc: DocumentInfo, num: nat): seq<Val> {
    var thumb := doc.jpegThumbnail.GetOr([]) != [];
    match num
    case 1 => [Data(Utf8.Encode(doc.url))]
    case 2 => [Data(Utf8.Encode(doc.mimetype))]
    case 3 => if doc.title.GetOr("") != "" then [Data(Utf8.Encode(doc.title.value))] else []
    case 4 => [Data(doc.fileSha256)]
    case 5 => [Int(doc.fileLength % TWO64)]
    case 7 => [Data(doc.mediaKey)]
    case 8 => [Data(Utf8.Encode(doc.fileName))]
    case 9 => [Data(doc.fileEncSha256)]
    case 10 => [Data(Utf8.Encode(doc.directPath))]
    case 11 => [Int(doc.mediaKeyTimestamp % TWO64)]
    case 16 => if thumb then [Data(doc.jpegThumbnail.value)] else []
    case 18 => if thumb && doc.thumbnailHeight.GetOr(0) != 0 then [Int(doc.thumbnailHeight.value % TWO64)] else []
    case 19 => if thumb && doc.thumbnailWidth.GetOr(0) != 0 then [Int(doc.thumbnailWidth.value % TWO64)] else []
    case 20 => if doc.caption.GetOr("") != "" then [Data(Utf8.Encode(doc.caption.value))] else []
    case _ => []
  }

  lemma {:induction false} ValuesConcat(a: seq<Field>, b: seq<Field>, num: nat)
    ensures ValuesOf(a + b, num) == ValuesOf(a, num) + ValuesOf(b, num)
    decreases |a|
  {
    if a == [] {
      assert a + b == b;
    } else {
      assert (a + b)[1..] == a[1..] + b;
      ValuesConcat(a[1..], b, num);
      var first := if a[0].num == num then [ValOf(a[0])] else [];
      Regroup(first, ValuesOf(a[1..], num), ValuesOf(b, num));
    }
  }

  lemma ValuesOfOne(f: Field, num: nat)
    ensures ValuesOf([f], num) == if f.num == num then [ValOf(f)] else []
  {
    assert [f][1..] == [];
  }

  lemma CoreParts(doc: DocumentInfo, num: nat)
    ensures ValuesOf(CoreFields(doc), num)
            == if num in {4, 5, 7, 8, 9, 10, 11} then DocumentField(doc, num) else []
  {
    hide ValuesOf, Utf8.Encode;
    var c := CoreFields(doc);
    assert c == [c[0]] + [c[1]] + [c[2]] + [c[3]] + [c[4]] + [c[5]] + [c[6]];
    ValuesConcat([c[0]], [c[1]], num);
    ValuesConcat([c[0]] + [c[1]], [c[2]], num);
    ValuesConcat([c[0]] + [c[1]] + [c[2]], [c[3]], num);
    ValuesConcat([c[0]] + [c[1]] + [c[2]] + [c[3]], [c[4]], num);
    ValuesConcat([c[0]] + [c[1]] + [c[2]] + [c[3]] + [c[4]], [c[5]], num);
    ValuesConcat([c[0]] + [c[1]] + [c[2]] + [c[3]] + [c[4]] + [c[5]], [c[6]], num);
    forall i | 0 <= i < 7 ensures ValuesOf([c[i]], num) == if c[i].num == num then [ValOf(c[i])] else [] {
      ValuesOfOne(c[i], num);
    }
  }

  lemma HeadParts(doc: DocumentInfo, num: nat)
    ensures ValuesOf(HeadFields(doc), num) == if num in {1, 2, 3} then DocumentField(doc, num) else []
  {
    hide ValuesOf, Utf8.Encode;
    var a, b := TextField(1, doc.url), TextField(2, doc.mimetype);
    assert [a, b] == [a] + [b];
    ValuesConcat([a], [b], num);
    ValuesConcat([a, b], OptionalText(3, doc.title), num);
    ValuesOfOne(a, num);
    ValuesOfOne(b, num);
    OptionalParts(3, doc.title, num);
  }

  lemma OptionalParts(field: nat, text: Option<string>, num: nat)
    ensures ValuesOf(OptionalText(field, text), num)
            == if field == num && text.GetOr("") != "" then [Data(Utf8.Encode(text.value))] else []
  {
    if text.GetOr("") != "" {
      ValuesOfOne(TextField(field, text.value), num);
    }
  }

  lemma OptionalSizes(field: nat, n: Option<int>, num: nat)
    ensures ValuesOf(OptionalNumber(field, n), num)
            == if field == num && n.GetOr(0) != 0 then [Int(n.value % TWO64)] else []
  {
    if n.GetOr(0) != 0 {
      ValuesOfOne(VarintField(field, n.value), num);
    }
  }

  lemma ThumbnailParts(doc: DocumentInfo, num: nat)
    ensures ValuesOf(ThumbnailFields(doc), num) == if num in {16, 18, 19} then DocumentField(doc, num) else []
  {
    hide ValuesOf, Utf8.Encode, OptionalNumber;
    if doc.jpegThumbnail.GetOr([]) != [] {
      var t, h, w := [DataField(16, doc.jpegThumbnail.value)], OptionalNumber(18, doc.thumbnailHeight),
                     OptionalNumber(19, doc.thumbnailWidth);
      ValuesConcat(t + h, w, num);
      ValuesConcat(t, h, num);
      ValuesOfOne(t[0], num);
      OptionalSizes(18, doc.thumbnailHeight, num);
      OptionalSizes(19, doc.thumbnailWidth, num);
    } else {
      NoValue([], num);
    }
  }

  /** Parsing a built document finds every field it was built from under its number, and nothing else. */
  lemma DocumentParses(doc: DocumentInfo, num: nat)
    requires |Message(DocFields(doc))| < TWO64
    ensures Parse(Message(DocFields(doc))).Value?
    ensures var m := Parse(Message(DocFields(doc))).value;
            && (num in m <==> DocumentField(doc, num) != [])
            && (num in m ==> m[num] == DocumentField(doc, num))
  {
    hide Message, Parse, ValuesOf, Utf8.Encode, HeadFields, CoreFields, ThumbnailFields, OptionalText;
    DocWritable(doc);
    ParseOfMessage(DocFields(doc));
    var h, c, t, o := HeadFields(doc), CoreFields(doc), ThumbnailFields(doc), OptionalText(20, doc.caption);
    ValuesConcat(h + c + t, o, num);
    ValuesConcat(h + c, t, num);
    ValuesConcat(h, c, num);
    HeadParts(doc, num);
    CoreParts(doc, num);
    ThumbnailParts(doc, num);
    OptionalParts(20, doc.caption, num);
  }
}
