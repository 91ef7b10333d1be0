/** Message builders, device-sent wrapping, and the extractors that see through wrappers. */
module Messages {
  import opened Wrappers
  import opened Bytes
  import opened Protobuf
  import Utf8

  // --- builders ----------------------------------------------------------------------

  datatype DocumentInfo = DocumentInfo(
    url: string, directPath: string, mimetype: string, fileName: string,
    mediaKey: seq<Byte>, fileSha256: seq<Byte>, fileEncSha256: seq<Byte>,
    fileLength: int, mediaKeyTimestamp: int,
    caption: Option<string>, title: Option<string>, jpegThumbnail: Option<seq<Byte>>,
    thumbnailWidth: Option<int>, thumbnailHeight: Option<int>)

  function TextField(num: nat, s: string): Field {
    DataField(num, Utf8.Encode(s))
  }

  /** An optional text field is written when it is present and not empty. */
  function OptionalText(num: nat, s: Option<string>): seq<Field> {
    if s.GetOr("") == "" then [] else [TextField(num, s.value)]
  }

  function OptionalNumber(num: nat, n: Option<int>): seq<Field> {
    if n.GetOr(0) == 0 then [] else [VarintField(num, n.value)]
  }

  /** The thumbnail and, only with it, its dimensions. */
  function ThumbnailFields(doc: DocumentInfo): seq<Field> {
    if doc.jpegThumbnail.GetOr([]) == [] then []
    else [DataField(16, doc.jpegThumbnail.value)]
         + OptionalNumber(18, doc.thumbnailHeight) + OptionalNumber(19, doc.thumbnailWidth)
  }

  function CoreFields(doc: DocumentInfo): seq<Field> {
    [DataField(4, doc.fileSha256), VarintField(5, doc.fileLength), DataField(7, doc.mediaKey),
     TextField(8, doc.fileName), DataField(9, doc.fileEncSha256), TextField(10, doc.directPath),
     VarintField(11, doc.mediaKeyTimestamp)]
  }

  function HeadFields(doc: DocumentInfo): seq<Field> {
    [TextField(1, doc.url), TextField(2, doc.mimetype)] + OptionalText(3, doc.title)
  }

  function DocFields(doc: DocumentInfo): seq<Field> {
    HeadFields(doc) + CoreFields(doc) + ThumbnailFields(doc) + OptionalText(20, doc.caption)
  }

  method Append(ghost fs: seq<Field>, body: seq<Byte>, f: Field) returns (r: seq<Byte>)
    requires body == Message(fs)
    ensures r == Message(fs + [f])
  {
    MessageConcat(fs, [f]);
    MessageOf1(f);
    r := body + match f
                case VarintField(num, n) => VarintFieldBytes(num, n)
                case DataField(num, b) => LengthDelim(num, b);
  }

  method BuildDocumentMessage(doc: DocumentInfo) returns (body: seq<Byte>)
    ensures body == Message(DocFields(doc))
  {
    hide Message, Utf8.Encode;
    ghost var fs: seq<Field> := [];
    EmptyMessage();
    body := [];
    body := Append(fs, body, TextField(1, doc.url)); fs := fs + [TextField(1, doc.url)];
    body := Append(fs, body, TextField(2, doc.mimetype)); fs := fs + [TextField(2, doc.mimetype)];
    if doc.title.GetOr("") != "" {
      body := Append(fs, body, TextField(3, doc.title.value)); fs := fs + [TextField(3, doc.title.value)];
    }
    assert fs == HeadFields(doc);
    body := AppendCore(fs, body, doc);
    fs := fs + CoreFields(doc);
    ghost var core := fs;
    if doc.jpegThumbnail.GetOr([]) != [] {
      var thumb := DataField(16, doc.jpegThumbnail.value);
      body := Append(fs, body, thumb); fs := fs + [thumb];
      if doc.thumbnailHeight.GetOr(0) != 0 {
        var height := VarintField(18, doc.thumbnailHeight.value);
        body := Append(fs, body, height); fs := fs + [height];
      }
      if doc.thumbnailWidth.GetOr(0) != 0 {
        var width := VarintField(19, doc.thumbnailWidth.value);
        body := Append(fs, body, width); fs := fs + [width];
      }
    }
    assert fs == core + ThumbnailFields(doc);
    if doc.caption.GetOr("") != "" {
      body := Append(fs, body, TextField(20, doc.caption.value)); fs := fs + [TextField(20, doc.caption.value)];
    }
    assert fs == DocFields(doc);
  }

  method AppendCore(ghost before: seq<Field>, start: seq<Byte>, doc: DocumentInfo) returns (body: seq<Byte>)
    requires start == Message(before)
    ensures body == Message(before + CoreFields(doc))
  {
    hide Message, Utf8.Encode;
    ghost var fs := before;
    body := start;
    body := Append(fs, body, DataField(4, doc.fileSha256)); fs := fs + [DataField(4, doc.fileSha256)];
    body := Append(fs, body, VarintField(5, doc.fileLength)); fs := fs + [VarintField(5, doc.fileLength)];
    body := Append(fs, body, DataField(7, doc.mediaKey)); fs := fs + [DataField(7, doc.mediaKey)];
    body := Append(fs, body, TextField(8, doc.fileName)); fs := fs + [TextField(8, doc.fileName)];
    body := Append(fs, body, DataField(9, doc.fileEncSha256)); fs := fs + [DataField(9, doc.fileEncSha256)];
    body := Append(fs, body, TextField(10, doc.directPath)); fs := fs + [TextField(10, doc.directPath)];
    body := Append(fs, body, VarintField(11, doc.mediaKeyTimestamp));
    fs := fs + [VarintField(11, doc.mediaKeyTimestamp)];
    assert fs == before + CoreFields(doc);
  }

  lemma EmptyMessage()
    ensures Message([]) == []
  {
  }

  function DocumentPlaintext(doc: DocumentInfo): seq<Byte> {
    LengthDelim(7, Message(DocFields(doc)))
  }

  function StringFieldBytes(num: nat, s: string): seq<Byte> {
    LengthDelim(num, Utf8.Encode(s))
  }

  /** Text, quoted id, quoted participant and a preview, as an extended text message. */
  function ReplyPlaintext(text: string, quotedId: string, participant: string, quotedText: string): seq<Byte> {
    var quoted := StringFieldBytes(1, quotedText);
    var context := StringFieldBytes(1, quotedId) + StringFieldBytes(2, participant) + LengthDelim(3, quoted);
    var extended := StringFieldBytes(1, text) + LengthDelim(CONTEXT_INFO_FIELD, context);
    LengthDelim(6, extended)
  }

  function WrapDeviceSent(message: seq<Byte>, destination: string): seq<Byte> {
    LengthDelim(31, StringFieldBytes(1, destination) + LengthDelim(2, message))
  }

  /** A message inside one device-sent layer per destination, the first one outermost. */
  function Wrapped(message: seq<Byte>, destinations: seq<string>): seq<Byte> {
    if destinations == [] then message
    else WrapDeviceSent(Wrapped(message, destinations[1..]), destinations[0])
  }

  // --- extractors -----------------------------------------------------------------------

  const CONTEXT_INFO_FIELD := 17
  const CONTENT_WITH_CONTEXT: seq<nat> := [6, 3, 9, 7, 8, 26]
  const WRAPPERS: seq<(nat, nat)> := [(31, 2), (40, 1), (37, 1), (55, 1), (53, 1)]

  function FirstBytes(m: Fields, num: nat): Option<seq<Byte>> {
    if num in m && m[num] != [] && m[num][0].Data? then Some(m[num][0].b) else None
  }

  /** The first of `nums` that holds bytes. */
  function FirstOf(m: Fields, nums: seq<nat>): Option<(nat, seq<Byte>)> {
    if nums == [] then None
    else match FirstBytes(m, nums[0])
      case Some(b) => Some((nums[0], b))
      case None => FirstOf(m, nums[1..])
  }

  /** The message nested in the first wrapper that holds one; a malformed wrapper is passed over. */
  function Nested(m: Fields, wrappers: seq<(nat, nat)>): Outcome<Option<seq<Byte>>> {
    if wrappers == [] then Value(None)
    else
      var (outer, inner) := wrappers[0];
      match FirstBytes(m, outer)
      case None => Nested(m, wrappers[1..])
      case Some(wrapped) =>
        match Parse(wrapped)
        case ValueError => Nested(m, wrappers[1..])
        case IndexError => IndexError
        case Value(f) =>
          match FirstBytes(f, inner)
          case Some(b) => Value(Some(b))
          case None => Nested(m, wrappers[1..])
  }

  function QuotedIn(content: seq<Byte>): Outcome<string> {
    match Parse(content)
    case IndexError => IndexError
    case ValueError => Value("")
    case Value(f) =>
      match FirstBytes(f, CONTEXT_INFO_FIELD)
      case None => Value("")
      case Some(context) =>
        match Parse(context)
        case IndexError => IndexError
        case ValueError => Value("")
        case Value(c) =>
          match FirstBytes(c, 1)
          case None => Value("")
          case Some(stanza) => Value(Utf8.Decode(stanza).GetOr(""))
  }

  /** The id a message quotes, "" when it quotes none, looking through at most four wrappers. */
  function ExtractQuotedId(plaintext: seq<Byte>, depth: nat): Outcome<string>
    decreases 5 - depth
  {
    if depth > 4 then Value("")
    else match Parse(plaintext)
      case Value(top) =>
        (match FirstOf(top, CONTENT_WITH_CONTEXT)
         case Some((_, content)) => QuotedIn(content)
         case None =>
           match Nested(top, WRAPPERS)
           case Value(Some(nested)) => ExtractQuotedId(nested, depth + 1)
           case Value(None) => Value("")
           case IndexError => IndexError
           case ValueError => ValueError)
      case _ => Value("")
  }

  /** The lenient decoding used for display: strict on valid text, `repair` on anything else. */
  function Lenient(b: seq<Byte>, repair: seq<Byte> -> string): string {
    Utf8.Decode(b).GetOr(repair(b))
  }

  function DeviceSentDestination(plaintext: seq<Byte>, repair: seq<Byte> -> string): Outcome<string> {
    match Parse(plaintext)
    case IndexError => IndexError
    case ValueError => Value("")
    case Value(top) =>
      match FirstBytes(top, 31)
      case None => Value("")
      case Some(dsm) =>
        match Parse(dsm)
        case IndexError => IndexError
        case ValueError => Value("")
        case Value(f) =>
          match FirstBytes(f, 1)
          case None => Value("")
          case Some(dest) => if dest == [] then Value("") else Value(Lenient(dest, repair))
  }

  // --- media ------------------------------------------------------------------------------

  datatype RefValue = RefNumber(n: nat) | RefText(s: string) | RefBase64(b: seq<Byte>) {
    predicate Truthy() {
      match this
      case RefNumber(n) => n != 0
      case RefText(s) => s != ""
      case RefBase64(b) => b != []
    }
  }

  datatype MediaRef = MediaRef(kind: string, entries: map<string, RefValue>) {
    predicate Has(name: string) {
      name in entries && entries[name].Truthy()
    }

    /** A reference is usable with a key and a place to fetch from. */
    predicate Usable() {
      Has("media_key") && (Has("url") || Has("direct_path"))
    }
  }

  datatype Layout = Layout(field: nat, kind: string, slots: seq<(string, nat)>)

  const BYTES_KEYS := ["media_key", "file_sha256", "file_enc_sha256"]

  const MEDIA_LAYOUT: seq<Layout> := [
    Layout(8, "audio", [("url", 1), ("mimetype", 2), ("file_sha256", 3), ("file_length", 4), ("seconds", 5), ("ptt", 6),
                        ("media_key", 7), ("file_enc_sha256", 8), ("direct_path", 9)]),
    Layout(3, "image", [("url", 1), ("mimetype", 2), ("file_sha256", 4), ("file_length", 5), ("media_key", 8),
                        ("file_enc_sha256", 9), ("direct_path", 11)]),
    Layout(9, "video", [("url", 1), ("mimetype", 2), ("file_sha256", 3), ("file_length", 4), ("seconds", 5),
                        ("media_key", 6), ("file_enc_sha256", 11), ("direct_path", 13)]),
    DOCUMENT_LAYOUT]

  const DOCUMENT_LAYOUT := Layout(7, "document", [("url", 1), ("mimetype", 2), ("file_sha256", 4), ("file_length", 5),
                                                  ("media_key", 7), ("file_name", 8), ("file_enc_sha256", 9),
                                                  ("direct_path", 10)])

  function RefOf(name: string, v: Val, repair: seq<Byte> -> string): RefValue {
    match v
    case Int(n) => RefNumber(n)
    case Data(b) => if name in BYTES_KEYS then RefBase64(b) else RefText(Lenient(b, repair))
  }

  /** The reference's entries: each slot that has a value takes the first one. */
  function Entries(slots: seq<(string, nat)>, m: Fields, repair: seq<Byte> -> string, acc: map<string, RefValue>)
    : map<string, RefValue>
  {
    if slots == [] then acc
    else
      var (name, num) := slots[0];
      Entries(slots[1..], m, repair,
              if num in m && m[num] != [] then acc[name := RefOf(name, m[num][0], repair)] else acc)
  }

  method FillEntries(slots: seq<(string, nat)>, m: Fields, repair: seq<Byte> -> string)
    returns (ref: map<string, RefValue>)
    ensures ref == Entries(slots, m, repair, map[])
  {
    ref := map[];
    for i := 0 to |slots|
      invariant Entries(slots[i..], m, repair, ref) == Entries(slots, m, repair, map[])
    {
      assert slots[i..][1..] == slots[i + 1..];
      var (name, num) := slots[i];
      if num in m && m[num] != [] {
        ref := ref[name := RefOf(name, m[num][0], repair)];
      }
    }
  }

  function FirstLayout(m: Fields, layouts: seq<Layout>): Option<(Layout, seq<Byte>)> {
    if layouts == [] then None
    else match FirstBytes(m, layouts[0].field)
      case Some(b) => Some((layouts[0], b))
      case None => FirstLayout(m, layouts[1..])
  }

  function MediaIn(layout: Layout, content: seq<Byte>, repair: seq<Byte> -> string): Outcome<Option<MediaRef>> {
    match Parse(content)
    case IndexError => IndexError
    case ValueError => Value(None)
    case Value(inner) =>
      var ref := MediaRef(layout.kind, Entries(layout.slots, inner, repair, map[]));
      Value(if ref.Usable() then Some(ref) else None)
  }

  function ExtractMedia(plaintext: seq<Byte>, depth: nat, repair: seq<Byte> -> string): Outcome<Option<MediaRef>>
    decreases 5 - depth
  {
    if depth > 4 then Value(None)
    else match Parse(plaintext)
      case Value(top) =>
        (match FirstLayout(top, MEDIA_LAYOUT)
         case Some((layout, content)) => MediaIn(layout, content, repair)
         case None =>
           match Nested(top, WRAPPERS)
           case Value(Some(nested)) => ExtractMedia(nested, depth + 1, repair)
           case Value(None) => Value(None)
           case IndexError => IndexError
           case ValueError => ValueError)
      case _ => Value(None)
  }

  method ExtractMediaRef(plaintext: seq<Byte>, depth: nat, repair: seq<Byte> -> string)
    returns (r: Outcome<Option<MediaRef>>)
    ensures r == ExtractMedia(plaintext, depth, repair)
    decreases 5 - depth
  {
    hide Parse, FirstLayout, Nested, MediaRef.Usable;
    if depth > 4 {
      return Value(None);
    }
    var top := DecodeFields(plaintext);
    if !top.Value? {
      return Value(None);
    }
    var found := FirstLayout(top.value, MEDIA_LAYOUT);
    if found.Some? {
      var (layout, content) := found.value;
      var inner := DecodeFields(content);
      match inner
      case IndexError => return IndexError;
      case ValueError => return Value(None);
      case Value(fields) =>
        var entries := FillEntries(layout.slots, fields, repair);
        var ref := MediaRef(layout.kind, entries);
        return Value(if ref.Usable() then Some(ref) else None);
    }
    var nested := Nested(top.value, WRAPPERS);
    match nested
    case IndexError => return IndexError;
    case ValueError => return ValueError;
    case Value(None) => return Value(None);
    case Value(Some(message)) => r := ExtractMediaRef(message, depth + 1, repair);
  }

  // --- when the extractors raise ------------------------------------------------------------

  ghost predicate AnyCut(cs: seq<seq<Byte>>) {
    exists c :: c in cs && Cut(c)
  }

  /** The context of a content, if it can be parsed and has one. */
  function ContextOf(content: seq<Byte>): seq<seq<Byte>> {
    match Parse(content)
    case Value(f) => if FirstBytes(f, CONTEXT_INFO_FIELD).Some? then [FirstBytes(f, CONTEXT_INFO_FIELD).value] else []
    case _ => []
  }

  /** The wrappers that are opened, in order, until one holds a message or cannot be walked. */
  function WrappersOpened(m: Fields, wrappers: seq<(nat, nat)>): seq<seq<Byte>> {
    if wrappers == [] then []
    else
      var (outer, inner) := wrappers[0];
      match FirstBytes(m, outer)
      case None => WrappersOpened(m, wrappers[1..])
      case Some(wrapped) =>
        [wrapped] + match Parse(wrapped)
                    case IndexError => []
                    case ValueError => WrappersOpened(m, wrappers[1..])
                    case Value(f) => if FirstBytes(f, inner).Some? then [] else WrappersOpened(m, wrappers[1..])
  }

  /** The message the wrappers hold, if there is one. */
  function Held(m: Fields): Option<seq<Byte>> {
    match Nested(m, WRAPPERS)
    case Value(nested) => nested
    case _ => None
  }

  /** Everything the quoted-id extractor opens below the message itself. */
  function QuotedOpened(plaintext: seq<Byte>, depth: nat): seq<seq<Byte>>
    decreases 5 - depth
  {
    if depth > 4 || !Parse(plaintext).Value? then []
    else
      var top := Parse(plaintext).value;
      match FirstOf(top, CONTENT_WITH_CONTEXT)
      case Some((_, content)) => [content] + ContextOf(content)
      case None =>
        WrappersOpened(top, WRAPPERS) + if Held(top).Some? then QuotedOpened(Held(top).value, depth + 1) else []
  }

  /** And the media extractor. */
  function MediaOpened(plaintext: seq<Byte>, depth: nat): seq<seq<Byte>>
    decreases 5 - depth
  {
    if depth > 4 || !Parse(plaintext).Value? then []
    else
      var top := Parse(plaintext).value;
      match FirstLayout(top, MEDIA_LAYOUT)
      case Some((_, content)) => [content]
      case None =>
        WrappersOpened(top, WRAPPERS) + if Held(top).Some? then MediaOpened(Held(top).value, depth + 1) else []
  }

  /** And the destination lookup, which opens the message itself unprotected too. */
  function DestinationOpened(plaintext: seq<Byte>): seq<seq<Byte>> {
    [plaintext] + match Parse(plaintext)
                  case Value(top) => if FirstBytes(top, 31).Some? then [FirstBytes(top, 31).value] else []
                  case _ => []
  }

  lemma CutConcat(a: seq<seq<Byte>>, b: seq<seq<Byte>>)
    ensures AnyCut(a + b) <==> AnyCut(a) || AnyCut(b)
  {
    hide Cut;
  }

  lemma CutOne(c: seq<Byte>)
    ensures AnyCut([c]) <==> Parse(c) == IndexError
  {
    hide Cut, Parse;
    ParseErrors(c);
    assert c in [c];
  }

  lemma NoneCut()
    ensures !AnyCut([])
  {
  }

  lemma {:induction false} NestedRaises(m: Fields, wrappers: seq<(nat, nat)>)
    ensures Nested(m, wrappers) == IndexError <==> AnyCut(WrappersOpened(m, wrappers))
    ensures Nested(m, wrappers) != ValueError
    decreases |wrappers|
  {
    hide Parse, Cut, FirstBytes, AnyCut;
    NoneCut();
    if wrappers != [] {
      var (outer, inner) := wrappers[0];
      NestedRaises(m, wrappers[1..]);
      match FirstBytes(m, outer)
      case None =>
      case Some(wrapped) =>
        CutOne(wrapped);
        var rest := WrappersOpened(m, wrappers[1..]);
        CutConcat([wrapped], rest);
        CutConcat([wrapped], []);
    }
  }

  lemma QuotedInRaises(content: seq<Byte>)
    ensures QuotedIn(content) == IndexError <==> AnyCut([content] + ContextOf(content))
    ensures QuotedIn(content) != ValueError
  {
    hide Parse, Cut, FirstBytes, AnyCut;
    NoneCut();
    CutOne(content);
    CutConcat([content], ContextOf(content));
    match Parse(content)
    case Value(f) =>
      match FirstBytes(f, CONTEXT_INFO_FIELD) {
        case Some(context) => CutOne(context);
        case None =>
      }
    case _ =>
  }

  /** The quoted-id extractor raises exactly when something it opens is cut inside a varint. */
  lemma {:induction false} QuotedIdRaises(plaintext: seq<Byte>, depth: nat)
    ensures ExtractQuotedId(plaintext, depth) == IndexError <==> AnyCut(QuotedOpened(plaintext, depth))
    ensures ExtractQuotedId(plaintext, depth) != ValueError
    decreases 5 - depth
  {
    hide Parse, Cut, FirstBytes, AnyCut, FirstOf, Nested, WrappersOpened, QuotedIn, ContextOf;
    NoneCut();
    if depth <= 4 && Parse(plaintext).Value? {
      var top := Parse(plaintext).value;
      match FirstOf(top, CONTENT_WITH_CONTEXT)
      case Some((_, content)) => QuotedInRaises(content);
      case None =>
        NestedRaises(top, WRAPPERS);
        var below := if Held(top).Some? then QuotedOpened(Held(top).value, depth + 1) else [];
        CutConcat(WrappersOpened(top, WRAPPERS), below);
        if Held(top).Some? {
          QuotedIdRaises(Held(top).value, depth + 1);
        }
    }
  }

  /** So does the media extractor. */
  lemma {:induction false} MediaRaises(plaintext: seq<Byte>, depth: nat, repair: seq<Byte> -> string)
    ensures ExtractMedia(plaintext, depth, repair) == IndexError <==> AnyCut(MediaOpened(plaintext, depth))
    ensures ExtractMedia(plaintext, depth, repair) != ValueError
    decreases 5 - depth
  {
    hide Parse, Cut, FirstBytes, AnyCut, FirstLayout, Nested, WrappersOpened, Entries;
    NoneCut();
    if depth <= 4 && Parse(plaintext).Value? {
      var top := Parse(plaintext).value;
      match FirstLayout(top, MEDIA_LAYOUT)
      case Some((layout, content)) => CutOne(content);
      case None =>
        NestedRaises(top, WRAPPERS);
        var below := if Held(top).Some? then MediaOpened(Held(top).value, depth + 1) else [];
        CutConcat(WrappersOpened(top, WRAPPERS), below);
        if Held(top).Some? {
          MediaRaises(Held(top).value, depth + 1, repair);
        }
    }
  }

  /** The destination lookup raises on a cut message too. */
  lemma DestinationRaises(plaintext: seq<Byte>, repair: seq<Byte> -> string)
    ensures DeviceSentDestination(plaintext, repair) == IndexError <==> AnyCut(DestinationOpened(plaintext))
    ensures DeviceSentDestination(plaintext, repair) != ValueError
  {
    hide Parse, Cut, FirstBytes, AnyCut;
    NoneCut();
    CutOne(plaintext);
    match Parse(plaintext)
    case Value(top) =>
      var below := if FirstBytes(top, 31).Some? then [FirstBytes(top, 31).value] else [];
      CutConcat([plaintext], below);
      if FirstBytes(top, 31).Some? {
        CutOne(FirstBytes(top, 31).value);
      }
    case _ => CutConcat([plaintext], []);
  }

  // --- what one written layer parses to ------------------------------------------------------

  /** The bytes the first field of a number carries, if it is length-delimited. */
  function FirstData(fs: seq<Field>, num: nat): Option<seq<Byte>> {
    var vs := ValuesOf(fs, num);
    if vs != [] && vs[0].Data? then Some(vs[0].b) else None
  }

  lemma FirstBytesOf(fs: seq<Field>)
    requires forall k :: 0 <= k < |fs| ==> Writable(fs[k])
    ensures Parse(Message(fs)).Value?
    ensures forall num: nat :: FirstBytes(Parse(Message(fs)).value, num) == FirstData(fs, num)
  {
    hide Message, Parse, Writable;
    ParseOfMessage(fs);
  }

  /** A message holding a single length-delimited field. */
  lemma OneField(num: nat, body: seq<Byte>)
    requires Writable(DataField(num, body))
    ensures Parse(LengthDelim(num, body)).Value?
    ensures forall k: nat ::
              FirstBytes(Parse(LengthDelim(num, body)).value, k) == if k == num then Some(body) else None
  {
    hide Parse, FirstBytes;
    MessageOf1(DataField(num, body));
    FirstBytesOf([DataField(num, body)]);
    forall k: nat
      ensures FirstData([DataField(num, body)], k) == if k == num then Some(body) else None
    {
      if k == num {
        OnlyValue([DataField(num, body)], 0);
      } else {
        NoValue([DataField(num, body)], k);
      }
    }
  }

  /** A message of two length-delimited fields with different numbers. */
  lemma TwoFields(a: Field, b: Field)
    requires Writable(a) && Writable(b) && a.DataField? && b.DataField? && a.num != b.num
    ensures Parse(FieldBytes(a) + FieldBytes(b)).Value?
    ensures var m := Parse(FieldBytes(a) + FieldBytes(b)).value;
            FirstBytes(m, a.num) == Some(a.body) && FirstBytes(m, b.num) == Some(b.body)
  {
    hide Parse, FirstBytes, Writable, FieldBytes;
    MessageOf2(a, b);
    FirstBytesOf([a, b]);
    OnlyValue([a, b], 0);
    OnlyValue([a, b], 1);
  }

  lemma {:induction false} FirstOfNone(m: Fields, nums: seq<nat>)
    requires forall i :: 0 <= i < |nums| ==> FirstBytes(m, nums[i]) == None
    ensures FirstOf(m, nums) == None
    decreases |nums|
  {
    if nums != [] {
      FirstOfNone(m, nums[1..]);
    }
  }

  lemma {:induction false} FirstLayoutNone(m: Fields, layouts: seq<Layout>)
    requires forall i :: 0 <= i < |layouts| ==> FirstBytes(m, layouts[i].field) == None
    ensures FirstLayout(m, layouts) == None
    decreases |layouts|
  {
    if layouts != [] {
      FirstLayoutNone(m, layouts[1..]);
    }
  }

  /** One device-sent layer: both parts come back, and no extractor mistakes it for a content. */
  lemma OneLayer(message: seq<Byte>, destination: string)
    requires |WrapDeviceSent(message, destination)| < TWO64
    ensures |message| <= |WrapDeviceSent(message, destination)|
    ensures Parse(WrapDeviceSent(message, destination)).Value?
    ensures var top := Parse(WrapDeviceSent(message, destination)).value;
            && FirstOf(top, CONTENT_WITH_CONTEXT) == None
            && FirstLayout(top, MEDIA_LAYOUT) == None
            && Nested(top, WRAPPERS) == Value(Some(message))
            && FirstBytes(top, 31).Some?
            && Parse(FirstBytes(top, 31).value).Value?
            && FirstBytes(Parse(FirstBytes(top, 31).value).value, 1) == Some(Utf8.Encode(destination))
  {
    hide Parse, FirstBytes, VarintBytes;
    var a, b := TextField(1, destination), DataField(2, message);
    var dsm := FieldBytes(a) + FieldBytes(b);
    assert WrapDeviceSent(message, destination) == LengthDelim(31, dsm);
    OneField(31, dsm);
    TwoFields(a, b);
    var top := Parse(WrapDeviceSent(message, destination)).value;
    FirstOfNone(top, CONTENT_WITH_CONTEXT);
    FirstLayoutNone(top, MEDIA_LAYOUT);
  }

  // --- seeing through wrappers ------------------------------------------------------------------

  /** Layers up to the fifth message are looked through; one more and the extractor gives up. */
  lemma {:induction false} QuotedThrough(message: seq<Byte>, destinations: seq<string>, depth: nat)
    requires |Wrapped(message, destinations)| < TWO64
    ensures |message| <= |Wrapped(message, destinations)|
    ensures ExtractQuotedId(Wrapped(message, destinations), depth)
            == if depth + |destinations| > 4 then Value("") else ExtractQuotedId(message, depth + |destinations|)
    decreases |destinations|
  {
    hide Parse, FirstOf, Nested, WrapDeviceSent, FirstBytes, FirstLayout;
    if destinations != [] {
      OneLayer(Wrapped(message, destinations[1..]), destinations[0]);
      QuotedThrough(message, destinations[1..], depth + 1);
    }
  }

  lemma {:induction false} MediaThrough(
    message: seq<Byte>, destinations: seq<string>, depth: nat, repair: seq<Byte> -> string)
    requires |Wrapped(message, destinations)| < TWO64
    ensures |message| <= |Wrapped(message, destinations)|
    ensures ExtractMedia(Wrapped(message, destinations), depth, repair)
            == if depth + |destinations| > 4 then Value(None) else ExtractMedia(message, depth + |destinations|, repair)
    decreases |destinations|
  {
    hide Parse, FirstOf, Nested, WrapDeviceSent, FirstBytes, FirstLayout, MediaIn;
    if destinations != [] {
      OneLayer(Wrapped(message, destinations[1..]), destinations[0]);
      MediaThrough(message, destinations[1..], depth + 1, repair);
    }
  }

  /** The destination of a wrap is read back, whatever message it wraps. */
  lemma DestinationOfWrap(message: seq<Byte>, destination: string, repair: seq<Byte> -> string)
    requires |WrapDeviceSent(message, destination)| < TWO64
    ensures DeviceSentDestination(WrapDeviceSent(message, destination), repair) == Value(destination)
  {
    hide Parse, FirstOf, Nested, WrapDeviceSent, FirstBytes, FirstLayout;
    OneLayer(message, destination);
    Utf8.DecodeOfEncode(destination);
  }

  // --- replies -----------------------------------------------------------------------------------

  lemma ReplyQuotes(text: string, quotedId: string, participant: string, quotedText: string, depth: nat)
    requires |ReplyPlaintext(text, quotedId, participant, quotedText)| < TWO64 && depth <= 4
    ensures ExtractQuotedId(ReplyPlaintext(text, quotedId, participant, quotedText), depth) == Value(quotedId)
  {
    hide Parse, FirstBytes, VarintBytes;
    var quoted := StringFieldBytes(1, quotedText);
    var c := [TextField(1, quotedId), TextField(2, participant), DataField(3, quoted)];
    MessageOf3(c[0], c[1], c[2]);
    var a, b := TextField(1, text), DataField(17, Message(c));
    var extended := FieldBytes(a) + FieldBytes(b);
    assert ReplyPlaintext(text, quotedId, participant, quotedText) == LengthDelim(6, extended);
    OneField(6, extended);
    TwoFields(a, b);
    PartsFit(c, 0); PartsFit(c, 1); PartsFit(c, 2);
    FirstBytesOf(c);
    FirstValue(c, 0);
    Utf8.DecodeOfEncode(quotedId);
  }

  /** A built reply yields its quoted id through four wrappers, and "" through more: exactly. */
  lemma ReplyThroughWrappers(
    text: string, quotedId: string, participant: string, quotedText: string, destinations: seq<string>)
    requires |Wrapped(ReplyPlaintext(text, quotedId, participant, quotedText), destinations)| < TWO64
    ensures ExtractQuotedId(Wrapped(ReplyPlaintext(text, quotedId, participant, quotedText), destinations), 0)
            == Value(if |destinations| <= 4 then quotedId else "")
  {
    hide ReplyPlaintext, Wrapped;
    var reply := ReplyPlaintext(text, quotedId, participant, quotedText);
    QuotedThrough(reply, destinations, 0);
    if |destinations| <= 4 {
      ReplyQuotes(text, quotedId, participant, quotedText, |destinations|);
    }
  }

  /** A content cut inside a varint raises instead of answering ""; a cut message raises for its destination only. */
  lemma TruncatedContentRaises()
    ensures ExtractQuotedId([0x32, 1, 0x80], 0) == IndexError
    ensures ExtractQuotedId([0x80], 0) == Value("")
    ensures forall repair :: DeviceSentDestination([0x80], repair) == IndexError
  {
    var content: seq<Byte> := [0x80];
    CutByte();
    OneFieldBytes(content);
    hide Parse, FirstOf, Nested;
    assert [0x32, 1] + content == [0x32, 1, 0x80];
  }

  /** So does a document whose content is cut. */
  lemma TruncatedDocumentRaises(repair: seq<Byte> -> string)
    ensures ExtractMedia([0x3a, 1, 0x80], 0, repair) == IndexError
  {
    var content: seq<Byte> := [0x80];
    CutByte();
    DocumentBytes(content);
    hide Parse, FirstLayout, Entries;
    assert [0x3a, 1] + content == [0x3a, 1, 0x80];
  }

  lemma CutByte()
    ensures Parse([0x80]) == IndexError
  {
    assert VarintFrom([0x80], 1, 7) == IndexError;
  }

  lemma DocumentBytes(content: seq<Byte>)
    requires |content| == 1
    ensures Parse([0x3a, 1] + content).Value?
    ensures FirstLayout(Parse([0x3a, 1] + content).value, MEDIA_LAYOUT) == Some((DOCUMENT_LAYOUT, content))
  {
    hide Parse, FirstBytes, FirstLayout;
    assert Varint(58) == [58] && Varint(1) == [1];
    assert LengthDelim(7, content) == [0x3a, 1] + content;
    OneField(7, content);
    DocumentFirst(Parse([0x3a, 1] + content).value, content);
  }

  lemma OneFieldBytes(content: seq<Byte>)
    requires |content| == 1
    ensures LengthDelim(6, content) == [0x32, 1] + content
    ensures Parse([0x32, 1] + content).Value?
    ensures FirstOf(Parse([0x32, 1] + content).value, CONTENT_WITH_CONTEXT) == Some((6, content))
  {
    assert Varint(50) == [50] && Varint(1) == [1];
    OneField(6, content);
  }

  // --- documents ----------------------------------------------------------------------------------

  /** The reference a built document is expected to yield. */
  function DocRef(doc: DocumentInfo): MediaRef {
    MediaRef("document", map[
               "url" := RefText(doc.url), "mimetype" := RefText(doc.mimetype),
               "file_sha256" := RefBase64(doc.fileSha256), "file_length" := RefNumber(doc.fileLength % TWO64),
               "media_key" := RefBase64(doc.mediaKey), "file_name" := RefText(doc.fileName),
               "file_enc_sha256" := RefBase64(doc.fileEncSha256), "direct_path" := RefText(doc.directPath)])
  }

  /** With every slot filled and every name different, each name holds its slot's first value. */
  lemma {:induction false} EntriesFilled(
    slots: seq<(string, nat)>, m: Fields, repair: seq<Byte> -> string, acc: map<string, RefValue>)
    requires forall i :: 0 <= i < |slots| ==> slots[i].1 in m && m[slots[i].1] != []
    requires forall i, j :: 0 <= i < j < |slots| ==> slots[i].0 != slots[j].0
    requires forall i :: 0 <= i < |slots| ==> slots[i].0 !in acc
    ensures var e := Entries(slots, m, repair, acc);
            && (forall name :: name in e <==> name in acc || exists i :: 0 <= i < |slots| && slots[i].0 == name)
            && (forall i :: 0 <= i < |slots| ==> e[slots[i].0] == RefOf(slots[i].0, m[slots[i].1][0], repair))
            && (forall name :: name in acc ==> e[name] == acc[name])
    decreases |slots|
  {
    if slots != [] {
      var (name, num) := slots[0];
      var acc' := acc[name := RefOf(name, m[num][0], repair)];
      assert forall i :: 0 <= i < |slots[1..]| ==> slots[1..][i] == slots[i + 1];
      EntriesFilled(slots[1..], m, repair, acc');
      var e := Entries(slots, m, repair, acc);
      forall n | n in e
        ensures n in acc || exists i :: 0 <= i < |slots| && slots[i].0 == n
      {
        if n !in acc' {
          var i :| 0 <= i < |slots[1..]| && slots[1..][i].0 == n;
          assert slots[i + 1].0 == n;
        } else if n == name {
          assert slots[0].0 == n;
        }
      }
    }
  }

  lemma DocPrefix(doc: DocumentInfo, j: nat)
    requires j < 7
    ensures var i := 2 + |OptionalText(3, doc.title)| + j;
            && i < |DocFields(doc)| && DocFields(doc)[i] == CoreFields(doc)[j]
            && forall k :: 0 <= k < i ==> DocFields(doc)[k].num != CoreFields(doc)[j].num
  {
    HeadNumbers(doc);
    CoreNumbers(doc, j);
    var head, core := HeadFields(doc), CoreFields(doc);
    var tail := ThumbnailFields(doc) + OptionalText(20, doc.caption);
    assert DocFields(doc) == head + core + tail;
    hide *;
    assert (head + core + tail)[|head| + j] == core[j];
    forall k | 0 <= k < |head| + j
      ensures (head + core + tail)[k].num != core[j].num
    {
      assert (head + core + tail)[k] == if k < |head| then head[k] else core[k - |head|];
    }
  }

  lemma HeadNumbers(doc: DocumentInfo)
    ensures |HeadFields(doc)| == 2 + |OptionalText(3, doc.title)|
    ensures forall k :: 0 <= k < |HeadFields(doc)| ==> HeadFields(doc)[k].num < 4
  {
    hide Utf8.Encode;
  }

  lemma CoreNumbers(doc: DocumentInfo, j: nat)
    requires j < 7
    ensures |CoreFields(doc)| == 7 && CoreFields(doc)[j].num >= 4
    ensures forall k :: 0 <= k < j ==> CoreFields(doc)[k].num < CoreFields(doc)[j].num
  {
    hide Utf8.Encode;
  }

  lemma CoreValue(doc: DocumentInfo, j: nat)
    requires j < 7
    ensures var f := CoreFields(doc)[j];
            ValuesOf(DocFields(doc), f.num) != [] && ValuesOf(DocFields(doc), f.num)[0] == ValOf(f)
  {
    hide DocFields, CoreFields, ValuesOf;
    DocPrefix(doc, j);
    FirstValue(DocFields(doc), 2 + |OptionalText(3, doc.title)| + j);
  }

  lemma HeadValues(doc: DocumentInfo)
    ensures DocFields(doc)[0] == TextField(1, doc.url) && DocFields(doc)[1] == TextField(2, doc.mimetype)
    ensures ValuesOf(DocFields(doc), 1) != [] && ValuesOf(DocFields(doc), 1)[0] == Data(Utf8.Encode(doc.url))
    ensures ValuesOf(DocFields(doc), 2) != [] && ValuesOf(DocFields(doc), 2)[0] == Data(Utf8.Encode(doc.mimetype))
  {
    FirstValue(DocFields(doc), 0);
    FirstValue(DocFields(doc), 1);
  }

  lemma SmallNumbers(doc: DocumentInfo)
    ensures forall k :: 0 <= k < |DocFields(doc)| ==> DocFields(doc)[k].num <= 20
  {
    hide Utf8.Encode;
    var a, b := [TextField(1, doc.url), TextField(2, doc.mimetype)] + OptionalText(3, doc.title), CoreFields(doc);
    var c, d := ThumbnailFields(doc), OptionalText(20, doc.caption);
    assert forall f :: f in a || f in b || f in c || f in d ==> f.num <= 20;
    forall k | 0 <= k < |DocFields(doc)|
      ensures DocFields(doc)[k].num <= 20
    {
      var f := DocFields(doc)[k];
      assert f in a || f in b || f in c || f in d;
    }
  }

  lemma DocWritable(doc: DocumentInfo)
    requires |Message(DocFields(doc))| < TWO64
    ensures forall k :: 0 <= k < |DocFields(doc)| ==> Writable(DocFields(doc)[k])
  {
    hide Message, DocFields;
    SmallNumbers(doc);
    forall k | 0 <= k < |DocFields(doc)|
      ensures Writable(DocFields(doc)[k])
    {
      if DocFields(doc)[k].DataField? {
        PartsFit(DocFields(doc), k);
      }
    }
  }

  /** The document fields the layout asks for, by number. */
  function SlotValue(doc: DocumentInfo, num: nat): Val {
    if num == 1 then Data(Utf8.Encode(doc.url))
    else if num == 2 then Data(Utf8.Encode(doc.mimetype))
    else if num == 4 then Data(doc.fileSha256)
    else if num == 5 then Int(doc.fileLength % TWO64)
    else if num == 7 then Data(doc.mediaKey)
    else if num == 8 then Data(Utf8.Encode(doc.fileName))
    else if num == 9 then Data(doc.fileEncSha256)
    else Data(Utf8.Encode(doc.directPath))
  }

  lemma SlotValues(doc: DocumentInfo, num: nat)
    requires num in {1, 2, 4, 5, 7, 8, 9, 10}
    ensures ValuesOf(DocFields(doc), num) != [] && ValuesOf(DocFields(doc), num)[0] == SlotValue(doc, num)
  {
    hide DocFields, ValuesOf, Utf8.Encode;
    HeadValues(doc);
    if num > 2 {
      CoreValue(doc, if num <= 5 then num - 4 else num - 5);
    }
  }

  lemma DocEntries(doc: DocumentInfo, m: Fields, repair: seq<Byte> -> string)
    requires forall num: nat :: (num in m <==> ValuesOf(DocFields(doc), num) != [])
                                && (num in m ==> m[num] == ValuesOf(DocFields(doc), num))
    ensures Entries(DOCUMENT_LAYOUT.slots, m, repair, map[]) == DocRef(doc).entries
  {
    hide DocFields, ValuesOf, Entries, Utf8.Encode, Utf8.Decode, SlotValue, RefOf, DocRef;
    var slots := DOCUMENT_LAYOUT.slots;
    forall i | 0 <= i < |slots|
      ensures slots[i].1 in m && m[slots[i].1] != [] && m[slots[i].1][0] == SlotValue(doc, slots[i].1)
    {
      SlotValues(doc, slots[i].1);
    }
    SlotNames();
    EntriesFilled(slots, m, repair, map[]);
    forall i | 0 <= i < |slots|
      ensures slots[i].0 in DocRef(doc).entries
      ensures RefOf(slots[i].0, SlotValue(doc, slots[i].1), repair) == DocRef(doc).entries[slots[i].0]
    {
      SlotRef(doc, i, repair);
    }
    EightNames(doc);
    SameEntries(slots, Entries(slots, m, repair, map[]), DocRef(doc).entries);
  }

  lemma SlotNames()
    ensures forall i, j :: 0 <= i < j < |DOCUMENT_LAYOUT.slots| ==>
              DOCUMENT_LAYOUT.slots[i].0 != DOCUMENT_LAYOUT.slots[j].0
  {
  }

  /** Two maps with the same names and the same values are the same. */
  lemma SameEntries(slots: seq<(string, nat)>, a: map<string, RefValue>, b: map<string, RefValue>)
    requires forall name :: name in a ==> exists i :: 0 <= i < |slots| && slots[i].0 == name
    requires forall name :: name in b ==> exists i :: 0 <= i < |slots| && slots[i].0 == name
    requires forall i :: 0 <= i < |slots| ==> slots[i].0 in a && slots[i].0 in b && a[slots[i].0] == b[slots[i].0]
    ensures a == b
  {
  }

  lemma SlotRef(doc: DocumentInfo, i: nat, repair: seq<Byte> -> string)
    requires i < |DOCUMENT_LAYOUT.slots|
    ensures var (name, num) := DOCUMENT_LAYOUT.slots[i];
            name in DocRef(doc).entries && RefOf(name, SlotValue(doc, num), repair) == DocRef(doc).entries[name]
  {
    hide Utf8.Encode, Utf8.Decode;
    Utf8.DecodeOfEncode(doc.url);
    Utf8.DecodeOfEncode(doc.mimetype);
    Utf8.DecodeOfEncode(doc.fileName);
    Utf8.DecodeOfEncode(doc.directPath);
  }

  lemma EightNames(doc: DocumentInfo)
    ensures forall name :: name in DocRef(doc).entries ==>
              exists i :: 0 <= i < |DOCUMENT_LAYOUT.slots| && DOCUMENT_LAYOUT.slots[i].0 == name
  {
    var s := DOCUMENT_LAYOUT.slots;
    assert s[0].0 == "url" && s[1].0 == "mimetype" && s[2].0 == "file_sha256" && s[3].0 == "file_length";
    assert s[4].0 == "media_key" && s[5].0 == "file_name" && s[6].0 == "file_enc_sha256" && s[7].0 == "direct_path";
  }

  /** A built document yields its reference when it has a key and a place to fetch from, and nothing otherwise. */
  lemma DocumentYields(doc: DocumentInfo, depth: nat, repair: seq<Byte> -> string)
    requires |DocumentPlaintext(doc)| < TWO64 && depth <= 4
    ensures ExtractMedia(DocumentPlaintext(doc), depth, repair)
            == Value(if doc.mediaKey != [] && (doc.url != "" || doc.directPath != "") then Some(DocRef(doc)) else None)
  {
    hide Parse, FirstBytes, Message, DocFields, VarintBytes, Entries;
    var body := Message(DocFields(doc));
    OneField(7, body);
    var top := Parse(DocumentPlaintext(doc)).value;
    DocWritable(doc);
    ParseOfMessage(DocFields(doc));
    DocEntries(doc, Parse(body).value, repair);
    DocumentFirst(top, body);
  }

  lemma DocumentFirst(top: Fields, body: seq<Byte>)
    requires forall k: nat :: FirstBytes(top, k) == if k == 7 then Some(body) else None
    ensures FirstLayout(top, MEDIA_LAYOUT) == Some((DOCUMENT_LAYOUT, body))
  {
    hide FirstBytes;
    var l := MEDIA_LAYOUT;
    assert l[1..][1..] == l[2..] && l[2..][1..] == l[3..];
    assert l[0].field == 8 && l[1].field == 3 && l[2].field == 9 && l[3] == DOCUMENT_LAYOUT;
    assert FirstLayout(top, l[3..]) == Some((DOCUMENT_LAYOUT, body));
    assert FirstLayout(top, l[2..]) == FirstLayout(top, l[3..]);
    assert FirstLayout(top, l[1..]) == FirstLayout(top, l[2..]);
  }

  /** The same through device-sent layers: four are looked through, a fifth hides the document. */
  lemma DocumentThroughWrappers(doc: DocumentInfo, destinations: seq<string>, repair: seq<Byte> -> string)
    requires |Wrapped(DocumentPlaintext(doc), destinations)| < TWO64
    ensures ExtractMedia(Wrapped(DocumentPlaintext(doc), destinations), 0, repair)
            == Value(if |destinations| <= 4 && doc.mediaKey != [] && (doc.url != "" || doc.directPath != "")
                     then Some(DocRef(doc)) else None)
  {
    hide DocumentPlaintext, Wrapped, ExtractMedia, DocRef;
    MediaThrough(DocumentPlaintext(doc), destinations, 0, repair);
    if |destinations| <= 4 {
      DocumentYields(doc, |destinations|, repair);
    }
  }
}
