/** The inner envelope ECN1: text and files, canonical names and media types, and padding to a
    multiple of 4096 bytes. `Prepare` and `Envelope` define what `pack` writes; `Unpack` defines
    what `unpack` reads. */
module Content {
  import opened Wrappers
  import opened Bytes
  import opened Utf8

  const MAX_CONTENT_BYTES: nat := 64 * 1024 * 1024
  const MAX_TEXT_BYTES: nat := 8 * 1024 * 1024
  const MAX_FILES: nat := 8
  const MAX_FILENAME_BYTES: nat := 255
  const MAX_MIME_BYTES: nat := 127
  const PADDING_BYTES: nat := 4096
  const INNER_HEADER_BYTES: nat := 14
  const MAX_INNER_BYTES: nat :=
    MAX_CONTENT_BYTES + INNER_HEADER_BYTES + MAX_FILES * (8 + MAX_FILENAME_BYTES + MAX_MIME_BYTES)

  const ECN1: seq<byte> := [69, 67, 78, 49]

  datatype Error = Invalid | InvalidFilename | TooLarge | EmptyContent | DuplicateFilename

  datatype File = File(name: Text, mime: Text, data: seq<byte>)

  datatype Content = Content(text: Text, files: seq<File>)

  // String.prototype.normalize('NFC') and toLowerCase, whose tables are not part of the model.
  datatype Unicode = Unicode(nfc: Text -> Text, lower: Text -> Text)

  // What is assumed of them: normalization is idempotent; lower-casing leaves a lower-case media
  // type alone and never makes one longer than what it came from.
  ghost predicate Lawful(uc: Unicode) {
    && (forall t :: uc.nfc(uc.nfc(t)) == uc.nfc(t))
    && (forall t :: IsMediaType(t) ==> uc.lower(t) == t)
    && (forall t :: IsMediaType(uc.lower(t)) ==> |uc.lower(t)| <= |t|)
  }

  function Ascii(s: string): Text
    requires forall i :: 0 <= i < |s| ==> s[i] < 128 as char
  {
    seq(|s|, i requires 0 <= i < |s| => s[i] as int)
  }

  // ---- Names and media types ------------------------------------------------------------

  predicate IsForbiddenUnit(u: unit) {
    || u <= 0x1F || 0x7F <= u <= 0x9F
    || u in {'<' as int, '>' as int, ':' as int, '"' as int, '/' as int, '\\' as int, '|' as int, '?' as int, '*' as int}
    // Bidi_Control
    || u == 0x061C || u == 0x200E || u == 0x200F || 0x202A <= u <= 0x202E || 0x2066 <= u <= 0x2069
  }

  function LowerAscii(u: unit): unit {
    if 'A' as int <= u <= 'Z' as int then u + 32 else u
  }

  function Stem(name: Text): Text {
    if name == [] || name[0] == '.' as int then [] else [LowerAscii(name[0])] + Stem(name[1..])
  }

  // con, prn, aux, nul, conin$, conout$, and com or lpt with a digit 1-9 or a superscript 1-3.
  predicate IsReserved(name: Text) {
    var stem := Stem(name);
    || stem in {Ascii("con"), Ascii("prn"), Ascii("aux"), Ascii("nul"), Ascii("conin$"), Ascii("conout$")}
    || (|stem| == 4 && stem[..3] in {Ascii("com"), Ascii("lpt")}
        && ('1' as int <= stem[3] <= '9' as int || stem[3] in {0xB9, 0xB2, 0xB3}))
  }

  predicate IsBadName(name: Text) {
    || name == [] || name == Ascii(".") || name == Ascii("..")
    || (exists i :: 0 <= i < |name| && IsForbiddenUnit(name[i]))
    || name[|name| - 1] in {'.' as int, ' ' as int}
    || IsReserved(name)
  }

  function NormalizeFilename(uc: Unicode, value: Text): Result<Text, Error> {
    if |value| > 1024 then Err(Invalid)
    else
      var name := uc.nfc(value);
      if IsBadName(name) then Err(InvalidFilename)
      else
        match EncodeText(name)
        case None => Err(Invalid)
        case Some(bytes) => if |bytes| > MAX_FILENAME_BYTES then Err(InvalidFilename) else Ok(name)
  }

  predicate IsMediaUnit(u: unit) {
    || 'a' as int <= u <= 'z' as int || '0' as int <= u <= '9' as int
    || u in {'!' as int, '#' as int, '$' as int, '&' as int, '^' as int, '_' as int, '.' as int, '+' as int, '-' as int}
  }

  predicate IsMediaTypeAt(t: Text, slash: int) {
    && 0 < slash < |t| - 1
    && t[slash] == '/' as int
    && forall i :: 0 <= i < |t| && i != slash ==> IsMediaUnit(t[i])
  }

  // token/token in lower case
  predicate IsMediaType(t: Text) {
    exists slash :: 0 < slash < |t| && IsMediaTypeAt(t, slash)
  }

  const DEFAULT_MEDIA_TYPE: Text := Ascii("application/octet-stream")

  function NormalizeMime(uc: Unicode, value: Text): Result<Text, Error> {
    if |value| > MAX_MIME_BYTES then Err(Invalid)
    else
      var mime := if value != [] then uc.lower(value) else DEFAULT_MEDIA_TYPE;
      if IsMediaType(mime) then Ok(mime) else Err(Invalid)
  }

  lemma DefaultIsMediaType()
    ensures IsMediaType(DEFAULT_MEDIA_TYPE) && |DEFAULT_MEDIA_TYPE| == 24
  {
    assert IsMediaTypeAt(DEFAULT_MEDIA_TYPE, 11);
  }

  /** A normalized name is its own normalization, and its encoding fits the name field. */
  lemma NormalizedName(uc: Unicode, value: Text)
    requires Lawful(uc) && NormalizeFilename(uc, value).Ok?
    ensures var name := NormalizeFilename(uc, value).value;
            && NormalizeFilename(uc, name) == Ok(name)
            && 1 <= |Encode(name)| <= MAX_FILENAME_BYTES && Decode(Encode(name)) == Some(name)
  {
    var name := NormalizeFilename(uc, value).value;
    EncodeDecode(Encode(name));
  }

  /** A normalized media type is its own normalization, and its encoding fits the type field. */
  lemma NormalizedMime(uc: Unicode, value: Text)
    requires Lawful(uc) && NormalizeMime(uc, value).Ok?
    ensures var mime := NormalizeMime(uc, value).value;
            && NormalizeMime(uc, mime) == Ok(mime)
            && 1 <= |Encode(mime)| <= MAX_MIME_BYTES && Decode(Encode(mime)) == Some(mime)
  {
    var mime := NormalizeMime(uc, value).value;
    DefaultIsMediaType();
    EncodeAscii(mime);
    DecodeEncode(mime);
  }

  function Prepend<T>(first: seq<T>, r: Result<seq<T>, Error>): Result<seq<T>, Error> {
    if r.Ok? then Ok(first + r.value) else r
  }

  // ---- What pack writes -------------------------------------------------------------------

  datatype Part = Part(name: seq<byte>, mime: seq<byte>, data: seq<byte>)

  function PrepareFiles(uc: Unicode, files: seq<File>, seen: set<Text>, used: nat): Result<seq<Part>, Error> {
    if files == [] then Ok([])
    else
      var file := files[0];
      var total := used + |file.data|;
      if total > MAX_CONTENT_BYTES then Err(TooLarge)
      else
        match NormalizeFilename(uc, file.name)
        case Err(e) => Err(e)
        case Ok(name) =>
          var folded := uc.lower(name);
          if folded in seen then Err(DuplicateFilename)
          else
            match NormalizeMime(uc, file.mime)
            case Err(e) => Err(e)
            case Ok(mime) =>
              Prepend([Part(Encode(name), Encode(mime), file.data)],
                      PrepareFiles(uc, files[1..], seen + {folded}, total))
  }

  datatype Plan = Plan(text: seq<byte>, parts: seq<Part>)

  function Prepare(uc: Unicode, input: Content): Result<Plan, Error> {
    if |input.text| > MAX_TEXT_BYTES || |input.files| > MAX_FILES then Err(Invalid)
    else
      match EncodeText(input.text)
      case None => Err(Invalid)
      case Some(text) =>
        if |text| > MAX_TEXT_BYTES then Err(TooLarge)
        else if text == [] && input.files == [] then Err(EmptyContent)
        else
          match PrepareFiles(uc, input.files, {}, |text|)
          case Err(e) => Err(e)
          case Ok(parts) => Ok(Plan(text, parts))
  }

  function PartBytes(part: Part): seq<byte> {
    Be16(|part.name|) + Be16(|part.mime|) + Be32(|part.data|) + part.name + part.mime + part.data
  }

  function Flatten(parts: seq<Part>): seq<byte> {
    if parts == [] then [] else PartBytes(parts[0]) + Flatten(parts[1..])
  }

  function LogicalLength(plan: Plan): nat {
    INNER_HEADER_BYTES + |plan.text| + |Flatten(plan.parts)|
  }

  function Envelope(plan: Plan): (b: seq<byte>)
    ensures |b| == LogicalLength(plan)
  {
    ECN1 + Be32(LogicalLength(plan)) + Be32(|plan.text|) + Be16(|plan.parts|) + plan.text + Flatten(plan.parts)
  }

  function PaddedLength(logical: nat): nat {
    (logical + PADDING_BYTES - 1) / PADDING_BYTES * PADDING_BYTES
  }

  const MAX_PADDED_BYTES: nat := PaddedLength(MAX_INNER_BYTES)

  /** The padded length is the least multiple of 4096 that covers the logical length. */
  lemma PaddedLengthIsLeast(logical: nat, multiple: nat)
    ensures PaddedLength(logical) % PADDING_BYTES == 0
    ensures logical <= PaddedLength(logical) < logical + PADDING_BYTES
    ensures logical <= multiple && multiple % PADDING_BYTES == 0 ==> PaddedLength(logical) <= multiple
  {
  }

  // ---- What unpack reads ------------------------------------------------------------------

  function UnpackFiles(uc: Unicode, rest: seq<byte>, count: nat, seen: set<Text>, used: nat): Result<seq<File>, Error>
    decreases count
  {
    if count == 0 then (if rest == [] then Ok([]) else Err(Invalid))
    else if |rest| < 8 then Err(Invalid)
    else
      var n, m, d := U16At(rest, 0), U16At(rest, 2), U32At(rest, 4);
      if n == 0 || n > MAX_FILENAME_BYTES || m == 0 || m > MAX_MIME_BYTES then Err(Invalid)
      else if used + d > MAX_CONTENT_BYTES then Err(Invalid)
      else
        match UnpackFile(uc, rest[8..], n, m, d, seen)
        case Err(e) => Err(e)
        case Ok(file) =>
          Prepend([file], UnpackFiles(uc, rest[8 + n + m + d..], count - 1, seen + {uc.lower(file.name)}, used + d))
  }

  function UnpackFile(uc: Unicode, rest: seq<byte>, n: nat, m: nat, d: nat, seen: set<Text>): (r: Result<File, Error>)
    ensures r.Ok? ==> n + m + d <= |rest|
  {
    if n + m > |rest| then Err(Invalid)
    else
      match (Decode(rest[..n]), Decode(rest[n..n + m]))
      case (Some(name), Some(mime)) =>
        if NormalizeFilename(uc, name).Err? then Err(NormalizeFilename(uc, name).error)
        else if NormalizeFilename(uc, name).value != name then Err(Invalid)
        else if NormalizeMime(uc, mime) != Ok(mime) then Err(Invalid)
        else if uc.lower(name) in seen then Err(Invalid)
        else if n + m + d > |rest| then Err(Invalid)
        else Ok(File(name, mime, rest[n + m..n + m + d]))
      case _ => Err(Invalid)
  }

  function Unpack(uc: Unicode, padded: seq<byte>): Result<Content, Error> {
    if |padded| < PADDING_BYTES || |padded| > MAX_PADDED_BYTES || |padded| % PADDING_BYTES != 0 || padded[..4] != ECN1
    then Err(Invalid)
    else
      var logical, t, count := U32At(padded, 4), U32At(padded, 8), U16At(padded, 12);
      if || logical < INNER_HEADER_BYTES || logical > MAX_INNER_BYTES || logical > |padded|
         || PaddedLength(logical) != |padded|
         || t > MAX_TEXT_BYTES || count > MAX_FILES || (t == 0 && count == 0)
         || INNER_HEADER_BYTES + t > logical
      then Err(Invalid)
      else
        match Decode(padded[INNER_HEADER_BYTES..INNER_HEADER_BYTES + t])
        case None => Err(Invalid)
        case Some(text) =>
          match UnpackFiles(uc, padded[INNER_HEADER_BYTES + t..logical], count, {}, t)
          case Err(e) => Err(e)
          case Ok(files) => Ok(Content(text, files))
  }

  // ---- Decoding what was packed -------------------------------------------------------------

  function NormalizedFile(uc: Unicode, file: File): File
    requires NormalizeFilename(uc, file.name).Ok? && NormalizeMime(uc, file.mime).Ok?
  {
    File(NormalizeFilename(uc, file.name).value, NormalizeMime(uc, file.mime).value, file.data)
  }

  predicate FilesNormalize(uc: Unicode, files: seq<File>) {
    forall i :: 0 <= i < |files| ==> NormalizeFilename(uc, files[i].name).Ok? && NormalizeMime(uc, files[i].mime).Ok?
  }

  // The content with NFC names and lower-case or default media types.
  function Normalized(uc: Unicode, input: Content): Content
    requires FilesNormalize(uc, input.files)
  {
    Content(input.text, NormalizedFiles(uc, input.files))
  }

  function NormalizedFiles(uc: Unicode, files: seq<File>): seq<File>
    requires FilesNormalize(uc, files)
  {
    seq(|files|, i requires 0 <= i < |files| => NormalizedFile(uc, files[i]))
  }

  function DataBytes(parts: seq<Part>): nat {
    if parts == [] then 0 else |parts[0].data| + DataBytes(parts[1..])
  }

  lemma {:induction false} PreparedFilesFit(uc: Unicode, files: seq<File>, seen: set<Text>, used: nat)
    requires Lawful(uc) && PrepareFiles(uc, files, seen, used).Ok?
    ensures FilesNormalize(uc, files)
    ensures var parts := PrepareFiles(uc, files, seen, used).value;
            && |parts| == |files|
            && (used <= MAX_CONTENT_BYTES ==> used + DataBytes(parts) <= MAX_CONTENT_BYTES)
    ensures var parts := PrepareFiles(uc, files, seen, used).value;
            |Flatten(parts)| <= DataBytes(parts) + |files| * (8 + MAX_FILENAME_BYTES + MAX_MIME_BYTES)
  {
    hide NormalizeFilename, NormalizeMime, Encode, Decode, Be16, Be32;
    if files != [] {
      NormalizedName(uc, files[0].name);
      NormalizedMime(uc, files[0].mime);
      var folded := uc.lower(NormalizeFilename(uc, files[0].name).value);
      PreparedFilesFit(uc, files[1..], seen + {folded}, used + |files[0].data|);
    }
  }

  lemma ReadPart(part: Part, tail: seq<byte>)
    requires |part.name| < 0x1_0000 && |part.mime| < 0x1_0000 && |part.data| < 0x1_0000_0000
    ensures var rest := PartBytes(part) + tail;
            var (n, m, d) := (|part.name|, |part.mime|, |part.data|);
            && |rest| >= 8 + n + m + d
            && U16At(rest, 0) == n && U16At(rest, 2) == m && U32At(rest, 4) == d
            && rest[8..][..n] == part.name && rest[8..][n..n + m] == part.mime
            && rest[8..][n + m..n + m + d] == part.data && rest[8 + n + m + d..] == tail
  {
    hide Be16, Be32, U16At, U32At;
    var rest := PartBytes(part) + tail;
    var body := part.name + part.mime + part.data + tail;
    Be16RoundTrip(|part.name|, [], Be16(|part.mime|) + Be32(|part.data|) + body);
    Be16RoundTrip(|part.mime|, Be16(|part.name|), Be32(|part.data|) + body);
    Be32RoundTrip(|part.data|, Be16(|part.name|) + Be16(|part.mime|), body);
    assert rest == [] + Be16(|part.name|) + (Be16(|part.mime|) + Be32(|part.data|) + body);
    assert rest == Be16(|part.name|) + Be16(|part.mime|) + (Be32(|part.data|) + body);
    assert rest == (Be16(|part.name|) + Be16(|part.mime|)) + Be32(|part.data|) + body;
    assert rest[8..] == body;
    hide PartBytes;
    PiecesOf(part, tail);
    assert rest[8 + |part.name| + |part.mime| + |part.data|..] == rest[8..][|part.name| + |part.mime| + |part.data|..];
  }

  lemma PiecesOf(part: Part, tail: seq<byte>)
    ensures var (n, m, d) := (|part.name|, |part.mime|, |part.data|);
            var body := part.name + part.mime + part.data + tail;
            && body[..n] == part.name && body[n..n + m] == part.mime && body[n + m..n + m + d] == part.data
            && body[n + m + d..] == tail
  {
  }

  // Reading one written file and going on with the rest.
  lemma UnpackStep(uc: Unicode, file: File, tail: seq<byte>, count: nat, seen: set<Text>, used: nat)
    requires NormalizeFilename(uc, file.name) == Ok(file.name) && NormalizeMime(uc, file.mime) == Ok(file.mime)
    requires Decode(Encode(file.name)) == Some(file.name) && Decode(Encode(file.mime)) == Some(file.mime)
    requires 1 <= |Encode(file.name)| <= MAX_FILENAME_BYTES && 1 <= |Encode(file.mime)| <= MAX_MIME_BYTES
    requires uc.lower(file.name) !in seen && used + |file.data| <= MAX_CONTENT_BYTES && count > 0
    ensures var part := Part(Encode(file.name), Encode(file.mime), file.data);
            UnpackFiles(uc, PartBytes(part) + tail, count, seen, used)
            == Prepend([file], UnpackFiles(uc, tail, count - 1, seen + {uc.lower(file.name)}, used + |file.data|))
  {
    hide NormalizeFilename, NormalizeMime, Encode, Decode, PartBytes, U16At, U32At;
    var part := Part(Encode(file.name), Encode(file.mime), file.data);
    ReadPart(part, tail);
    assert UnpackFile(uc, (PartBytes(part) + tail)[8..], |part.name|, |part.mime|, |part.data|, seen) == Ok(file);
  }

  lemma NormalizedSplit(uc: Unicode, files: seq<File>)
    requires FilesNormalize(uc, files)
    ensures files == [] ==> NormalizedFiles(uc, files) == []
    ensures files != [] ==> FilesNormalize(uc, files[1..])
                            && NormalizedFiles(uc, files) == [NormalizedFile(uc, files[0])] + NormalizedFiles(uc, files[1..])
  {
    hide NormalizeFilename, NormalizeMime;
  }

  lemma FirstPart(uc: Unicode, files: seq<File>, seen: set<Text>, used: nat, file: File)
    requires Lawful(uc) && files != [] && PrepareFiles(uc, files, seen, used).Ok?
    requires NormalizeFilename(uc, files[0].name) == Ok(file.name) && NormalizeMime(uc, files[0].mime) == Ok(file.mime)
    requires file.data == files[0].data
    ensures uc.lower(file.name) !in seen && used + |file.data| <= MAX_CONTENT_BYTES
    ensures NormalizeFilename(uc, file.name) == Ok(file.name) && NormalizeMime(uc, file.mime) == Ok(file.mime)
    ensures Decode(Encode(file.name)) == Some(file.name) && Decode(Encode(file.mime)) == Some(file.mime)
    ensures 1 <= |Encode(file.name)| <= MAX_FILENAME_BYTES && 1 <= |Encode(file.mime)| <= MAX_MIME_BYTES
    ensures var rest := PrepareFiles(uc, files[1..], seen + {uc.lower(file.name)}, used + |file.data|);
            && rest.Ok?
            && Flatten(PrepareFiles(uc, files, seen, used).value)
            == PartBytes(Part(Encode(file.name), Encode(file.mime), file.data)) + Flatten(rest.value)
  {
    hide NormalizeFilename, NormalizeMime, Encode, Decode, PartBytes, Lawful;
    NormalizedName(uc, files[0].name);
    NormalizedMime(uc, files[0].mime);
    var rest := PrepareFiles(uc, files[1..], seen + {uc.lower(file.name)}, used + |file.data|).value;
    assert PrepareFiles(uc, files, seen, used).value[1..] == rest;
  }

  lemma {:induction false} FilesRoundTrip(uc: Unicode, files: seq<File>, seen: set<Text>, used: nat)
    requires Lawful(uc) && PrepareFiles(uc, files, seen, used).Ok?
    ensures FilesNormalize(uc, files)
    ensures UnpackFiles(uc, Flatten(PrepareFiles(uc, files, seen, used).value), |files|, seen, used)
         == Ok(NormalizedFiles(uc, files))
  {
    hide NormalizeFilename, NormalizeMime, Encode, Decode, PartBytes, Lawful, NormalizedFiles, DataBytes;
    PreparedFilesFit(uc, files, seen, used);
    NormalizedSplit(uc, files);
    if files != [] {
      var file := NormalizedFile(uc, files[0]);
      hide FilesNormalize, PrepareFiles, UnpackFiles, Flatten;
      FirstPart(uc, files, seen, used, file);
      var rest := PrepareFiles(uc, files[1..], seen + {uc.lower(file.name)}, used + |file.data|).value;
      FilesRoundTrip(uc, files[1..], seen + {uc.lower(file.name)}, used + |file.data|);
      UnpackStep(uc, file, Flatten(rest), |files|, seen, used);
    }
  }

  /** Unpacking any padded packing returns the content, with normalized names and media types. */
  lemma RoundTrip(uc: Unicode, input: Content, padding: seq<byte>)
    requires Lawful(uc) && Prepare(uc, input).Ok?
    requires var plan := Prepare(uc, input).value; LogicalLength(plan) + |padding| == PaddedLength(LogicalLength(plan))
    ensures FilesNormalize(uc, input.files)
    ensures Unpack(uc, Envelope(Prepare(uc, input).value) + padding) == Ok(Normalized(uc, input))
    ensures LogicalLength(Prepare(uc, input).value) <= MAX_INNER_BYTES
  {
    hide NormalizeFilename, NormalizeMime, Encode, Decode, U16At, U32At, Lawful, PrepareFiles, UnpackFiles, Flatten, Be16, Be32,
         Prepare, Envelope, FilesNormalize, Normalized;
    var plan := Prepare(uc, input).value;
    var logical := LogicalLength(plan);
    PlanFits(uc, input);
    ReadEnvelope(plan, padding);
    PaddedLengthIsLeast(logical, MAX_PADDED_BYTES);
  }

  // What was prepared keeps within the bounds, and its pieces decode.
  lemma PlanFits(uc: Unicode, input: Content)
    requires Lawful(uc) && Prepare(uc, input).Ok?
    ensures FilesNormalize(uc, input.files)
    ensures var plan := Prepare(uc, input).value;
            && LogicalLength(plan) <= MAX_INNER_BYTES && |plan.text| <= MAX_TEXT_BYTES && |plan.parts| <= MAX_FILES
            && !(|plan.text| == 0 && |plan.parts| == 0)
            && Decode(plan.text) == Some(input.text)
            && UnpackFiles(uc, Flatten(plan.parts), |plan.parts|, {}, |plan.text|) == Ok(NormalizedFiles(uc, input.files))
            && Normalized(uc, input) == Content(input.text, NormalizedFiles(uc, input.files))
  {
    hide NormalizeFilename, NormalizeMime, Encode, Decode, Lawful, PrepareFiles, UnpackFiles, Flatten, FilesNormalize, NormalizedFiles;
    PreparedFilesFit(uc, input.files, {}, |Prepare(uc, input).value.text|);
    FilesRoundTrip(uc, input.files, {}, |Prepare(uc, input).value.text|);
  }

  lemma ReadEnvelope(plan: Plan, padding: seq<byte>)
    requires LogicalLength(plan) < 0x1_0000_0000 && |plan.parts| < 0x1_0000
    ensures var padded := Envelope(plan) + padding;
            && padded[..4] == ECN1 && U32At(padded, 4) == LogicalLength(plan)
            && U32At(padded, 8) == |plan.text| && U16At(padded, 12) == |plan.parts|
            && padded[14..14 + |plan.text|] == plan.text
            && padded[14 + |plan.text|..LogicalLength(plan)] == Flatten(plan.parts)
  {
    hide Be16, Be32, U16At, U32At, Flatten;
    var padded := Envelope(plan) + padding;
    var l, t, c := Be32(LogicalLength(plan)), Be32(|plan.text|), Be16(|plan.parts|);
    var body := plan.text + Flatten(plan.parts) + padding;
    Be32RoundTrip(LogicalLength(plan), ECN1, t + c + body);
    Be32RoundTrip(|plan.text|, ECN1 + l, c + body);
    Be16RoundTrip(|plan.parts|, ECN1 + l + t, body);
    assert padded == ECN1 + l + (t + c + body);
    assert padded == (ECN1 + l) + t + (c + body);
    assert padded == (ECN1 + l + t) + c + body;
  }

  // ---- Packing what was decoded ---------------------------------------------------------------

  lemma WrittenPart(rest: seq<byte>, n: nat, m: nat, d: nat)
    requires 8 + n + m + d <= |rest| && n == U16At(rest, 0) && m == U16At(rest, 2) && d == U32At(rest, 4)
    ensures PartBytes(Part(rest[8..][..n], rest[8..][n..n + m], rest[8..][n + m..n + m + d])) == rest[..8 + n + m + d]
  {
    hide Be16, Be32, U16At, U32At;
    Be16Inverse(rest, 0);
    Be16Inverse(rest, 2);
    Be32Inverse(rest, 4);
    var body := rest[8..];
    assert rest[..8] == rest[0..2] + rest[2..4] + rest[4..8];
    assert body[..n + m + d] == body[..n] + body[n..n + m] + body[n + m..n + m + d];
    assert rest[..8 + n + m + d] == rest[..8] + body[..n + m + d];
  }

  lemma {:induction false} FilesCanonical(uc: Unicode, rest: seq<byte>, count: nat, seen: set<Text>, used: nat)
    requires UnpackFiles(uc, rest, count, seen, used).Ok?
    ensures var files := UnpackFiles(uc, rest, count, seen, used).value;
            && |files| == count && AreNormalized(uc, files)
            && PrepareFiles(uc, files, seen, used).Ok?
            && |PrepareFiles(uc, files, seen, used).value| == count
            && Flatten(PrepareFiles(uc, files, seen, used).value) == rest
    decreases count
  {
    hide NormalizeFilename, NormalizeMime, Encode, Decode, PartBytes, U16At, U32At, UnpackFile, UnpackFiles, AreNormalized,
         PrepareFiles, Flatten;
    if count > 0 {
      var n, m, d := UnpackedFirst(uc, rest, count, seen, used);
      var file := UnpackFile(uc, rest[8..], n, m, d, seen).value;
      var tail := rest[8 + n + m + d..];
      var files' := UnpackFiles(uc, tail, count - 1, seen + {uc.lower(file.name)}, used + d).value;
      FileCanonical(uc, rest, n, m, d, seen);
      FilesCanonical(uc, tail, count - 1, seen + {uc.lower(file.name)}, used + d);
      PrependFile(uc, file, files', seen, used);
      assert rest == rest[..8 + n + m + d] + tail;
    } else {
      UnpackedNone(uc, rest, seen, used);
    }
  }

  lemma UnpackedNone(uc: Unicode, rest: seq<byte>, seen: set<Text>, used: nat)
    requires UnpackFiles(uc, rest, 0, seen, used).Ok?
    ensures rest == [] && UnpackFiles(uc, rest, 0, seen, used) == Ok([])
    ensures AreNormalized(uc, []) && PrepareFiles(uc, [], seen, used) == Ok([]) && Flatten([]) == []
  {
  }

  // What was read first, and what is read after it.
  lemma UnpackedFirst(uc: Unicode, rest: seq<byte>, count: nat, seen: set<Text>, used: nat) returns (n: nat, m: nat, d: nat)
    requires count > 0 && UnpackFiles(uc, rest, count, seen, used).Ok?
    ensures |rest| >= 8 && n == U16At(rest, 0) && m == U16At(rest, 2) && d == U32At(rest, 4)
    ensures used + d <= MAX_CONTENT_BYTES && UnpackFile(uc, rest[8..], n, m, d, seen).Ok? && 8 + n + m + d <= |rest|
    ensures var file := UnpackFile(uc, rest[8..], n, m, d, seen).value;
            var others := UnpackFiles(uc, rest[8 + n + m + d..], count - 1, seen + {uc.lower(file.name)}, used + d);
            others.Ok? && UnpackFiles(uc, rest, count, seen, used) == Ok([file] + others.value)
  {
    hide UnpackFile, U16At, U32At;
    n, m, d := U16At(rest, 0), U16At(rest, 2), U32At(rest, 4);
  }

  predicate AreNormalized(uc: Unicode, files: seq<File>) {
    FilesNormalize(uc, files) && NormalizedFiles(uc, files) == files
  }

  lemma PrependFile(uc: Unicode, file: File, files: seq<File>, seen: set<Text>, used: nat)
    requires NormalizeFilename(uc, file.name) == Ok(file.name) && NormalizeMime(uc, file.mime) == Ok(file.mime)
    requires uc.lower(file.name) !in seen && used + |file.data| <= MAX_CONTENT_BYTES
    requires AreNormalized(uc, files)
    requires PrepareFiles(uc, files, seen + {uc.lower(file.name)}, used + |file.data|).Ok?
    ensures AreNormalized(uc, [file] + files)
    ensures var part := Part(Encode(file.name), Encode(file.mime), file.data);
            var parts := PrepareFiles(uc, files, seen + {uc.lower(file.name)}, used + |file.data|).value;
            && PrepareFiles(uc, [file] + files, seen, used) == Ok([part] + parts)
            && Flatten([part] + parts) == PartBytes(part) + Flatten(parts)
  {
    hide NormalizeFilename, NormalizeMime, Encode, PartBytes;
    assert ([file] + files)[1..] == files;
    var all := [file] + files;
    forall i | 0 <= i < |all|
      ensures NormalizeFilename(uc, all[i].name).Ok? && NormalizeMime(uc, all[i].mime).Ok? && NormalizedFile(uc, all[i]) == all[i]
    {
      if i > 0 {
        assert NormalizedFiles(uc, files)[i - 1] == files[i - 1];
      }
    }
  }

  lemma FileCanonical(uc: Unicode, rest: seq<byte>, n: nat, m: nat, d: nat, seen: set<Text>)
    requires |rest| >= 8 && n == U16At(rest, 0) && m == U16At(rest, 2) && d == U32At(rest, 4)
    requires UnpackFile(uc, rest[8..], n, m, d, seen).Ok?
    ensures var file := UnpackFile(uc, rest[8..], n, m, d, seen).value;
            && NormalizeFilename(uc, file.name) == Ok(file.name) && NormalizeMime(uc, file.mime) == Ok(file.mime)
            && uc.lower(file.name) !in seen && |file.data| == d
            && PartBytes(Part(Encode(file.name), Encode(file.mime), file.data)) == rest[..8 + n + m + d]
  {
    hide NormalizeFilename, NormalizeMime, Encode, Decode, PartBytes, U16At, U32At;
    EncodeDecode(rest[8..][..n]);
    EncodeDecode(rest[8..][n..n + m]);
    WrittenPart(rest, n, m, d);
  }

  /** Whatever unpack accepts, pack accepts unchanged and writes the same logical bytes. */
  lemma UnpackIsCanonical(uc: Unicode, padded: seq<byte>)
    requires Unpack(uc, padded).Ok?
    ensures var x := Unpack(uc, padded).value;
            && Prepare(uc, x).Ok?
            && LogicalLength(Prepare(uc, x).value) == U32At(padded, 4) <= |padded|
            && Envelope(Prepare(uc, x).value) == padded[..U32At(padded, 4)]
            && AreNormalized(uc, x.files)
  {
    hide NormalizeFilename, NormalizeMime, Encode, Decode, U16At, U32At, PrepareFiles, UnpackFiles, Flatten, Be16, Be32;
    var x := Unpack(uc, padded).value;
    var logical, t, count := U32At(padded, 4), U32At(padded, 8), U16At(padded, 12);
    EncodeDecode(padded[14..14 + t]);
    FilesCanonical(uc, padded[14 + t..logical], count, {}, t);
    Be32Inverse(padded, 4);
    Be32Inverse(padded, 8);
    Be16Inverse(padded, 12);
    var plan := Prepare(uc, x).value;
    assert LogicalLength(plan) == logical;
    assert padded[..logical] == padded[..4] + padded[4..8] + padded[8..12] + padded[12..14] + padded[14..14 + t] + padded[14 + t..logical];
  }

  /** No two different logical envelopes decode to the same content. */
  lemma UnpackIsInjective(uc: Unicode, a: seq<byte>, b: seq<byte>)
    requires Unpack(uc, a).Ok? && Unpack(uc, a) == Unpack(uc, b)
    ensures U32At(a, 4) == U32At(b, 4) && a[..U32At(a, 4)] == b[..U32At(a, 4)] && |a| == |b|
  {
    UnpackIsCanonical(uc, a);
    UnpackIsCanonical(uc, b);
  }
}
