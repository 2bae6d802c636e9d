/** `pack` and `unpack` as the client runs them: a buffer filled at a moving offset, and a cursor
    over the logical region. */
module ContentCodec {
  import opened Wrappers
  import opened Bytes
  import opened Utf8
  import opened Content

  // Uint8Array.set(part, offset)
  method Put(a: array<byte>, offset: nat, part: seq<byte>)
    requires offset + |part| <= a.Length
    modifies a
    ensures a[..offset + |part|] == old(a[..offset]) + part
    ensures forall i :: offset + |part| <= i < a.Length ==> a[i] == old(a[i])
  {
    forall i | 0 <= i < |part| {
      a[offset + i] := part[i];
    }
  }

  lemma PrependNothing<T>(r: Result<seq<T>, Error>)
    ensures Prepend([], r) == r
  {
    if r.Ok? {
      assert [] + r.value == r.value;
    }
  }

  lemma PrependPrepend<T>(before: seq<T>, x: T, r: Result<seq<T>, Error>)
    ensures Prepend(before, Prepend([x], r)) == Prepend(before + [x], r)
  {
    if r.Ok? {
      assert before + ([x] + r.value) == before + [x] + r.value;
    }
  }

  // The files of pack's input, checked and encoded in order.
  method PrepareEach(uc: Unicode, files: seq<File>, textBytes: nat) returns (r: Result<seq<Part>, Error>)
    ensures r == PrepareFiles(uc, files, {}, textBytes)
  {
    hide NormalizeFilename, NormalizeMime, Encode;
    var names: set<Text> := {};
    var contentBytes: nat := textBytes;
    assert files[0..] == files;
    PrependNothing(PrepareFiles(uc, files, {}, textBytes));
    var parts: seq<Part> := [];
    for i := 0 to |files|
      invariant PrepareFiles(uc, files, {}, textBytes)
             == Prepend(parts, PrepareFiles(uc, files[i..], names, contentBytes))
    {
      var file := files[i];
      assert files[i..][0] == file && files[i..][1..] == files[i + 1..];
      contentBytes := contentBytes + |file.data|;
      if contentBytes > MAX_CONTENT_BYTES {
        return Err(TooLarge);
      }
      var name := NormalizeFilename(uc, file.name);
      if name.Err? {
        return Err(name.error);
      }
      var folded := uc.lower(name.value);
      if folded in names {
        return Err(DuplicateFilename);
      }
      names := names + {folded};
      var mime := NormalizeMime(uc, file.mime);
      if mime.Err? {
        return Err(mime.error);
      }
      ghost var before := parts;
      var part := Part(Encode(name.value), Encode(mime.value), file.data);
      parts := parts + [part];
      PrependPrepend(before, part, PrepareFiles(uc, files[i + 1..], names, contentBytes));
    }
    assert files[|files|..] == [];
    r := Ok(parts);
    assert parts + [] == parts;
  }

  /** pack: the envelope of the prepared content, then random bytes up to the padded length.
      Unpacking the buffer gives the normalized content back. */
  method Pack(uc: Unicode, input: Content, noise: nat -> byte) returns (r: Result<array<byte>, Error>)
    ensures r.Err? ==> Prepare(uc, input) == Err(r.error)
    ensures r.Ok? ==>
              && Prepare(uc, input).Ok? && fresh(r.value)
              && var plan := Prepare(uc, input).value;
                 var logical := LogicalLength(plan);
              && r.value.Length == PaddedLength(logical)
              && r.value[..logical] == Envelope(plan)
              && forall i :: logical <= i < r.value.Length ==> r.value[i] == noise(i)
    ensures r.Ok? && Lawful(uc) ==>
              FilesNormalize(uc, input.files) && Unpack(uc, r.value[..]) == Ok(Normalized(uc, input))
  {
    if |input.text| > MAX_TEXT_BYTES || |input.files| > MAX_FILES {
      return Err(Invalid);
    }
    var encoded := EncodeText(input.text);
    if encoded.None? {
      return Err(Invalid);
    }
    var text := encoded.value;
    if |text| > MAX_TEXT_BYTES {
      return Err(TooLarge);
    }
    if |text| == 0 && |input.files| == 0 {
      return Err(EmptyContent);
    }
    var prepared := PrepareEach(uc, input.files, |text|);
    if prepared.Err? {
      return Err(prepared.error);
    }
    var plan := Plan(text, prepared.value);
    var padded := Write(plan, noise);
    r := Ok(padded);
    hide *;
    assert padded[..] == padded[..LogicalLength(plan)] + padded[LogicalLength(plan)..];
    if Lawful(uc) {
      RoundTrip(uc, input, padded[LogicalLength(plan)..]);
    }
  }

  method Write(plan: Plan, noise: nat -> byte) returns (padded: array<byte>)
    ensures fresh(padded) && padded.Length == PaddedLength(LogicalLength(plan))
    ensures padded[..LogicalLength(plan)] == Envelope(plan)
    ensures forall i :: LogicalLength(plan) <= i < padded.Length ==> padded[i] == noise(i)
  {
    hide Be16, Be32, PartBytes;
    var text, files := plan.text, plan.parts;
    var logicalLength := INNER_HEADER_BYTES + |text|;
    for i := 0 to |files|
      invariant logicalLength + |Flatten(files[i..])| == LogicalLength(plan)
    {
      assert files[i..][0] == files[i] && files[i..][1..] == files[i + 1..];
      PartLength(files[i]);
      logicalLength := logicalLength + 8 + |files[i].name| + |files[i].mime| + |files[i].data|;
    }
    PaddedLengthIsLeast(logicalLength, 0);
    padded := new byte[PaddedLength(logicalLength)](i => 0);
    var n := logicalLength;
    while n < padded.Length
      invariant logicalLength <= n
      invariant forall i :: logicalLength <= i < n && i < padded.Length ==> padded[i] == noise(i)
    {
      forall i | n <= i < n + 65536 && i < padded.Length {
        padded[i] := noise(i);
      }
      n := n + 65536;
    }
    WriteHeader(padded, plan, logicalLength);
    WriteFiles(padded, plan, logicalLength);
  }

  method WriteHeader(padded: array<byte>, plan: Plan, logicalLength: nat)
    requires logicalLength == LogicalLength(plan) <= padded.Length
    modifies padded
    ensures padded[..INNER_HEADER_BYTES + |plan.text|] == Envelope(plan)[..INNER_HEADER_BYTES + |plan.text|]
    ensures forall i :: logicalLength <= i < padded.Length ==> padded[i] == old(padded[i])
  {
    hide Be16, Be32, Flatten;
    Put(padded, 0, ECN1);
    Put(padded, 4, Be32(logicalLength));
    Put(padded, 8, Be32(|plan.text|));
    Put(padded, 12, Be16(|plan.parts|));
    Put(padded, INNER_HEADER_BYTES, plan.text);
    assert padded[..INNER_HEADER_BYTES + |plan.text|]
        == ECN1 + Be32(logicalLength) + Be32(|plan.text|) + Be16(|plan.parts|) + plan.text;
  }

  method WriteFiles(padded: array<byte>, plan: Plan, logicalLength: nat)
    requires logicalLength == LogicalLength(plan) <= padded.Length
    requires padded[..INNER_HEADER_BYTES + |plan.text|] == Envelope(plan)[..INNER_HEADER_BYTES + |plan.text|]
    modifies padded
    ensures padded[..logicalLength] == Envelope(plan)
    ensures forall i :: logicalLength <= i < padded.Length ==> padded[i] == old(padded[i])
  {
    ghost var target := Envelope(plan);
    var files := plan.parts;
    var offset := INNER_HEADER_BYTES + |plan.text|;
    assert files[0..] == files;
    assert target[offset..] == Flatten(files);
    hide Be16, Be32, PartBytes, Envelope, Flatten;
    for i := 0 to |files|
      invariant 0 <= offset <= logicalLength == |target|
      invariant padded[..offset] == target[..offset] && target[offset..] == Flatten(files[i..])
      invariant forall i :: logicalLength <= i < padded.Length ==> padded[i] == old(padded[i])
    {
      NextPart(target, files, i, offset);
      offset := WritePart(padded, offset, files[i]);
    }
    assert files[|files|..] == [];
  }

  // Where the next part of the envelope lies.
  lemma NextPart(target: seq<byte>, files: seq<Part>, i: nat, start: nat)
    requires i < |files| && start <= |target| && target[start..] == Flatten(files[i..])
    ensures var next := start + |PartBytes(files[i])|;
            && next <= |target| && target[..next] == target[..start] + PartBytes(files[i])
            && target[next..] == Flatten(files[i + 1..])
  {
    hide PartBytes;
    assert files[i..][0] == files[i] && files[i..][1..] == files[i + 1..];
    var next := start + |PartBytes(files[i])|;
    assert target[..next] == target[..start] + target[start..][..next - start];
    assert target[next..] == target[start..][next - start..];
  }

  lemma PartLength(part: Part)
    ensures |PartBytes(part)| == 8 + |part.name| + |part.mime| + |part.data|
  {
  }

  method WriteLengths(padded: array<byte>, start: nat, file: Part)
    requires start + 8 <= padded.Length
    modifies padded
    ensures padded[..start + 8] == old(padded[..start]) + (Be16(|file.name|) + Be16(|file.mime|) + Be32(|file.data|))
    ensures forall i :: start + 8 <= i < padded.Length ==> padded[i] == old(padded[i])
  {
    hide Be16, Be32;
    Put(padded, start, Be16(|file.name|));
    Put(padded, start + 2, Be16(|file.mime|));
    Put(padded, start + 4, Be32(|file.data|));
  }

  method WritePart(padded: array<byte>, start: nat, file: Part) returns (offset: nat)
    requires start + |PartBytes(file)| <= padded.Length
    modifies padded
    ensures offset == start + |PartBytes(file)|
    ensures padded[..offset] == old(padded[..start]) + PartBytes(file)
    ensures forall i :: offset <= i < padded.Length ==> padded[i] == old(padded[i])
  {
    hide Be16, Be32;
    offset := start;
    WriteLengths(padded, offset, file);
    offset := offset + 8;
    Put(padded, offset, file.name);
    offset := offset + |file.name|;
    Put(padded, offset, file.mime);
    offset := offset + |file.mime|;
    Put(padded, offset, file.data);
    offset := offset + |file.data|;
  }

  /** unpack: the buffer is read through a cursor that stays inside the logical region. */
  method UnpackBuffer(uc: Unicode, padded: seq<byte>) returns (r: Result<Content, Error>)
    ensures r == Unpack(uc, padded)
  {
    hide Decode, U16At, U32At, UnpackFiles, PaddedLength;
    if || |padded| < PADDING_BYTES || |padded| > MAX_PADDED_BYTES || |padded| % PADDING_BYTES != 0
       || padded[0] != 69 || padded[1] != 67 || padded[2] != 78 || padded[3] != 49 {
      return Err(Invalid);
    }
    assert padded[..4] == ECN1;
    var logicalLength, textLength, count := U32At(padded, 4), U32At(padded, 8), U16At(padded, 12);
    if || logicalLength < INNER_HEADER_BYTES || logicalLength > MAX_INNER_BYTES || logicalLength > |padded|
       || PaddedLength(logicalLength) != |padded|
       || textLength > MAX_TEXT_BYTES || count > MAX_FILES || (textLength == 0 && count == 0) {
      return Err(Invalid);
    }
    var offset := INNER_HEADER_BYTES;
    if offset + textLength > logicalLength {
      return Err(Invalid);
    }
    var text := Decode(padded[offset..offset + textLength]);
    if text.None? {
      return Err(Invalid);
    }
    offset := offset + textLength;
    var files := ReadFiles(uc, padded, logicalLength, offset, count, textLength);
    r := if files.Ok? then Ok(Content(text.value, files.value)) else Err(files.error);
  }

  // One file and the bytes it takes.
  datatype Head = Head(file: File, length: nat)

  function UnpackHead(uc: Unicode, rest: seq<byte>, seen: set<Text>, used: nat): (r: Result<Head, Error>)
    ensures r.Ok? ==> r.value.length <= |rest|
  {
    if |rest| < 8 then Err(Invalid)
    else
      var n, m, d := U16At(rest, 0), U16At(rest, 2), U32At(rest, 4);
      if n == 0 || n > MAX_FILENAME_BYTES || m == 0 || m > MAX_MIME_BYTES || used + d > MAX_CONTENT_BYTES then Err(Invalid)
      else
        match UnpackFile(uc, rest[8..], n, m, d, seen)
        case Err(e) => Err(e)
        case Ok(file) => Ok(Head(file, 8 + n + m + d))
  }

  // What is read is one file and then the others.
  lemma HeadThenRest(uc: Unicode, rest: seq<byte>, count: nat, seen: set<Text>, used: nat)
    requires count > 0
    ensures UnpackFiles(uc, rest, count, seen, used)
         == match UnpackHead(uc, rest, seen, used)
            case Err(e) => Err(e)
            case Ok(h) =>
              Prepend([h.file], UnpackFiles(uc, rest[h.length..], count - 1, seen + {uc.lower(h.file.name)}, used + |h.file.data|))
  {
    hide NormalizeFilename, NormalizeMime, Decode, U16At, U32At;
  }

  method ReadFiles(uc: Unicode, padded: seq<byte>, logicalLength: nat, start: nat, count: nat, textLength: nat)
    returns (r: Result<seq<File>, Error>)
    requires start <= logicalLength <= |padded|
    ensures r == UnpackFiles(uc, padded[start..logicalLength], count, {}, textLength)
  {
    hide UnpackFiles, UnpackHead;
    var offset := start;
    var files: seq<File> := [];
    var names: set<Text> := {};
    var contentBytes: nat := textLength;
    ghost var whole := UnpackFiles(uc, padded[start..logicalLength], count, {}, textLength);
    PrependNothing(whole);
    for i := 0 to count
      invariant start <= offset <= logicalLength
      invariant whole == Prepend(files, UnpackFiles(uc, padded[offset..logicalLength], count - i, names, contentBytes))
    {
      ghost var rest := padded[offset..logicalLength];
      HeadThenRest(uc, rest, count - i, names, contentBytes);
      var head := ReadHead(uc, padded, logicalLength, offset, names, contentBytes);
      if head.Err? {
        return Err(head.error);
      }
      var file := head.value.file;
      contentBytes := contentBytes + |file.data|;
      names := names + {uc.lower(file.name)};
      offset := offset + head.value.length;
      assert rest[head.value.length..] == padded[offset..logicalLength];
      PrependPrepend(files, file, UnpackFiles(uc, padded[offset..logicalLength], count - i - 1, names, contentBytes));
      files := files + [file];
    }
    EndOfFiles(uc, padded[offset..logicalLength], names, contentBytes);
    if offset != logicalLength {
      return Err(Invalid);
    }
    r := Ok(files);
    assert padded[offset..logicalLength] == [];
    assert files + [] == files;
  }

  // The lengths and limits of one file, and then its parts.
  method ReadHead(uc: Unicode, padded: seq<byte>, logicalLength: nat, start: nat, names: set<Text>, contentBytes: nat)
    returns (r: Result<Head, Error>)
    requires start <= logicalLength <= |padded|
    ensures r == UnpackHead(uc, padded[start..logicalLength], names, contentBytes)
  {
    hide U16At, U32At, UnpackFile;
    var offset := start;
    ghost var rest := padded[start..logicalLength];
    if offset + 8 > logicalLength {
      return Err(Invalid);
    }
    var nameLength, mimeLength, dataLength := U16At(padded, offset), U16At(padded, offset + 2), U32At(padded, offset + 4);
    SliceReads(padded, offset, logicalLength);
    offset := offset + 8;
    if nameLength == 0 || nameLength > MAX_FILENAME_BYTES || mimeLength == 0 || mimeLength > MAX_MIME_BYTES {
      return Err(Invalid);
    }
    if contentBytes + dataLength > MAX_CONTENT_BYTES {
      return Err(Invalid);
    }
    var file := ReadFile(uc, padded, logicalLength, offset, nameLength, mimeLength, dataLength, names);
    assert rest[8..] == padded[offset..logicalLength];
    r := if file.Ok? then Ok(Head(file.value, 8 + nameLength + mimeLength + dataLength)) else Err(file.error);
  }

  lemma EndOfFiles(uc: Unicode, rest: seq<byte>, seen: set<Text>, used: nat)
    ensures UnpackFiles(uc, rest, 0, seen, used) == if rest == [] then Ok([]) else Err(Invalid)
  {
  }

  lemma SliceReads(padded: seq<byte>, offset: nat, logicalLength: nat)
    requires offset + 8 <= logicalLength <= |padded|
    ensures var rest := padded[offset..logicalLength];
            && U16At(rest, 0) == U16At(padded, offset) && U16At(rest, 2) == U16At(padded, offset + 2)
            && U32At(rest, 4) == U32At(padded, offset + 4)
  {
  }

  lemma SliceOfSlice(s: seq<byte>, start: nat, end: nat, i: nat, j: nat)
    requires start <= start + i <= start + j <= end <= |s|
    ensures s[start..end][i..j] == s[start + i..start + j]
  {
    assert forall k :: 0 <= k < j - i ==> s[start..end][i..j][k] == s[start + i + k];
  }

  lemma SlicesOfSlice(padded: seq<byte>, start: nat, end: nat, n: nat, m: nat, d: nat)
    requires start <= end <= |padded|
    ensures var rest := padded[start..end];
            && (start + n <= end ==> rest[..n] == padded[start..start + n])
            && (start + n + m <= end ==> rest[n..n + m] == padded[start + n..start + n + m])
            && (start + n + m + d <= end ==> rest[n + m..n + m + d] == padded[start + n + m..start + n + m + d])
  {
    if start + n <= end {
      SliceOfSlice(padded, start, end, 0, n);
    }
    if start + n + m <= end {
      SliceOfSlice(padded, start, end, n, n + m);
    }
    if start + n + m + d <= end {
      SliceOfSlice(padded, start, end, n + m, n + m + d);
    }
  }

  // Name, media type and data of one file, each taken at the cursor.
  method ReadFile(uc: Unicode, padded: seq<byte>, logicalLength: nat, start: nat,
                  nameLength: nat, mimeLength: nat, dataLength: nat, names: set<Text>)
    returns (r: Result<File, Error>)
    requires start <= logicalLength <= |padded|
    ensures r == UnpackFile(uc, padded[start..logicalLength], nameLength, mimeLength, dataLength, names)
  {
    hide NormalizeFilename, NormalizeMime, Decode;
    ghost var rest := padded[start..logicalLength];
    SlicesOfSlice(padded, start, logicalLength, nameLength, mimeLength, dataLength);
    var offset := start;
    if offset + nameLength > logicalLength {
      return Err(Invalid);
    }
    var nameBytes := padded[offset..offset + nameLength];
    var name := Decode(nameBytes);
    offset := offset + nameLength;
    if name.None? || offset + mimeLength > logicalLength {
      return Err(Invalid);
    }
    var mimeBytes := padded[offset..offset + mimeLength];
    var mime := Decode(mimeBytes);
    offset := offset + mimeLength;
    if mime.None? {
      return Err(Invalid);
    }
    var normalized := NormalizeFilename(uc, name.value);
    if normalized.Err? {
      return Err(normalized.error);
    }
    if normalized.value != name.value || NormalizeMime(uc, mime.value) != Ok(mime.value)
       || uc.lower(name.value) in names || offset + dataLength > logicalLength {
      return Err(Invalid);
    }
    r := Ok(File(name.value, mime.value, padded[offset..offset + dataLength]));
  }
}
