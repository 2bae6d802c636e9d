/** What `pack` accepts and writes, and what `unpack` accepts, stated on whole lists, bytes and offsets. */
module ContentLaws {
  import opened Wrappers
  import opened Bytes
  import opened Utf8
  import opened Content

  // ---- File names -----------------------------------------------------------------------------

  // The letters of s in either case, and everything else as it is.
  predicate IsSpelled(t: Text, s: string) {
    && |t| == |s|
    && forall i :: 0 <= i < |t| ==> t[i] == s[i] as int || ('a' <= s[i] <= 'z' && t[i] as int + 32 == s[i] as int)
  }

  // The names that Windows keeps for devices.
  predicate IsDevice(t: Text) {
    || IsSpelled(t, "con") || IsSpelled(t, "prn") || IsSpelled(t, "aux") || IsSpelled(t, "nul")
    || IsSpelled(t, "conin$") || IsSpelled(t, "conout$")
    || (&& |t| == 4 && (IsSpelled(t[..3], "com") || IsSpelled(t[..3], "lpt"))
        && (49 <= t[3] <= 57 || t[3] == 185 || t[3] == 178 || t[3] == 179))
  }

  // A device name alone or before a point.
  predicate NamesDevice(name: Text) {
    exists k :: 0 <= k <= |name| && (k < |name| ==> name[k] == 46) && IsDevice(name[..k])
  }

  predicate IsUnsafe(u: unit) {
    || u < 32 || 127 <= u < 160
    || u == 60 || u == 62 || u == 58 || u == 34 || u == 47 || u == 92 || u == 124 || u == 63 || u == 42
    || u == 0x61C || u == 0x200E || u == 0x200F || u == 0x202A || u == 0x202B || u == 0x202C || u == 0x202D || u == 0x202E
    || u == 0x2066 || u == 0x2067 || u == 0x2068 || u == 0x2069
  }

  predicate IsUnusable(name: Text) {
    || |name| == 0 || name == [46] || name == [46, 46]
    || name[|name| - 1] == 46 || name[|name| - 1] == 32
    || (exists i :: 0 <= i < |name| && IsUnsafe(name[i]))
    || NamesDevice(name)
  }

  // Where the first point is, or the end.
  function FirstPoint(name: Text): (k: nat)
    ensures k <= |name| && (k < |name| ==> name[k] == 46) && forall i :: 0 <= i < k ==> name[i] != 46
  {
    if name == [] || name[0] == 46 then 0 else 1 + FirstPoint(name[1..])
  }

  lemma {:induction false} StemIs(name: Text)
    ensures var k := FirstPoint(name);
            |Stem(name)| == k && forall i :: 0 <= i < k ==> Stem(name)[i] == LowerAscii(name[i])
  {
    if name != [] && name[0] != 46 {
      StemIs(name[1..]);
    }
  }

  lemma SpelledIs(t: Text, lower: Text, s: string)
    requires |lower| == |t| && forall i :: 0 <= i < |t| ==> lower[i] == LowerAscii(t[i])
    requires forall i :: 0 <= i < |s| ==> s[i] < 128 as char && !('A' <= s[i] <= 'Z')
    ensures IsSpelled(t, s) <==> lower == Ascii(s)
  {
    if |t| == |s| {
      if lower == Ascii(s) {
        forall i | 0 <= i < |t| ensures t[i] == s[i] as int || ('a' <= s[i] <= 'z' && t[i] as int + 32 == s[i] as int) {
          assert lower[i] == Ascii(s)[i];
        }
      }
    }
  }

  lemma WordsAre(t: Text, lower: Text)
    requires |lower| == |t| && forall i :: 0 <= i < |t| ==> lower[i] == LowerAscii(t[i])
    ensures lower in {Ascii("con"), Ascii("prn"), Ascii("aux"), Ascii("nul"), Ascii("conin$"), Ascii("conout$")}
       <==> || IsSpelled(t, "con") || IsSpelled(t, "prn") || IsSpelled(t, "aux") || IsSpelled(t, "nul")
            || IsSpelled(t, "conin$") || IsSpelled(t, "conout$")
  {
    SpelledIs(t, lower, "con");
    SpelledIs(t, lower, "prn");
    SpelledIs(t, lower, "aux");
    SpelledIs(t, lower, "nul");
    SpelledIs(t, lower, "conin$");
    SpelledIs(t, lower, "conout$");
    hide IsSpelled, Ascii, LowerAscii;
  }

  lemma PortsAre(t: Text, lower: Text)
    requires |lower| == |t| == 4 && forall i :: 0 <= i < |t| ==> lower[i] == LowerAscii(t[i])
    ensures lower[..3] in {Ascii("com"), Ascii("lpt")} <==> IsSpelled(t[..3], "com") || IsSpelled(t[..3], "lpt")
    ensures ('1' as int <= lower[3] <= '9' as int || lower[3] in {0xB9, 0xB2, 0xB3})
       <==> 49 <= t[3] <= 57 || t[3] == 185 || t[3] == 178 || t[3] == 179
  {
    SpelledIs(t[..3], lower[..3], "com");
    SpelledIs(t[..3], lower[..3], "lpt");
    assert lower[3] == LowerAscii(t[3]);
    hide IsSpelled, Ascii;
  }

  lemma DeviceIs(name: Text)
    ensures IsReserved(name) <==> IsDevice(name[..FirstPoint(name)])
  {
    hide IsSpelled, Ascii, Stem, FirstPoint, LowerAscii;
    StemIs(name);
    var t, lower := name[..FirstPoint(name)], Stem(name);
    WordsAre(t, lower);
    if |t| == 4 {
      PortsAre(t, lower);
    }
  }

  // No device name contains a point, so only the first point counts.
  lemma NamesDeviceIs(name: Text)
    ensures NamesDevice(name) <==> IsReserved(name)
  {
    DeviceIs(name);
    hide IsReserved, Stem;
    forall k | 0 <= k <= |name| && (k < |name| ==> name[k] == 46) && IsDevice(name[..k])
      ensures k == FirstPoint(name)
    {
      if FirstPoint(name) < k {
        assert name[..k][FirstPoint(name)] == 46;
        PointNotInDevice(name[..k], FirstPoint(name));
      }
    }
    if IsReserved(name) {
      var k := FirstPoint(name);
      assert (k < |name| ==> name[k] == 46) && IsDevice(name[..k]);
    }
  }

  lemma PointNotInDevice(t: Text, i: nat)
    requires i < |t| && t[i] == 46
    ensures !IsDevice(t)
  {
    if |t| == 4 && i < 3 {
      assert t[..3][i] == 46;
    }
  }

  lemma UnusableIs(name: Text)
    ensures IsUnusable(name) <==> IsBadName(name)
  {
    NamesDeviceIs(name);
    hide IsReserved, NamesDevice;
    assert forall u: unit :: IsUnsafe(u) <==> IsForbiddenUnit(u);
    hide IsUnsafe, IsForbiddenUnit;
    assert Ascii(".") == [46] && Ascii("..") == [46, 46];
  }

  /** A file name is accepted, in normalization form C, exactly when it is usable on common file systems,
      well formed, and at most 255 bytes long; over-long input and lone surrogates are a malformed request. */
  lemma NameAnswers(uc: Unicode, value: Text)
    ensures NormalizeFilename(uc, value) ==
            if |value| > 1024 then Err(Invalid)
            else if IsUnusable(uc.nfc(value)) then Err(InvalidFilename)
            else if !WellFormed(uc.nfc(value)) then Err(Invalid)
            else if |Encode(uc.nfc(value))| > 255 then Err(InvalidFilename)
            else Ok(uc.nfc(value))
  {
    hide IsUnusable, IsBadName;
    UnusableIs(uc.nfc(value));
    EncodeTextAccepts(uc.nfc(value));
  }

  // ---- Media types ------------------------------------------------------------------------------

  predicate IsTokenUnit(u: unit) {
    97 <= u <= 122 || 48 <= u <= 57 || u == 33 || u == 35 || u == 36 || u == 38 || u == 94 || u == 95 || u == 46 || u == 43 || u == 45
  }

  predicate IsToken(t: Text) {
    t != [] && forall i :: 0 <= i < |t| ==> IsTokenUnit(t[i])
  }

  /** A media type is accepted, in lower case, exactly when it is two tokens around one slash; the empty one
      stands for application/octet-stream. */
  lemma MimeAnswers(uc: Unicode, value: Text)
    ensures var mime := if value == [] then Ascii("application/octet-stream") else uc.lower(value);
            NormalizeMime(uc, value) ==
            if |value| <= 127 && (exists k :: 0 <= k < |mime| && mime[k] == 47 && IsToken(mime[..k]) && IsToken(mime[k + 1..]))
            then Ok(mime) else Err(Invalid)
  {
    var mime := if value == [] then Ascii("application/octet-stream") else uc.lower(value);
    hide Ascii;
    forall k | 0 <= k < |mime| && mime[k] == 47
      ensures IsToken(mime[..k]) && IsToken(mime[k + 1..]) <==> 0 < k && IsMediaTypeAt(mime, k)
    {
      SplitAt(mime, k);
    }
  }

  lemma SplitAt(mime: Text, k: nat)
    requires k < |mime| && mime[k] == 47
    ensures IsToken(mime[..k]) && IsToken(mime[k + 1..]) <==> 0 < k && IsMediaTypeAt(mime, k)
  {
    assert forall u: unit :: IsTokenUnit(u) <==> IsMediaUnit(u);
    hide IsTokenUnit, IsMediaUnit;
    if IsToken(mime[..k]) && IsToken(mime[k + 1..]) {
      forall i | 0 <= i < |mime| && i != k ensures IsMediaUnit(mime[i]) {
        assert i < k ==> mime[..k][i] == mime[i];
        assert i > k ==> mime[k + 1..][i - k - 1] == mime[i];
      }
    }
  }

  // ---- What pack accepts ---------------------------------------------------------------------------

  function FileBytes(files: seq<File>): nat {
    if files == [] then 0 else |files[0].data| + FileBytes(files[1..])
  }

  // The name under which a file is told apart from the others.
  function Folded(uc: Unicode, file: File): Text {
    uc.lower(uc.nfc(file.name))
  }

  // Why file k is refused after so many bytes and among the names before it; None if it is not.
  ghost function Failure(uc: Unicode, files: seq<File>, taken: set<Text>, used: nat, k: nat): Option<Error>
    requires k < |files|
  {
    if used + FileBytes(files[..k + 1]) > 67108864 then Some(TooLarge)
    else if NormalizeFilename(uc, files[k].name).Err? then Some(NormalizeFilename(uc, files[k].name).error)
    else if Folded(uc, files[k]) in taken || exists j :: 0 <= j < k && Folded(uc, files[j]) == Folded(uc, files[k]) then Some(DuplicateFilename)
    else if NormalizeMime(uc, files[k].mime).Err? then Some(NormalizeMime(uc, files[k].mime).error)
    else None
  }

  // The error of the first file that is refused.
  ghost predicate IsFirstFailure(uc: Unicode, files: seq<File>, taken: set<Text>, used: nat, e: Error) {
    exists k :: 0 <= k < |files| && Failure(uc, files, taken, used, k) == Some(e)
                && forall j :: 0 <= j < k ==> Failure(uc, files, taken, used, j) == None
  }

  ghost predicate NoFailure(uc: Unicode, files: seq<File>, taken: set<Text>, used: nat) {
    forall k :: 0 <= k < |files| ==> Failure(uc, files, taken, used, k) == None
  }

  // A later file fails as it does after the first one.
  lemma FailureShift(uc: Unicode, files: seq<File>, taken: set<Text>, used: nat, k: nat)
    requires 0 < k < |files|
    ensures Failure(uc, files, taken, used, k)
         == Failure(uc, files[1..], taken + {Folded(uc, files[0])}, used + |files[0].data|, k - 1)
  {
    hide NormalizeFilename, NormalizeMime, Folded;
    assert files[..k + 1][1..] == files[1..][..k];
    assert files[1..][k - 1] == files[k];
    var f := Folded(uc, files[k]);
    if exists j :: 0 <= j < k && Folded(uc, files[j]) == f {
      var j :| 0 <= j < k && Folded(uc, files[j]) == f;
      assert j > 0 ==> Folded(uc, files[1..][j - 1]) == f;
    }
    if exists j :: 0 <= j < k - 1 && Folded(uc, files[1..][j]) == f {
      var j :| 0 <= j < k - 1 && Folded(uc, files[1..][j]) == f;
      assert Folded(uc, files[j + 1]) == f;
    }
  }

  lemma FirstFile(uc: Unicode, files: seq<File>, taken: set<Text>, used: nat)
    requires files != []
    ensures match Failure(uc, files, taken, used, 0)
            case Some(e) => PrepareFiles(uc, files, taken, used) == Err(e)
            case None =>
              && NormalizeFilename(uc, files[0].name).Ok? && NormalizeMime(uc, files[0].mime).Ok?
              && PrepareFiles(uc, files, taken, used)
              == Prepend([Part(Encode(NormalizeFilename(uc, files[0].name).value), Encode(NormalizeMime(uc, files[0].mime).value), files[0].data)],
                         PrepareFiles(uc, files[1..], taken + {Folded(uc, files[0])}, used + |files[0].data|))
  {
    NameIsNfc(uc, files[0].name);
    hide NormalizeFilename, NormalizeMime, Encode;
    assert files[..1][1..] == [];
    assert FileBytes(files[..1]) == |files[0].data|;
  }

  lemma NameIsNfc(uc: Unicode, value: Text)
    ensures NormalizeFilename(uc, value).Ok? ==> NormalizeFilename(uc, value).value == uc.nfc(value)
  {
  }

  /** The files of a note are refused for the first file that does not fit, and for its first fault. */
  lemma {:induction false} FilesAnswer(uc: Unicode, files: seq<File>, taken: set<Text>, used: nat)
    ensures PrepareFiles(uc, files, taken, used).Ok? <==> NoFailure(uc, files, taken, used)
    ensures PrepareFiles(uc, files, taken, used).Err? ==> IsFirstFailure(uc, files, taken, used, PrepareFiles(uc, files, taken, used).error)
  {
    hide NormalizeFilename, NormalizeMime, Encode, PrepareFiles, Failure, Folded;
    if files == [] {
      NoFiles(uc, taken, used);
    } else {
      FirstFile(uc, files, taken, used);
      var taken', used' := taken + {Folded(uc, files[0])}, used + |files[0].data|;
      FilesAnswer(uc, files[1..], taken', used');
      forall k | 0 < k < |files| ensures Failure(uc, files, taken, used, k) == Failure(uc, files[1..], taken', used', k - 1) {
        FailureShift(uc, files, taken, used, k);
      }
      if Failure(uc, files, taken, used, 0).None? {
        LaterFailures(uc, files, taken, used, taken', used');
      } else {
        assert !NoFailure(uc, files, taken, used);
      }
    }
  }

  lemma NoFiles(uc: Unicode, taken: set<Text>, used: nat)
    ensures PrepareFiles(uc, [], taken, used) == Ok([])
  {
  }

  lemma LaterFailures(uc: Unicode, files: seq<File>, taken: set<Text>, used: nat, taken': set<Text>, used': nat)
    requires files != [] && Failure(uc, files, taken, used, 0).None?
    requires forall k :: 0 < k < |files| ==> Failure(uc, files, taken, used, k) == Failure(uc, files[1..], taken', used', k - 1)
    ensures NoFailure(uc, files, taken, used) <==> NoFailure(uc, files[1..], taken', used')
    ensures forall e :: IsFirstFailure(uc, files[1..], taken', used', e) ==> IsFirstFailure(uc, files, taken, used, e)
  {
    hide Failure;
    assert forall k :: 0 <= k < |files| - 1 ==> Failure(uc, files[1..], taken', used', k) == Failure(uc, files, taken, used, k + 1);
    forall e | IsFirstFailure(uc, files[1..], taken', used', e) ensures IsFirstFailure(uc, files, taken, used, e) {
      var k :| 0 <= k < |files[1..]| && Failure(uc, files[1..], taken', used', k) == Some(e)
               && forall j :: 0 <= j < k ==> Failure(uc, files[1..], taken', used', j) == None;
      assert Failure(uc, files, taken, used, k + 1) == Some(e);
    }
  }

  /** pack accepts a text of at most 8 MiB and up to eight files, not both empty, if every file passes; the
      order of the refusals is that of the checks. */
  lemma PrepareAnswers(uc: Unicode, input: Content)
    ensures var r := Prepare(uc, input);
            if |input.text| > 8388608 || |input.files| > 8 || !WellFormed(input.text) then r == Err(Invalid)
            else if |Encode(input.text)| > 8388608 then r == Err(TooLarge)
            else if input.text == [] && input.files == [] then r == Err(EmptyContent)
            else if NoFailure(uc, input.files, {}, |Encode(input.text)|) then r.Ok?
            else r.Err? && IsFirstFailure(uc, input.files, {}, |Encode(input.text)|, r.error)
  {
    hide PrepareFiles, NoFailure, IsFirstFailure, WellFormed, Decode;
    EncodeTextAccepts(input.text);
    FilesAnswer(uc, input.files, {}, |Encode(input.text)|);
    assert input.text == [] <==> Encode(input.text) == [];
  }

  // ---- What pack writes ------------------------------------------------------------------------------

  function Half(b: seq<byte>, i: nat): nat
    requires i + 2 <= |b|
  {
    (b[i] as int) * 256 + b[i + 1]
  }

  function Word(b: seq<byte>, i: nat): nat
    requires i + 4 <= |b|
  {
    (b[i] as int) * 16777216 + (b[i + 1] as int) * 65536 + (b[i + 2] as int) * 256 + b[i + 3]
  }

  // Where part k begins, from the first part on: each one before it takes eight bytes, its name, its media
  // type and its data.
  function Offset(parts: seq<Part>, k: nat): nat
    requires k <= |parts|
  {
    if k == 0 then 0 else 8 + |parts[0].name| + |parts[0].mime| + |parts[0].data| + Offset(parts[1..], k - 1)
  }

  // Three lengths, then the three pieces.
  predicate IsPartAt(b: seq<byte>, at: nat, part: Part) {
    var n, m, d := |part.name|, |part.mime|, |part.data|;
    && at + 8 + n + m + d <= |b|
    && Half(b, at) == n && Half(b, at + 2) == m && Word(b, at + 4) == d
    && b[at + 8..at + 8 + n] == part.name && b[at + 8 + n..at + 8 + n + m] == part.mime
    && b[at + 8 + n + m..at + 8 + n + m + d] == part.data
  }

  lemma PartIs(part: Part, pre: seq<byte>, post: seq<byte>)
    requires |part.name| < 65536 && |part.mime| < 65536 && |part.data| < 4294967296
    ensures IsPartAt(pre + PartBytes(part) + post, |pre|, part)
  {
    LengthsAre(part, pre, post);
    PiecesAre(part, pre, post);
    hide PartBytes, Half, Word;
  }

  lemma LengthsAre(part: Part, pre: seq<byte>, post: seq<byte>)
    requires |part.name| < 65536 && |part.mime| < 65536 && |part.data| < 4294967296
    ensures var b := pre + PartBytes(part) + post;
            && |b| >= |pre| + 8 + |part.name| + |part.mime| + |part.data|
            && Half(b, |pre|) == |part.name| && Half(b, |pre| + 2) == |part.mime| && Word(b, |pre| + 4) == |part.data|
  {
    var n, m, d := Be16(|part.name|), Be16(|part.mime|), Be32(|part.data|);
    BigEndian(|part.name|);
    BigEndian(|part.mime|);
    BigEndian(|part.data|);
    hide Be16, Be32;
    var head := n + m + d;
    var tail := part.name + part.mime + part.data + post;
    assert pre + PartBytes(part) + post == pre + head + tail;
    hide PartBytes;
    assert head[0] == n[0] && head[1] == n[1] && head[2] == m[0] && head[3] == m[1];
    assert head[4] == d[0] && head[5] == d[1] && head[6] == d[2] && head[7] == d[3];
    PieceAt(pre, head, tail);
  }

  lemma PiecesAre(part: Part, pre: seq<byte>, post: seq<byte>)
    ensures var b, at := pre + PartBytes(part) + post, |pre| + 8;
            var n, m, d := |part.name|, |part.mime|, |part.data|;
            && |b| >= at + n + m + d
            && b[at..at + n] == part.name && b[at + n..at + n + m] == part.mime && b[at + n + m..at + n + m + d] == part.data
  {
    hide Be16, Be32;
    var head := pre + (Be16(|part.name|) + Be16(|part.mime|) + Be32(|part.data|));
    var b := pre + PartBytes(part) + post;
    assert b == head + part.name + (part.mime + part.data + post);
    PieceAt(head, part.name, part.mime + part.data + post);
    assert b == (head + part.name) + part.mime + (part.data + post);
    PieceAt(head + part.name, part.mime, part.data + post);
    assert b == (head + part.name + part.mime) + part.data + post;
    PieceAt(head + part.name + part.mime, part.data, post);
  }

  lemma PieceAt(pre: seq<byte>, piece: seq<byte>, post: seq<byte>)
    ensures var b := pre + piece + post;
            b[|pre|..|pre| + |piece|] == piece && forall i :: 0 <= i < |piece| ==> b[|pre| + i] == piece[i]
  {
  }

  lemma {:induction false} PartsLieAt(parts: seq<Part>, k: nat, pre: seq<byte>, post: seq<byte>)
    requires k < |parts|
    requires forall i :: 0 <= i < |parts| ==> |parts[i].name| < 65536 && |parts[i].mime| < 65536 && |parts[i].data| < 4294967296
    ensures IsPartAt(pre + Flatten(parts) + post, |pre| + Offset(parts, k), parts[k])
  {
    hide PartBytes, IsPartAt;
    var first, rest := PartBytes(parts[0]), Flatten(parts[1..]);
    if k == 0 {
      PartIs(parts[0], pre, rest + post);
      assert pre + Flatten(parts) + post == pre + first + (rest + post);
    } else {
      PartsLieAt(parts[1..], k - 1, pre + first, post);
      PartLength(parts[0]);
      assert pre + Flatten(parts) + post == pre + first + rest + post;
    }
  }

  lemma PartLength(part: Part)
    ensures |PartBytes(part)| == 8 + |part.name| + |part.mime| + |part.data|
  {
  }

  lemma {:induction false} FlattenLength(parts: seq<Part>)
    ensures |Flatten(parts)| == Offset(parts, |parts|)
  {
    hide PartBytes;
    if parts != [] {
      PartLength(parts[0]);
      FlattenLength(parts[1..]);
    }
  }

  /** The parts of an accepted note are its files in order, under their normalized names and types. */
  lemma {:induction false} PartsAre(uc: Unicode, files: seq<File>, taken: set<Text>, used: nat)
    requires Lawful(uc) && PrepareFiles(uc, files, taken, used).Ok?
    ensures FilesNormalize(uc, files)
    ensures var parts := PrepareFiles(uc, files, taken, used).value;
            && |parts| == |files|
            && forall i :: 0 <= i < |files| ==>
                 && parts[i].name == Encode(NormalizeFilename(uc, files[i].name).value)
                 && parts[i].mime == Encode(NormalizeMime(uc, files[i].mime).value)
                 && parts[i].data == files[i].data
                 && |parts[i].name| <= 255 && |parts[i].mime| <= 127
  {
    hide NormalizeFilename, NormalizeMime, Encode, Lawful, Decode;
    PreparedFilesFit(uc, files, taken, used);
    if files != [] {
      NormalizedName(uc, files[0].name);
      NormalizedMime(uc, files[0].mime);
      PartsAre(uc, files[1..], taken + {uc.lower(NormalizeFilename(uc, files[0].name).value)}, used + |files[0].data|);
    }
  }

  lemma {:induction false} PartsFit(parts: seq<Part>, k: nat)
    requires k < |parts|
    ensures |parts[k].data| <= DataBytes(parts)
  {
    if k > 0 {
      PartsFit(parts[1..], k - 1);
    }
  }

  /** The envelope byte by byte: ECN1, its own length, the length of the text, the number of files, the text,
      and every file at the sum of what lies before it. */
  lemma EnvelopeLayout(uc: Unicode, input: Content, k: nat)
    requires Lawful(uc) && Prepare(uc, input).Ok?
    ensures var plan := Prepare(uc, input).value;
            var b := Envelope(plan);
            && plan.text == Encode(input.text) && |plan.parts| == |input.files|
            && |b| == 14 + |plan.text| + Offset(plan.parts, |plan.parts|)
            && b[..4] == [69, 67, 78, 49]
            && Word(b, 4) == |b| && Word(b, 8) == |plan.text| && Half(b, 12) == |input.files|
            && b[14..14 + |plan.text|] == plan.text
            && (k < |input.files| ==> IsPartAt(b, 14 + |plan.text| + Offset(plan.parts, k), plan.parts[k]))
  {
    hide Encode, Decode, NormalizeFilename, NormalizeMime, Lawful, PrepareFiles, Flatten, PartBytes, IsPartAt, Be16, Be32, FilesNormalize;
    var plan := Prepare(uc, input).value;
    var b := Envelope(plan);
    PartsAre(uc, input.files, {}, |plan.text|);
    PreparedFilesFit(uc, input.files, {}, |plan.text|);
    FlattenLength(plan.parts);
    HeaderIs(plan);
    if k < |input.files| {
      forall i | 0 <= i < |plan.parts| ensures |plan.parts[i].name| < 65536 && |plan.parts[i].mime| < 65536 && |plan.parts[i].data| < 4294967296 {
        PartsFit(plan.parts, i);
      }
      var pre := ECN1 + Be32(LogicalLength(plan)) + Be32(|plan.text|) + Be16(|plan.parts|) + plan.text;
      PartsLieAt(plan.parts, k, pre, []);
      assert b == pre + Flatten(plan.parts) + [];
    }
  }

  lemma HeaderIs(plan: Plan)
    requires LogicalLength(plan) < 4294967296 && |plan.parts| < 65536
    ensures var b := Envelope(plan);
            && b[..4] == [69, 67, 78, 49]
            && Word(b, 4) == |b| && Word(b, 8) == |plan.text| && Half(b, 12) == |plan.parts|
            && b[14..14 + |plan.text|] == plan.text
  {
    var b := Envelope(plan);
    var l, t, c := Be32(LogicalLength(plan)), Be32(|plan.text|), Be16(|plan.parts|);
    BigEndian(LogicalLength(plan));
    BigEndian(|plan.text|);
    BigEndian(|plan.parts|);
    hide Be16, Be32, Flatten;
    assert b[4] == l[0] && b[5] == l[1] && b[6] == l[2] && b[7] == l[3];
    assert b[8] == t[0] && b[9] == t[1] && b[10] == t[2] && b[11] == t[3] && b[12] == c[0] && b[13] == c[1];
  }

  /** unpack returns a content exactly when the padded bytes begin with what pack writes for it, its names and
      types already normalized, and fill the least number of 4096-byte blocks. */
  lemma UnpackExactly(uc: Unicode, padded: seq<byte>, x: Content)
    requires Lawful(uc)
    ensures Unpack(uc, padded) == Ok(x)
       <==> && AreNormalized(uc, x.files) && Prepare(uc, x).Ok?
            && var b := Envelope(Prepare(uc, x).value);
            && |b| <= |padded| < |b| + 4096 && |padded| % 4096 == 0 && padded[..|b|] == b
  {
    hide Prepare, Unpack, Envelope, Lawful, AreNormalized, LogicalLength;
    if Unpack(uc, padded) == Ok(x) {
      UnpackIsCanonical(uc, padded);
      LengthIsLeast(uc, padded);
    }
    if AreNormalized(uc, x.files) && Prepare(uc, x).Ok? {
      var b := Envelope(Prepare(uc, x).value);
      if |b| <= |padded| < |b| + 4096 && |padded| % 4096 == 0 && padded[..|b|] == b {
        BlocksAre(|b|, |padded|);
        RoundTrip(uc, x, padded[|b|..]);
        assert padded == b + padded[|b|..];
        NormalizedIs(uc, x);
      }
    }
  }

  lemma BlocksAre(logical: nat, padded: nat)
    requires logical <= padded < logical + 4096 && padded % 4096 == 0
    ensures PaddedLength(logical) == padded
  {
    PaddedLengthIsLeast(logical, padded);
  }

  lemma LengthIsLeast(uc: Unicode, padded: seq<byte>)
    requires Unpack(uc, padded).Ok?
    ensures |padded| % 4096 == 0 && U32At(padded, 4) <= |padded| < U32At(padded, 4) + 4096
  {
    hide Decode, UnpackFiles, U16At;
    PaddedLengthIsLeast(U32At(padded, 4), 0);
  }

  lemma NormalizedIs(uc: Unicode, x: Content)
    requires AreNormalized(uc, x.files)
    ensures Normalized(uc, x) == x
  {
  }
}
