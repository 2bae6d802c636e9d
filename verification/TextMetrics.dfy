/** The draft counter: UTF-8 bytes and lines of a text, measured in bounded chunks with a timer
    between them. The reference is the encoder itself. */
module TextMetrics {
  import opened Bytes
  import opened Utf8

  datatype Measurement = Measurement(bytes: nat, lines: nat, pending: bool)

  const CHUNK_UNITS: nat := 65536

  const PENDING := Measurement(0, 1, true)

  function LineFeeds(t: Text): nat {
    if t == [] then 0 else (if t[0] == 10 then 1 else 0) + LineFeeds(t[1..])
  }

  // One pass over the whole text.
  function Measure(t: Text): Measurement {
    Measurement(|Encode(t)|, 1 + LineFeeds(t), false)
  }

  lemma {:induction false} LineFeedsAre(t: Text)
    ensures LineFeeds(t) == multiset(t)[10]
  {
    if t != [] {
      LineFeedsAre(t[1..]);
      assert t == [t[0]] + t[1..];
    }
  }

  /** The measure is the number of encoded bytes and one more than the number of line feeds. */
  lemma MeasureIs(t: Text)
    ensures Measure(t) == Measurement(|Encode(t)|, 1 + multiset(t)[10], false)
  {
    LineFeedsAre(t);
  }

  lemma NothingLeft()
    ensures |Encode([])| == 0 && LineFeeds([]) == 0
  {
  }

  // The bytes and line feeds of the first code point.
  lemma FirstCodePoint(t: Text)
    requires t != []
    ensures StartsWithPair(t) ==> |Encode(t)| == 4 + |Encode(t[2..])| && LineFeeds(t) == LineFeeds(t[2..])
    ensures !StartsWithPair(t) ==>
              |Encode(t)| == (if t[0] < 0x80 then 1 else if t[0] < 0x800 then 2 else 3) + |Encode(t[1..])|
    ensures LineFeeds(t) == (if t[0] == 10 then 1 else 0) + LineFeeds(t[1..])
  {
    if StartsWithPair(t) {
      assert t[1..][1..] == t[2..];
    }
  }

  class TextMetrics {
    var text: Text
    var offset: nat
    var bytes: nat
    var lines: nat
    // setTimeout has been called and neither cleared nor fired.
    var timer: bool
    // Everything passed to the report callback.
    var reports: seq<Measurement>

    // What has been counted and what is left add up to the text, and whatever was reported
    // last is about the current text: its exact measure, or that the count is under way.
    ghost predicate Valid()
      reads this
    {
      && offset <= |text|
      && (text != [] ==> offset != 0)
      && bytes + |Encode(text[offset..])| == |Encode(text)|
      && lines + LineFeeds(text[offset..]) == 1 + LineFeeds(text)
      && (timer <==> offset < |text|)
      && (timer ==> |text| > CHUNK_UNITS)
      && (reports == [] ==> text == [])
      && (reports != [] ==> reports[|reports| - 1] == if timer then PENDING else Measure(text))
    }

    constructor ()
      ensures Valid() && text == [] && reports == []
    {
      text, offset, bytes, lines, timer, reports := [], 0, 0, 1, false, [];
    }

    method Update(newText: Text)
      requires Valid()
      modifies this
      ensures Valid() && text == newText
      ensures newText == old(text) ==> reports == old(reports) && offset == old(offset)
      ensures newText != old(text) ==>
                reports == old(reports) + (if |newText| > 65536 then [Measurement(0, 1, true)] else [])
                           + (if timer then [] else [Measure(newText)])
    {
      if newText == text && (offset != 0 || |newText| == 0) {
        return;
      }
      timer := false;
      text, offset, bytes, lines := newText, 0, 0, 1;
      assert text[offset..] == text;
      if |newText| > CHUNK_UNITS {
        reports := reports + [PENDING];
      }
      Step();
    }

    // One chunk, then either another timer or the final report.
    method Step()
      requires offset <= |text|
      requires bytes + |Encode(text[offset..])| == |Encode(text)|
      requires lines + LineFeeds(text[offset..]) == 1 + LineFeeds(text)
      requires |text| > CHUNK_UNITS ==> reports != [] && reports[|reports| - 1] == PENDING
      requires offset == 0 || |text| > CHUNK_UNITS
      modifies this
      ensures Valid() && text == old(text)
      ensures timer ==> old(offset) + 65536 <= offset <= old(offset) + 65537 && reports == old(reports)
      ensures !timer ==> reports == old(reports) + [Measure(text)]
    {
      hide Encode, LineFeeds;
      var end := if |text| <= offset + CHUNK_UNITS then |text| else offset + CHUNK_UNITS;
      while offset < end
        invariant old(offset) <= offset <= |text| && offset <= end + 1
        invariant bytes + |Encode(text[offset..])| == |Encode(text)|
        invariant lines + LineFeeds(text[offset..]) == 1 + LineFeeds(text)
        invariant text == old(text) && reports == old(reports) && timer == old(timer)
        decreases |text| - offset
      {
        ghost var rest := text[offset..];
        FirstCodePoint(rest);
        var code := text[offset];
        offset := offset + 1;
        assert rest[1..] == text[offset..];
        assert |rest| >= 2 ==> rest[2..] == text[offset + 1..];
        if code == 10 {
          lines := lines + 1;
        }
        if code < 0x80 {
          bytes := bytes + 1;
        } else if code < 0x800 {
          bytes := bytes + 2;
        } else if IsLead(code) && offset < |text| && IsTrail(text[offset]) {
          bytes := bytes + 4;
          offset := offset + 1;
        } else {
          bytes := bytes + 3;
        }
      }
      if offset < |text| {
        timer := true;
      } else {
        timer := false;
        assert text[offset..] == [];
        NothingLeft();
        reports := reports + [Measurement(bytes, lines, false)];
      }
    }

    // The scheduled callback runs.
    method Fire()
      requires Valid() && timer
      modifies this
      ensures Valid() && text == old(text)
      ensures timer ==> old(offset) + 65536 <= offset <= old(offset) + 65537 && reports == old(reports)
      ensures !timer ==> reports == old(reports) + [Measure(text)]
    {
      Step();
    }

    /** Left alone, the timers end with one exact report. */
    method Drain() returns (fired: nat)
      requires Valid() && reports != []
      modifies this
      ensures Valid() && !timer && text == old(text)
      ensures reports != [] && reports[|reports| - 1] == Measure(text)
      ensures |reports| <= |old(reports)| + 1
      ensures fired * 65536 < |text| + 65536
    {
      fired := 0;
      while timer
        invariant Valid() && reports != [] && text == old(text)
        invariant timer ==> reports == old(reports) && fired * CHUNK_UNITS <= offset
        invariant |reports| <= |old(reports)| + (if timer then 0 else 1)
        invariant fired * CHUNK_UNITS < |text| + CHUNK_UNITS
        decreases |text| - offset, timer
      {
        Fire();
        fired := fired + 1;
      }
    }

    method Clear()
      requires Valid()
      modifies this
      ensures Valid() && text == [] && !timer
      ensures reports == old(reports) + [Measurement(0, 1, false)]
    {
      timer := false;
      text, offset, bytes, lines := [], 0, 0, 1;
      reports := reports + [Measurement(0, 1, false)];
    }
  }
}
