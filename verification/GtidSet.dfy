/** Parsing, encoding and decoding whole GTID sets. */
module GtidSet {
  import opened Bytes
  import opened Digits
  import opened Gtid

  // ----------------------------------------------------------------- parsing

  function CheckedInterval(start: nat, end: nat): (r: Result<Interval, ()>)
    requires start < U64 && end < U64
    ensures r.Ok? ==> r.value.Valid()
  {
    if start == 0 || end < start then Err(()) else Ok(Interval(start, end))
  }

  function ParseInterval(text: string): (r: Result<Interval, ()>)
    ensures r.Ok? ==> r.value.Valid()
  {
    match IndexOf(text, '-')
    case None =>
      var n :- Stoul(text, U64);
      CheckedInterval(n, n)
    case Some(dash) =>
      var start :- Stoul(text[..dash], U64);
      var end :- Stoul(text[dash + 1..], U64);
      CheckedInterval(start, end)
  }

  /** Blank parts are skipped. */
  function ParseIntervals(parts: seq<string>): (r: Result<seq<Interval>, ()>)
    ensures r.Ok? ==> forall i :: 0 <= i < |r.value| ==> r.value[i].Valid()
  {
    if parts == [] then Ok([])
    else
      var text := Trim(parts[0]);
      if text == "" then ParseIntervals(parts[1..])
      else
        var first :- ParseInterval(text);
        var others :- ParseIntervals(parts[1..]);
        Ok([first] + others)
  }

  /** A source whose UUID can be read and whose intervals are valid. */
  predicate Readable(source: Source) {
    UuidBytes(source.sid).Ok? && forall i :: 0 <= i < |source.intervals| ==> source.intervals[i].Valid()
  }

  function ParseSource(text: string): (r: Result<Source, ()>)
    ensures r.Ok? ==> Readable(r.value)
  {
    match IndexOf(text, ':')
    case None => Err(())
    case Some(colon) =>
      var sid := Trim(text[..colon]);
      var _ :- UuidBytes(sid);
      var intervals :- ParseIntervals(Split(text[colon + 1..], ':'));
      Ok(Source(sid, intervals))
  }

  function ParseSources(parts: seq<string>): (r: Result<seq<Source>, ()>)
    ensures r.Ok? ==> forall i :: 0 <= i < |r.value| ==> Readable(r.value[i])
  {
    if parts == [] then Ok([])
    else
      var text := Trim(parts[0]);
      if text == "" then ParseSources(parts[1..])
      else
        var first :- ParseSource(text);
        var others :- ParseSources(parts[1..]);
        Ok([first] + others)
  }

  /** `parse_gtid_set_text` */
  function ParseSet(text: string): (r: Result<seq<Source>, ()>)
    ensures r.Ok? ==> forall i :: 0 <= i < |r.value| ==> Readable(r.value[i])
  {
    if Trim(text) == "" then Ok([]) else ParseSources(Split(Trim(text), ','))
  }

  // ---------------------------------------------------------------- encoding

  /** The end goes out exclusive, and wraps at 64 bits. */
  function IntervalBytes(interval: Interval): bytes {
    LittleEndian(interval.start, 8) + LittleEndian((interval.end + 1) % U64, 8)
  }

  function IntervalsBytes(intervals: seq<Interval>): bytes {
    if intervals == [] then [] else IntervalBytes(intervals[0]) + IntervalsBytes(intervals[1..])
  }

  function SourceBytes(source: Source): bytes
    requires Readable(source)
  {
    UuidBytes(source.sid).value + (LittleEndian(|source.intervals|, 8) + IntervalsBytes(source.intervals))
  }

  function SourcesBytes(sources: seq<Source>): bytes
    requires forall i :: 0 <= i < |sources| ==> Readable(sources[i])
  {
    if sources == [] then [] else SourceBytes(sources[0]) + SourcesBytes(sources[1..])
  }

  /** `encode_gtid_set`, after the text is parsed. */
  function SetBytes(sources: seq<Source>): bytes
    requires forall i :: 0 <= i < |sources| ==> Readable(sources[i])
  {
    LittleEndian(|sources|, 8) + SourcesBytes(sources)
  }

  // ---------------------------------------------------------------- decoding

  function TakeInterval(s: bytes): Parsed<Interval> {
    var (start, s1) :- TakeLE(s, 8);
    var (exclusiveEnd, rest) :- TakeLE(s1, 8);
    Parsed(Interval(start, if exclusiveEnd == 0 then 0 else exclusiveEnd - 1), rest)
  }

  function TakeIntervals(s: bytes, count: nat): Parsed<seq<Interval>>
    decreases count
  {
    if count == 0 then Parsed([], s)
    else
      var (first, s1) :- TakeInterval(s);
      var (others, rest) :- TakeIntervals(s1, count - 1);
      Parsed([first] + others, rest)
  }

  function TakeSource(s: bytes): Parsed<Source> {
    var (sid, s1) :- TakeBytes(s, 16);
    var (count, s2) :- TakeLE(s1, 8);
    var (intervals, rest) :- TakeIntervals(s2, count);
    Parsed(Source(UuidText(sid), intervals), rest)
  }

  function TakeSources(s: bytes, count: nat): Parsed<seq<Source>>
    decreases count
  {
    if count == 0 then Parsed([], s)
    else
      var (first, s1) :- TakeSource(s);
      var (others, rest) :- TakeSources(s1, count - 1);
      Parsed([first] + others, rest)
  }

  /** `decode_gtid_set` */
  function DecodeSet(s: bytes): Parsed<seq<Source>> {
    if s == [] then Parsed([], [])
    else
      var (count, rest) :- TakeLE(s, 8);
      TakeSources(rest, count)
  }

  // ------------------------------------------------- decoding undoes encoding

  /** An interval as decoding shows it: an end of 2^64 - 1 wraps to nothing. */
  function BackInterval(interval: Interval): Interval {
    if interval.end == U64 - 1 then interval.(end := 0) else interval
  }

  function BackIntervals(intervals: seq<Interval>): (r: seq<Interval>)
    ensures |r| == |intervals| && forall i :: 0 <= i < |r| ==> r[i] == BackInterval(intervals[i])
  {
    seq(|intervals|, i requires 0 <= i < |intervals| => BackInterval(intervals[i]))
  }

  function BackSource(source: Source): Source
    requires Readable(source)
  {
    Source(UuidText(UuidBytes(source.sid).value), BackIntervals(source.intervals))
  }

  function BackSources(sources: seq<Source>): (r: seq<Source>)
    requires forall i :: 0 <= i < |sources| ==> Readable(sources[i])
    ensures |r| == |sources| && forall i :: 0 <= i < |r| ==> r[i] == BackSource(sources[i])
  {
    seq(|sources|, i requires 0 <= i < |sources| => BackSource(sources[i]))
  }

  /** Lists that fit the counts sent in front of them. */
  predicate Countable(sources: seq<Source>) {
    |sources| < U64 && forall i :: 0 <= i < |sources| ==> |sources[i].intervals| < U64
  }

  lemma IntervalExact(interval: Interval, rest: bytes)
    requires interval.Valid()
    ensures TakeInterval(IntervalBytes(interval) + rest) == Parsed(BackInterval(interval), rest)
  {
    hide LittleEndian, TakeLE;
    Pow256Values();
    var start, end := LittleEndian(interval.start, 8), LittleEndian((interval.end + 1) % U64, 8);
    Concat3(start, end, rest);
    TakeLEInverse(interval.start, 8, end + rest);
    TakeLEInverse((interval.end + 1) % U64, 8, rest);
  }

  lemma {:induction false} IntervalsExact(intervals: seq<Interval>, rest: bytes)
    requires forall i :: 0 <= i < |intervals| ==> intervals[i].Valid()
    ensures TakeIntervals(IntervalsBytes(intervals) + rest, |intervals|) == Parsed(BackIntervals(intervals), rest)
  {
    hide IntervalBytes, TakeInterval, BackInterval;
    if intervals == [] {
      assert [] + rest == rest;
    } else {
      var more := IntervalsBytes(intervals[1..]);
      Concat3(IntervalBytes(intervals[0]), more, rest);
      IntervalExact(intervals[0], more + rest);
      IntervalsExact(intervals[1..], rest);
      assert BackIntervals(intervals) == [BackInterval(intervals[0])] + BackIntervals(intervals[1..]);
    }
  }

  lemma SourceExact(source: Source, rest: bytes)
    requires Readable(source) && |source.intervals| < U64
    ensures TakeSource(SourceBytes(source) + rest) == Parsed(BackSource(source), rest)
  {
    hide LittleEndian, TakeLE, TakeBytes, IntervalsBytes, TakeIntervals, UuidText, UuidBytes, BackIntervals;
    Pow256Values();
    var sid, count, intervals :=
      UuidBytes(source.sid).value, LittleEndian(|source.intervals|, 8), IntervalsBytes(source.intervals);
    Concat3(sid, count + intervals, rest);
    Concat3(count, intervals, rest);
    TakeBytesInverse(sid, count + (intervals + rest));
    TakeLEInverse(|source.intervals|, 8, intervals + rest);
    IntervalsExact(source.intervals, rest);
  }

  lemma {:induction false} SourcesExact(sources: seq<Source>, rest: bytes)
    requires Countable(sources) && forall i :: 0 <= i < |sources| ==> Readable(sources[i])
    ensures TakeSources(SourcesBytes(sources) + rest, |sources|) == Parsed(BackSources(sources), rest)
  {
    hide SourceBytes, TakeSource, BackSource, Readable;
    if sources == [] {
      assert [] + rest == rest;
    } else {
      var more := SourcesBytes(sources[1..]);
      Concat3(SourceBytes(sources[0]), more, rest);
      SourceExact(sources[0], more + rest);
      SourcesExact(sources[1..], rest);
      assert BackSources(sources) == [BackSource(sources[0])] + BackSources(sources[1..]);
    }
  }

  /** Decoding an encoded set consumes every byte and gives the same sources in the
      same order, with each UUID in its canonical form. */
  lemma EncodedSetExact(sources: seq<Source>)
    requires Countable(sources) && forall i :: 0 <= i < |sources| ==> Readable(sources[i])
    ensures DecodeSet(SetBytes(sources)) == Parsed(BackSources(sources), [])
  {
    hide SourcesBytes, TakeSources, LittleEndian, TakeLE, BackSources;
    assert |sources| < Pow256(8) by { Pow256Values(); }
    var body := SourcesBytes(sources);
    TakeLEInverse(|sources|, 8, body);
    SourcesExact(sources, []);
    assert body + [] == body;
    assert |SetBytes(sources)| >= 8;
  }

  // ----------------------------------------------------------- canonical text

  function IntervalText(interval: Interval): string {
    if interval.start == interval.end then ToText(interval.start)
    else ToText(interval.start) + ['-'] + ToText(interval.end)
  }

  function IntervalTexts(intervals: seq<Interval>): (parts: seq<string>)
    ensures |parts| == |intervals| && forall i :: 0 <= i < |parts| ==> parts[i] == IntervalText(intervals[i])
  {
    seq(|intervals|, i requires 0 <= i < |intervals| => IntervalText(intervals[i]))
  }

  function SourceText(source: Source): string {
    source.sid + [':'] + Join(IntervalTexts(source.intervals), ':')
  }

  function SourceTexts(sources: seq<Source>): (parts: seq<string>)
    ensures |parts| == |sources| && forall i :: 0 <= i < |parts| ==> parts[i] == SourceText(sources[i])
  {
    seq(|sources|, i requires 0 <= i < |sources| => SourceText(sources[i]))
  }

  function SetText(sources: seq<Source>): string {
    Join(SourceTexts(sources), ',')
  }

  /** A source with a canonical UUID and valid intervals. */
  predicate Canonical(source: Source) {
    CanonicalUuid(source.sid) && forall i :: 0 <= i < |source.intervals| ==> source.intervals[i].Valid()
  }

  /** Text of hexadecimal digits, dashes and, if allowed, colons. */
  predicate Plain(s: string, colons: bool) {
    forall i :: 0 <= i < |s| ==> IsHex(s[i]) || s[i] == '-' || (colons && s[i] == ':')
  }

  lemma IntervalTextPlain(interval: Interval)
    ensures Plain(IntervalText(interval), false) && IntervalText(interval) != "" && Trimmed(IntervalText(interval))
  {
    hide ToText;
  }

  lemma PlainHasNo(s: string, colons: bool, c: char)
    requires Plain(s, colons) && (c == ',' || (c == ':' && !colons))
    ensures c !in s
  {
  }

  lemma {:induction false} JoinPlain(parts: seq<string>)
    requires forall i :: 0 <= i < |parts| ==> Plain(parts[i], false)
    ensures Plain(Join(parts, ':'), true)
  {
    if |parts| > 1 {
      JoinPlain(parts[1..]);
    }
  }

  /** Parts with something at both ends make up text with something at both ends. */
  lemma {:induction false} JoinTrimmed(parts: seq<string>, delimiter: char)
    requires forall i :: 0 <= i < |parts| ==> parts[i] != "" && Trimmed(parts[i])
    ensures Trimmed(Join(parts, delimiter)) && (parts != [] ==> Join(parts, delimiter) != "")
  {
    if |parts| > 1 {
      JoinTrimmed(parts[1..], delimiter);
    }
  }

  lemma IntervalRoundTrip(interval: Interval)
    requires interval.Valid()
    ensures ParseInterval(IntervalText(interval)) == Ok(interval)
  {
    hide ToText, ValueOf, Stoul;
    ToTextValue(interval.start);
    ToTextValue(interval.end);
    StoulDigits(ToText(interval.start), U64);
    StoulDigits(ToText(interval.end), U64);
    if interval.start == interval.end {
      IndexOfNone(ToText(interval.start), '-');
    } else {
      var text := IntervalText(interval);
      IndexOfFirst(ToText(interval.start), '-', ToText(interval.end));
      assert text[..|ToText(interval.start)|] == ToText(interval.start);
      assert text[|ToText(interval.start)| + 1..] == ToText(interval.end);
    }
  }

  lemma {:induction false} IntervalsRoundTrip(intervals: seq<Interval>)
    requires forall i :: 0 <= i < |intervals| ==> intervals[i].Valid()
    ensures ParseIntervals(IntervalTexts(intervals)) == Ok(intervals)
  {
    hide IntervalText, ParseInterval, Trim;
    if intervals != [] {
      IntervalTextPlain(intervals[0]);
      TrimNothing(IntervalText(intervals[0]));
      IntervalRoundTrip(intervals[0]);
      IntervalsRoundTrip(intervals[1..]);
      assert IntervalTexts(intervals)[1..] == IntervalTexts(intervals[1..]);
      assert intervals == [intervals[0]] + intervals[1..];
    }
  }

  /** The joined intervals are split into the same texts; no intervals leave one
      empty text, which is skipped. */
  lemma JoinedIntervals(intervals: seq<Interval>)
    requires forall i :: 0 <= i < |intervals| ==> intervals[i].Valid()
    ensures ParseIntervals(Split(Join(IntervalTexts(intervals), ':'), ':')) == Ok(intervals)
  {
    hide IntervalText, ParseInterval;
    if intervals == [] {
      assert Split("", ':') == [""];
      assert Trim("") == "";
      assert ParseIntervals([""]) == ParseIntervals([""][1..]);
    } else {
      forall i | 0 <= i < |intervals| ensures ':' !in IntervalTexts(intervals)[i] {
        IntervalTextPlain(intervals[i]);
        PlainHasNo(IntervalText(intervals[i]), false, ':');
      }
      SplitJoin(IntervalTexts(intervals), ':');
      IntervalsRoundTrip(intervals);
    }
  }

  lemma UuidPlain(s: string)
    requires CanonicalUuid(s)
    ensures s != "" && Plain(s, false) && Trimmed(s) && !IsBlank(s[0])
  {
    forall i | 0 <= i < |s| ensures IsHex(s[i]) || s[i] == '-' {
      if i < 8 {
        assert IsHex(s[..8][i]);
      } else if 8 < i < 13 {
        assert IsHex(s[9..13][i - 9]);
      } else if 13 < i < 18 {
        assert IsHex(s[14..18][i - 14]);
      } else if 18 < i < 23 {
        assert IsHex(s[19..23][i - 19]);
      } else if 23 < i {
        assert IsHex(s[24..][i - 24]);
      }
    }
  }

  lemma SourceTextPlain(source: Source)
    requires Canonical(source)
    ensures Plain(SourceText(source), true) && SourceText(source) != "" && Trimmed(SourceText(source))
  {
    hide IntervalText, CanonicalUuid, IsHex;
    UuidPlain(source.sid);
    var parts := IntervalTexts(source.intervals);
    forall i | 0 <= i < |parts| ensures Plain(parts[i], false) && parts[i] != "" && Trimmed(parts[i]) {
      IntervalTextPlain(source.intervals[i]);
    }
    JoinPlain(parts);
    JoinTrimmed(parts, ':');
    ColonLast(source.sid, Join(parts, ':'));
  }

  lemma ColonLast(sid: string, tail: string)
    requires sid != "" && !IsBlank(sid[0]) && Trimmed(tail)
    ensures Trimmed(sid + [':'] + tail)
  {
    var s := sid + [':'] + tail;
    assert s[0] == sid[0];
    if tail != "" {
      assert s[|s| - 1] == tail[|tail| - 1];
    } else {
      assert s[|s| - 1] == ':';
    }
  }

  lemma SourceRoundTrip(source: Source)
    requires Canonical(source)
    ensures ParseSource(SourceText(source)) == Ok(source)
  {
    hide ParseIntervals, Join, Split, UuidBytes, UuidText, Trim, IntervalTexts, CanonicalUuid, Plain;
    var tail := Join(IntervalTexts(source.intervals), ':');
    UuidPlain(source.sid);
    PlainHasNo(source.sid, false, ':');
    IndexOfFirst(source.sid, ':', tail);
    UuidRoundTrip(source.sid);
    JoinedIntervals(source.intervals);
    TrimNothing(source.sid);
    var s := SourceText(source);
    assert s[..|source.sid|] == source.sid && s[|source.sid| + 1..] == tail;
  }

  lemma {:induction false} SourcesRoundTrip(sources: seq<Source>)
    requires forall i :: 0 <= i < |sources| ==> Canonical(sources[i])
    ensures ParseSources(SourceTexts(sources)) == Ok(sources)
  {
    hide SourceText, ParseSource, Trim, Canonical;
    if sources != [] {
      SourceTextPlain(sources[0]);
      TrimNothing(SourceText(sources[0]));
      SourceRoundTrip(sources[0]);
      SourcesRoundTrip(sources[1..]);
      assert SourceTexts(sources)[1..] == SourceTexts(sources[1..]);
      assert sources == [sources[0]] + sources[1..];
    }
  }

  /** The canonical text of any set is parsed to that set. */
  lemma SetTextRoundTrip(sources: seq<Source>)
    requires forall i :: 0 <= i < |sources| ==> Canonical(sources[i])
    ensures ParseSet(SetText(sources)) == Ok(sources)
  {
    hide SourceText, ParseSources, Trim, Canonical, Split, Join;
    var parts := SourceTexts(sources);
    forall i | 0 <= i < |parts| ensures parts[i] != "" && Trimmed(parts[i]) && ',' !in parts[i] {
      SourceTextPlain(sources[i]);
      PlainHasNo(SourceText(sources[i]), true, ',');
    }
    JoinTrimmed(parts, ',');
    TrimNothing(Join(parts, ','));
    if sources == [] {
      JoinNothing(',');
    } else {
      SplitJoin(parts, ',');
      SourcesRoundTrip(sources);
    }
  }

  lemma JoinNothing(delimiter: char)
    ensures Join([], delimiter) == ""
  {
  }

  function Lowered(sources: seq<Source>): (r: seq<Source>)
    ensures |r| == |sources|
  {
    seq(|sources|, i requires 0 <= i < |sources| => sources[i].(sid := Lower(sources[i].sid)))
  }

  /** From canonical text through bytes and back: the same sources in order with
      lower-case UUIDs and every byte consumed, exactly when no interval ends at
      2^64 - 1. */
  lemma GtidRoundTrip(sources: seq<Source>)
    requires Countable(sources) && forall i :: 0 <= i < |sources| ==> Canonical(sources[i])
    ensures ParseSet(SetText(sources)) == Ok(sources)
    ensures DecodeSet(SetBytes(ParseSet(SetText(sources)).value)) == Parsed(Lowered(sources), [])
       <==> forall i, j :: 0 <= i < |sources| && 0 <= j < |sources[i].intervals| ==> sources[i].intervals[j].end != U64 - 1
  {
    hide ParseSet, SetText, DecodeSet, SetBytes, Canonical, UuidBytes, UuidText, Lower;
    SetTextRoundTrip(sources);
    EncodedSetExact(sources);
    forall i | 0 <= i < |sources|
      ensures BackSource(sources[i]).sid == Lower(sources[i].sid)
      ensures BackSource(sources[i]).intervals == sources[i].intervals
         <==> forall j :: 0 <= j < |sources[i].intervals| ==> sources[i].intervals[j].end != U64 - 1
    {
      CanonicalSid(sources[i]);
      BackIntervalsSame(sources[i].intervals);
    }
    var back, lowered := BackSources(sources), Lowered(sources);
    if forall i, j :: 0 <= i < |sources| && 0 <= j < |sources[i].intervals| ==> sources[i].intervals[j].end != U64 - 1 {
      assert back == lowered;
    } else {
      var i, j :| 0 <= i < |sources| && 0 <= j < |sources[i].intervals| && sources[i].intervals[j].end == U64 - 1;
      assert back[i] == BackSource(sources[i]);
      assert back[i].intervals != lowered[i].intervals;
    }
  }

  lemma CanonicalSid(source: Source)
    requires Canonical(source) && Readable(source)
    ensures BackSource(source).sid == Lower(source.sid)
  {
    hide UuidBytes, UuidText, Lower, CanonicalUuid;
    UuidRoundTrip(source.sid);
  }

  lemma BackIntervalsSame(intervals: seq<Interval>)
    ensures BackIntervals(intervals) == intervals
       <==> forall j :: 0 <= j < |intervals| ==> intervals[j].end != U64 - 1
  {
    forall j | 0 <= j < |intervals|
      ensures BackIntervals(intervals)[j] == intervals[j] <==> intervals[j].end != U64 - 1
    {
    }
  }

  // ------------------------------------------------------------ the originals

  /** The loop over the intervals of one source. */
  method ParseIntervalList(parts: seq<string>) returns (r: Result<seq<Interval>, ()>)
    ensures r.Err? <==> ParseIntervals(parts).Err?
    ensures r.Ok? ==> r.value == ParseIntervals(parts).value
  {
    hide Trim, ParseInterval;
    var intervals: seq<Interval> := [];
    ghost var all := ParseIntervals(parts);
    assert parts[0..] == parts;
    for i := 0 to |parts|
      invariant all.Ok? <==> ParseIntervals(parts[i..]).Ok?
      invariant all.Ok? ==> all.value == intervals + ParseIntervals(parts[i..]).value
    {
      assert parts[i..][1..] == parts[i + 1..];
      var text := TrimAscii(parts[i]);
      if text != "" {
        var interval := ParseInterval(text);
        if interval.Err? {
          return Err(());
        }
        intervals := intervals + [interval.value];
      }
    }
    r := Ok(intervals);
  }

  /** The loop over the sources. */
  method ParseSourceList(parts: seq<string>) returns (r: Result<seq<Source>, ()>)
    ensures r.Err? <==> ParseSources(parts).Err?
    ensures r.Ok? ==> r.value == ParseSources(parts).value
  {
    hide Trim, ParseIntervals, Split, UuidBytes, Readable;
    var out: seq<Source> := [];
    ghost var all := ParseSources(parts);
    assert parts[0..] == parts;
    for i := 0 to |parts|
      invariant all.Ok? <==> ParseSources(parts[i..]).Ok?
      invariant all.Ok? ==> all.value == out + ParseSources(parts[i..]).value
    {
      assert parts[i..][1..] == parts[i + 1..];
      var text := TrimAscii(parts[i]);
      if text != "" {
        var source := ParseOneSource(text);
        if source.Err? {
          return Err(());
        }
        out := out + [source.value];
      }
    }
    r := Ok(out);
  }

  method ParseOneSource(text: string) returns (r: Result<Source, ()>)
    ensures r.Err? <==> ParseSource(text).Err?
    ensures r.Ok? ==> r.value == ParseSource(text).value
  {
    hide Trim, ParseIntervals, Split, UuidBytes;
    var firstColon := IndexOf(text, ':');
    if firstColon.None? {
      return Err(());
    }
    var sid := TrimAscii(text[..firstColon.value]);
    var _ :- ParseUuidBytes(sid);
    var parts := SplitAscii(text[firstColon.value + 1..], ':');
    var intervals :- ParseIntervalList(parts);
    r := Ok(Source(sid, intervals));
  }

  /** `parse_gtid_set_text` */
  method ParseGtidSetText(text: string) returns (r: Result<seq<Source>, ()>)
    ensures r.Err? <==> ParseSet(text).Err?
    ensures r.Ok? ==> r.value == ParseSet(text).value
  {
    hide Trim, ParseSources, Split;
    var trimmed := TrimAscii(text);
    if trimmed == "" {
      return Ok([]);
    }
    var parts := SplitAscii(trimmed, ',');
    r := ParseSourceList(parts);
  }

  /** `encode_gtid_set` */
  method EncodeGtidSet(text: string) returns (r: Result<bytes, ()>)
    ensures r.Err? <==> ParseSet(text).Err?
    ensures r.Ok? ==> r.value == SetBytes(ParseSet(text).value)
  {
    hide ParseSet, LittleEndian, UuidBytes;
    var sources :- ParseGtidSetText(text);
    var out := LittleEndian(|sources|, 8);
    ghost var start := out;
    for i := 0 to |sources|
      invariant start + SourcesBytes(sources) == out + SourcesBytes(sources[i..])
    {
      assert sources[i..][1..] == sources[i + 1..];
      var sid := ParseUuidBytes(sources[i].sid);
      var body := AppendIntervals(sources[i].intervals, sid.value + LittleEndian(|sources[i].intervals|, 8));
      assert body == SourceBytes(sources[i]);
      Concat3(out, body, SourcesBytes(sources[i + 1..]));
      out := out + body;
    }
    assert out + [] == out;
    r := Ok(out);
  }

  method AppendIntervals(intervals: seq<Interval>, front: bytes) returns (out: bytes)
    ensures out == front + IntervalsBytes(intervals)
  {
    hide LittleEndian;
    out := front;
    assert intervals[0..] == intervals;
    for i := 0 to |intervals|
      invariant front + IntervalsBytes(intervals) == out + IntervalsBytes(intervals[i..])
    {
      assert intervals[i..][1..] == intervals[i + 1..];
      var start, end := LittleEndian(intervals[i].start, 8), LittleEndian((intervals[i].end + 1) % U64, 8);
      Concat3(out, start, end);
      Concat3(out, start + end, IntervalsBytes(intervals[i + 1..]));
      out := out + start;
      out := out + end;
    }
    assert out + [] == out;
  }

  /** `decode_gtid_set` */
  method DecodeGtidSet(encoded: bytes) returns (r: Result<seq<Source>, ()>)
    ensures r.Err? <==> DecodeSet(encoded).Malformed?
    ensures r.Ok? ==> r.value == DecodeSet(encoded).value
  {
    hide TakeLE, TakeSource;
    var cursor := new PacketCursor(encoded);
    var more := cursor.HasMore();
    if !more {
      return Ok([]);
    }
    var sourceCount :- cursor.ReadLE(8);
    var out: seq<Source> := [];
    ghost var all := TakeSources(cursor.Rest(), sourceCount);
    for i := 0 to sourceCount
      invariant cursor.Valid()
      invariant all.Parsed? <==> TakeSources(cursor.Rest(), sourceCount - i).Parsed?
      invariant all.Parsed? ==> all.value == out + TakeSources(cursor.Rest(), sourceCount - i).value
    {
      var source := ReadSource(cursor);
      if source.Err? {
        return Err(());
      }
      out := out + [source.value];
    }
    r := Ok(out);
  }

  method ReadSource(cursor: PacketCursor) returns (r: Result<Source, ()>)
    requires cursor.Valid()
    modifies cursor`offset
    ensures cursor.Valid()
    ensures r.Err? <==> TakeSource(old(cursor.Rest())).Malformed?
    ensures r.Ok? ==> TakeSource(old(cursor.Rest())) == Parsed(r.value, cursor.Rest())
  {
    hide TakeLE, TakeBytes, UuidText, TakeIntervals;
    var sidBytes :- cursor.ReadBuffer(16);
    var sid := UuidFromBytes(sidBytes);
    var intervalCount :- cursor.ReadLE(8);
    var intervals :- ReadIntervals(cursor, intervalCount);
    r := Ok(Source(sid.value, intervals));
  }

  method ReadIntervals(cursor: PacketCursor, count: nat) returns (r: Result<seq<Interval>, ()>)
    requires cursor.Valid()
    modifies cursor`offset
    ensures cursor.Valid()
    ensures r.Err? <==> TakeIntervals(old(cursor.Rest()), count).Malformed?
    ensures r.Ok? ==> TakeIntervals(old(cursor.Rest()), count) == Parsed(r.value, cursor.Rest())
  {
    hide TakeInterval;
    var intervals: seq<Interval> := [];
    ghost var all := TakeIntervals(cursor.Rest(), count);
    for j := 0 to count
      invariant cursor.Valid()
      invariant all.Parsed? <==> TakeIntervals(cursor.Rest(), count - j).Parsed?
      invariant all.Parsed? ==> all.value == intervals + TakeIntervals(cursor.Rest(), count - j).value
      invariant all.Parsed? ==> all.rest == TakeIntervals(cursor.Rest(), count - j).rest
    {
      var interval := ReadInterval(cursor);
      if interval.Err? {
        return Err(());
      }
      intervals := intervals + [interval.value];
    }
    assert intervals + [] == intervals;
    r := Ok(intervals);
  }

  method ReadInterval(cursor: PacketCursor) returns (r: Result<Interval, ()>)
    requires cursor.Valid()
    modifies cursor`offset
    ensures cursor.Valid()
    ensures r.Err? <==> TakeInterval(old(cursor.Rest())).Malformed?
    ensures r.Ok? ==> TakeInterval(old(cursor.Rest())) == Parsed(r.value, cursor.Rest())
  {
    hide TakeLE;
    var start :- cursor.ReadLE(8);
    var exclusiveEnd :- cursor.ReadLE(8);
    r := Ok(Interval(start, if exclusiveEnd == 0 then 0 else exclusiveEnd - 1));
  }
}
