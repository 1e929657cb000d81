/**
 * The window title `updateVisualizerTitle` composes in `EOCVSim.kt`: the
 * current pipeline's name (or "No pipeline"), then the pipeline frame rate,
 * the poster frame rate, a paused marker and the memory figure, each in
 * parentheses.  Kotlin renders the numbers in decimal; `Decimal` does the same
 * and the parser `ParseTitle` recovers every field from a title.
 */
module Title {
  import opened Wrappers

  // ---------------------------------------------------------------------------
  // Decimal rendering of integers, as Kotlin's string templates do it
  // ---------------------------------------------------------------------------

  predicate IsDigit(c: char) {
    '0' <= c <= '9'
  }

  function DigitChar(d: int): (c: char)
    requires 0 <= d < 10
    ensures IsDigit(c) && c as int - '0' as int == d
  {
    (d + '0' as int) as char
  }

  function NatToString(n: nat): (s: string)
    decreases n
  {
    if n < 10 then [DigitChar(n)] else NatToString(n / 10) + [DigitChar(n % 10)]
  }

  /** `Int.toString()`: a minus sign for negatives, then the decimal digits. */
  function Decimal(i: int): string {
    if i < 0 then "-" + NatToString(-i) else NatToString(i)
  }

  predicate AllDigits(s: string) {
    forall k :: 0 <= k < |s| ==> IsDigit(s[k])
  }

  /** The value of a string of decimal digits. */
  function DigitsValue(s: string): nat
    requires AllDigits(s)
  {
    if |s| == 0 then 0
    else DigitsValue(s[..|s| - 1]) * 10 + (s[|s| - 1] as int - '0' as int)
  }

  /** Reads back what `Decimal` writes; `None` for anything else. */
  function ParseDecimal(s: string): Option<int> {
    if |s| > 0 && s[0] == '-' && |s| > 1 && AllDigits(s[1..]) then Some(0 - DigitsValue(s[1..]))
    else if |s| > 0 && AllDigits(s) then Some(DigitsValue(s))
    else None
  }

  lemma {:induction false} NatToStringDigits(n: nat)
    ensures |NatToString(n)| > 0 && AllDigits(NatToString(n))
    ensures DigitsValue(NatToString(n)) == n
    decreases n
  {
    if n >= 10 {
      NatToStringDigits(n / 10);
      var s := NatToString(n);
      assert s[..|s| - 1] == NatToString(n / 10);
    }
  }

  /** Decimal rendering round-trips through `ParseDecimal`. */
  lemma DecimalRoundTrip(i: int)
    ensures ParseDecimal(Decimal(i)) == Some(i)
    ensures |Decimal(i)| > 0 && Decimal(i)[0] != ' ' && Decimal(i)[0] != 'P'
    ensures forall k :: 0 <= k < |Decimal(i)| ==> Decimal(i)[k] != ' '
  {
    if i < 0 {
      SignedDigits(-i);
    } else {
      UnsignedDigits(i);
    }
  }

  lemma UnsignedDigits(n: nat)
    ensures ParseDecimal(NatToString(n)) == Some(n)
    ensures |NatToString(n)| > 0 && IsDigit(NatToString(n)[0])
    ensures forall k :: 0 <= k < |NatToString(n)| ==> NatToString(n)[k] != ' '
  {
    NatToStringDigits(n);
    var s := NatToString(n);
    assert IsDigit(s[0]) && s[0] != '-';
  }

  lemma SignedDigits(n: nat)
    requires n > 0
    ensures ParseDecimal("-" + NatToString(n)) == Some(0 - n)
    ensures forall k :: 0 <= k < |"-" + NatToString(n)| ==> ("-" + NatToString(n))[k] != ' '
  {
    NatToStringDigits(n);
    var s := NatToString(n);
    var d := "-" + s;
    assert d[0] == '-' && d[1..] == s && |d| > 1;
    forall k | 0 <= k < |d|
      ensures d[k] != ' '
    {
      if k > 0 {
        assert d[k] == s[k - 1];
      }
    }
  }

  /** Two integers with the same rendering are equal. */
  lemma DecimalInjective(a: int, b: int)
    requires Decimal(a) == Decimal(b)
    ensures a == b
  {
    DecimalRoundTrip(a);
    DecimalRoundTrip(b);
  }

  // ---------------------------------------------------------------------------
  // The title
  // ---------------------------------------------------------------------------

  const NoPipeline: string := "No pipeline"
  const PausedMarker: string := " (Paused)"
  const PipelineFpsSuffix: string := " Pipeline FPS)"
  const PosterFpsSuffix: string := " Poster FPS)"
  const MemorySuffix: string := " MB Java memory used)"

  /** The inputs of one title: what the pipeline and poster counters and the memory probe report. */
  datatype TitleFields = TitleFields(pipelineFps: int, posterFps: int, paused: bool, memoryMb: int)

  /** One parenthesised figure: " (", the number, then the closing words. */
  function Segment(i: int, suffix: string): string {
    " (" + Decimal(i) + suffix
  }

  /**
   * `updateVisualizerTitle`: `pipelineName` is `None` when no pipeline is
   * active; the memory figure is an opaque input.
   */
  function VisualizerTitle(pipelineName: Option<string>, f: TitleFields): string {
    var pipelineFpsMsg := Segment(f.pipelineFps, PipelineFpsSuffix);
    var posterFpsMsg := Segment(f.posterFps, PosterFpsSuffix);
    var isPaused := if f.paused then PausedMarker else "";
    var memoryMsg := Segment(f.memoryMb, MemorySuffix);
    var msg := pipelineFpsMsg + posterFpsMsg + isPaused + memoryMsg;
    match pipelineName
    case None => NoPipeline + msg
    case Some(name) => name + msg
  }

  /** What a title starts with: the pipeline's name, or "No pipeline". */
  function Heading(pipelineName: Option<string>): string {
    match pipelineName
    case None => NoPipeline
    case Some(name) => name
  }

  // ---------------------------------------------------------------------------
  // Reading a title back
  // ---------------------------------------------------------------------------

  /** `s` without the leading `lit`, if it starts with it. */
  function DropPrefix(lit: string, s: string): Option<string> {
    if |lit| <= |s| && s[..|lit|] == lit then Some(s[|lit|..]) else None
  }

  /** The longest space-free prefix of `s`, and the rest. */
  function SplitWord(s: string): (r: (string, string))
    ensures r.0 + r.1 == s
  {
    if |s| == 0 || s[0] == ' ' then ("", s)
    else
      var (w, rest) := SplitWord(s[1..]);
      assert [s[0]] + w + rest == s;
      ([s[0]] + w, rest)
  }

  /** Reads a number followed by a space-led remainder. */
  function ReadNumber(s: string): Option<(int, string)> {
    var (word, rest) := SplitWord(s);
    match ParseDecimal(word)
    case None => None
    case Some(v) => Some((v, rest))
  }

  /** Reads one `Segment` with the given closing words off the front of `s`. */
  function ReadSegment(suffix: string, s: string): Option<(int, string)> {
    match DropPrefix(" (", s)
    case None => None
    case Some(s1) =>
      match ReadNumber(s1)
      case None => None
      case Some((v, s2)) =>
        match DropPrefix(suffix, s2)
        case None => None
        case Some(s3) => Some((v, s3))
  }

  /** Recovers the fields of a title whose heading is known. */
  function ParseTitle(heading: string, t: string): Option<TitleFields> {
    match DropPrefix(heading, t)
    case None => None
    case Some(s) =>
      match ReadSegment(PipelineFpsSuffix, s)
      case None => None
      case Some((pipelineFps, s1)) =>
        match ReadSegment(PosterFpsSuffix, s1)
        case None => None
        case Some((posterFps, s2)) =>
          match ParseTail(s2)
          case None => None
          case Some((paused, memoryMb)) => Some(TitleFields(pipelineFps, posterFps, paused, memoryMb))
  }

  /** The optional paused marker, then the memory figure, which must end the title. */
  function ParseTail(s: string): Option<(bool, int)> {
    var paused := DropPrefix(PausedMarker, s).Some?;
    var s1 := if paused then s[|PausedMarker|..] else s;
    match ReadSegment(MemorySuffix, s1)
    case None => None
    case Some((memoryMb, s2)) => if s2 == "" then Some((paused, memoryMb)) else None
  }

  lemma DropPrefixOf(lit: string, rest: string)
    ensures DropPrefix(lit, lit + rest) == Some(rest)
  {
    assert (lit + rest)[..|lit|] == lit;
    assert (lit + rest)[|lit|..] == rest;
  }

  lemma {:induction false} SplitWordAt(w: string, rest: string)
    requires forall k :: 0 <= k < |w| ==> w[k] != ' '
    requires |rest| > 0 && rest[0] == ' '
    ensures SplitWord(w + rest) == (w, rest)
    decreases |w|
  {
    if |w| == 0 {
      assert w + rest == rest;
    } else {
      assert (w + rest)[1..] == w[1..] + rest;
      SplitWordAt(w[1..], rest);
      assert [w[0]] + w[1..] == w;
    }
  }

  lemma ReadNumberOf(i: int, rest: string)
    requires |rest| > 0 && rest[0] == ' '
    ensures ReadNumber(Decimal(i) + rest) == Some((i, rest))
  {
    DecimalRoundTrip(i);
    SplitWordAt(Decimal(i), rest);
  }

  lemma SegmentOf(i: int, suffix: string, rest: string)
    requires |suffix| > 0 && suffix[0] == ' '
    ensures ReadSegment(suffix, Segment(i, suffix) + rest) == Some((i, rest))
  {
    var tail := suffix + rest;
    var after := Decimal(i) + tail;
    assert Segment(i, suffix) + rest == " (" + after;
    DropPrefixOf(" (", after);
    assert DropPrefix(" (", " (" + after) == Some(after);
    assert |tail| > 0 && tail[0] == ' ';
    ReadNumberOf(i, tail);
    assert ReadNumber(after) == Some((i, tail));
    DropPrefixOf(suffix, rest);
    assert DropPrefix(suffix, tail) == Some(rest);
  }

  /** The memory segment never reads as the paused marker: its third character is a digit or '-'. */
  lemma NotPausedMarker(i: int)
    ensures DropPrefix(PausedMarker, Segment(i, MemorySuffix)).None?
  {
    DecimalRoundTrip(i);
    var s := Segment(i, MemorySuffix);
    assert s[2] == Decimal(i)[0];
    assert |PausedMarker| <= |s| ==> s[..|PausedMarker|][2] == s[2];
  }

  /** The paused marker is read exactly when it was written, then the memory figure ends the title. */
  lemma TailRoundTrip(paused: bool, memoryMb: int)
    ensures ParseTail((if paused then PausedMarker else "") + Segment(memoryMb, MemorySuffix)) == Some((paused, memoryMb))
  {
    var seg := Segment(memoryMb, MemorySuffix);
    if paused {
      DropPrefixOf(PausedMarker, seg);
    } else {
      assert "" + seg == seg;
      NotPausedMarker(memoryMb);
    }
    assert seg + "" == seg;
    SegmentOf(memoryMb, MemorySuffix, "");
  }

  /** The title is its heading followed by the right-nested segments. */
  lemma TitleShape(pipelineName: Option<string>, f: TitleFields)
    ensures VisualizerTitle(pipelineName, f)
         == Heading(pipelineName) + (Segment(f.pipelineFps, PipelineFpsSuffix) + (Segment(f.posterFps, PosterFpsSuffix)
            + ((if f.paused then PausedMarker else "") + Segment(f.memoryMb, MemorySuffix))))
  {
    var a, b := Segment(f.pipelineFps, PipelineFpsSuffix), Segment(f.posterFps, PosterFpsSuffix);
    var c, d := if f.paused then PausedMarker else "", Segment(f.memoryMb, MemorySuffix);
    assert a + b + c + d == a + (b + (c + d));
  }

  /**
   * A title lists, after its heading, the pipeline frame rate, the poster
   * frame rate, the paused marker exactly when paused, and the memory figure,
   * in that order: reading it back with the same heading recovers every field.
   */
  lemma TitleRoundTrip(pipelineName: Option<string>, f: TitleFields)
    ensures ParseTitle(Heading(pipelineName), VisualizerTitle(pipelineName, f)) == Some(f)
  {
    var tl := (if f.paused then PausedMarker else "") + Segment(f.memoryMb, MemorySuffix);
    var rest := Segment(f.posterFps, PosterFpsSuffix) + tl;
    TitleShape(pipelineName, f);
    DropPrefixOf(Heading(pipelineName), Segment(f.pipelineFps, PipelineFpsSuffix) + rest);
    SegmentOf(f.pipelineFps, PipelineFpsSuffix, rest);
    SegmentOf(f.posterFps, PosterFpsSuffix, tl);
    TailRoundTrip(f.paused, f.memoryMb);
  }

  /** For a given heading the title determines the frame rates, the pause state and the memory figure. */
  lemma TitleDeterminesFields(pipelineName: Option<string>, f: TitleFields, g: TitleFields)
    requires VisualizerTitle(pipelineName, f) == VisualizerTitle(pipelineName, g)
    ensures f == g
  {
    TitleRoundTrip(pipelineName, f);
    TitleRoundTrip(pipelineName, g);
  }

  /** The title starts with the pipeline's name, or with "No pipeline" when there is none. */
  lemma TitleHeading(pipelineName: Option<string>, f: TitleFields)
    ensures var t := VisualizerTitle(pipelineName, f);
            |Heading(pipelineName)| <= |t| && t[..|Heading(pipelineName)|] == Heading(pipelineName)
  {
    var t := VisualizerTitle(pipelineName, f);
    var head := Heading(pipelineName);
    assert t == head + t[|head|..];
  }

  /** A pipeline literally named "No pipeline" shows the same title as no pipeline at all. */
  lemma NoPipelineIsAmbiguous(f: TitleFields)
    ensures VisualizerTitle(None, f) == VisualizerTitle(Some(NoPipeline), f)
  {
  }
}
