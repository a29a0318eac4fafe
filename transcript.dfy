/** Transcript assembly: each segment becomes the line `[{start:.1f} ~ {end:.1f}] {text}`, with
    missing keys read as 0, 0 and "". `process_file` joins the lines with newlines
    (app.py:201-205); `save_transcript` writes a newline after every line (app.py:42-50). */
module Transcript {
  import opened Wrappers
  import Decimal
  import opened Transcription

  /** `format(t, ".1f")` for a time that is a whole number `t` of tenths of a second. */
  function RenderTenths(t: nat): string {
    Decimal.NatToString(t / 10) + "." + [Decimal.DigitChar(t % 10)]
  }

  /** The line of one segment (app.py:202, app.py:47-50). */
  function RenderLine(seg: Segment): string {
    "[" + RenderTenths(seg.start.GetOr(0)) + " ~ " + RenderTenths(seg.end.GetOr(0)) + "] "
      + seg.text.GetOr("")
  }

  /** The list comprehension of app.py:201-204: one line per segment, in order. */
  function TranscriptLines(segments: seq<Segment>): (lines: seq<string>)
    ensures |lines| == |segments|
    ensures forall i :: 0 <= i < |segments| ==> lines[i] == RenderLine(segments[i])
  {
    seq(|segments|, i requires 0 <= i < |segments| => RenderLine(segments[i]))
  }

  /** `"\n".join(lines)`. */
  function JoinLines(lines: seq<string>): string {
    if lines == [] then []
    else if |lines| == 1 then lines[0]
    else lines[0] + "\n" + JoinLines(lines[1..])
  }

  /** The text shown in the result box (app.py:205). */
  function AssembleText(segments: seq<Segment>): string {
    JoinLines(TranscriptLines(segments))
  }

  /** The lines, each followed by a newline, as `save_transcript` writes them. */
  function Terminated(lines: seq<string>): string {
    if lines == [] then [] else Terminated(lines[..|lines| - 1]) + lines[|lines| - 1] + "\n"
  }

  /** The loop of `save_transcript`. Writing to the file is returned as the text written; the
      directory creation and the file itself are left out. */
  method SaveTranscript(segments: seq<Segment>) returns (written: string)
    ensures written == Terminated(TranscriptLines(segments))
    ensures written == if segments == [] then [] else AssembleText(segments) + "\n"
  {
    written := [];
    for i := 0 to |segments|
      invariant written == Terminated(TranscriptLines(segments[..i]))
    {
      var seg := segments[i];
      var start := seg.start.GetOr(0);
      var end := seg.end.GetOr(0);
      var text := seg.text.GetOr("");
      written := written + ("[" + RenderTenths(start) + " ~ " + RenderTenths(end) + "] " + text + "\n");
      assert TranscriptLines(segments[..i + 1])[..i] == TranscriptLines(segments[..i]);
    }
    assert segments[..|segments|] == segments;
    TerminatedIsJoinedPlusNewline(TranscriptLines(segments));
  }

  // ---------------------------------------------------------------------------------------
  // Reading a transcript back

  /** Python's `s.split("\n")`: the pieces between newlines, always at least one. */
  function SplitLines(s: string): (pieces: seq<string>)
    ensures |pieces| >= 1
  {
    if s == [] then [[]]
    else
      var rest := SplitLines(s[1..]);
      if s[0] == '\n' then [[]] + rest else [[s[0]] + rest[0]] + rest[1..]
  }

  predicate NoNewline(s: string) {
    forall i :: 0 <= i < |s| ==> s[i] != '\n'
  }

  /** The fields a transcript line shows. */
  datatype LineFields = LineFields(start: nat, end: nat, text: string)

  /** The length of the longest prefix of `s` made of digits. */
  function DigitPrefix(s: string): (k: nat)
    ensures k <= |s|
    ensures Decimal.AllDigits(s[..k])
  {
    if s == [] || !Decimal.IsDigit(s[0]) then 0
    else
      var k := 1 + DigitPrefix(s[1..]);
      assert s[..k] == [s[0]] + s[1..][..k - 1];
      k
  }

  /** Reads `D.d` off the front of `s`, giving the number of tenths and what follows. */
  function ParseTenths(s: string): Option<(nat, string)> {
    var k := DigitPrefix(s);
    if 0 < k && k + 1 < |s| && s[k] == '.' && Decimal.IsDigit(s[k + 1]) then
      Some((Decimal.DigitsValue(s[..k]) * 10 + Decimal.DigitValue(s[k + 1]), s[k + 2..]))
    else
      None
  }

  /** Reads a transcript line `[S ~ E] text` back into its fields. */
  function ParseLine(line: string): Option<LineFields> {
    if line == [] || line[0] != '[' then None
    else match ParseTenths(line[1..])
      case None => None
      case Some((start, rest)) => ParseAfterStart(start, rest)
  }

  function ParseAfterStart(start: nat, s: string): Option<LineFields> {
    if |s| < 3 || s[..3] != " ~ " then None
    else match ParseTenths(s[3..])
      case None => None
      case Some((end, rest)) => ParseAfterEnd(start, end, rest)
  }

  function ParseAfterEnd(start: nat, end: nat, s: string): Option<LineFields> {
    if |s| < 2 || s[..2] != "] " then None else Some(LineFields(start, end, s[2..]))
  }

  // ---------------------------------------------------------------------------------------
  // Properties

  lemma {:induction false} DigitPrefixOfNumeral(d: string, rest: string)
    requires Decimal.AllDigits(d)
    requires rest == [] || !Decimal.IsDigit(rest[0])
    ensures DigitPrefix(d + rest) == |d|
    decreases |d|
  {
    if d == [] {
      assert d + rest == rest;
    } else {
      assert (d + rest)[1..] == d[1..] + rest;
      DigitPrefixOfNumeral(d[1..], rest);
    }
  }

  /** A rendered time reads back as itself, and the parse stops right after it. */
  lemma ParseRenderedTenths(t: nat, rest: string)
    ensures ParseTenths(RenderTenths(t) + rest) == Some((t, rest))
  {
    var digits := Decimal.NatToString(t / 10);
    Decimal.DigitsValueOfNatToString(t / 10);
    Decimal.NatToStringShape(t / 10);
    var c := Decimal.DigitChar(t % 10);
    var s := RenderTenths(t) + rest;
    var after := "." + [c] + rest;
    assert s == digits + after;
    DigitPrefixOfNumeral(digits, after);
    var k := |digits|;
    assert s[..k] == digits;
    assert s[k] == '.' && s[k + 1] == c;
    assert s[k + 2..] == rest;
  }

  lemma ParseAfterRenderedStart(start: nat, end: nat, text: string)
    ensures ParseAfterStart(start, " ~ " + RenderTenths(end) + "] " + text) ==
            Some(LineFields(start, end, text))
  {
    var r := "] " + text;
    var s := " ~ " + RenderTenths(end) + r;
    assert s[..3] == " ~ ";
    assert s[3..] == RenderTenths(end) + r;
    ParseRenderedTenths(end, r);
    assert ParseTenths(s[3..]) == Some((end, r));
    assert r[..2] == "] " && r[2..] == text;
    assert ParseAfterEnd(start, end, r) == Some(LineFields(start, end, text));
    assert s == " ~ " + RenderTenths(end) + "] " + text;
  }

  /** Every segment's line reads back as the segment's start, end and text, with the defaults
      for missing keys. */
  lemma ParseRenderedLine(seg: Segment)
    ensures ParseLine(RenderLine(seg)) ==
            Some(LineFields(seg.start.GetOr(0), seg.end.GetOr(0), seg.text.GetOr("")))
  {
    var a, b, text := seg.start.GetOr(0), seg.end.GetOr(0), seg.text.GetOr("");
    var line := RenderLine(seg);
    var rest := " ~ " + RenderTenths(b) + "] " + text;
    assert line == "[" + (RenderTenths(a) + rest);
    assert line[1..] == RenderTenths(a) + rest;
    ParseRenderedTenths(a, rest);
    ParseAfterRenderedStart(a, b, text);
  }

  lemma RenderTenthsNoNewline(t: nat)
    ensures NoNewline(RenderTenths(t))
  {
    Decimal.NatToStringShape(t / 10);
  }

  /** A line holds a newline only if the segment's text does. */
  lemma RenderLineNoNewline(seg: Segment)
    requires NoNewline(seg.text.GetOr(""))
    ensures NoNewline(RenderLine(seg))
  {
    RenderTenthsNoNewline(seg.start.GetOr(0));
    RenderTenthsNoNewline(seg.end.GetOr(0));
  }

  lemma {:induction false} SplitNoNewline(a: string)
    requires NoNewline(a)
    ensures SplitLines(a) == [a]
    decreases |a|
  {
    if a != [] {
      SplitNoNewline(a[1..]);
      assert [a[0]] + a[1..] == a;
    }
  }

  lemma {:induction false} SplitAfterLine(a: string, b: string)
    requires NoNewline(a)
    ensures SplitLines(a + "\n" + b) == [a] + SplitLines(b)
    decreases |a|
  {
    var s := a + "\n" + b;
    if a == [] {
      assert s == "\n" + b;
      assert s[1..] == b;
    } else {
      assert s[1..] == a[1..] + "\n" + b;
      SplitAfterLine(a[1..], b);
      assert [a[0]] + a[1..] == a;
    }
  }

  /** Splitting the joined lines at newlines gives the lines back, provided there is at least
      one line (`"".split("\n")` is `[""]`) and no line holds a newline itself. */
  lemma {:induction false} SplitJoin(lines: seq<string>)
    requires lines != []
    requires forall i :: 0 <= i < |lines| ==> NoNewline(lines[i])
    ensures SplitLines(JoinLines(lines)) == lines
    decreases |lines|
  {
    if |lines| == 1 {
      SplitNoNewline(lines[0]);
    } else {
      SplitAfterLine(lines[0], JoinLines(lines[1..]));
      SplitJoin(lines[1..]);
    }
  }

  /** The saved file is the displayed text plus one final newline; both are empty when there
      is no segment. */
  lemma {:induction false} TerminatedIsJoinedPlusNewline(lines: seq<string>)
    ensures Terminated(lines) == if lines == [] then [] else JoinLines(lines) + "\n"
    decreases |lines|
  {
    if |lines| > 1 {
      var init := lines[..|lines| - 1];
      TerminatedIsJoinedPlusNewline(init);
      JoinSnoc(init, lines[|lines| - 1]);
      assert init + [lines[|lines| - 1]] == lines;
    } else if |lines| == 1 {
      assert lines[..0] == [];
    }
  }

  lemma {:induction false} JoinSnoc(lines: seq<string>, last: string)
    requires lines != []
    ensures JoinLines(lines + [last]) == JoinLines(lines) + "\n" + last
    decreases |lines|
  {
    if |lines| == 1 {
      assert (lines + [last])[1..] == [last];
    } else {
      assert (lines + [last])[1..] == lines[1..] + [last];
      JoinSnoc(lines[1..], last);
    }
  }

  /** The displayed transcript has exactly one line per segment, in segment order, and each
      line reads back as its segment's fields (when no text holds a newline). */
  lemma TranscriptReadBack(segments: seq<Segment>)
    requires segments != []
    requires forall i :: 0 <= i < |segments| ==> NoNewline(segments[i].text.GetOr(""))
    ensures |SplitLines(AssembleText(segments))| == |segments|
    ensures forall i :: 0 <= i < |segments| ==>
              ParseLine(SplitLines(AssembleText(segments))[i]) ==
              Some(LineFields(segments[i].start.GetOr(0), segments[i].end.GetOr(0),
                              segments[i].text.GetOr("")))
  {
    var lines := TranscriptLines(segments);
    forall i | 0 <= i < |lines| ensures NoNewline(lines[i]) {
      RenderLineNoNewline(segments[i]);
    }
    SplitJoin(lines);
    forall i | 0 <= i < |segments|
      ensures ParseLine(lines[i]) ==
              Some(LineFields(segments[i].start.GetOr(0), segments[i].end.GetOr(0),
                              segments[i].text.GetOr("")))
    {
      ParseRenderedLine(segments[i]);
    }
  }

  /** Read back line by line, the saved file gives every segment's line followed by one empty
      piece after the final newline. */
  lemma SavedFileReadBack(segments: seq<Segment>)
    requires segments != []
    requires forall i :: 0 <= i < |segments| ==> NoNewline(segments[i].text.GetOr(""))
    ensures SplitLines(Terminated(TranscriptLines(segments))) == TranscriptLines(segments) + [[]]
  {
    var lines := TranscriptLines(segments);
    TerminatedIsJoinedPlusNewline(lines);
    forall i | 0 <= i < |lines| ensures NoNewline(lines[i]) {
      RenderLineNoNewline(segments[i]);
    }
    SplitAppendEmptyLine(lines);
  }

  lemma {:induction false} SplitAppendEmptyLine(lines: seq<string>)
    requires lines != []
    requires forall i :: 0 <= i < |lines| ==> NoNewline(lines[i])
    ensures SplitLines(JoinLines(lines) + "\n") == lines + [[]]
    decreases |lines|
  {
    if |lines| == 1 {
      SplitAfterLine(lines[0], []);
      assert lines[0] + "\n" + [] == JoinLines(lines) + "\n";
    } else {
      var rest := JoinLines(lines[1..]);
      assert JoinLines(lines) + "\n" == lines[0] + "\n" + (rest + "\n");
      SplitAfterLine(lines[0], rest + "\n");
      SplitAppendEmptyLine(lines[1..]);
    }
  }
}
