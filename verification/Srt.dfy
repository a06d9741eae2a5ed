/**
 * The SubRip writer of the upload handler: every transcribed segment, in the
 * order the transcriber yields it, becomes one block of four lines: its
 * 1-based position, the timing line, the stripped text and a blank line.
 * No segment is skipped (an empty text still gets a numbered block) and
 * `end` is written as given, even when it precedes `start`.
 */
module Srt {
  import opened Wrappers
  import opened Decimal
  import opened Text
  import Timestamp

  /** A transcribed segment: start and end in seconds, and its text. */
  datatype Segment = Segment(start: real, end: real, text: string)

  /** What a reader of the file gets back from one block: the index, the
      whole seconds of both boundaries and the text line. */
  datatype Cue = Cue(index: nat, start: int, end: int, text: string)

  /** `HH:MM:SS,000 --> HH:MM:SS,000` */
  function TimingLine(seg: Segment): string
  {
    Timestamp.Format(seg.start) + " --> " + Timestamp.Format(seg.end)
  }

  /** The three writes of one loop iteration, for the segment numbered `index`. */
  function Block(index: nat, seg: Segment): string
  {
    Digits(index) + "\n" + TimingLine(seg) + "\n" + Strip(seg.text) + "\n\n"
  }

  /** The blocks of `segs`, numbered consecutively from `first`, each one
      laid out by `render`.  The structural lemmas below hold for any
      layout, so they are stated for an arbitrary one. */
  function EncodeFrom(render: (nat, Segment) -> string, first: nat, segs: seq<Segment>): string
    decreases |segs|
  {
    if segs == [] then [] else render(first, segs[0]) + EncodeFrom(render, first + 1, segs[1..])
  }

  /** The whole file: blocks numbered from 1, as `enumerate(segments, start=1)`. */
  function Encode(segs: seq<Segment>): string
  {
    EncodeFrom(Block, 1, segs)
  }

  /** The loop of the handler: the file is opened empty and each iteration
      writes the index line, the timing line and the text with its blank
      separator.  The written text is the encoding of all the segments. */
  method WriteSrt(segments: seq<Segment>) returns (srt: string)
    ensures srt == Encode(segments)
  {
    srt := "";
    var i := 1;
    while i <= |segments|
      invariant 1 <= i <= |segments| + 1
      invariant srt == EncodeFrom(Block, 1, segments[..i - 1])
    {
      var seg := segments[i - 1];
      var start := seg.start;
      var end := seg.end;
      var text := Strip(seg.text);
      ghost var before := srt;
      srt := srt + Digits(i) + "\n";
      srt := srt + Timestamp.Format(start) + " --> " + Timestamp.Format(end) + "\n";
      srt := srt + text + "\n\n";
      WritesMakeBlock(before, Digits(i), Timestamp.Format(start), Timestamp.Format(end), text);
      assert srt == before + Block(i, seg);
      AppendOne(Block, segments, i);
      i := i + 1;
    }
    assert segments[..i - 1] == segments;
  }

  /** The three writes of an iteration append exactly one block. */
  lemma WritesMakeBlock(before: string, index: string, a: string, b: string, text: string)
    ensures before + index + "\n" + a + " --> " + b + "\n" + text + "\n\n"
         == before + (index + "\n" + (a + " --> " + b) + "\n" + text + "\n\n")
  {
  }

  /** Encoding one more segment appends its block, numbered after the others. */
  lemma AppendOne(render: (nat, Segment) -> string, segs: seq<Segment>, i: nat)
    requires 1 <= i <= |segs|
    ensures EncodeFrom(render, 1, segs[..i]) == EncodeFrom(render, 1, segs[..i - 1]) + render(i, segs[i - 1])
  {
    EncodeFromAppend(render, 1, segs[..i - 1], [segs[i - 1]]);
    assert segs[..i] == segs[..i - 1] + [segs[i - 1]];
  }

  /** Encoding a concatenation is concatenating the encodings, the second
      part numbered on from where the first stops. */
  lemma {:induction false} EncodeFromAppend(render: (nat, Segment) -> string, first: nat, a: seq<Segment>, b: seq<Segment>)
    decreases |a|
    ensures EncodeFrom(render, first, a + b) == EncodeFrom(render, first, a) + EncodeFrom(render, first + |a|, b)
  {
    if a == [] {
      assert a + b == b;
    } else {
      assert (a + b)[1..] == a[1..] + b;
      EncodeFromAppend(render, first + 1, a[1..], b);
    }
  }

  /** The output is the blocks of the segments in input order: the block of
      the k-th segment (0-based) carries the index k + 1 and sits after the
      encoding of the k segments before it, whatever their texts. */
  lemma BlockAt(segs: seq<Segment>, k: nat)
    requires k < |segs|
    ensures Encode(segs) == Encode(segs[..k]) + Block(k + 1, segs[k]) + EncodeFrom(Block, k + 2, segs[k + 1..])
  {
    assert segs == segs[..k] + segs[k..];
    EncodeFromAppend(Block, 1, segs[..k], segs[k..]);
    assert segs[k..][1..] == segs[k + 1..];
  }

  /** Whatever stops the loop after `i` iterations, the file then holds the
      encoding of the first `i` segments, which is a prefix of the full file. */
  lemma PartialOutput(segs: seq<Segment>, i: nat)
    requires i <= |segs|
    ensures Encode(segs[..i]) <= Encode(segs)
    ensures Encode(segs) == Encode(segs[..i]) + EncodeFrom(Block, i + 1, segs[i..])
  {
    assert segs == segs[..i] + segs[i..];
    EncodeFromAppend(Block, 1, segs[..i], segs[i..]);
  }

  /** The k-th block (0-based) starts, right after the blocks before it,
      with the line holding the number k + 1. */
  lemma IndexLineAt(segs: seq<Segment>, k: nat)
    requires k < |segs|
    ensures var off, d := |Encode(segs[..k])|, Digits(k + 1);
      && off + |d| + 1 <= |Encode(segs)|
      && Encode(segs)[off..off + |d| + 1] == d + "\n"
  {
    BlockAt(segs, k);
    var seg := segs[k];
    LineAfter(Encode(segs), Encode(segs[..k]), Digits(k + 1), TimingLine(seg), Strip(seg.text),
              EncodeFrom(Block, k + 2, segs[k + 1..]));
  }

  /** The first line of a block that follows `before`. */
  lemma LineAfter(whole: string, before: string, d: string, t: string, x: string, after: string)
    requires whole == before + (d + "\n" + t + "\n" + x + "\n\n") + after
    ensures |before| + |d| + 1 <= |whole| && whole[|before|..|before| + |d| + 1] == d + "\n"
  {
    assert whole == before + (d + "\n") + (t + "\n" + x + "\n\n" + after);
  }

  /** Index of the first `c` in `s`, or `|s|` when there is none. */
  function Find(s: string, c: char): (k: nat)
    ensures k <= |s|
    ensures forall i :: 0 <= i < k ==> s[i] != c
    ensures k < |s| ==> s[k] == c
  {
    if s == [] || s[0] == c then 0 else 1 + Find(s[1..], c)
  }

  /** Splits off the first line (without its line break). */
  function SplitLine(s: string): (r: Option<(string, string)>)
    ensures r.Some? ==> |r.value.1| < |s|
  {
    var k := Find(s, '\n');
    if k == |s| then None else Some((s[..k], s[k + 1..]))
  }

  /** Reads a timing line back into the whole seconds of its two ends. */
  function ParseTimingLine(line: string): Option<(int, int)>
  {
    var k := Find(line, ' ');
    if |line| - k < 5 || line[k..k + 5] != " --> " then None
    else
      match (Timestamp.Parse(line[..k]), Timestamp.Parse(line[k + 5..]))
      case (Some(a), Some(b)) => Some((a, b))
      case _ => None
  }

  /** Reads one block: an index line, a timing line, a text line and a
      blank line; returns its cue and what follows it. */
  function ParseBlock(s: string): (r: Option<(Cue, string)>)
    ensures r.Some? ==> |r.value.1| < |s|
  {
    match SplitLine(s)
    case None => None
    case Some((indexLine, s1)) =>
      match SplitLine(s1)
      case None => None
      case Some((timing, s2)) =>
        match SplitLine(s2)
        case None => None
        case Some((text, s3)) =>
          match SplitLine(s3)
          case None => None
          case Some((blank, s4)) =>
            if blank != [] then None
            else
              match (ParseNat(indexLine), ParseTimingLine(timing))
              case (Some(i), Some((st, en))) => Some((Cue(i, st, en, text), s4))
              case _ => None
  }

  /** Reads a file made of blocks. */
  function ParseSrt(s: string): Option<seq<Cue>>
    decreases |s|
  {
    if s == [] then Some([])
    else
      match ParseBlock(s)
      case None => None
      case Some((cue, rest)) =>
        match ParseSrt(rest)
        case None => None
        case Some(cues) => Some([cue] + cues)
  }

  lemma SplitLineOf(line: string, rest: string)
    requires '\n' !in line
    ensures SplitLine(line + "\n" + rest) == Some((line, rest))
  {
    var s := line + "\n" + rest;
    assert s[|line|] == '\n';
    assert s[..|line|] == line && s[|line| + 1..] == rest;
  }

  /** A timing line splits at its first space, which is the one of the arrow. */
  lemma ParseTimingLineOf(a: string, b: string)
    requires Timestamp.NoSpaceOrBreak(a) && Timestamp.NoSpaceOrBreak(b)
    ensures '\n' !in a + " --> " + b
    ensures ParseTimingLine(a + " --> " + b) ==
      match (Timestamp.Parse(a), Timestamp.Parse(b))
      case (Some(x), Some(y)) => Some((x, y))
      case _ => None
  {
    var line := a + " --> " + b;
    assert line == a + [' '] + ("--> " + b);
    assert line[|a|] == ' ';
    assert Find(line, ' ') == |a|;
    assert line[..|a|] == a && line[|a|..|a| + 5] == " --> " && line[|a| + 5..] == b;
    forall k | 0 <= k < |line| ensures line[k] != '\n' {
      if k >= |a| + 5 { assert line[k] == b[k - |a| - 5]; }
    }
  }

  /** The timing line reads back as the whole seconds of start and end. */
  lemma TimingLineRoundTrip(seg: Segment)
    ensures '\n' !in TimingLine(seg)
    ensures ParseTimingLine(TimingLine(seg)) == Some((seg.start.Floor, seg.end.Floor))
  {
    Timestamp.FormatNoSpaceOrBreak(seg.start);
    Timestamp.FormatNoSpaceOrBreak(seg.end);
    Timestamp.RoundTrip(seg.start);
    Timestamp.RoundTrip(seg.end);
    ParseTimingLineOf(Timestamp.Format(seg.start), Timestamp.Format(seg.end));
  }

  lemma SplitBlankLine(rest: string)
    ensures SplitLine("\n" + rest) == Some(([], rest))
  {
    assert ("\n" + rest)[1..] == rest;
  }

  /** Four lines, the last one blank, read back as one cue before the rest. */
  lemma ParseBlockOf(d: string, t: string, x: string, rest: string, i: nat, st: int, en: int)
    requires '\n' !in d && '\n' !in t && '\n' !in x
    requires ParseNat(d) == Some(i) && ParseTimingLine(t) == Some((st, en))
    ensures ParseBlock(d + "\n" + (t + "\n" + (x + "\n" + ("\n" + rest))))
         == Some((Cue(i, st, en, x), rest))
  {
    var s3 := "\n" + rest;
    var s2 := x + "\n" + s3;
    var s1 := t + "\n" + s2;
    SplitLineOf(d, s1);
    SplitLineOf(t, s2);
    SplitLineOf(x, s3);
    SplitBlankLine(rest);
  }

  lemma Regroup(d: string, t: string, x: string, rest: string)
    ensures d + "\n" + t + "\n" + x + "\n\n" + rest == d + "\n" + (t + "\n" + (x + "\n" + ("\n" + rest)))
  {
  }

  /** One block reads back as the cue of its segment, whatever follows it. */
  lemma BlockRoundTrip(index: nat, seg: Segment, rest: string)
    requires '\n' !in Strip(seg.text)
    ensures ParseBlock(Block(index, seg) + rest) == Some((CueOf(index, seg), rest))
  {
    var d := Digits(index);
    assert '\n' !in d by {
      assert forall k :: 0 <= k < |d| ==> IsDigit(d[k]);
    }
    TimingLineRoundTrip(seg);
    ValueOfDigits(index);
    Regroup(d, TimingLine(seg), Strip(seg.text), rest);
    ParseBlockOf(d, TimingLine(seg), Strip(seg.text), rest, index, seg.start.Floor, seg.end.Floor);
  }

  /** The cue a reader should get back for the segment numbered `index`. */
  function CueOf(index: nat, seg: Segment): Cue
  {
    Cue(index, seg.start.Floor, seg.end.Floor, Strip(seg.text))
  }

  /** The cues of `segs`, numbered consecutively from `first`. */
  function Cues(first: nat, segs: seq<Segment>): (cs: seq<Cue>)
    decreases |segs|
    ensures |cs| == |segs|
    ensures forall k :: 0 <= k < |segs| ==> cs[k] == CueOf(first + k, segs[k])
  {
    if segs == [] then [] else [CueOf(first, segs[0])] + Cues(first + 1, segs[1..])
  }

  lemma {:induction false} ParseEncodeFrom(first: nat, segs: seq<Segment>)
    decreases |segs|
    requires forall k :: 0 <= k < |segs| ==> '\n' !in Strip(segs[k].text)
    ensures ParseSrt(EncodeFrom(Block, first, segs)) == Some(Cues(first, segs))
  {
    if segs != [] {
      ParseEncodeFrom(first + 1, segs[1..]);
      BlockRoundTrip(first, segs[0], EncodeFrom(Block, first + 1, segs[1..]));
    }
  }

  /** Reading the file back gives one cue per segment, in input order and
      numbered 1, 2, ... with none skipped, each holding the whole seconds of
      its segment's start and end and its stripped text (provided no
      stripped text spans several lines). */
  lemma SrtRoundTrip(segs: seq<Segment>)
    requires forall k :: 0 <= k < |segs| ==> '\n' !in Strip(segs[k].text)
    ensures var r := ParseSrt(Encode(segs));
      && r.Some? && |r.value| == |segs|
      && forall k :: 0 <= k < |segs| ==>
           r.value[k] == Cue(k + 1, segs[k].start.Floor, segs[k].end.Floor, Strip(segs[k].text))
  {
    ParseEncodeFrom(1, segs);
  }
}
