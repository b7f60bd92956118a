/** `writeSubtitle`: a track written out as SRT text, each cue as its index line, its
    timing line, its text and a blank line, with the time offset applied to the cues
    that start at or after the threshold. */
module SrtWriter {
  import opened JsText
  import opened Cues
  import opened TimeCode
  import opened SrtReader
  import opened Sorting

  /** `timeOffset` for a cue that starts at or after `timeBegin`, nothing before. */
  function OffsetFor(c: Cue, begin: int, offset: int): int
  {
    if c.start >= begin then offset else 0
  }

  /** The cue with the offset that applies to it added to both its times. */
  function Shifted(c: Cue, begin: int, offset: int): Cue
  {
    var off := OffsetFor(c, begin, offset);
    Cue(c.start + off, c.stop + off, c.text)
  }

  function ShiftTrack(track: Track, begin: int, offset: int): (r: Track)
    ensures |r| == |track|
    ensures forall i :: 0 <= i < |r| ==> r[i] == Shifted(track[i], begin, offset)
  {
    if track == [] then [] else [Shifted(track[0], begin, offset)] + ShiftTrack(track[1..], begin, offset)
  }

  /** Both times can be formatted (negative times are outside the model). */
  predicate Writable(c: Cue)
  {
    c.start >= 0 && c.stop >= 0
  }

  predicate WritableTrack(track: Track, begin: int, offset: int)
  {
    forall i :: 0 <= i < |track| ==> Writable(Shifted(track[i], begin, offset))
  }

  /** The index line, the timing line and the text of a cue. The times are written by
      `formatTime` as the code has it, so a time of 1, 2 or 3 ms gets the hours field
      `02`, `05` or `08`. */
  function WrittenBlock(k: nat, c: Cue): string
    requires Writable(c)
  {
    NatToString(k) + "\n" + FormatTimeAsWritten(c.start) + " --> " + FormatTimeAsWritten(c.stop) + "\n" + c.text
  }

  /** Away from 1, 2 and 3 ms, a block carries the intended time codes. */
  lemma WrittenBlockIntended(k: nat, c: Cue)
    requires Writable(c) && ExactTime(c.start) && ExactTime(c.stop)
    ensures WrittenBlock(k, c) == NatToString(k) + "\n" + FormatTime(c.start) + " --> " + FormatTime(c.stop) + "\n" + c.text
  {
  }

  /** A time that `formatTime` as written gets right: 0, or 4 ms and more. */
  predicate ExactTime(t: int)
  {
    t == 0 || t >= 4
  }

  /** The source's output for a cue one millisecond in: its timing line says two
      hours, and the reader takes it back as 7200001 ms. */
  lemma WrittenBlockOneMillisecond()
    ensures WrittenBlock(1, Cue(1, 1000, "a")) == "1\n02:00:00,001 --> 00:00:01,000\na"
  {
    var c := Cue(1, 1000, "a");
    assert WrittenBlock(1, c) == NatToString(1) + "\n" + FormatTimeAsWritten(1) + " --> " + FormatTimeAsWritten(1000) + "\n" + "a";
    FormatTimeAsWrittenMisreadsOneMillisecond();
    OneSecond();
    assert NatToString(1) == "1";
    OneMillisecondLine();
  }

  lemma OneMillisecondLine()
    ensures "1" + "\n" + "02:00:00,001" + " --> " + "00:00:01,000" + "\n" + "a" == "1\n02:00:00,001 --> 00:00:01,000\na"
  {
  }

  /** The blocks the writer emits, one per cue and numbered from 1. */
  function WrittenBlocks(track: Track, begin: int, offset: int): (bs: seq<string>)
    requires WritableTrack(track, begin, offset)
    ensures |bs| == |track|
  {
    if track == [] then []
    else
      var n := |track|;
      WrittenBlocks(track[..n - 1], begin, offset) + [WrittenBlock(n, Shifted(track[n - 1], begin, offset))]
  }

  /** The block at position `i` is the one for cue `i`, numbered `i + 1`. */
  lemma {:induction false} WrittenBlocksAt(track: Track, begin: int, offset: int, i: nat)
    requires WritableTrack(track, begin, offset) && i < |track|
    ensures WrittenBlocks(track, begin, offset)[i] == WrittenBlock(i + 1, Shifted(track[i], begin, offset))
    decreases |track|
  {
    var n := |track|;
    var init := track[..n - 1];
    assert WritableTrack(init, begin, offset) by {
      forall j | 0 <= j < |init| ensures Writable(Shifted(init[j], begin, offset)) {
        assert init[j] == track[j];
      }
    }
    var last := WrittenBlock(n, Shifted(track[n - 1], begin, offset));
    assert WrittenBlocks(track, begin, offset) == WrittenBlocks(init, begin, offset) + [last];
    if i < n - 1 {
      WrittenBlocksAt(init, begin, offset, i);
      assert init[i] == track[i];
    } else {
      SameBlock(n, i + 1, Shifted(track[n - 1], begin, offset));
    }
  }

  lemma SameBlock(k: nat, k': nat, c: Cue)
    requires k == k' && Writable(c)
    ensures WrittenBlock(k, c) == WrittenBlock(k', c)
  {
  }

  /** Each block followed by the blank line that ends it. */
  function Terminated(bs: seq<string>): (es: seq<string>)
    ensures |es| == |bs|
    ensures forall i :: 0 <= i < |es| ==> es[i] == bs[i] + "\n\n"
  {
    seq(|bs|, i requires 0 <= i < |bs| => bs[i] + "\n\n")
  }

  /** The pieces written one after the other. */
  function Concat(ss: seq<string>): string
  {
    if ss == [] then "" else ss[0] + Concat(ss[1..])
  }

  /** The whole file: the text written for the cues before the last one, then the last
      cue's block, numbered by its position, and a blank line. */
  function SrtDocument(track: Track, begin: int, offset: int): string
    requires WritableTrack(track, begin, offset)
  {
    if track == [] then ""
    else
      var n := |track|;
      SrtDocument(track[..n - 1], begin, offset) + Entry(n, Shifted(track[n - 1], begin, offset))
  }

  /** A block and the blank line that ends it. */
  function Entry(k: nat, c: Cue): string
    requires Writable(c)
  {
    WrittenBlock(k, c) + "\n\n"
  }

  /** The file is the blocks, each followed by its blank line, in track order. */
  lemma {:induction false} DocumentBlocks(track: Track, begin: int, offset: int)
    requires WritableTrack(track, begin, offset)
    ensures SrtDocument(track, begin, offset) == Concat(Terminated(WrittenBlocks(track, begin, offset)))
    decreases |track|
  {
    if track != [] {
      var n := |track|;
      var init := track[..n - 1];
      DocumentBlocks(init, begin, offset);
      var bs := WrittenBlocks(init, begin, offset);
      var b := WrittenBlock(n, Shifted(track[n - 1], begin, offset));
      assert Entry(n, Shifted(track[n - 1], begin, offset)) == b + "\n\n";
      TerminatedSnoc(bs, b);
      ConcatSnoc(Terminated(bs), b + "\n\n");
    }
  }

  lemma TerminatedSnoc(bs: seq<string>, b: string)
    ensures Terminated(bs + [b]) == Terminated(bs) + [b + "\n\n"]
  {
  }

  /** `writeSubtitle` with the file replaced by the string it receives: four writes per
      cue, in track order. */
  method WriteSubtitle(track: Track, begin: int, offset: int) returns (out: string)
    requires WritableTrack(track, begin, offset)
    ensures out == SrtDocument(track, begin, offset)
  {
    out := "";
    var i := 0;
    while i < |track|
      invariant 0 <= i <= |track|
      invariant WritableTrack(track[..i], begin, offset)
      invariant out == SrtDocument(track[..i], begin, offset)
    {
      var c := track[i];
      assert Writable(Shifted(c, begin, offset));
      var next := WriteCue(out, i + 1, c, begin, offset);
      DocumentStep(track, i, begin, offset, out, next);
      out := next;
      i := i + 1;
    }
    assert track[..i] == track;
  }

  /** The loop body: the index line, the timing line, the text and the blank line of
      cue number `k`, appended to `out`. */
  method WriteCue(out: string, k: nat, c: Cue, begin: int, offset: int) returns (out': string)
    requires Writable(Shifted(c, begin, offset))
    ensures out' == out + Entry(k, Shifted(c, begin, offset))
  {
    var off := if c.start >= begin then offset else 0;
    var start, stop := c.start + off, c.stop + off;
    var indexLine := NatToString(k) + "\n";
    var timingLine := FormatTimeAsWritten(start) + " --> " + FormatTimeAsWritten(stop) + "\n";
    var textLine := c.text + "\n";
    out' := out + indexLine;
    out' := out' + timingLine;
    out' := out' + textLine;
    out' := out' + "\n";
    Concat5(out, indexLine, timingLine, textLine, "\n");
    ghost var sc := Cue(start, stop, c.text);
    EntryLines(k, sc);
    assert Shifted(c, begin, offset) == sc;
  }

  /** One more cue appends its entry. */
  lemma DocumentStep(track: Track, i: nat, begin: int, offset: int, out: string, next: string)
    requires i < |track| && WritableTrack(track, begin, offset) && WritableTrack(track[..i], begin, offset)
    requires out == SrtDocument(track[..i], begin, offset)
    requires next == out + Entry(i + 1, Shifted(track[i], begin, offset))
    ensures WritableTrack(track[..i + 1], begin, offset)
    ensures next == SrtDocument(track[..i + 1], begin, offset)
  {
    DocumentSnoc(track, i, begin, offset);
  }

  lemma DocumentSnoc(track: Track, i: nat, begin: int, offset: int)
    requires i < |track| && WritableTrack(track, begin, offset)
    ensures WritableTrack(track[..i], begin, offset) && WritableTrack(track[..i + 1], begin, offset)
    ensures SrtDocument(track[..i + 1], begin, offset)
            == SrtDocument(track[..i], begin, offset) + Entry(i + 1, Shifted(track[i], begin, offset))
  {
    assert track[..i + 1][..i] == track[..i];
  }

  /** A written entry is the four lines the loop body writes. */
  lemma EntryLines(k: nat, c: Cue)
    requires Writable(c)
    ensures Entry(k, c)
            == (NatToString(k) + "\n") + (FormatTimeAsWritten(c.start) + " --> " + FormatTimeAsWritten(c.stop) + "\n")
               + (c.text + "\n") + "\n"
  {
    Concat6(NatToString(k), FormatTimeAsWritten(c.start), FormatTimeAsWritten(c.stop), c.text);
  }

  lemma Concat6(idx: string, a: string, b: string, text: string)
    ensures idx + "\n" + a + " --> " + b + "\n" + text + "\n\n"
            == (idx + "\n") + (a + " --> " + b + "\n") + (text + "\n") + "\n"
  {
  }

  lemma Concat5(a: string, b: string, c: string, d: string, e: string)
    ensures a + b + c + d + e == a + (b + c + d + e)
  {
  }

  /** Writing one more piece appends it. */
  lemma {:induction false} ConcatSnoc(ss: seq<string>, s: string)
    ensures Concat(ss + [s]) == Concat(ss) + s
    decreases |ss|
  {
    if ss == [] {
      assert [] + [s] == [s];
      assert Concat([s][1..]) == "";
    } else {
      assert (ss + [s])[1..] == ss[1..] + [s];
      ConcatSnoc(ss[1..], s);
    }
  }

  // ----- what is written splits back into one block per cue -----

  /** A text the reader gets back whole: not empty, no blank line inside it, and no
      newline at either end. */
  predicate PlainText(t: string)
  {
    |t| > 0 && t[0] != '\n' && t[|t| - 1] != '\n' && !Occurs(t, "\n\n")
  }

  /** Times the reader's two-digit hours field can hold and that `formatTime` writes
      correctly, and a plain text. */
  predicate Readable(c: Cue)
  {
    && 0 <= c.start < 360000000 && 0 <= c.stop < 360000000
    && ExactTime(c.start) && ExactTime(c.stop) && PlainText(c.text)
  }

  predicate ReadableTrack(track: Track, begin: int, offset: int)
  {
    forall i :: 0 <= i < |track| ==> Readable(Shifted(track[i], begin, offset))
  }

  /** A block the split keeps whole: not empty, no blank line in it, and no newline
      at its end. */
  predicate PlainBlock(b: string)
  {
    |b| > 0 && !Occurs(b, "\n\n") && b[|b| - 1] != '\n'
  }

  /** Splitting the terminated blocks at blank lines gives back the blocks, and the
      empty piece after the last separator. */
  lemma {:induction false} SplitTerminated(bs: seq<string>)
    requires forall i :: 0 <= i < |bs| ==> PlainBlock(bs[i])
    ensures Split(Concat(Terminated(bs)), "\n\n") == bs + [""]
    decreases |bs|
  {
    if bs == [] {
      assert Split("", "\n\n") == [""];
    } else {
      var tail := Concat(Terminated(bs[1..]));
      ConcatTerminatedCons(bs);
      SplitTerminated(bs[1..]);
      NoBreakBefore(bs[0], tail);
      SplitFirst(bs[0], "\n\n", tail);
      assert Split(bs[0] + "\n\n" + tail, "\n\n") == [bs[0]] + (bs[1..] + [""]);
      assert [bs[0]] + (bs[1..] + [""]) == bs + [""];
    }
  }

  /** The first block, its blank line, then the rest. */
  lemma ConcatTerminatedCons(bs: seq<string>)
    requires bs != []
    ensures Concat(Terminated(bs)) == bs[0] + "\n\n" + Concat(Terminated(bs[1..]))
  {
    assert Terminated(bs)[1..] == Terminated(bs[1..]);
  }

  /** Blocks that each decode to a cue read as those cues, in order. */
  lemma SrtCuesOfDecoded(bs: seq<string>, cs: Track)
    requires |bs| == |cs|
    requires forall i :: 0 <= i < |bs| ==> |bs[i]| > 0 && DecodeBlock(bs[i]) == Some(cs[i])
    ensures SrtCues(bs) == cs
  {
    forall i | 0 <= i < |bs| ensures BlockCue(bs[i]) == Some(cs[i]) {
    }
    CollectAllSome(bs, cs, BlockCue);
  }

  /** Whatever the writer produces for a readable track, splitting it at blank lines
      and decoding each block gives back exactly the shifted cues: none is lost, none
      is added and the order is kept. */
  lemma ReadWrittenDocument(track: Track, begin: int, offset: int)
    requires ReadableTrack(track, begin, offset)
    ensures WritableTrack(track, begin, offset)
    ensures SrtCues(Split(SrtDocument(track, begin, offset), "\n\n")) == ShiftTrack(track, begin, offset)
  {
    var bs := WrittenBlocks(track, begin, offset);
    var cs := ShiftTrack(track, begin, offset);
    forall i | 0 <= i < |bs| ensures PlainBlock(bs[i]) && DecodeBlock(bs[i]) == Some(cs[i]) {
      WrittenBlockReads(track, begin, offset, i);
    }
    DocumentBlocks(track, begin, offset);
    SplitTerminated(bs);
    SrtCuesAppend(bs, [""]);
    SrtCuesEmpty();
    SrtCuesOfDecoded(bs, cs);
  }

  /** Block `i` of a readable track is kept whole by the split and decodes to cue `i`
      with its shifted times. */
  lemma WrittenBlockReads(track: Track, begin: int, offset: int, i: nat)
    requires ReadableTrack(track, begin, offset) && i < |track|
    ensures WritableTrack(track, begin, offset)
    ensures var b := WrittenBlocks(track, begin, offset)[i];
      PlainBlock(b) && DecodeBlock(b) == Some(Shifted(track[i], begin, offset))
  {
    var c := Shifted(track[i], begin, offset);
    WrittenBlocksAt(track, begin, offset, i);
    WrittenBlockIntended(i + 1, c);
    WrittenBlockPlain(i + 1, c);
    DecodeWrittenBlock(i + 1, c.start, c.stop, c.text);
  }

  /** A written block holds no blank line and does not end in a newline. */
  lemma WrittenBlockPlain(k: nat, c: Cue)
    requires Readable(c)
    ensures !Occurs(WrittenBlock(k, c), "\n\n") && WrittenBlock(k, c)[|WrittenBlock(k, c)| - 1] != '\n'
  {
    WrittenBlockIntended(k, c);
    FormatTimePlain(c.start);
    FormatTimePlain(c.stop);
    DigitsPlain(NatToString(k));
    PiecesPlain(NatToString(k), FormatTime(c.start), FormatTime(c.stop), c.text);
  }

  lemma PiecesPlain(idx: string, a: string, b: string, text: string)
    requires |idx| > 0 && !Occurs(idx, "\n\n") && idx[|idx| - 1] != '\n'
    requires |a| > 0 && !Occurs(a, "\n\n") && a[0] != '\n' && a[|a| - 1] != '\n'
    requires |b| > 0 && !Occurs(b, "\n\n") && b[0] != '\n' && b[|b| - 1] != '\n'
    requires PlainText(text)
    ensures var s := idx + "\n" + a + " --> " + b + "\n" + text; !Occurs(s, "\n\n") && s[|s| - 1] != '\n'
  {
    var arrow := " --> ";
    assert !Occurs("\n", "\n\n");
    assert !Occurs(arrow, "\n\n") by {
      forall q | 0 <= q <= |arrow| ensures !LiteralAt(arrow, q, "\n\n") {
        if q + 2 <= |arrow| { assert arrow[q..q + 2][0] == arrow[q] != '\n'; }
      }
    }
    var p1 := idx + "\n";
    NoBreakJoin(idx, "\n");
    var p2 := p1 + a;
    NoBreakJoin(p1, a);
    var p3 := p2 + arrow;
    NoBreakJoin(p2, arrow);
    var p4 := p3 + b;
    NoBreakJoin(p3, b);
    var p5 := p4 + "\n";
    NoBreakJoin(p4, "\n");
    NoBreakJoin(p5, text);
  }

  /** A time code holds no newline and starts and ends with a digit. */
  lemma FormatTimePlain(t: nat)
    ensures var r := FormatTime(t); |r| > 0 && !Occurs(r, "\n\n") && r[0] != '\n' && r[|r| - 1] != '\n'
  {
    FormatTimeLayout(t);
    LayoutPlain(FormatTime(t), t / 3600000, t / 60000 % 60, t / 1000 % 60, t % 1000);
  }

  lemma LayoutPlain(r: string, h: nat, m: nat, s: nat, ms: nat)
    requires TimeLayout(r, h, m, s, ms)
    ensures |r| > 0 && !Occurs(r, "\n\n") && r[0] != '\n' && r[|r| - 1] != '\n'
  {
    var n := |r|;
    assert r[..n - 10][0] == r[0];
    assert r[n - 3..][2] == r[n - 1];
    forall q | 0 <= q < n ensures r[q] != '\n' {
      if q < n - 10 {
        assert r[..n - 10][q] == r[q];
      } else if n - 10 < q < n - 7 {
        assert r[n - 9..n - 7][q - (n - 9)] == r[q];
      } else if n - 7 < q < n - 4 {
        assert r[n - 6..n - 4][q - (n - 6)] == r[q];
      } else if n - 4 < q {
        assert r[n - 3..][q - (n - 3)] == r[q];
      }
    }
    forall q | 0 <= q <= n ensures !LiteralAt(r, q, "\n\n") {
      if q + 2 <= n { assert r[q..q + 2][0] == r[q]; }
    }
  }

  lemma DigitsPlain(d: string)
    requires |d| > 0 && AllDigits(d)
    ensures !Occurs(d, "\n\n") && d[|d| - 1] != '\n'
  {
    forall q | 0 <= q <= |d| ensures !LiteralAt(d, q, "\n\n") {
      if q + 2 <= |d| { assert d[q..q + 2][0] == d[q]; }
    }
  }

  /** Joining two pieces creates a blank line only where a newline meets a newline. */
  lemma NoBreakJoin(x: string, y: string)
    requires !Occurs(x, "\n\n") && !Occurs(y, "\n\n")
    requires x == [] || y == [] || x[|x| - 1] != '\n' || y[0] != '\n'
    ensures !Occurs(x + y, "\n\n")
    ensures |y| > 0 ==> (x + y)[|x + y| - 1] == y[|y| - 1]
  {
    var s := x + y;
    forall q | 0 <= q <= |s| ensures !LiteralAt(s, q, "\n\n") {
      if q + 2 <= |x| {
        assert s[q..q + 2] == x[q..q + 2];
        assert !LiteralAt(x, q, "\n\n");
      } else if q >= |x| && q + 2 <= |s| {
        assert s[q..q + 2] == y[q - |x|..q - |x| + 2];
        assert !LiteralAt(y, q - |x|, "\n\n");
      } else if q + 2 <= |s| {
        assert s[q..q + 2] == [x[|x| - 1], y[0]];
      }
    }
  }

  /** The first blank line after a block that holds none and does not end in a newline
      is the separator that follows it. */
  lemma NoBreakBefore(b: string, rest: string)
    requires |b| > 0 && !Occurs(b, "\n\n") && b[|b| - 1] != '\n'
    ensures forall q :: 0 <= q < |b| ==> !LiteralAt(b + "\n\n" + rest, q, "\n\n")
  {
    var s := b + "\n\n" + rest;
    forall q | 0 <= q < |b| ensures !LiteralAt(s, q, "\n\n") {
      if q + 2 <= |b| {
        assert s[q..q + 2] == b[q..q + 2];
        assert !LiteralAt(b, q, "\n\n");
      } else {
        assert s[q..q + 2][0] == b[q];
      }
    }
  }
}
