/** The SRT branch of `readSubtitle`: the normalised text is split at `"\n\n"` and each
    non-empty block is matched against the cue pattern, in multiline mode. */
module SrtReader {
  import opened JsText
  import opened Cues
  import opened TimeCode
  import opened SrtNormalize
  import opened Sorting

  /** `HH:MM:SS,mmm` (two-digit hours) read as milliseconds. */
  function StampValue(u: string): (r: Option<nat>)
    ensures r.Some? ==> |u| == 12
  {
    if |u| == 12 && IsDigit(u[0]) && IsDigit(u[1]) && u[2] == ':' && IsDigit(u[3]) && IsDigit(u[4])
       && u[5] == ':' && IsDigit(u[6]) && IsDigit(u[7]) && u[8] == ','
       && IsDigit(u[9]) && IsDigit(u[10]) && IsDigit(u[11]) then
      Some(1000 * (60 * (60 * TwoDigits(u, 0) + TwoDigits(u, 3)) + TwoDigits(u, 6))
           + 100 * DigitValue(u[9]) + TwoDigits(u, 10))
    else None
  }

  /** The first line terminator at or after `from`. */
  function FirstTerminator(s: string, from: nat): (r: Option<nat>)
    requires from <= |s|
    ensures r.Some? ==> from <= r.value < |s| && IsLineTerminator(s[r.value])
    ensures r.Some? ==> forall k :: from <= k < r.value ==> !IsLineTerminator(s[k])
    ensures r.None? ==> forall k :: from <= k < |s| ==> !IsLineTerminator(s[k])
    decreases |s| - from
  {
    if from == |s| then None
    else if IsLineTerminator(s[from]) then Some(from)
    else FirstTerminator(s, from + 1)
  }

  /** Where `^` matches in multiline mode. */
  predicate LineStart(s: string, p: nat)
  {
    p == 0 || (0 < p <= |s| && IsLineTerminator(s[p - 1]))
  }

  /** The cue pattern tried at `p`: an index line, the timing line
      `HH:MM:SS,mmm --> HH:MM:SS,mmm` whose rest (`(.*?)`) may not hold another line
      terminator before its newline, and then everything to the end as the text. */
  function MatchAt(s: string, p: nat): (r: Option<Cue>)
    requires p <= |s|
  {
    var d := DigitRun(s, p);
    var q := p + d + 1;
    if d >= 1 && q + 29 <= |s| && s[p + d] == '\n' && s[q + 12..q + 17] == " --> " then
      match (StampValue(s[q..q + 12]), StampValue(s[q + 17..q + 29]))
      case (Some(start), Some(stop)) =>
        (match FirstTerminator(s, q + 29)
         case Some(e) => if s[e] == '\n' then Some(Cue(start, stop, s[e + 1..])) else None
         case None => None)
      case _ => None
    else None
  }

  /** The leftmost match at a line start at or after `p`. */
  function DecodeFrom(s: string, p: nat): (r: Option<Cue>)
    requires p <= |s|
    decreases |s| - p
  {
    if LineStart(s, p) && MatchAt(s, p).Some? then MatchAt(s, p)
    else if p == |s| then None
    else DecodeFrom(s, p + 1)
  }

  /** The search finds the leftmost line start `k` where the pattern matches. */
  lemma {:induction false} DecodeFromSpec(s: string, p: nat) returns (k: nat)
    requires p <= |s|
    ensures DecodeFrom(s, p).Some? ==> p <= k <= |s| && LineStart(s, k) && MatchAt(s, k) == DecodeFrom(s, p)
    ensures DecodeFrom(s, p).Some? ==> forall j :: p <= j < k && LineStart(s, j) ==> MatchAt(s, j).None?
    decreases |s| - p
  {
    k := p;
    if !(LineStart(s, p) && MatchAt(s, p).Some?) && p < |s| {
      k := DecodeFromSpec(s, p + 1);
    }
  }

  /** The search fails only if the pattern matches at no line start. */
  lemma {:induction false} DecodeFromMiss(s: string, p: nat)
    requires p <= |s|
    ensures DecodeFrom(s, p).None? ==> forall k :: p <= k <= |s| && LineStart(s, k) ==> MatchAt(s, k).None?
    decreases |s| - p
  {
    if !(LineStart(s, p) && MatchAt(s, p).Some?) && p < |s| {
      DecodeFromMiss(s, p + 1);
    }
  }

  /** `ln.match(/^(\d+)\n(\d\d):(\d\d):(\d\d),(\d\d\d) --> ...(.*?)\n([^]*)$/m)` turned
      into a cue. */
  function DecodeBlock(block: string): Option<Cue>
  {
    DecodeFrom(block, 0)
  }

  /** The cues of the blocks, in block order; empty and non-matching blocks add none. */
  function SrtCues(blocks: seq<string>): Track
  {
    Collect(blocks, BlockCue)
  }

  /** The cue of one block: none for an empty block or one the pattern does not match. */
  function BlockCue(block: string): Option<Cue>
  {
    if |block| > 0 then DecodeBlock(block) else None
  }

  /** The blocks of an SRT text. */
  function Blocks(text: string): seq<string>
  {
    Split(Normalize(text), "\n\n")
  }

  /** The SRT branch of `readSubtitle`: one cue per block that matches. */
  method ReadSrt(text: string) returns (track: Track)
    ensures track == SrtCues(Blocks(text))
  {
    var blocks := Blocks(text);
    track := [];
    var i := 0;
    while i < |blocks|
      invariant 0 <= i <= |blocks|
      invariant track == SrtCues(blocks[..i])
    {
      var ln := blocks[i];
      if |ln| > 0 {
        var m := DecodeBlock(ln);
        if m.Some? {
          track := track + [m.value];
        }
      }
      CollectSnoc(blocks[..i], ln, BlockCue);
      assert blocks[..i + 1] == blocks[..i] + [ln];
      i := i + 1;
    }
    assert blocks[..i] == blocks;
  }

  // ----- blocks are decoded independently -----

  /** Reading is a homomorphism over concatenated block lists. */
  lemma SrtCuesAppend(a: seq<string>, b: seq<string>)
    ensures SrtCues(a + b) == SrtCues(a) + SrtCues(b)
  {
    CollectAppend(a, b, BlockCue);
  }

  /** A block that does not match is skipped without affecting the other cues. */
  lemma SrtCuesSkip(a: seq<string>, b: string, c: seq<string>)
    requires DecodeBlock(b).None?
    ensures SrtCues(a + [b] + c) == SrtCues(a) + SrtCues(c)
  {
    SrtCuesAppend(a + [b], c);
    CollectSnoc(a, b, BlockCue);
  }

  /** An empty block, such as the piece after the last separator, gives no cue. */
  lemma SrtCuesEmpty()
    ensures SrtCues([""]) == []
  {
    CollectSnoc([], "", BlockCue);
    assert [] + [""] == [""];
  }

  /** Every cue read comes from one block, and the blocks' cues keep the block order. */
  lemma SrtCuesFromBlocks(blocks: seq<string>, i: nat)
    requires i < |SrtCues(blocks)|
    ensures exists j :: 0 <= j < |blocks| && |blocks[j]| > 0 && DecodeBlock(blocks[j]) == Some(SrtCues(blocks)[i])
  {
    var c := SrtCues(blocks)[i];
    CollectMembers(blocks, BlockCue, c);
    var j :| 0 <= j < |blocks| && BlockCue(blocks[j]) == Some(c);
  }

  // ----- a block as the writer lays it out reads back -----

  lemma StampValueOfLayout(u: string, h: nat, m: nat, s: nat, ms: nat, v: nat)
    requires |u| == 12 && TimeLayout(u, h, m, s, ms)
    requires v == 1000 * (60 * (60 * h + m) + s) + ms
    ensures StampValue(u) == Some(v)
  {
    TwoDigitsValue(u[..2]);
    TwoDigitsValue(u[3..5]);
    TwoDigitsValue(u[6..8]);
    ThreeDigitsValue(u[9..]);
    assert IsDigit(u[..2][0]) && IsDigit(u[..2][1]) && IsDigit(u[3..5][0]) && IsDigit(u[3..5][1]);
    assert IsDigit(u[6..8][0]) && IsDigit(u[6..8][1]);
    assert IsDigit(u[9..][0]) && IsDigit(u[9..][1]) && IsDigit(u[9..][2]);
  }

  /** A time code below 100 hours reads back as the milliseconds it was written from. */
  lemma StampValueOfFormatTime(t: nat)
    requires t < 360000000
    ensures StampValue(FormatTime(t)) == Some(t)
  {
    var a, b, c, d := FormatTimeFields(t);
    StampValueOfLayout(FormatTime(t), a, b, c, d, t);
  }

  /** The block the writer emits for a cue (without its blank separator line) reads
      back as that cue, whatever its text. */
  lemma DecodeWrittenBlock(n: nat, start: nat, stop: nat, text: string)
    requires start < 360000000 && stop < 360000000
    ensures DecodeBlock(NatToString(n) + "\n" + FormatTime(start) + " --> " + FormatTime(stop) + "\n" + text)
            == Some(Cue(start, stop, text))
  {
    var idx, a, b := NatToString(n), FormatTime(start), FormatTime(stop);
    FormatTimeLayout(start);
    FormatTimeLayout(stop);
    StampValueOfFormatTime(start);
    StampValueOfFormatTime(stop);
    WrittenBlockSlices(idx, a, b, text);
    MatchWrittenBlock(idx + "\n" + a + " --> " + b + "\n" + text, |idx|, a, b, text, start, stop);
  }

  /** The pattern, tried at the start of a block laid out as the writer lays it out. */
  lemma MatchWrittenBlock(s: string, L: nat, a: string, b: string, text: string, start: nat, stop: nat)
    requires |s| == L + 31 + |text| && L >= 1 && s[L] == '\n'
    requires forall j :: 0 <= j < L ==> IsDigit(s[j])
    requires s[L + 1..L + 13] == a && s[L + 13..L + 18] == " --> " && s[L + 18..L + 30] == b
    requires s[L + 30] == '\n' && s[L + 31..] == text
    requires StampValue(a) == Some(start) && StampValue(b) == Some(stop)
    ensures DecodeBlock(s) == Some(Cue(start, stop, text))
  {
    DigitRunEndsAt(s, 0, L);
    assert FirstTerminator(s, L + 30) == Some(L + 30);
    assert MatchAt(s, 0) == Some(Cue(start, stop, text));
  }

  lemma WrittenBlockSlices(idx: string, a: string, b: string, text: string)
    requires |a| == 12 && |b| == 12 && AllDigits(idx)
    ensures var s := idx + "\n" + a + " --> " + b + "\n" + text; var q := |idx| + 1;
      && |s| == q + 30 + |text| && s[|idx|] == '\n'
      && (forall j :: 0 <= j < |idx| ==> IsDigit(s[j]))
      && s[q..q + 12] == a && s[q + 12..q + 17] == " --> " && s[q + 17..q + 29] == b
      && s[q + 29] == '\n' && s[q + 30..] == text
  {
  }
}
