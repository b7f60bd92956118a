/** `readSubtitle` as a whole: the decoded text is sent to the SAMI, SRT or ASS reader
    by the format tests, and gives a list of tracks. Also the rule that names the
    files written for a subtitle file. */
module Subtitle {
  import opened JsText
  import opened Cues
  import opened Detect
  import opened SrtReader
  import opened AssReader
  import opened SamiReader

  /** The records the HTML parser gives for the SYNC blocks, each block parsed after
      its `&nbsp` repair. */
  function SyncRecords(blocks: seq<string>, parse: string -> SyncRecord): (records: seq<SyncRecord>)
    ensures |records| == |blocks|
    ensures forall i :: 0 <= i < |blocks| ==> records[i] == parse(RepairNbsp(blocks[i]))
  {
    if blocks == [] then []
    else SyncRecords(blocks[..|blocks| - 1], parse) + [parse(RepairNbsp(blocks[|blocks| - 1]))]
  }

  /** The records of the SYNC blocks of a SAMI text. */
  function SamiRecords(text: string, parse: string -> SyncRecord): seq<SyncRecord>
  {
    SyncRecords(SplitSyncs(text), parse)
  }

  /** The tracks of a decoded subtitle text. `parse` stands for the HTML parser, which
      is not part of this model. */
  function Subtitles(text: string, parse: string -> SyncRecord): Result<seq<Track>>
  {
    match Detect.Detect(text)
    case Sami => SamiTracks(SamiRecords(text, parse))
    case Srt => Ok([SrtCues(Blocks(text))])
    case Ass =>
      (match AssTrack(text)
       case Ok(track) => Ok([track])
       case Fail(f) => Fail(f))
    case Unknown => Ok([])
  }

  method ReadSubtitle(text: string, parse: string -> SyncRecord) returns (subs: Result<seq<Track>>)
    ensures subs == Subtitles(text, parse)
  {
    if SamiTest(text) {
      var syncs := SplitSyncs(text);
      if |syncs| == 0 {
        // "no sync found"
        return Ok([]);
      }
      var records: seq<SyncRecord> := [];
      var i := 0;
      while i < |syncs|
        invariant 0 <= i <= |syncs|
        invariant records == SyncRecords(syncs[..i], parse)
      {
        records := records + [parse(RepairNbsp(syncs[i]))];
        assert syncs[..i + 1][..i] == syncs[..i];
        i := i + 1;
      }
      assert syncs[..i] == syncs;
      subs := ReadSami(records);
    } else if SrtTest(text) {
      var track := ReadSrt(text);
      subs := Ok([track]);
    } else if AssTest(text) {
      var track := ReadAss(text);
      match track
      case Ok(t) => subs := Ok([t]);
      case Fail(f) => subs := Fail(f);
    } else {
      // "unknown file format"
      subs := Ok([]);
    }
  }

  /** The branch taken follows the ordered format tests: a SAMI header decides first,
      then an SRT index line, then an ASS header; the SRT and ASS readers give one
      track, and a text with none of the headers gives no track. Reading fails only
      for an inherited SAMI class label or a missing ASS `[Events]` section. */
  lemma SubtitlesDispatch(text: string, parse: string -> SyncRecord)
    ensures SamiHeader(text) ==> Subtitles(text, parse) == SamiTracks(SamiRecords(text, parse))
    ensures !SamiHeader(text) && SrtHeader(text) ==> Subtitles(text, parse) == Ok([SrtCues(Blocks(text))])
    ensures !SamiHeader(text) && !SrtHeader(text) && AssHeader(text) ==>
      (Subtitles(text, parse).Ok? ==> |Subtitles(text, parse).value| == 1)
      && (Subtitles(text, parse).Fail? <==> AssTrack(text) == Fail(MissingEvents))
    ensures !SamiHeader(text) && !SrtHeader(text) && !AssHeader(text) ==> Subtitles(text, parse) == Ok([])
    ensures Subtitles(text, parse).Fail? ==>
      Subtitles(text, parse).failure == MissingEvents || Subtitles(text, parse).failure.InheritedLabel?
  {
    DetectSpec(text);
    if Detect.Detect(text) == Sami {
      var g := Grouping(SamiRecords(text, parse));
      if g.Fail? {
        GroupingFailure(SamiRecords(text, parse));
      }
    }
  }

  /** A SAMI text whose class labels are all own properties gives one track per
      label, each the track of that label's blocks. */
  lemma SamiSubtitles(text: string, parse: string -> SyncRecord)
    requires SamiHeader(text) && Grouping(SamiRecords(text, parse)).Ok?
    ensures Subtitles(text, parse).Ok?
    ensures var records := SamiRecords(text, parse);
      var keys := ForInOrder(Grouping(records).value.order);
      var ts := Subtitles(text, parse).value;
      |ts| == |keys| && forall i :: 0 <= i < |ts| ==> ts[i] == LabelTrack(OfLabel(records, keys[i]))
  {
    var records := SamiRecords(text, parse);
    DetectSpec(text);
    assert Subtitles(text, parse) == SamiTracks(records);
    SamiTracksSpec(records);
  }

  // ----- naming the output files -----

  const Languages: seq<string> := ["en", "eng", "ko", "kor", "ja", "jap", "zh-cn", "chs", "zh-tw", "cht"]
  const Extensions: seq<string> := ["smi", "smil", "srt", "ass"]

  /** `s` is one of `words` under the `i` flag. */
  predicate OneOf(s: string, words: seq<string>)
  {
    exists k :: 0 <= k < |words| && |s| == |words[k]| && FoldedAt(s, 0, words[k])
  }

  /** What `(?:\.(en|...|cht))?(?:\.(smi|smil|srt|ass))$` matches: the rest of the name
      after the base. */
  predicate NameSuffix(rest: string)
  {
    (|rest| > 0 && rest[0] == '.' && OneOf(rest[1..], Extensions))
    || exists k :: 0 <= k < |Languages| && HintThenExtension(rest, Languages[k])
  }

  predicate HintThenExtension(rest: string, lang: string)
  {
    |rest| > |lang| + 1 && rest[0] == '.' && FoldedAt(rest, 1, lang) && rest[|lang| + 1] == '.'
    && OneOf(rest[|lang| + 2..], Extensions)
  }

  /** The lazy `^(.*?)`: the shortest base after which the rest matches. */
  function BaseFrom(file: string, b: nat): (r: Option<nat>)
    requires b <= |file|
    ensures r.Some? ==> b <= r.value <= |file| && NameSuffix(file[r.value..])
    ensures r.Some? ==> forall k :: b <= k < r.value ==> !NameSuffix(file[k..])
    decreases |file| - b
  {
    if NameSuffix(file[b..]) then Some(b)
    else if b == |file| || IsLineTerminator(file[b]) then None
    else BaseFrom(file, b + 1)
  }

  /** `fileMatch[1]`: the name without its language hint and extension; `None` for a
      file the converter skips. */
  function BaseName(file: string): Option<string>
  {
    match BaseFrom(file, 0)
    case Some(b) => Some(file[..b])
    case None => None
  }

  /** The name of the SRT file written for a track in language `lang`. */
  function OutputName(base: string, lang: string): string
  {
    base + "." + lang + ".srt"
  }

  predicate NoDot(s: string)
  {
    forall k :: 0 <= k < |s| ==> s[k] != '.'
  }

  /** A base name without dots keeps to the base, whether a language hint follows it
      or not. */
  lemma BaseNameOf(base: string, k: nat, e: nat)
    requires NoDot(base) && NoLineTerminator(base) && k < |Languages| && e < |Extensions|
    ensures BaseName(base + "." + Extensions[e]) == Some(base)
    ensures BaseName(base + "." + Languages[k] + "." + Extensions[e]) == Some(base)
  {
    var ext := Extensions[e];
    var lang := Languages[k];
    var f1 := base + "." + ext;
    var f2 := base + "." + lang + "." + ext;
    assert OneOf(ext, Extensions) by {
      assert |ext| == |Extensions[e]| && FoldedAt(ext, 0, Extensions[e]) by {
        LowerFolded(ext);
      }
    }
    assert f1[|base|..] == "." + ext;
    assert ("." + ext)[1..] == ext;
    BaseFromSkips(f1, base, 0);
    var rest := "." + lang + "." + ext;
    assert f2[|base|..] == rest;
    assert HintThenExtension(rest, lang) by {
      assert rest[1..|lang| + 1] == lang;
      LowerFolded(lang);
      assert forall j :: 0 <= j < |lang| ==> FoldCase(rest[1 + j]) == lang[j] by {
        forall j | 0 <= j < |lang| ensures FoldCase(rest[1 + j]) == lang[j] {
          assert rest[1 + j] == lang[j];
        }
      }
      assert rest[|lang| + 2..] == ext;
    }
    BaseFromSkips(f2, base, 0);
  }

  /** The words of the lists are written in lower case, so each matches itself. */
  lemma LowerFolded(w: string)
    requires w in Languages || w in Extensions
    ensures FoldedAt(w, 0, w)
  {
  }

  lemma {:induction false} BaseFromSkips(file: string, base: string, b: nat)
    requires b <= |base| <= |file| && file[..|base|] == base && NoDot(base) && NoLineTerminator(base)
    requires NameSuffix(file[|base|..])
    ensures BaseFrom(file, b) == Some(|base|)
    decreases |base| - b
  {
    if b < |base| {
      assert file[b] == base[b];
      assert file[b..][0] == file[b];
      BaseFromSkips(file, base, b + 1);
    }
  }

  /** A name whose extension is not one of the subtitle extensions is skipped. */
  lemma OtherExtensionSkipped()
    ensures BaseName("a.txt") == None
  {
    var f := "a.txt";
    assert !OneOf("txt", Extensions) by {
      forall j | 0 <= j < |Extensions| ensures !FoldedAt("txt", 0, Extensions[j]) {
        FoldedChar("txt", 0, Extensions[j], 0);
        assert Extensions[j][0] == 's' || Extensions[j][0] == 'a';
      }
    }
    assert f[1..][1..] == "txt";
    assert BaseFrom(f, 5) == None by { assert f[5..] == []; }
    assert BaseFrom(f, 4) == None by { assert f[4..][0] == 't'; }
    assert BaseFrom(f, 3) == None by { assert f[3..][0] == 'x'; }
    assert BaseFrom(f, 2) == None by { assert f[2..][0] == 't'; }
    assert BaseFrom(f, 1) == None;
    assert BaseFrom(f, 0) == None by { assert f[0..][0] == 'a'; }
  }
}
