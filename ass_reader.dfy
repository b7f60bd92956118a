/** The ASS branch of `readSubtitle`: the text is cut at blank lines into sections
    `[Header]\n...`, the `Events` section is read line by line after its first
    (`Format:`) line, and each line of the event shape becomes a cue whose text has
    its breaks and override blocks rewritten. */
module AssReader {
  import opened JsText
  import opened Cues
  import opened TimeCode
  import opened AssOverride
  import opened Sorting

  // ----- sections -----

  /** Where `(.*?)\]\n` ends when the header starts at `q`: the first `]` followed by a
      newline, unless a line terminator comes first. */
  function HeaderEnd(s: string, q: nat): (r: Option<nat>)
    requires q <= |s|
    ensures r.Some? ==> q <= r.value && r.value + 1 < |s| && s[r.value] == ']' && s[r.value + 1] == '\n'
    ensures r.Some? ==> forall k :: q <= k < r.value ==> !IsLineTerminator(s[k])
    decreases |s| - q
  {
    if q == |s| then None
    else if s[q] == ']' && q + 1 < |s| && s[q + 1] == '\n' then Some(q)
    else if IsLineTerminator(s[q]) then None
    else HeaderEnd(s, q + 1)
  }

  /** `sect.replace(/^\[(.*?)\]\n([^]*)$/, ...)`: the header and the content of a
      chunk, if it starts with a header line. */
  function SectionOf(chunk: string): (r: Option<(string, string)>)
    ensures r.Some? ==> chunk == "[" + r.value.0 + "]\n" + r.value.1 && NoLineTerminator(r.value.0)
  {
    if |chunk| > 0 && chunk[0] == '[' then
      match HeaderEnd(chunk, 1)
      case Some(q) =>
        assert chunk == "[" + chunk[1..q] + "]\n" + chunk[q + 2..];
        Some((chunk[1..q], chunk[q + 2..]))
      case None => None
    else None
  }

  /** Any header line without line terminators in the header is recognised. */
  lemma SectionOfHeader(h: string, c: string)
    requires NoLineTerminator(h)
    ensures SectionOf("[" + h + "]\n" + c) == Some((h, c))
  {
    var s := "[" + h + "]\n" + c;
    HeaderEndAt(s, 1, |h| + 1);
    assert s[1..|h| + 1] == h;
    assert s[|h| + 3..] == c;
  }

  lemma {:induction false} HeaderEndAt(s: string, q: nat, e: nat)
    requires q <= e && e + 1 < |s| && s[e] == ']' && s[e + 1] == '\n'
    requires forall k :: q <= k < e ==> !IsLineTerminator(s[k])
    ensures HeaderEnd(s, q) == Some(e)
    decreases e - q
  {
    if q < e {
      assert s[q + 1] != '\n' by {
        if q + 1 < e {
          assert !IsLineTerminator(s[q + 1]);
        }
      }
      HeaderEndAt(s, q + 1, e);
    }
  }

  /** The `sections` dictionary after the chunks: each header maps to the content of
      its chunk, a later chunk overwriting an earlier one with the same header. */
  function Sections(chunks: seq<string>): map<string, string>
  {
    if chunks == [] then map[]
    else
      var before := Sections(chunks[..|chunks| - 1]);
      match SectionOf(chunks[|chunks| - 1])
      case Some((h, c)) => before[h := c]
      case None => before
  }

  method BuildSections(chunks: seq<string>) returns (sections: map<string, string>)
    ensures sections == Sections(chunks)
  {
    sections := map[];
    var i := 0;
    while i < |chunks|
      invariant 0 <= i <= |chunks|
      invariant sections == Sections(chunks[..i])
    {
      var m := SectionOf(chunks[i]);
      if m.Some? {
        sections := sections[m.value.0 := m.value.1];
      }
      assert chunks[..i + 1][..i] == chunks[..i];
      i := i + 1;
    }
    assert chunks[..i] == chunks;
  }

  predicate HasHeader(chunk: string, h: string)
  {
    SectionOf(chunk).Some? && SectionOf(chunk).value.0 == h
  }

  /** The last chunk with a header decides what the header maps to. */
  lemma {:induction false} SectionsLast(chunks: seq<string>, j: nat, h: string, c: string)
    requires j < |chunks| && SectionOf(chunks[j]) == Some((h, c))
    requires forall k :: j < k < |chunks| ==> !HasHeader(chunks[k], h)
    ensures h in Sections(chunks) && Sections(chunks)[h] == c
    decreases |chunks|
  {
    var n := |chunks| - 1;
    if j < n {
      var init := chunks[..n];
      assert init[j] == chunks[j];
      SectionsLast(init, j, h, c);
    }
  }

  /** A header is in the dictionary only if some chunk has it. */
  lemma {:induction false} SectionsFrom(chunks: seq<string>, h: string)
    requires h in Sections(chunks)
    ensures exists j :: 0 <= j < |chunks| && HasHeader(chunks[j], h)
    decreases |chunks|
  {
    var n := |chunks| - 1;
    var init := chunks[..n];
    if !HasHeader(chunks[n], h) {
      SectionsFrom(init, h);
      var j :| 0 <= j < |init| && HasHeader(init[j], h);
      assert chunks[j] == init[j];
    }
  }

  // ----- one event line -----

  /** `(\d):(\d\d):(\d\d)\.(\d\d)` at the start of `u`, in milliseconds: the
      centiseconds count ten each. */
  function CentiTime(u: string): (r: Option<nat>)
  {
    if |u| >= 10 && IsDigit(u[0]) && u[1] == ':' && IsDigit(u[2]) && IsDigit(u[3]) && u[4] == ':'
       && IsDigit(u[5]) && IsDigit(u[6]) && u[7] == '.' && IsDigit(u[8]) && IsDigit(u[9]) then
      Some(1000 * (60 * (60 * DigitValue(u[0]) + TwoDigits(u, 2)) + TwoDigits(u, 5)) + TwoDigits(u, 8) * 10)
    else None
  }

  /** The time stamp `H:MM:SS.CC` read field by field: hours, minutes and seconds
      weighted into milliseconds, and the centiseconds counting ten each. */
  lemma CentiTimeValue(u: string)
    requires |u| >= 10 && u[1] == ':' && u[4] == ':' && u[7] == '.'
    requires IsDigit(u[0]) && AllDigits(u[2..4]) && AllDigits(u[5..7]) && AllDigits(u[8..10])
    ensures CentiTime(u) == Some(1000 * (60 * (60 * DigitValue(u[0]) + DigitsValue(u[2..4])) + DigitsValue(u[5..7]))
                                 + DigitsValue(u[8..10]) * 10)
  {
    TwoDigitsValue(u[2..4]);
    TwoDigitsValue(u[5..7]);
    TwoDigitsValue(u[8..10]);
    assert IsDigit(u[2..4][0]) && IsDigit(u[2..4][1]) && IsDigit(u[5..7][0]) && IsDigit(u[5..7][1]);
    assert IsDigit(u[8..10][0]) && IsDigit(u[8..10][1]);
  }

  /** `(\d+),(\d+),(\d+),(.*?),(.*)$` at the start of `u`: three digit runs, the effect
      up to the next comma, and the rest as the text. */
  function MarginsRest(u: string): (r: Option<string>)
  {
    var a := DigitRun(u, 0);
    if a == 0 || a == |u| || u[a] != ',' then None
    else
      var u2 := u[a + 1..];
      var b := DigitRun(u2, 0);
      if b == 0 || b == |u2| || u2[b] != ',' then None
      else
        var u3 := u2[b + 1..];
        var c := DigitRun(u3, 0);
        if c == 0 || c == |u3| || u3[c] != ',' then None
        else
          var u4 := u3[c + 1..];
          match IndexOf(u4, ",", 0)
          case None => None
          case Some(e) => Some(u4[e + 1..])
  }

  /** The name `(.*?),` tried at lengths 0, 1, 2, ... until the rest matches. */
  function NameSearch(u: string): (r: Option<string>)
  {
    if u == [] then None
    else if u[0] == ',' && MarginsRest(u[1..]).Some? then MarginsRest(u[1..])
    else NameSearch(u[1..])
  }

  /** The style `(.*?),` tried at lengths 0, 1, 2, ... until the rest matches. */
  function StyleSearch(u: string): (r: Option<string>)
  {
    if u == [] then None
    else if u[0] == ',' && NameSearch(u[1..]).Some? then NameSearch(u[1..])
    else StyleSearch(u[1..])
  }

  /** Everything after `: `: the layer, the two time stamps, and the rest of the
      record. */
  function AfterKind(u: string): (r: Option<(nat, nat, string)>)
  {
    var d := DigitRun(u, 0);
    if d >= 1 && d < |u| && u[d] == ',' then AfterLayer(u[d + 1..]) else None
  }

  /** The two time stamps, each followed by a comma, and the rest of the record. */
  function AfterLayer(v: string): (r: Option<(nat, nat, string)>)
  {
    if |v| >= 22 && v[10] == ',' && v[21] == ',' then
      match (CentiTime(v), CentiTime(v[11..]))
      case (Some(start), Some(stop)) =>
        (match StyleSearch(v[22..])
         case Some(text) => Some((start, stop, text))
         case None => None)
      case _ => None
    else None
  }

  /** The kind `(.*?): ` tried at lengths 0, 1, 2, ... until the rest matches. */
  function KindSearch(u: string): (r: Option<(nat, nat, string)>)
  {
    if |u| < 2 then None
    else if u[0] == ':' && u[1] == ' ' && AfterKind(u[2..]).Some? then AfterKind(u[2..])
    else KindSearch(u[1..])
  }

  /** The event pattern matched against a whole line: start, stop and raw text. Every
      part of the pattern except the literals is `.`, `\d` or a literal character, so a
      line holding a line terminator never matches. */
  function EventFields(line: string): Option<(nat, nat, string)>
  {
    if NoLineTerminator(line) then KindSearch(line) else None
  }

  /** The cue of an event line, with its text rewritten. */
  function EventCue(line: string): Option<Cue>
  {
    match EventFields(line)
    case Some((start, stop, raw)) => Some(Cue(start, stop, EventText(raw)))
    case None => None
  }

  // ----- a well-formed event line reads back -----

  predicate NoChar(s: string, c: char)
  {
    forall k :: 0 <= k < |s| ==> s[k] != c
  }

  /** An event line as written in the `Events` section. */
  function EventLine(kind: string, layer: string, start: string, end: string, style: string,
                     name: string, marginL: string, marginR: string, marginV: string,
                     effect: string, text: string): string
  {
    kind + ": " + Timed(layer, start, end, style + "," + (name + "," + Margins(marginL, marginR, marginV, effect, text)))
  }

  function Timed(layer: string, start: string, end: string, rest: string): string
  {
    layer + "," + start + "," + end + "," + rest
  }

  function Margins(marginL: string, marginR: string, marginV: string, effect: string, text: string): string
  {
    marginL + "," + (marginR + "," + (marginV + "," + (effect + "," + text)))
  }

  /** A digit run, a comma and the rest. */
  lemma DigitsThenComma(d: string, rest: string)
    requires |d| > 0 && AllDigits(d)
    ensures DigitRun(d + "," + rest, 0) == |d|
    ensures (d + "," + rest)[|d|] == ',' && (d + "," + rest)[|d| + 1..] == rest
  {
    var u := d + "," + rest;
    assert forall j :: 0 <= j < |d| ==> IsDigit(u[j]) by {
      forall j | 0 <= j < |d| ensures IsDigit(u[j]) { assert u[j] == d[j]; }
    }
    DigitRunEndsAt(u, 0, |d|);
  }

  lemma MarginsRestOf(marginL: string, marginR: string, marginV: string, effect: string, text: string)
    requires |marginL| > 0 && AllDigits(marginL) && |marginR| > 0 && AllDigits(marginR)
    requires |marginV| > 0 && AllDigits(marginV) && NoChar(effect, ',')
    ensures MarginsRest(Margins(marginL, marginR, marginV, effect, text)) == Some(text)
  {
    var u3 := marginV + "," + (effect + "," + text);
    var u2 := marginR + "," + u3;
    DigitsThenComma(marginL, u2);
    DigitsThenComma(marginR, u3);
    DigitsThenComma(marginV, effect + "," + text);
    var u4 := effect + "," + text;
    assert LiteralAt(u4, |effect|, ",") by { assert u4[|effect|..|effect| + 1] == ","; }
    forall q | 0 <= q < |effect| ensures !LiteralAt(u4, q, ",") {
      assert u4[q..q + 1][0] == effect[q];
    }
    assert u4[|effect| + 1..] == text;
  }

  /** A name without commas is skipped up to the comma that ends it. */
  lemma {:induction false} NameSearchSkips(name: string, rest: string)
    requires NoChar(name, ',') && MarginsRest(rest).Some?
    ensures NameSearch(name + "," + rest) == MarginsRest(rest)
    decreases |name|
  {
    var u := name + "," + rest;
    if name == [] {
      assert u[1..] == rest;
    } else {
      assert u[1..] == name[1..] + "," + rest;
      NameSearchSkips(name[1..], rest);
    }
  }

  lemma {:induction false} StyleSearchSkips(style: string, rest: string)
    requires NoChar(style, ',') && NameSearch(rest).Some?
    ensures StyleSearch(style + "," + rest) == NameSearch(rest)
    decreases |style|
  {
    var u := style + "," + rest;
    if style == [] {
      assert u[1..] == rest;
    } else {
      assert u[1..] == style[1..] + "," + rest;
      StyleSearchSkips(style[1..], rest);
    }
  }

  lemma {:induction false} KindSearchSkips(kind: string, rest: string)
    requires NoChar(kind, ':') && AfterKind(rest).Some?
    ensures KindSearch(kind + ": " + rest) == AfterKind(rest)
    decreases |kind|
  {
    var u := kind + ": " + rest;
    if kind == [] {
      assert u[2..] == rest;
    } else {
      assert u[1..] == kind[1..] + ": " + rest;
      KindSearchSkips(kind[1..], rest);
    }
  }

  lemma AfterKindOf(layer: string, start: string, end: string, rest: string)
    requires |layer| > 0 && AllDigits(layer) && |start| == 10 && |end| == 10
    requires CentiTime(start).Some? && CentiTime(end).Some? && StyleSearch(rest).Some?
    ensures AfterKind(Timed(layer, start, end, rest))
            == Some((CentiTime(start).value, CentiTime(end).value, StyleSearch(rest).value))
  {
    var u := Timed(layer, start, end, rest);
    var v := start + "," + end + "," + rest;
    assert u == layer + "," + v;
    DigitsThenComma(layer, v);
    AfterLayerOf(start, end, rest);
  }

  lemma AfterLayerOf(start: string, end: string, rest: string)
    requires |start| == 10 && |end| == 10
    requires CentiTime(start).Some? && CentiTime(end).Some? && StyleSearch(rest).Some?
    ensures AfterLayer(start + "," + end + "," + rest)
            == Some((CentiTime(start).value, CentiTime(end).value, StyleSearch(rest).value))
  {
    var v := start + "," + end + "," + rest;
    TimesThenRest(start, end, rest);
    CentiTimePrefix(start, v);
    CentiTimePrefix(end, v[11..]);
  }

  /** The two time fields and the rest of an event line after its layer. */
  lemma TimesThenRest(start: string, end: string, rest: string)
    requires |start| == 10 && |end| == 10
    ensures var v := start + "," + end + "," + rest;
      && |v| == 22 + |rest| && v[10] == ',' && v[21] == ','
      && v[..10] == start && v[11..][..10] == end && v[22..] == rest
  {
    var v := start + "," + end + "," + rest;
    assert v[11..] == end + "," + rest;
  }

  /** Only the first ten characters decide a time stamp. */
  lemma CentiTimePrefix(t: string, u: string)
    requires |t| == 10 && |u| >= 10 && u[..10] == t
    ensures CentiTime(u) == CentiTime(t)
  {
    assert forall k :: 0 <= k < 10 ==> u[k] == t[k] by {
      forall k | 0 <= k < 10 ensures u[k] == t[k] { assert u[..10][k] == u[k]; }
    }
  }

  /** A line written in the event shape, with a kind and a style, name and effect
      without commas (and a kind without colons), reads back as its two times and its
      text, whatever commas the text holds. */
  lemma ReadEventLine(kind: string, layer: string, start: string, end: string, style: string,
                      name: string, marginL: string, marginR: string, marginV: string,
                      effect: string, text: string)
    requires NoLineTerminator(EventLine(kind, layer, start, end, style, name, marginL, marginR, marginV, effect, text))
    requires NoChar(kind, ':') && |layer| > 0 && AllDigits(layer)
    requires |start| == 10 && |end| == 10 && CentiTime(start).Some? && CentiTime(end).Some?
    requires NoChar(style, ',') && NoChar(name, ',') && NoChar(effect, ',')
    requires |marginL| > 0 && AllDigits(marginL) && |marginR| > 0 && AllDigits(marginR)
    requires |marginV| > 0 && AllDigits(marginV)
    ensures EventFields(EventLine(kind, layer, start, end, style, name, marginL, marginR, marginV, effect, text))
            == Some((CentiTime(start).value, CentiTime(end).value, text))
    ensures EventCue(EventLine(kind, layer, start, end, style, name, marginL, marginR, marginV, effect, text))
            == Some(Cue(CentiTime(start).value, CentiTime(end).value, EventText(text)))
  {
    var m := Margins(marginL, marginR, marginV, effect, text);
    MarginsRestOf(marginL, marginR, marginV, effect, text);
    NameSearchSkips(name, m);
    StyleSearchSkips(style, name + "," + m);
    AfterKindOf(layer, start, end, style + "," + (name + "," + m));
    KindSearchSkips(kind, Timed(layer, start, end, style + "," + (name + "," + m)));
  }

  // ----- the Events section -----

  /** The cues of the event lines after the first, in line order; lines that do not
      match add none. */
  function EventCues(lines: seq<string>): Track
  {
    Collect(lines, EventCue)
  }

  /** The ASS branch of `readSubtitle`: the cues of the `Events` section, or the
      `TypeError` of reading a missing section. */
  function AssTrack(text: string): Result<Track>
  {
    var sections := Sections(Split(text, "\n\n"));
    if "Events" in sections then Ok(EventCues(Split(sections["Events"], "\n")[1..]))
    else Fail(MissingEvents)
  }

  /** The first line of the `Events` section (its `Format:` line) never gives a cue,
      whatever it holds up to its first `\n`: the cues come from the lines after it. */
  lemma AssTrackSkipsFirstLine(text: string, first: string, rest: string)
    requires var sections := Sections(Split(text, "\n\n"));
      "Events" in sections && sections["Events"] == first + "\n" + rest
    requires forall k :: 0 <= k < |first| ==> first[k] != '\n'
    ensures AssTrack(text) == Ok(EventCues(Split(rest, "\n")))
  {
    forall q | 0 <= q < |first| ensures !LiteralAt(first + "\n" + rest, q, "\n") {
      assert (first + "\n" + rest)[q..q + 1][0] == first[q];
    }
    SplitFirst(first, "\n", rest);
    assert ([first] + Split(rest, "\n"))[1..] == Split(rest, "\n");
  }

  method ReadAss(text: string) returns (r: Result<Track>)
    ensures r == AssTrack(text)
  {
    var sections := BuildSections(Split(text, "\n\n"));
    if "Events" !in sections {
      return Fail(MissingEvents);
    }
    var lines := Split(sections["Events"], "\n");
    var sub := ReadEvents(lines);
    return Ok(sub);
  }

  /** The `events.split('\n').forEach` loop, which skips the line at index 0. */
  method ReadEvents(lines: seq<string>) returns (sub: Track)
    requires |lines| > 0
    ensures sub == EventCues(lines[1..])
  {
    sub := [];
    var idx := 1;
    while idx < |lines|
      invariant 1 <= idx <= |lines|
      invariant sub == EventCues(lines[1..idx])
    {
      var cue := EventCue(lines[idx]);
      if cue.Some? {
        sub := sub + [cue.value];
      }
      CollectSnoc(lines[1..idx], lines[idx], EventCue);
      assert lines[1..idx + 1] == lines[1..idx] + [lines[idx]];
      idx := idx + 1;
    }
    assert lines[1..idx] == lines[1..];
  }

  /** Reading is a homomorphism over concatenated line lists. */
  lemma EventCuesAppend(a: seq<string>, b: seq<string>)
    ensures EventCues(a + b) == EventCues(a) + EventCues(b)
  {
    CollectAppend(a, b, EventCue);
  }

  /** A line that does not match adds nothing, and one that does adds its cue, in
      place. */
  lemma EventCuesLine(a: seq<string>, line: string, b: seq<string>)
    ensures EventCues(a + [line] + b)
            == EventCues(a) + (match EventCue(line) case Some(c) => [c] case None => []) + EventCues(b)
  {
    EventCuesAppend(a + [line], b);
    CollectSnoc(a, line, EventCue);
  }
}
