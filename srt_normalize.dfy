/** The three global rewrites that the SRT branch of `readSubtitle` applies before it
    splits the text into blocks. Each is a left-to-right scan that tries the pattern at
    every position, replaces a match and resumes after it. */
module SrtNormalize {
  import opened JsText

  predicate IsBlank(c: char) { c == ' ' || c == '\t' }

  /** The length of the run of `[ \t]` characters that starts at `i`. */
  function BlankRun(s: string, i: nat): (n: nat)
    requires i <= |s|
    ensures i + n <= |s|
    ensures forall k :: i <= k < i + n ==> IsBlank(s[k])
    ensures i + n == |s| || !IsBlank(s[i + n])
    decreases |s| - i
  {
    if i < |s| && IsBlank(s[i]) then 1 + BlankRun(s, i + 1) else 0
  }

  /** `/\n[ \t]+(?=\n)/` matches at `i`: a newline, a non-empty line of spaces and
      tabs, and the newline that ends it (looked at, not consumed). */
  predicate BlankLineAt(s: string, i: nat)
    requires i < |s|
  {
    s[i] == '\n' && var k := BlankRun(s, i + 1); k >= 1 && i + 1 + k < |s| && s[i + 1 + k] == '\n'
  }

  /** `text.replace(/\n[ \t]+(?=\n)/g, '\n')` */
  function ClearBlankLines(s: string): (r: string)
    ensures |r| <= |s|
    ensures s != [] ==> r != [] && r[0] == s[0]
    decreases |s|
  {
    if s == [] then []
    else if BlankLineAt(s, 0) then "\n" + ClearBlankLines(s[1 + BlankRun(s, 1)..])
    else [s[0]] + ClearBlankLines(s[1..])
  }

  /** `/\n(?=\n\n)/` matches at `i`. */
  predicate TripleAt(s: string, i: nat)
  {
    i + 2 < |s| && s[i] == '\n' && s[i + 1] == '\n' && s[i + 2] == '\n'
  }

  predicate NoTriple(s: string)
  {
    forall i :: 0 <= i < |s| ==> !TripleAt(s, i)
  }

  predicate NoBlankLine(s: string)
  {
    forall i :: 0 <= i < |s| ==> !BlankLineAt(s, i)
  }

  /** `text.replace(/\n(?=\n\n)/g, '')` */
  function CollapseNewlines(s: string): (r: string)
    ensures |r| <= |s|
    decreases |s|
  {
    if s == [] then []
    else if TripleAt(s, 0) then CollapseNewlines(s[1..])
    else [s[0]] + CollapseNewlines(s[1..])
  }

  /** `/([^\n])(\n\d+\n\d\d:)/` matches at `i`: a character other than a newline, then a
      line of digits and the first three characters of a time code on the next line.
      The digit run is greedy and cannot give digits back, as `\n` must follow it. */
  predicate CueHeadAt(s: string, i: nat)
  {
    && i + 1 < |s| && s[i] != '\n' && s[i + 1] == '\n'
    && var d := DigitRun(s, i + 2);
    && d >= 1 && i + 5 + d < |s| && s[i + 2 + d] == '\n'
    && IsDigit(s[i + 3 + d]) && IsDigit(s[i + 4 + d]) && s[i + 5 + d] == ':'
  }

  /** How far the global replace advances from the start of `s`: past the whole match
      when the pattern matches there, one character otherwise. */
  function BreakStep(s: string): (n: nat)
    requires s != []
    ensures 1 <= n <= |s|
    ensures n > 1 <==> CueHeadAt(s, 0)
  {
    if CueHeadAt(s, 0) then 6 + DigitRun(s, 2) else 1
  }

  /** What the replace writes for the characters it advances over: the match with a
      newline inserted after its first character, or the character itself. */
  function BreakPiece(s: string): (p: string)
    requires s != []
    ensures |p| == BreakStep(s) + (if CueHeadAt(s, 0) then 1 else 0)
    ensures p[0] == s[0]
  {
    if CueHeadAt(s, 0) then [s[0]] + "\n" + s[1..BreakStep(s)] else [s[0]]
  }

  /** `text.replace(/([^\n])(\n\d+\n\d\d:)/g, '$1\n$2')` */
  function InsertBreaks(s: string): (r: string)
    ensures |r| >= |s|
    decreases |s|
  {
    if s == [] then [] else BreakPiece(s) + InsertBreaks(s[BreakStep(s)..])
  }

  /** The three rewrites in the order the reader applies them. */
  function Normalize(s: string): string
  {
    InsertBreaks(CollapseNewlines(ClearBlankLines(s)))
  }

  // ----- no blank line of spaces or tabs is left -----

  lemma {:induction false} BlankRunShift(c: char, q: string, i: nat)
    requires i <= |q|
    ensures BlankRun([c] + q, i + 1) == BlankRun(q, i)
    decreases |q| - i
  {
    if i < |q| && IsBlank(q[i]) {
      BlankRunShift(c, q, i + 1);
    }
  }

  lemma BlankLineShift(c: char, q: string, i: nat)
    requires i < |q|
    ensures BlankLineAt([c] + q, i + 1) == BlankLineAt(q, i)
  {
    BlankRunShift(c, q, i + 1);
  }

  /** The rewrite leaves a leading run of spaces and tabs, and the character after it,
      as they are. */
  lemma {:induction false} ClearBlankLinesHead(q: string)
    ensures var k := BlankRun(q, 0); var r := ClearBlankLines(q);
      && BlankRun(r, 0) == k && (k < |q| <==> k < |r|) && (k < |q| ==> r[k] == q[k])
    decreases |q|
  {
    if q != [] && IsBlank(q[0]) {
      ClearBlankLinesHead(q[1..]);
      var r1 := ClearBlankLines(q[1..]);
      assert ClearBlankLines(q) == [q[0]] + r1;
      BlankRunShift(q[0], r1, 0);
      BlankRunShift(q[0], q[1..], 0);
      assert [q[0]] + q[1..] == q;
    }
  }

  /** After the first rewrite no line of spaces and tabs sits between two newlines. */
  lemma {:induction false} ClearBlankLinesDone(s: string)
    ensures NoBlankLine(ClearBlankLines(s))
    decreases |s|
  {
    if s == [] {
    } else if BlankLineAt(s, 0) {
      var t := s[1 + BlankRun(s, 1)..];
      ClearBlankLinesDone(t);
      var q := ClearBlankLines(t);
      assert q[0] == '\n';
      assert BlankRun("\n" + q, 1) == 0;
      NoBlankLineCons('\n', q);
    } else {
      ClearBlankLinesDone(s[1..]);
      KeptHeadNotBlankLine(s);
      NoBlankLineCons(s[0], ClearBlankLines(s[1..]));
    }
  }

  /** One character in front of text without blank lines adds none, unless one starts
      at it. */
  lemma NoBlankLineCons(c: char, q: string)
    requires NoBlankLine(q) && !BlankLineAt([c] + q, 0)
    ensures NoBlankLine([c] + q)
  {
    var r := [c] + q;
    forall i | 1 <= i < |r| ensures !BlankLineAt(r, i) {
      BlankLineShift(c, q, i - 1);
    }
  }

  /** A first character kept by the rewrite does not start a blank line in its output. */
  lemma KeptHeadNotBlankLine(s: string)
    requires s != [] && !BlankLineAt(s, 0)
    ensures !BlankLineAt([s[0]] + ClearBlankLines(s[1..]), 0)
  {
    var t := s[1..];
    var q := ClearBlankLines(t);
    var r := [s[0]] + q;
    ClearBlankLinesHead(t);
    var k := BlankRun(t, 0);
    BlankRunShift(s[0], q, 0);
    BlankRunShift(s[0], t, 0);
    assert [s[0]] + t == s;
    assert BlankRun(r, 1) == k && BlankRun(s, 1) == k;
    if k < |t| {
      assert r[1 + k] == q[k] == t[k] == s[1 + k];
    }
  }

  // ----- no run of three newlines is left -----

  /** The second rewrite keeps the first character, and keeps whether the second one
      is a newline after a leading newline. */
  lemma {:induction false} CollapseHead(q: string)
    ensures q != [] ==> |CollapseNewlines(q)| >= 1 && CollapseNewlines(q)[0] == q[0]
    ensures |q| >= 2 ==> |CollapseNewlines(q)| >= 2
    ensures |q| >= 2 && q[0] == '\n' ==> (CollapseNewlines(q)[1] == '\n' <==> q[1] == '\n')
    decreases |q|
  {
    if q != [] {
      CollapseHead(q[1..]);
    }
  }

  lemma NoTripleCons(c: char, q: string)
    requires NoTriple(q)
    requires !(c == '\n' && |q| >= 2 && q[0] == '\n' && q[1] == '\n')
    ensures NoTriple([c] + q)
  {
    var r := [c] + q;
    forall i | 1 <= i < |r| ensures !TripleAt(r, i) {
      assert !TripleAt(q, i - 1);
    }
  }

  /** After the second rewrite no three newlines follow each other. */
  lemma {:induction false} CollapseNewlinesDone(s: string)
    ensures NoTriple(CollapseNewlines(s))
    decreases |s|
  {
    if s != [] {
      CollapseNewlinesDone(s[1..]);
      if !TripleAt(s, 0) {
        CollapseHead(s[1..]);
        NoTripleCons(s[0], CollapseNewlines(s[1..]));
      }
    }
  }

  /** Text without three newlines in a row is left unchanged by the second rewrite. */
  lemma {:induction false} CollapseNewlinesNoop(s: string)
    requires NoTriple(s)
    ensures CollapseNewlines(s) == s
    decreases |s|
  {
    if s != [] {
      assert !TripleAt(s, 0);
      assert NoTriple(s[1..]) by {
        forall i | 0 <= i < |s[1..]| ensures !TripleAt(s[1..], i) { assert !TripleAt(s, i + 1); }
      }
      CollapseNewlinesNoop(s[1..]);
      assert [s[0]] + s[1..] == s;
    }
  }

  // ----- the third rewrite creates no run of three newlines -----

  lemma {:induction false} InsertBreaksHead(q: string)
    ensures q != [] ==> InsertBreaks(q)[0] == q[0]
    ensures |q| >= 2 ==> InsertBreaks(q)[1] == q[1]
    ensures |q| < 2 ==> InsertBreaks(q) == q
    decreases |q|
  {
    if q != [] && !CueHeadAt(q, 0) {
      InsertBreaksHead(q[1..]);
    }
  }

  lemma NoTripleAppend(x: string, y: string)
    requires NoTriple(x) && NoTriple(y)
    requires |x| >= 2 && x[|x| - 1] != '\n' && x[|x| - 2] != '\n'
    ensures NoTriple(x + y)
  {
    var r := x + y;
    forall i | 0 <= i < |r| ensures !TripleAt(r, i) {
      if i + 2 < |x| {
        assert !TripleAt(x, i);
      } else if i >= |x| {
        assert !TripleAt(y, i - |x|);
      }
    }
  }

  lemma NoTripleSuffix(s: string, e: nat)
    requires NoTriple(s) && e <= |s|
    ensures NoTriple(s[e..])
  {
    forall i | 0 <= i < |s[e..]| ensures !TripleAt(s[e..], i) { assert !TripleAt(s, i + e); }
  }

  /** The inserted newline sits between a character that is not a newline and a single
      newline, so the third rewrite keeps text free of three newlines in a row. */
  lemma {:induction false} InsertBreaksKeepsNoTriple(s: string)
    requires NoTriple(s)
    ensures NoTriple(InsertBreaks(s))
    decreases |s|
  {
    if s == [] {
    } else if CueHeadAt(s, 0) {
      var e := 6 + DigitRun(s, 2);
      var x := [s[0]] + "\n" + s[1..e];
      NoTripleSuffix(s, e);
      InsertBreaksKeepsNoTriple(s[e..]);
      CueHeadPrefix(s);
      NoTripleAppend(x, InsertBreaks(s[e..]));
    } else {
      NoTripleSuffix(s, 1);
      InsertBreaksKeepsNoTriple(s[1..]);
      InsertBreaksHead(s[1..]);
      assert !TripleAt(s, 0);
      NoTripleCons(s[0], InsertBreaks(s[1..]));
    }
  }

  /** The text that the third rewrite puts in front of the rest at a match has no three
      newlines in a row and ends with a digit and a colon. */
  lemma CueHeadPrefix(s: string)
    requires CueHeadAt(s, 0)
    ensures var x := [s[0]] + "\n" + s[1..6 + DigitRun(s, 2)];
      NoTriple(x) && |x| >= 2 && x[|x| - 1] != '\n' && x[|x| - 2] != '\n'
  {
    var d := DigitRun(s, 2);
    var x := [s[0]] + "\n" + s[1..6 + d];
    CueHeadNewlines(s);
    NewlinesApart(x, d);
  }

  /** Where the newlines of the rewritten match lie. */
  lemma CueHeadNewlines(s: string)
    requires CueHeadAt(s, 0)
    ensures var d := DigitRun(s, 2); var x := [s[0]] + "\n" + s[1..6 + d];
      && |x| == 7 + d && x[6 + d] != '\n' && x[5 + d] != '\n'
      && forall j :: 0 <= j < |x| && x[j] == '\n' ==> j == 1 || j == 2 || j == 3 + d
  {
    var d := DigitRun(s, 2);
    var m := s[1..6 + d];
    MatchNewlines(s);
    assert m[4 + d] == s[5 + d] && m[3 + d] == s[4 + d];
    assert forall k :: 0 <= k < |m| ==> m[k] == s[k + 1];
    InsertedNewlines(s[0], m, d);
  }

  /** The newlines of the match itself: the one after its first character and the one
      after the digit line. */
  lemma MatchNewlines(s: string)
    requires CueHeadAt(s, 0)
    ensures var d := DigitRun(s, 2);
      && s[0] != '\n' && s[5 + d] != '\n' && s[4 + d] != '\n'
      && forall k :: 1 <= k < 6 + d && s[k] == '\n' ==> k == 1 || k == 2 + d
  {
    var d := DigitRun(s, 2);
    forall k | 1 < k < 6 + d && k != 2 + d ensures s[k] != '\n' {
      if k < 2 + d {
        assert IsDigit(s[k]);
      } else {
        assert IsDigit(s[3 + d]) && IsDigit(s[4 + d]) && s[5 + d] == ':';
      }
    }
  }

  lemma InsertedNewlines(c: char, m: string, d: nat)
    requires c != '\n' && |m| == 5 + d && m[4 + d] != '\n' && m[3 + d] != '\n'
    requires forall k :: 0 <= k < |m| && m[k] == '\n' ==> k == 0 || k == 1 + d
    ensures var x := [c] + "\n" + m;
      && |x| == 7 + d && x[6 + d] != '\n' && x[5 + d] != '\n'
      && forall j :: 0 <= j < |x| && x[j] == '\n' ==> j == 1 || j == 2 || j == 3 + d
  {
    var x := [c] + "\n" + m;
    forall j | 0 <= j < |x| && x[j] == '\n' ensures j == 1 || j == 2 || j == 3 + d {
      if j >= 2 {
        assert x[j] == m[j - 2];
      }
    }
  }

  /** Newlines only at 1, 2 and `3 + d`, with `d >= 1`, are never three in a row. */
  lemma NewlinesApart(x: string, d: nat)
    requires d >= 1
    requires forall j :: 0 <= j < |x| && x[j] == '\n' ==> j == 1 || j == 2 || j == 3 + d
    ensures NoTriple(x)
  {
    forall i | 0 <= i < |x| ensures !TripleAt(x, i) {
    }
  }

  /** After all three rewrites no three newlines follow each other, so splitting at
      `"\n\n"` never yields a piece that starts with a newline left over from a longer
      run. */
  lemma NormalizeNoTriple(s: string)
    ensures NoTriple(Normalize(s))
  {
    var c := CollapseNewlines(ClearBlankLines(s));
    CollapseNewlinesDone(ClearBlankLines(s));
    assert NoTriple(c);
    InsertBreaksKeepsNoTriple(c);
  }

  // ----- what the rewrites leave alone -----

  /** Text in which the first pattern does not match is left unchanged. */
  lemma {:induction false} ClearBlankLinesNoop(s: string)
    requires NoBlankLine(s)
    ensures ClearBlankLines(s) == s
    decreases |s|
  {
    if s != [] {
      assert !BlankLineAt(s, 0);
      var q := s[1..];
      assert [s[0]] + q == s;
      forall i | 0 <= i < |q| ensures !BlankLineAt(q, i) {
        assert !BlankLineAt(s, i + 1);
        BlankLineShift(s[0], q, i);
      }
      ClearBlankLinesNoop(q);
    }
  }

  /** The first rewrite is idempotent. */
  lemma ClearBlankLinesIdempotent(s: string)
    ensures ClearBlankLines(ClearBlankLines(s)) == ClearBlankLines(s)
  {
    ClearBlankLinesDone(s);
    ClearBlankLinesNoop(ClearBlankLines(s));
  }

  /** The characters of `s` other than newlines, in order. */
  function DropNewlines(s: string): (r: string)
    ensures |r| <= |s|
    ensures forall i :: 0 <= i < |r| ==> r[i] != '\n'
  {
    if s == [] then [] else (if s[0] == '\n' then [] else [s[0]]) + DropNewlines(s[1..])
  }

  lemma {:induction false} DropNewlinesAppend(a: string, b: string)
    ensures DropNewlines(a + b) == DropNewlines(a) + DropNewlines(b)
    decreases |a|
  {
    if a == [] {
      assert a + b == b;
    } else {
      var h := if a[0] == '\n' then [] else [a[0]];
      assert (a + b)[0] == a[0];
      assert (a + b)[1..] == a[1..] + b;
      assert DropNewlines(a + b) == h + DropNewlines(a[1..] + b);
      assert DropNewlines(a) == h + DropNewlines(a[1..]);
      DropNewlinesAppend(a[1..], b);
    }
  }

  /** The second rewrite removes newlines only. */
  lemma {:induction false} CollapseNewlinesKeepsText(s: string)
    ensures DropNewlines(CollapseNewlines(s)) == DropNewlines(s)
    decreases |s|
  {
    if s != [] {
      CollapseNewlinesKeepsText(s[1..]);
      DropNewlinesAppend([s[0]], CollapseNewlines(s[1..]));
    }
  }

  /** The third rewrite inserts newlines only. */
  lemma {:induction false} InsertBreaksKeepsText(s: string)
    ensures DropNewlines(InsertBreaks(s)) == DropNewlines(s)
    decreases |s|
  {
    if s != [] {
      var e := BreakStep(s);
      var t := s[e..];
      var u := InsertBreaks(t);
      assert InsertBreaks(s) == BreakPiece(s) + u;
      InsertBreaksKeepsText(t);
      if CueHeadAt(s, 0) {
        var m := s[1..e];
        assert BreakPiece(s) == [s[0]] + "\n" + m;
        InsertedNewlineDropped(s[0], m, t, u);
        HeadMiddleRest(s, e);
      } else {
        assert BreakPiece(s) == [s[0]];
        DropNewlinesAppend([s[0]], u);
        DropNewlinesAppend([s[0]], t);
        assert [s[0]] + t == s;
      }
    }
  }

  lemma HeadMiddleRest(s: string, e: nat)
    requires 1 <= e <= |s|
    ensures [s[0]] + s[1..e] + s[e..] == s
  {
    assert s[..e] == [s[0]] + s[1..e];
    assert s == s[..e] + s[e..];
  }

  lemma InsertedNewlineDropped(c: char, m: string, t: string, u: string)
    requires DropNewlines(u) == DropNewlines(t)
    ensures DropNewlines([c] + "\n" + m + u) == DropNewlines([c] + m + t)
  {
    DropNewlinesAppend([c] + "\n" + m, u);
    DropNewlinesAppend([c] + m, t);
    DropNewlinesAppend([c] + "\n", m);
    DropNewlinesAppend([c], m);
    DropNewlinesAppend([c], "\n");
  }

  /** Text in which the third pattern does not match is left unchanged. */
  lemma {:induction false} InsertBreaksNoop(s: string)
    requires forall i :: 0 <= i < |s| ==> !CueHeadAt(s, i)
    ensures InsertBreaks(s) == s
    decreases |s|
  {
    if s != [] {
      var q := s[1..];
      assert !CueHeadAt(s, 0);
      assert BreakStep(s) == 1 && BreakPiece(s) == [s[0]];
      assert InsertBreaks(s) == [s[0]] + InsertBreaks(q);
      NoCueHeadTail(s);
      InsertBreaksNoop(q);
      assert [s[0]] + q == s;
    }
  }

  lemma NoCueHeadTail(s: string)
    requires s != []
    requires forall i :: 0 <= i < |s| ==> !CueHeadAt(s, i)
    ensures forall i :: 0 <= i < |s[1..]| ==> !CueHeadAt(s[1..], i)
  {
    var q := s[1..];
    assert [s[0]] + q == s;
    forall i | 0 <= i < |q| ensures !CueHeadAt(q, i) {
      assert !CueHeadAt(s, i + 1);
      CueHeadShift(s[0], q, i);
    }
  }

  /** The third pattern matches at `i` in `q` exactly when it matches one place later
      once a character is put in front. */
  lemma CueHeadShift(c: char, q: string, i: nat)
    requires i < |q|
    ensures CueHeadAt([c] + q, i + 1) == CueHeadAt(q, i)
  {
    var s := [c] + q;
    if i + 1 < |q| {
      DigitRunShift(c, q, i + 2);
      var d := DigitRun(q, i + 2);
      assert DigitRun(s, i + 3) == d;
      assert s[i + 1] == q[i] && s[i + 2] == q[i + 1];
      if i + 5 + d < |q| {
        assert s[i + 3 + d] == q[i + 2 + d] && s[i + 4 + d] == q[i + 3 + d];
        assert s[i + 5 + d] == q[i + 4 + d] && s[i + 6 + d] == q[i + 5 + d];
      }
    }
  }

  lemma {:induction false} DigitRunShift(c: char, q: string, i: nat)
    requires i <= |q|
    ensures DigitRun([c] + q, i + 1) == DigitRun(q, i)
    decreases |q| - i
  {
    if i < |q| && IsDigit(q[i]) {
      DigitRunShift(c, q, i + 1);
    }
  }
  // ----- what each rewrite does to the text around a match -----

  /** The characters of `s` other than spaces and tabs, in order. */
  function DropBlanks(s: string): (r: string)
    ensures |r| <= |s|
    ensures forall i :: 0 <= i < |r| ==> !IsBlank(r[i])
  {
    if s == [] then [] else (if IsBlank(s[0]) then [] else [s[0]]) + DropBlanks(s[1..])
  }

  lemma {:induction false} DropBlanksAppend(a: string, b: string)
    ensures DropBlanks(a + b) == DropBlanks(a) + DropBlanks(b)
    decreases |a|
  {
    if a == [] {
      assert a + b == b;
    } else {
      var h := if IsBlank(a[0]) then [] else [a[0]];
      assert (a + b)[0] == a[0];
      assert (a + b)[1..] == a[1..] + b;
      assert DropBlanks(a + b) == h + DropBlanks(a[1..] + b);
      assert DropBlanks(a) == h + DropBlanks(a[1..]);
      DropBlanksAppend(a[1..], b);
    }
  }

  lemma {:induction false} DropAllBlanks(s: string)
    requires forall k :: 0 <= k < |s| ==> IsBlank(s[k])
    ensures DropBlanks(s) == []
    decreases |s|
  {
    if s != [] {
      DropAllBlanks(s[1..]);
    }
  }

  lemma DropBlanksCons(c: char, r: string)
    ensures DropBlanks([c] + r) == (if IsBlank(c) then [] else [c]) + DropBlanks(r)
  {
    assert ([c] + r)[1..] == r;
  }

  /** A blank line's spaces and tabs carry nothing but blanks. */
  lemma BlankLineDrop(s: string)
    requires s != [] && BlankLineAt(s, 0)
    ensures DropBlanks(s) == "\n" + DropBlanks(s[1 + BlankRun(s, 1)..])
  {
    var k := BlankRun(s, 1);
    var t := s[1 + k..];
    assert s == "\n" + s[1..1 + k] + t;
    DropAllBlanks(s[1..1 + k]);
    DropBlanksAppend("\n" + s[1..1 + k], t);
    DropBlanksAppend("\n", s[1..1 + k]);
  }

  /** The first rewrite removes spaces and tabs only: every newline and every other
      character is kept, in order. */
  lemma {:induction false} ClearBlankLinesKeepsText(s: string)
    ensures DropBlanks(ClearBlankLines(s)) == DropBlanks(s)
    decreases |s|
  {
    if s != [] {
      if BlankLineAt(s, 0) {
        var t := s[1 + BlankRun(s, 1)..];
        assert ClearBlankLines(s) == "\n" + ClearBlankLines(t);
        ClearBlankLinesKeepsText(t);
        DropBlanksCons('\n', ClearBlankLines(t));
        BlankLineDrop(s);
      } else {
        assert ClearBlankLines(s) == [s[0]] + ClearBlankLines(s[1..]);
        ClearBlankLinesKeepsText(s[1..]);
        DropBlanksCons(s[0], ClearBlankLines(s[1..]));
        DropBlanksCons(s[0], s[1..]);
        assert [s[0]] + s[1..] == s;
      }
    }
  }

  lemma ClearBlankLinesCopy(s: string)
    requires s != [] && !BlankLineAt(s, 0)
    ensures ClearBlankLines(s) == [s[0]] + ClearBlankLines(s[1..])
  {
  }

  lemma NoBlankLineInTail(a: string, rest: string)
    requires a != [] && forall i :: 0 <= i < |a| ==> !BlankLineAt(a + rest, i)
    ensures forall i :: 0 <= i < |a| - 1 ==> !BlankLineAt(a[1..] + rest, i)
  {
    var s := a + rest;
    assert [s[0]] + s[1..] == s && s[1..] == a[1..] + rest;
    forall i | 0 <= i < |a| - 1 ensures !BlankLineAt(a[1..] + rest, i) {
      BlankLineShift(s[0], s[1..], i);
    }
  }

  /** Up to the first blank line, the first rewrite copies the text: spaces and tabs
      that are not a whole line are kept. */
  lemma {:induction false} ClearBlankLinesPrefix(a: string, rest: string)
    requires forall i :: 0 <= i < |a| ==> !BlankLineAt(a + rest, i)
    ensures ClearBlankLines(a + rest) == a + ClearBlankLines(rest)
    decreases |a|
  {
    if a == [] {
      assert a + rest == rest;
    } else {
      var s := a + rest;
      assert !BlankLineAt(s, 0);
      ClearBlankLinesCopy(s);
      assert s[0] == a[0] && s[1..] == a[1..] + rest;
      NoBlankLineInTail(a, rest);
      ClearBlankLinesPrefix(a[1..], rest);
      Assoc3([a[0]], a[1..], ClearBlankLines(rest));
      assert [a[0]] + a[1..] == a;
    }
  }

  /** The run of spaces and tabs at `i` is `n` long when `n` blanks stand there and
      no blank follows them. */
  lemma {:induction false} BlankRunUpTo(s: string, i: nat, n: nat)
    requires i + n <= |s| && (forall k :: i <= k < i + n ==> IsBlank(s[k]))
    requires i + n == |s| || !IsBlank(s[i + n])
    ensures BlankRun(s, i) == n
    decreases n
  {
    if n > 0 {
      BlankRunUpTo(s, i + 1, n - 1);
    }
  }

  /** A blank line at the start becomes a single newline, and the rewrite goes on at
      the newline that ended it. */
  lemma ClearBlankLineAt(w: string, b: string)
    requires |w| >= 1 && forall k :: 0 <= k < |w| ==> IsBlank(w[k])
    ensures ClearBlankLines("\n" + w + "\n" + b) == "\n" + ClearBlankLines("\n" + b)
  {
    var s := "\n" + w + "\n" + b;
    var n := |w|;
    assert forall k :: 1 <= k < 1 + n ==> s[k] == w[k - 1];
    assert s[1 + n] == '\n';
    BlankRunUpTo(s, 1, n);
    assert BlankLineAt(s, 0);
    assert s[1 + n..] == "\n" + b;
  }

  /** A blank run ends where the text ends or where a non-blank follows. */
  lemma {:induction false} BlankRunExtend(a: string, x: string, j: nat)
    requires j <= |a| && (x == [] || !IsBlank(x[0]))
    ensures BlankRun(a + x, j) == BlankRun(a, j)
    decreases |a| - j
  {
    if j < |a| && IsBlank(a[j]) {
      BlankRunExtend(a, x, j + 1);
    } else if j == |a| && x != [] {
      assert (a + x)[j] == x[0];
    }
  }

  /** Whether a blank line starts inside `a` depends only on `a` and the newline that
      follows it. */
  lemma BlankLineJoin(a: string, x: string, i: nat)
    requires i < |a| && x != [] && x[0] == '\n'
    ensures BlankLineAt(a + x, i) == BlankLineAt(a + "\n", i)
    ensures BlankLineAt(a, i) ==> BlankLineAt(a + "\n", i)
  {
    BlankRunExtend(a, x, i + 1);
    BlankRunExtend(a, "\n", i + 1);
    BlankRunExtend(a, [], i + 1);
    assert a + [] == a;
    var k := BlankRun(a, i + 1);
    assert !IsBlank((a + "\n")[|a|]);
  }

  /** Whole text with no blank line in it, then a blank line and a rest: the text is
      kept as it is, spaces and tabs included, the blank line becomes one newline, and
      the rest is rewritten on its own. */
  lemma ClearBlankLinesAfterText(a: string, w: string, b: string)
    requires forall i :: 0 <= i < |a| ==> !BlankLineAt(a + "\n", i)
    requires |w| >= 1 && forall k :: 0 <= k < |w| ==> IsBlank(w[k])
    ensures ClearBlankLines(a) == a
    ensures ClearBlankLines(a + ("\n" + w + "\n" + b)) == ClearBlankLines(a) + "\n" + ClearBlankLines("\n" + b)
  {
    var x := "\n" + w + "\n" + b;
    forall i | 0 <= i < |a| ensures !BlankLineAt(a + x, i) && !BlankLineAt(a, i) {
      BlankLineJoin(a, x, i);
    }
    ClearBlankLinesNoop(a);
    ClearBlankLinesPrefix(a, x);
    ClearBlankLineAt(w, b);
    Assoc3(a, "\n", ClearBlankLines("\n" + b));
  }

  /** A space between two newlines is removed; both newlines stay. */
  lemma SpaceLineExample()
    ensures ClearBlankLines("a\n \nb") == "a\n\nb"
  {
    assert !BlankLineAt("a" + "\n", 0);
    ClearBlankLinesAfterText("a", " ", "b");
    SpaceLineLiterals();
    NewlineLineExample();
  }

  lemma SpaceLineLiterals()
    ensures "a" + ("\n" + " " + "\n" + "b") == "a\n \nb"
    ensures "a" + "\n" + "\nb" == "a\n\nb"
  {
  }

  lemma NewlineLineExample()
    ensures ClearBlankLines("\nb") == "\nb"
  {
    assert !BlankLineAt("\nb", 0);
    assert "\nb"[1..] == "b";
    assert ClearBlankLines("b") == "b";
  }

  /** A run of `k` newlines. */
  function Newlines(k: nat): (r: string)
    ensures |r| == k && forall i :: 0 <= i < k ==> r[i] == '\n'
  {
    seq(k, _ => '\n')
  }

  lemma CollapseSkip(s: string)
    requires TripleAt(s, 0)
    ensures CollapseNewlines(s) == CollapseNewlines(s[1..])
  {
  }

  lemma CollapseCopy(s: string)
    requires s != [] && !TripleAt(s, 0)
    ensures CollapseNewlines(s) == [s[0]] + CollapseNewlines(s[1..])
  {
  }

  /** Text that does not end with a newline is rewritten on its own: no match of
      `\n(?=\n\n)` reaches across its end. */
  lemma {:induction false} CollapseAppend(a: string, rest: string)
    requires a == [] || a[|a| - 1] != '\n'
    ensures CollapseNewlines(a + rest) == CollapseNewlines(a) + CollapseNewlines(rest)
    decreases |a|
  {
    if a == [] {
      assert a + rest == rest;
    } else {
      var s := a + rest;
      assert s[1..] == a[1..] + rest;
      assert TripleAt(s, 0) == TripleAt(a, 0);
      CollapseAppend(a[1..], rest);
      if TripleAt(a, 0) {
        CollapseSkip(s);
        CollapseSkip(a);
      } else {
        CollapseCopy(s);
        CollapseCopy(a);
        Assoc3([a[0]], CollapseNewlines(a[1..]), CollapseNewlines(rest));
      }
    }
  }

  lemma Assoc3(x: string, y: string, z: string)
    ensures x + (y + z) == x + y + z
  {
  }

  /** A run of newlines at the start is kept when it is one or two long and cut to
      two when it is longer. */
  lemma {:induction false} CollapseRunHead(k: nat, b: string)
    requires b == [] || b[0] != '\n'
    ensures CollapseNewlines(Newlines(k) + b) == Newlines(if k < 2 then k else 2) + CollapseNewlines(b)
    decreases k
  {
    var s := Newlines(k) + b;
    if k == 0 {
      assert s == b;
    } else {
      NewlinesSplit(k, b);
      CollapseRunHead(k - 1, b);
      if k >= 3 {
        CollapseSkip(s);
        assert CollapseNewlines(s) == Newlines(2) + CollapseNewlines(b);
      } else {
        CollapseCopy(s);
        assert CollapseNewlines(s) == [s[0]] + (Newlines(k - 1) + CollapseNewlines(b));
        Assoc3([s[0]], Newlines(k - 1), CollapseNewlines(b));
      }
    }
  }

  lemma NewlinesSplit(k: nat, b: string)
    requires k >= 1 && (b == [] || b[0] != '\n')
    ensures var s := Newlines(k) + b;
      s[0] == '\n' && s[1..] == Newlines(k - 1) + b && [s[0]] + Newlines(k - 1) == Newlines(k)
      && (TripleAt(s, 0) <==> k >= 3)
  {
    var s := Newlines(k) + b;
    assert s[1..] == Newlines(k - 1) + b;
    assert [s[0]] + Newlines(k - 1) == Newlines(k);
  }

  /** The second rewrite leaves every run of newlines between other characters as
      it is when it is one or two long and cuts it to exactly two when it is longer. */
  lemma CollapseNewlinesRun(a: string, k: nat, b: string)
    requires a == [] || a[|a| - 1] != '\n'
    requires b == [] || b[0] != '\n'
    ensures CollapseNewlines(a + Newlines(k) + b)
            == CollapseNewlines(a) + Newlines(if k < 2 then k else 2) + CollapseNewlines(b)
  {
    assert a + Newlines(k) + b == a + (Newlines(k) + b);
    CollapseAppend(a, Newlines(k) + b);
    CollapseRunHead(k, b);
  }

  lemma InsertBreaksCopy(s: string)
    requires s != [] && !CueHeadAt(s, 0)
    ensures InsertBreaks(s) == [s[0]] + InsertBreaks(s[1..])
  {
    assert BreakStep(s) == 1 && BreakPiece(s) == [s[0]];
  }

  /** Up to the first match, the third rewrite copies the text. */
  lemma {:induction false} InsertBreaksPrefix(a: string, rest: string)
    requires forall i :: 0 <= i < |a| ==> !CueHeadAt(a + rest, i)
    ensures InsertBreaks(a + rest) == a + InsertBreaks(rest)
    decreases |a|
  {
    if a == [] {
      assert a + rest == rest;
    } else {
      var s := a + rest;
      assert !CueHeadAt(s, 0);
      InsertBreaksCopy(s);
      assert s[0] == a[0] && s[1..] == a[1..] + rest;
      NoCueHeadInTail(a, rest);
      InsertBreaksPrefix(a[1..], rest);
      Assoc3([a[0]], a[1..], InsertBreaks(rest));
      assert [a[0]] + a[1..] == a;
    }
  }

  lemma NoCueHeadInTail(a: string, rest: string)
    requires a != [] && forall i :: 0 <= i < |a| ==> !CueHeadAt(a + rest, i)
    ensures forall i :: 0 <= i < |a| - 1 ==> !CueHeadAt(a[1..] + rest, i)
  {
    var s := a + rest;
    assert [s[0]] + s[1..] == s && s[1..] == a[1..] + rest;
    forall i | 0 <= i < |a| - 1 ensures !CueHeadAt(a[1..] + rest, i) {
      CueHeadShift(s[0], s[1..], i);
    }
  }

  /** A character, then a line of digits and the start of a time code: the rewrite
      puts a newline after the character and goes on after the `:`. */
  lemma InsertBreaksAtHead(c: char, d: string, t: string, rest: string)
    requires c != '\n' && |d| >= 1 && AllDigits(d)
    requires |t| == 3 && IsDigit(t[0]) && IsDigit(t[1]) && t[2] == ':'
    ensures InsertBreaks([c] + "\n" + d + "\n" + t + rest) == [c] + "\n\n" + d + "\n" + t + InsertBreaks(rest)
  {
    var s := [c] + "\n" + d + "\n" + t + rest;
    var n := |d|;
    HeadMatches(c, d, t, rest);
    assert InsertBreaks(s) == BreakPiece(s) + InsertBreaks(s[6 + n..]);
    HeadSlices(c, d, t, rest);
  }

  lemma HeadMatches(c: char, d: string, t: string, rest: string)
    requires c != '\n' && |d| >= 1 && AllDigits(d)
    requires |t| == 3 && IsDigit(t[0]) && IsDigit(t[1]) && t[2] == ':'
    ensures var s := [c] + "\n" + d + "\n" + t + rest;
      CueHeadAt(s, 0) && BreakStep(s) == 6 + |d|
  {
    var s := [c] + "\n" + d + "\n" + t + rest;
    var n := |d|;
    assert s[2..2 + n] == d && s[2 + n] == '\n';
    DigitRunEndsAt(s, 2, n);
    assert s[3 + n] == t[0] && s[4 + n] == t[1] && s[5 + n] == ':';
  }

  lemma HeadSlices(c: char, d: string, t: string, rest: string)
    requires |t| == 3
    ensures var s := [c] + "\n" + d + "\n" + t + rest;
      s[1..6 + |d|] == "\n" + d + "\n" + t && s[6 + |d|..] == rest
      && [s[0]] + "\n" + s[1..6 + |d|] == [c] + "\n\n" + d + "\n" + t
  {
  }

  /** The third rewrite inserts a blank line before an index line that directly
      follows a line of text: everything before the first match is kept, and the
      rewrite goes on after the match. */
  lemma InsertBreaksFirstHead(a: string, c: char, d: string, t: string, rest: string)
    requires c != '\n' && |d| >= 1 && AllDigits(d)
    requires |t| == 3 && IsDigit(t[0]) && IsDigit(t[1]) && t[2] == ':'
    requires forall i :: 0 <= i < |a| ==> !CueHeadAt(a + ([c] + "\n" + d + "\n" + t + rest), i)
    ensures InsertBreaks(a + ([c] + "\n" + d + "\n" + t + rest))
            == a + ([c] + "\n\n" + d + "\n" + t + InsertBreaks(rest))
  {
    InsertBreaksPrefix(a, [c] + "\n" + d + "\n" + t + rest);
    InsertBreaksAtHead(c, d, t, rest);
  }

  /** The same when the text before is whole lines with no match in them: no match
      can start in it and reach into the cue head. */
  lemma InsertBreaksAfterLines(a: string, c: char, d: string, t: string, rest: string)
    requires a == [] || a[|a| - 1] == '\n'
    requires forall i :: 0 <= i < |a| ==> !CueHeadAt(a, i)
    requires c != '\n' && |d| >= 1 && AllDigits(d)
    requires |t| == 3 && IsDigit(t[0]) && IsDigit(t[1]) && t[2] == ':'
    ensures InsertBreaks(a + ([c] + "\n" + d + "\n" + t + rest))
            == a + ([c] + "\n\n" + d + "\n" + t + InsertBreaks(rest))
  {
    var x := [c] + "\n" + d + "\n" + t + rest;
    HeadShape(c, d, t, rest);
    forall i | 0 <= i < |a| ensures !CueHeadAt(a + x, i) {
      NoHeadAcrossJoin(a, x, i);
    }
    InsertBreaksFirstHead(a, c, d, t, rest);
  }

  /** What follows a cue head's first character: a newline, and no `dd:` at the place
      a match starting one line earlier would need it. */
  lemma HeadShape(c: char, d: string, t: string, rest: string)
    requires |d| >= 1 && AllDigits(d) && |t| == 3 && t[2] == ':'
    ensures var x := [c] + "\n" + d + "\n" + t + rest;
      |x| >= 5 && x[1] == '\n' && !(IsDigit(x[3]) && x[4] == ':')
  {
    var x := [c] + "\n" + d + "\n" + t + rest;
    assert x[2..2 + |d|] == d && x[2 + |d|] == '\n';
    if |d| >= 3 {
      assert x[4] == d[2];
    } else if |d| == 2 {
      assert x[4] == '\n';
    } else {
      assert x[3] == '\n';
    }
  }

  /** A match that would start inside `a`, which ends with a newline, cannot reach
      past its end into text that starts `?\n` with no `dd:` at 3. */
  lemma NoHeadAcrossJoin(a: string, x: string, i: nat)
    requires i < |a| && a[|a| - 1] == '\n' && !CueHeadAt(a, i)
    requires |x| >= 5 && x[1] == '\n' && !(IsDigit(x[3]) && x[4] == ':')
    ensures !CueHeadAt(a + x, i)
  {
    var s := a + x;
    if i + 2 < |a| {
      DigitRunPrefix(a, x, i + 2);
      var e := DigitRun(a, i + 2);
      assert !IsDigit(a[|a| - 1]);
      if i + 5 + e < |a| {
        assert s[i..i + 6 + e] == a[i..i + 6 + e];
      } else if i + 2 + e == |a| - 1 {
        assert s[i + 4 + e] == x[1];
      } else {
        assert s[|a| - 1] == '\n';
      }
    } else if i + 2 == |a| {
      DigitRunEndsAt(s, |a|, if IsDigit(x[0]) then 1 else 0);
      assert s[|a| + 1] == x[1] && s[|a| + 3] == x[3] && s[|a| + 4] == x[4];
    }
  }

  /** The digit run of `a + x` starting inside `a` stays inside `a` when `a` ends with
      a newline. */
  lemma {:induction false} DigitRunPrefix(a: string, x: string, j: nat)
    requires j < |a| && a[|a| - 1] == '\n'
    ensures DigitRun(a + x, j) == DigitRun(a, j)
    decreases |a| - j
  {
    if IsDigit(a[j]) {
      DigitRunPrefix(a, x, j + 1);
    }
  }
}
