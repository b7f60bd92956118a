/** The format dispatch of `readSubtitle`: three regular-expression tests on the
    decoded text, tried in order, each allowing leading white space. */
module Detect {
  import opened JsText

  datatype Format = Sami | Srt | Ass | Unknown

  /** `/^[\n\s]*<SAMI/i`: the greedy white-space run cannot give characters back to
      help, as `<` is not white space. Under `i` the letters of `SAMI` match only their
      ASCII cases. */
  predicate SamiTest(text: string)
  {
    FoldedAt(text, SpaceRun(text, 0), "<sami")
  }

  /** `/^[\n\s]*\d{1,3}\n/`: one to three digits and a newline after the white space;
      a fourth digit makes `\d{1,3}` fail, as it would have to be followed by `\n`. */
  predicate SrtTest(text: string)
  {
    var p := SpaceRun(text, 0);
    var d := DigitRun(text, p);
    1 <= d <= 3 && p + d < |text| && text[p + d] == '\n'
  }

  /** `/^[\n\s]*\[Script Info\]/`, case-sensitive. */
  predicate AssTest(text: string)
  {
    LiteralAt(text, SpaceRun(text, 0), "[Script Info]")
  }

  /** The branch of `readSubtitle` taken for a decoded text. */
  function Detect(text: string): (f: Format)
  {
    if SamiTest(text) then Sami
    else if SrtTest(text) then Srt
    else if AssTest(text) then Ass
    else Unknown
  }

  // ----- the patterns read as "some white-space prefix, then ..." -----

  ghost predicate SamiHeader(text: string)
  {
    exists k :: 0 <= k <= |text| && AllSpaces(text[..k]) && FoldedAt(text, k, "<sami")
  }

  ghost predicate SrtHeader(text: string)
  {
    exists k: nat, d: nat :: IndexLineAt(text, k, d) && AllSpaces(text[..k])
  }

  /** One to three digits at `k`, then a newline. */
  predicate IndexLineAt(text: string, k: nat, d: nat)
  {
    1 <= d <= 3 && k + d < |text| && AllDigits(text[k..k + d]) && text[k + d] == '\n'
  }

  ghost predicate AssHeader(text: string)
  {
    exists k :: 0 <= k <= |text| && AllSpaces(text[..k]) && LiteralAt(text, k, "[Script Info]")
  }

  /** A white-space prefix followed by a non-space character ends where the greedy run
      does. */
  lemma SpacePrefixIsRun(text: string, k: nat)
    requires k < |text| && AllSpaces(text[..k]) && !IsSpace(text[k])
    ensures SpaceRun(text, 0) == k
  {
    assert forall j :: 0 <= j < k ==> IsSpace(text[j]) by {
      forall j | 0 <= j < k ensures IsSpace(text[j]) { assert text[..k][j] == text[j]; }
    }
  }

  /** Each test holds exactly when its pattern matches. */
  lemma SamiTestSpec(text: string)
    ensures SamiTest(text) <==> SamiHeader(text)
  {
    var p := SpaceRun(text, 0);
    if SamiTest(text) {
      assert AllSpaces(text[..p]);
    }
    if SamiHeader(text) {
      var k :| 0 <= k <= |text| && AllSpaces(text[..k]) && FoldedAt(text, k, "<sami");
      assert FoldCase(text[k + 0]) == "<sami"[0] == '<';
      SpacePrefixIsRun(text, k);
    }
  }

  lemma SrtTestSpec(text: string)
    ensures SrtTest(text) <==> SrtHeader(text)
  {
    if SrtTest(text) {
      SrtTestFound(text);
    }
    if SrtHeader(text) {
      var k: nat, d: nat :| IndexLineAt(text, k, d) && AllSpaces(text[..k]);
      IndexLinePassesTest(text, k, d);
    }
  }

  lemma SrtTestFound(text: string)
    requires SrtTest(text)
    ensures IndexLineAt(text, SpaceRun(text, 0), DigitRun(text, SpaceRun(text, 0)))
    ensures AllSpaces(text[..SpaceRun(text, 0)])
  {
    var p := SpaceRun(text, 0);
    var d := DigitRun(text, p);
    assert AllSpaces(text[..p]) && AllDigits(text[p..p + d]);
  }

  lemma IndexLinePassesTest(text: string, k: nat, d: nat)
    requires IndexLineAt(text, k, d) && AllSpaces(text[..k])
    ensures SrtTest(text)
  {
    assert text[k..k + d][0] == text[k];
    SpacePrefixIsRun(text, k);
    assert forall j :: k <= j < k + d ==> IsDigit(text[j]) by {
      forall j | k <= j < k + d ensures IsDigit(text[j]) { assert text[k..k + d][j - k] == text[j]; }
    }
    DigitRunEndsAt(text, k, d);
  }

  lemma AssTestSpec(text: string)
    ensures AssTest(text) <==> AssHeader(text)
  {
    var p := SpaceRun(text, 0);
    if AssTest(text) {
      assert AllSpaces(text[..p]);
    }
    if AssHeader(text) {
      var k :| 0 <= k <= |text| && AllSpaces(text[..k]) && LiteralAt(text, k, "[Script Info]");
      assert text[k] == text[k..k + 13][0] == '[';
      SpacePrefixIsRun(text, k);
    }
  }

  /** Detection is ordered: SAMI wins, then SRT, then ASS, and anything else is unknown. */
  lemma DetectSpec(text: string)
    ensures Detect(text) == Sami <==> SamiHeader(text)
    ensures Detect(text) == Srt <==> !SamiHeader(text) && SrtHeader(text)
    ensures Detect(text) == Ass <==> !SamiHeader(text) && !SrtHeader(text) && AssHeader(text)
    ensures Detect(text) == Unknown <==> !SamiHeader(text) && !SrtHeader(text) && !AssHeader(text)
  {
    SamiTestSpec(text);
    SrtTestSpec(text);
    AssTestSpec(text);
  }

  /** No text has two of the three headers, so the order of the tests only matters
      for texts that have none of them. */
  lemma HeadersExclusive(text: string)
    ensures !(SrtHeader(text) && AssHeader(text))
    ensures !(SamiHeader(text) && SrtHeader(text))
    ensures !(SamiHeader(text) && AssHeader(text))
  {
    SamiTestSpec(text);
    SrtTestSpec(text);
    AssTestSpec(text);
    TestsExclusive(text);
  }

  lemma TestsExclusive(text: string)
    ensures !(SrtTest(text) && AssTest(text))
    ensures !(SamiTest(text) && SrtTest(text))
    ensures !(SamiTest(text) && AssTest(text))
  {
    var p := SpaceRun(text, 0);
    if SrtTest(text) {
      assert IsDigit(text[p]);
    }
    if SamiTest(text) {
      assert FoldCase(text[p + 0]) == "<sami"[0] == '<';
    }
    if AssTest(text) {
      assert text[p] == text[p..p + 13][0] == '[';
    }
  }
}
