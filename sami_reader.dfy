/** The SAMI branch of `readSubtitle`. The document is cut into SYNC blocks, the first
    bare `&nbsp` of each block is repaired, and the HTML parser turns each block into a
    record. The records are grouped by their class label, and every group becomes one
    track: its blocks sorted by start, each one ending where the next block of the
    group in file order begins. */
module SamiReader {
  import opened JsText
  import opened Cues
  import opened Sorting

  // ----- cutting the document into SYNC blocks -----

  /** The lookahead `(?=\s*<SYNC|\s*<\/BODY)` of the block pattern, under the `i` flag. */
  predicate BlockBoundary(s: string, e: nat)
    requires e <= |s|
  {
    var w := e + SpaceRun(s, e);
    FoldedAt(s, w, "<sync") || FoldedAt(s, w, "</body")
  }

  /** The first boundary at or after `e`: where the lazy `[^]*?` stops. */
  function BoundaryFrom(s: string, e: nat): (r: Option<nat>)
    requires e <= |s|
    ensures r.Some? ==> e <= r.value <= |s|
    decreases |s| - e
  {
    if BlockBoundary(s, e) then Some(e)
    else if e == |s| then None
    else BoundaryFrom(s, e + 1)
  }

  /** The position found is a boundary and no earlier position from `e` on is one;
      none is found only when there is no boundary from `e` on. */
  lemma {:induction false} BoundaryFromSpec(s: string, e: nat)
    requires e <= |s|
    ensures BoundaryFrom(s, e).Some? ==> BlockBoundary(s, BoundaryFrom(s, e).value)
    ensures BoundaryFrom(s, e).Some? ==>
      forall k :: e <= k < BoundaryFrom(s, e).value ==> !BlockBoundary(s, k)
    ensures BoundaryFrom(s, e).None? ==> forall k :: e <= k <= |s| ==> !BlockBoundary(s, k)
    decreases |s| - e
  {
    if BlockBoundary(s, e) {
      assert BoundaryFrom(s, e) == Some(e);
    } else if e == |s| {
      assert BoundaryFrom(s, e) == None;
    } else {
      BoundaryFromSpec(s, e + 1);
      assert BoundaryFrom(s, e) == BoundaryFrom(s, e + 1);
    }
  }

  /** The matches of `/(<SYNC[^]*?)(?=\s*<SYNC|\s*<\/BODY)/gi` from `p` on, left to
      right: a block runs from a SYNC tag to the first boundary after it. */
  function SyncsFrom(s: string, p: nat): seq<string>
    requires p <= |s|
    decreases |s| - p
  {
    if p == |s| then []
    else if FoldedAt(s, p, "<sync") && BoundaryFrom(s, p + 5).Some? then
      var e := BoundaryFrom(s, p + 5).value;
      [s[p..e]] + SyncsFrom(s, e)
    else SyncsFrom(s, p + 1)
  }

  function SplitSyncs(text: string): seq<string>
  {
    SyncsFrom(text, 0)
  }

  /** A block opens with a SYNC tag and holds no second one. */
  predicate OneSync(b: string)
  {
    FoldedAt(b, 0, "<sync") && forall k :: 0 < k <= |b| ==> !FoldedAt(b, k, "<sync")
  }

  /** Every block of a document holds exactly one SYNC tag, at its start. */
  lemma {:induction false} SyncsFromShape(s: string, p: nat)
    requires p <= |s|
    ensures forall i :: 0 <= i < |SyncsFrom(s, p)| ==> OneSync(SyncsFrom(s, p)[i])
    decreases |s| - p
  {
    if p == |s| {
    } else if FoldedAt(s, p, "<sync") && BoundaryFrom(s, p + 5).Some? {
      var e := BoundaryFrom(s, p + 5).value;
      BoundaryFromSpec(s, p + 5);
      SyncsFromShape(s, e);
      BlockShape(s, p, e);
      var rest := SyncsFrom(s, e);
      assert SyncsFrom(s, p) == [s[p..e]] + rest;
      forall i | 0 <= i < |SyncsFrom(s, p)| ensures OneSync(SyncsFrom(s, p)[i]) {
        if i > 0 {
          assert SyncsFrom(s, p)[i] == rest[i - 1];
        }
      }
    } else {
      SyncsFromShape(s, p + 1);
    }
  }

  lemma BlockShape(s: string, p: nat, e: nat)
    requires FoldedAt(s, p, "<sync") && p + 5 <= e <= |s|
    requires forall k :: p + 5 <= k < e ==> !BlockBoundary(s, k)
    ensures OneSync(s[p..e])
  {
    var b := s[p..e];
    assert FoldedAt(b, 0, "<sync") by {
      forall k | 0 <= k < 5 ensures FoldCase(b[k]) == "<sync"[k] {
        assert b[k] == s[p + k];
      }
    }
    forall k | 0 < k <= |b| && FoldedAt(b, k, "<sync") ensures false {
      FoldedHead(b, k, "<sync");
      FoldedChar(b, 0, "<sync", k);
      FoldedSlice(s, p, e, k, "<sync");
      SyncTagIsBoundary(s, p + k);
    }
  }

  /** The first character of a match under the `i` flag, when it is not a letter. */
  lemma FoldedHead(s: string, p: nat, lit: string)
    ensures |lit| > 0 && FoldedAt(s, p, lit) && !('a' <= lit[0] <= 'z') ==> s[p] == lit[0]
  {
    if |lit| > 0 && FoldedAt(s, p, lit) {
      assert FoldCase(s[p + 0]) == lit[0];
    }
  }

  lemma FoldedSlice(s: string, p: nat, e: nat, k: nat, lit: string)
    ensures p <= e <= |s| && FoldedAt(s[p..e], k, lit) ==> FoldedAt(s, p + k, lit)
  {
    if p <= e <= |s| && FoldedAt(s[p..e], k, lit) {
      forall j | 0 <= j < |lit| ensures FoldCase(s[p + k + j]) == lit[j] {
        assert s[p..e][k + j] == s[p + k + j];
      }
    }
  }

  /** A SYNC tag is itself a block boundary. */
  lemma SyncTagIsBoundary(s: string, q: nat)
    ensures q <= |s| && FoldedAt(s, q, "<sync") ==> BlockBoundary(s, q)
  {
    if q <= |s| && FoldedAt(s, q, "<sync") {
      FoldedHead(s, q, "<sync");
      assert SpaceRun(s, q) == 0;
    }
  }

  lemma FoldedChar(s: string, p: nat, lit: string, k: nat)
    ensures FoldedAt(s, p, lit) && k < |lit| ==> FoldCase(s[p + k]) == lit[k]
  {
  }

  // ----- the `&nbsp` repair -----

  /** An `&nbsp` in any case that is not followed by `;`: what `/&nbsp(?!;)/i` matches. */
  predicate BareNbspAt(s: string, p: nat)
  {
    FoldedAt(s, p, "&nbsp") && !(p + 5 < |s| && s[p + 5] == ';')
  }

  function BareNbsp(s: string, p: nat): (r: Option<nat>)
    requires p <= |s|
    ensures r.Some? ==> p <= r.value <= |s| && BareNbspAt(s, r.value)
    ensures r.Some? ==> forall q :: p <= q < r.value ==> !BareNbspAt(s, q)
    ensures r.None? ==> forall q :: p <= q ==> !BareNbspAt(s, q)
    decreases |s| - p
  {
    if BareNbspAt(s, p) then Some(p)
    else if p == |s| then None
    else BareNbsp(s, p + 1)
  }

  /** `sync.replace(/&nbsp(?!;)/i, '&nbsp;')`: without the `g` flag only the first bare
      `&nbsp` is completed. */
  function RepairNbsp(s: string): string
  {
    match BareNbsp(s, 0)
    case Some(p) => s[..p] + "&nbsp;" + s[p + 5..]
    case None => s
  }

  /** The repair completes the leftmost bare `&nbsp` (written back in lower case) and
      leaves a block without one as it is. */
  lemma RepairNbspSpec(s: string, p: nat)
    ensures (forall q :: 0 <= q <= |s| ==> !BareNbspAt(s, q)) ==> RepairNbsp(s) == s
    ensures BareNbspAt(s, p) && (forall q :: 0 <= q < p ==> !BareNbspAt(s, q))
            ==> RepairNbsp(s) == s[..p] + "&nbsp;" + s[p + 5..] && !BareNbspAt(RepairNbsp(s), p)
  {
    var r := BareNbsp(s, 0);
    if r.Some? && BareNbspAt(s, p) && (forall q :: 0 <= q < p ==> !BareNbspAt(s, q)) {
      assert r.value == p;
      var t := s[..p] + "&nbsp;" + s[p + 5..];
      assert t[p + 5] == ';';
    }
  }

  /** Only the first bare `&nbsp` is repaired: a second one is left bare. */
  lemma RepairNbspFirstOnly()
    ensures RepairNbsp("&nbsp&NBSP") == "&nbsp;&NBSP"
    ensures BareNbspAt(RepairNbsp("&nbsp&NBSP"), 6)
  {
    var s := "&nbsp&NBSP";
    LowerNbspBare();
    assert BareNbsp(s, 0) == Some(0);
    assert s[..0] + "&nbsp;" + s[5..] == "&nbsp;&NBSP";
    UpperNbspStaysBare();
  }

  lemma LowerNbspBare()
    ensures BareNbspAt("&nbsp&NBSP", 0)
  {
    var s := "&nbsp&NBSP";
    assert s[5] == '&';
  }

  lemma UpperNbspStaysBare()
    ensures BareNbspAt("&nbsp;&NBSP", 6)
  {
    var r := "&nbsp;&NBSP";
    assert r[6] == '&' && r[7] == 'N' && r[8] == 'B' && r[9] == 'S' && r[10] == 'P';
  }

  // ----- what the HTML parser gives for a block -----

  /** One SYNC block as the HTML parser sees it: its serialised HTML, its `Start`
      attribute as a number, and the text and inner HTML of its `P` element (of the
      SYNC element itself when it has no `P`). */
  datatype SyncRecord = SyncRecord(html: string, start: int, text: string, inner: string)

  /** The first `"` at or after `q`, unless a line terminator comes first. */
  function QuoteEnd(s: string, q: nat): (r: Option<nat>)
    requires q <= |s|
    ensures r.Some? ==> q <= r.value < |s| && s[r.value] == '"'
    decreases |s| - q
  {
    if q == |s| then None
    else if s[q] == '"' then Some(q)
    else if IsLineTerminator(s[q]) then None
    else QuoteEnd(s, q + 1)
  }

  /** `html.match(/class="(.*?)"/)` searched from `p` on. */
  function ClassFrom(s: string, p: nat): Option<string>
    requires p <= |s|
    decreases |s| - p
  {
    if LiteralAt(s, p, "class=\"") && QuoteEnd(s, p + 7).Some? then Some(s[p + 7..QuoteEnd(s, p + 7).value])
    else if p == |s| then None
    else ClassFrom(s, p + 1)
  }

  /** The class label of a block, `unknown` when it has none. */
  function LabelOf(r: SyncRecord): string
  {
    match ClassFrom(r.html, 0)
    case Some(l) => l
    case None => "unknown"
  }

  predicate NoQuote(s: string)
  {
    forall k :: 0 <= k < |s| ==> s[k] != '"'
  }

  /** The label is the value of the first `class` attribute. */
  lemma ClassLabel(pre: string, l: string, post: string, start: int, text: string, inner: string)
    requires NoLineTerminator(l) && NoQuote(l)
    requires forall q :: 0 <= q < |pre| ==> !LiteralAt(pre + "class=\"" + l + "\"" + post, q, "class=\"")
    ensures LabelOf(SyncRecord(pre + "class=\"" + l + "\"" + post, start, text, inner)) == l
  {
    var s := pre + "class=\"" + l + "\"" + post;
    var q := |pre| + 7;
    assert s[q + |l|] == '"';
    forall k | q <= k < q + |l| ensures s[k] != '"' && !IsLineTerminator(s[k]) {
      assert s[k] == l[k - q];
    }
    QuoteEndAt(s, q, q + |l|);
    assert LiteralAt(s, |pre|, "class=\"") by {
      assert s[|pre|..|pre| + 7] == "class=\"";
    }
    ClassFromSkips(s, 0, |pre|);
    assert s[q..q + |l|] == l;
  }

  /** Without a `class` attribute the label is `unknown`. */
  lemma DefaultLabel(r: SyncRecord)
    requires !Occurs(r.html, "class=\"")
    ensures LabelOf(r) == "unknown"
  {
    ClassFromNone(r.html, 0);
  }

  lemma {:induction false} ClassFromNone(s: string, p: nat)
    requires p <= |s| && !Occurs(s, "class=\"")
    ensures ClassFrom(s, p).None?
    decreases |s| - p
  {
    assert !LiteralAt(s, p, "class=\"");
    if p < |s| {
      ClassFromNone(s, p + 1);
    }
  }

  lemma {:induction false} QuoteEndAt(s: string, q: nat, e: nat)
    requires q <= e < |s| && s[e] == '"'
    requires forall k :: q <= k < e ==> s[k] != '"' && !IsLineTerminator(s[k])
    ensures QuoteEnd(s, q) == Some(e)
    decreases e - q
  {
    if q < e {
      QuoteEndAt(s, q + 1, e);
    }
  }

  lemma {:induction false} ClassFromSkips(s: string, p: nat, e: nat)
    requires p <= e <= |s| && LiteralAt(s, e, "class=\"") && QuoteEnd(s, e + 7).Some?
    requires forall q :: p <= q < e ==> !LiteralAt(s, q, "class=\"")
    ensures ClassFrom(s, p) == ClassFrom(s, e)
    decreases e - p
  {
    if p < e {
      ClassFromSkips(s, p + 1, e);
    }
  }

  // ----- grouping by label -----

  /** The properties every object inherits from `Object.prototype`: for such a label
      `syncWithLang[lang]` is already set, and pushing onto it throws. */
  predicate Inherited(l: string)
  {
    l in InheritedNames
  }

  const InheritedNames: set<string> :=
    {"constructor", "__proto__", "__defineGetter__", "__defineSetter__", "__lookupGetter__",
     "__lookupSetter__", "hasOwnProperty", "isPrototypeOf", "propertyIsEnumerable",
     "toLocaleString", "toString", "valueOf"}

  /** The `syncWithLang` object: the blocks of each label, and its keys in insertion
      order. */
  datatype Groups = Groups(byLabel: map<string, seq<SyncRecord>>, order: seq<string>)

  function Grouping(records: seq<SyncRecord>): Result<Groups>
  {
    if records == [] then Ok(Groups(map[], []))
    else
      match Grouping(records[..|records| - 1])
      case Fail(f) => Fail(f)
      case Ok(g) =>
        var r := records[|records| - 1];
        var l := LabelOf(r);
        if Inherited(l) then Fail(InheritedLabel(l))
        else if l in g.byLabel then Ok(Groups(g.byLabel[l := g.byLabel[l] + [r]], g.order))
        else Ok(Groups(g.byLabel[l := [r]], g.order + [l]))
  }

  method GroupSyncs(records: seq<SyncRecord>) returns (r: Result<Groups>)
    ensures r == Grouping(records)
  {
    var byLabel: map<string, seq<SyncRecord>> := map[];
    var order: seq<string> := [];
    var i := 0;
    while i < |records|
      invariant 0 <= i <= |records|
      invariant Grouping(records[..i]) == Ok(Groups(byLabel, order))
    {
      var sync := records[i];
      var lang := LabelOf(sync);
      assert records[..i + 1][..i] == records[..i];
      if Inherited(lang) {
        GroupingFailed(records, i + 1);
        return Fail(InheritedLabel(lang));
      }
      if lang in byLabel {
        byLabel := byLabel[lang := byLabel[lang] + [sync]];
      } else {
        byLabel := byLabel[lang := [sync]];
        order := order + [lang];
      }
      i := i + 1;
    }
    assert records[..i] == records;
    return Ok(Groups(byLabel, order));
  }

  /** Once grouping fails on a prefix, it fails with the same label on the whole. */
  lemma {:induction false} GroupingFailed(records: seq<SyncRecord>, n: nat)
    requires n <= |records| && Grouping(records[..n]).Fail?
    ensures Grouping(records) == Grouping(records[..n])
    decreases |records| - n
  {
    if n < |records| {
      assert records[..n + 1][..n] == records[..n];
      GroupingFailed(records, n + 1);
    } else {
      assert records[..n] == records;
    }
  }

  function HasLabel(l: string): SyncRecord -> bool
  {
    r => LabelOf(r) == l
  }

  /** The blocks with label `l`, in file order. */
  function OfLabel(records: seq<SyncRecord>, l: string): seq<SyncRecord>
  {
    Filter(records, HasLabel(l))
  }

  /** Grouping fails exactly when some label names an inherited property, and then
      with the first such label in file order. */
  lemma GroupingFailure(records: seq<SyncRecord>)
    ensures Grouping(records).Ok? <==> forall i :: 0 <= i < |records| ==> !Inherited(LabelOf(records[i]))
    ensures Grouping(records).Fail? ==>
      exists i :: 0 <= i < |records| && Grouping(records).failure == InheritedLabel(LabelOf(records[i]))
                  && Inherited(LabelOf(records[i]))
                  && forall j :: 0 <= j < i ==> !Inherited(LabelOf(records[j]))
  {
    GroupingOkAll(records);
    assert AllOwn(records) <==> forall i :: 0 <= i < |records| ==> !Inherited(LabelOf(records[i]));
    if Grouping(records).Fail? {
      var i := GroupingFirstFailure(records);
    }
  }

  /** The last step of the grouping succeeds exactly when the steps before it did and
      the last label is an own property; a failure before it is kept. */
  lemma GroupingOkStep(records: seq<SyncRecord>)
    requires records != []
    ensures var init := records[..|records| - 1]; var l := LabelOf(records[|records| - 1]);
      && (Grouping(records).Ok? <==> Grouping(init).Ok? && !Inherited(l))
      && (Grouping(init).Fail? ==> Grouping(records) == Grouping(init))
      && (Grouping(init).Ok? && Inherited(l) ==> Grouping(records) == Fail(InheritedLabel(l)))
  {
  }

  /** No label of `records` names an inherited property. */
  predicate AllOwn(records: seq<SyncRecord>)
  {
    forall i :: 0 <= i < |records| ==> !Inherited(LabelOf(records[i]))
  }

  lemma AllOwnSnoc(records: seq<SyncRecord>)
    requires records != []
    ensures AllOwn(records) <==> AllOwn(records[..|records| - 1]) && !Inherited(LabelOf(records[|records| - 1]))
  {
    var n := |records| - 1;
    var init := records[..n];
    assert forall i :: 0 <= i < n ==> records[i] == init[i];
  }

  lemma {:induction false} GroupingOkAll(records: seq<SyncRecord>)
    ensures Grouping(records).Ok? <==> AllOwn(records)
  {
    if records != [] {
      GroupingOkStep(records);
      GroupingOkAll(records[..|records| - 1]);
      AllOwnSnoc(records);
    }
  }

  lemma {:induction false} GroupingFirstFailure(records: seq<SyncRecord>) returns (i: nat)
    requires Grouping(records).Fail?
    ensures i < |records| && Grouping(records).failure == InheritedLabel(LabelOf(records[i]))
    ensures Inherited(LabelOf(records[i])) && forall j :: 0 <= j < i ==> !Inherited(LabelOf(records[j]))
  {
    var n := |records| - 1;
    var init := records[..n];
    GroupingOkStep(records);
    if Grouping(init).Fail? {
      i := GroupingFirstFailure(init);
      assert forall j :: 0 <= j <= i ==> records[j] == init[j];
    } else {
      i := n;
      GroupingOkAll(init);
      assert forall j :: 0 <= j < n ==> records[j] == init[j];
    }
  }

  /** Grouping puts every block under its label, keeps file order within a label, and
      records each label once, in the order the labels first occur. */
  lemma GroupingGroups(records: seq<SyncRecord>)
    requires Grouping(records).Ok?
    ensures var g := Grouping(records).value;
      && (forall l :: l in g.byLabel <==> l in g.order)
      && (forall l :: l in g.order <==> exists i :: 0 <= i < |records| && LabelOf(records[i]) == l)
      && (forall i, j :: 0 <= i < j < |g.order| ==> g.order[i] != g.order[j])
      && (forall l :: l in g.byLabel ==> g.byLabel[l] == OfLabel(records, l))
  {
    GroupingKeys(records);
    GroupingLabels(records);
    GroupingContents(records);
  }

  /** The last step of the grouping. */
  lemma GroupingStep(records: seq<SyncRecord>)
    requires records != [] && Grouping(records).Ok?
    ensures var init := records[..|records| - 1]; var r := records[|records| - 1]; var l := LabelOf(r);
      && Grouping(init).Ok? && !Inherited(l)
      && var g0 := Grouping(init).value;
         Grouping(records).value
         == if l in g0.byLabel then Groups(g0.byLabel[l := g0.byLabel[l] + [r]], g0.order)
            else Groups(g0.byLabel[l := [r]], g0.order + [l])
  {
  }

  lemma {:induction false} GroupingKeys(records: seq<SyncRecord>)
    requires Grouping(records).Ok?
    ensures var g := Grouping(records).value;
      && (forall l :: l in g.byLabel <==> l in g.order)
      && (forall i, j :: 0 <= i < j < |g.order| ==> g.order[i] != g.order[j])
  {
    if records != [] {
      GroupingStep(records);
      GroupingKeys(records[..|records| - 1]);
    }
  }

  /** Some block of `records` has label `l`. */
  predicate Labelled(records: seq<SyncRecord>, l: string)
  {
    exists i :: 0 <= i < |records| && LabelOf(records[i]) == l
  }

  lemma LabelledSnoc(records: seq<SyncRecord>, l: string)
    requires records != []
    ensures Labelled(records, l) <==> Labelled(records[..|records| - 1], l) || LabelOf(records[|records| - 1]) == l
  {
    var n := |records| - 1;
    var init := records[..n];
    if Labelled(records, l) {
      var i :| 0 <= i < |records| && LabelOf(records[i]) == l;
      if i < n {
        assert init[i] == records[i];
      }
    }
    if Labelled(init, l) {
      var i :| 0 <= i < n && LabelOf(init[i]) == l;
      assert records[i] == init[i];
    }
  }

  lemma {:induction false} GroupingLabels(records: seq<SyncRecord>)
    requires Grouping(records).Ok?
    ensures var g := Grouping(records).value;
      forall l :: l in g.order <==> Labelled(records, l)
  {
    if records != [] {
      var n := |records| - 1;
      var init := records[..n];
      GroupingStep(records);
      GroupingLabels(init);
      GroupingKeys(init);
      var g0 := Grouping(init).value;
      var g := Grouping(records).value;
      var r := LabelOf(records[n]);
      assert g.order == g0.order || g.order == g0.order + [r];
      assert r !in g0.order ==> g.order == g0.order + [r];
      forall l ensures l in g.order <==> Labelled(records, l) {
        LabelledSnoc(records, l);
      }
    }
  }

  lemma {:induction false} GroupingContents(records: seq<SyncRecord>)
    requires Grouping(records).Ok?
    ensures var g := Grouping(records).value;
      forall l :: l in g.byLabel ==> g.byLabel[l] == OfLabel(records, l)
  {
    if records != [] {
      var n := |records| - 1;
      var init := records[..n];
      var r := records[n];
      GroupingStep(records);
      GroupingContents(init);
      GroupingLabels(init);
      GroupingKeys(init);
      var g0 := Grouping(init).value;
      var g := Grouping(records).value;
      assert records == init + [r];
      forall l | l in g.byLabel ensures g.byLabel[l] == OfLabel(records, l) {
        FilterSnoc(init, r, HasLabel(l));
        if l !in g0.byLabel {
          forall i | 0 <= i < |init| ensures !HasLabel(l)(init[i]) {
            assert LabelOf(init[i]) != l;
          }
          FilterNone(init, HasLabel(l));
        }
      }
    }
  }

  // ----- the order of `for (var lang in syncWithLang)` -----

  /** A key that names an array index: a canonical decimal below 2^32 - 1. */
  predicate IsArrayIndex(l: string)
  {
    |l| > 0 && AllDigits(l) && (l[0] != '0' || |l| == 1) && DigitsValue(l) < 0xFFFF_FFFF
  }

  predicate NotArrayIndex(l: string)
  {
    !IsArrayIndex(l)
  }

  /** The numeric value of an array-index key. */
  function IndexKey(l: string): int
  {
    if IsArrayIndex(l) then DigitsValue(l) else -1
  }

  /** Property order: array-index keys in ascending numeric order, then the other keys
      in insertion order. */
  function ForInOrder(keys: seq<string>): seq<string>
  {
    SortBy(Filter(keys, IsArrayIndex), IndexKey) + Filter(keys, NotArrayIndex)
  }

  /** The loop visits every key once, and no array-index key after another key or
      after a larger array index. */
  lemma ForInOrderSpec(keys: seq<string>)
    ensures multiset(ForInOrder(keys)) == multiset(keys)
    ensures var o := ForInOrder(keys);
      forall i, j :: 0 <= i < j < |o| && IsArrayIndex(o[j]) ==> IsArrayIndex(o[i]) && IndexKey(o[i]) <= IndexKey(o[j])
  {
    ForInOrderPermutes(keys);
    ForInOrderOrdered(keys);
  }

  lemma ForInOrderPermutes(keys: seq<string>)
    ensures multiset(ForInOrder(keys)) == multiset(keys)
  {
    var idx := Filter(keys, IsArrayIndex);
    SortByFacts(idx, IndexKey);
    FilterPartition(keys, IsArrayIndex, NotArrayIndex);
  }

  lemma ForInOrderOrdered(keys: seq<string>)
    ensures var o := ForInOrder(keys);
      forall i, j :: 0 <= i < j < |o| && IsArrayIndex(o[j]) ==> IsArrayIndex(o[i]) && IndexKey(o[i]) <= IndexKey(o[j])
  {
    var idx := Filter(keys, IsArrayIndex);
    var rest := Filter(keys, NotArrayIndex);
    var sorted := SortBy(idx, IndexKey);
    SortByFacts(idx, IndexKey);
    FilterKept(keys, IsArrayIndex);
    FilterKept(keys, NotArrayIndex);
    SortByKeeps(idx, IndexKey, IsArrayIndex);
    var o := sorted + rest;
    forall j | |sorted| <= j < |o| ensures !IsArrayIndex(o[j]) {
      assert o[j] == rest[j - |sorted|];
    }
    forall i, j | 0 <= i < j < |sorted|
      ensures IsArrayIndex(o[i]) && IndexKey(o[i]) <= IndexKey(o[j])
    {
      assert o[i] == sorted[i] && o[j] == sorted[j];
    }
  }

  // ----- one label's track -----

  /** A block together with the `Start` of the next block of its label in file order
      (`sync.next()`), if there is one. */
  datatype Timed = Timed(sync: SyncRecord, next: Option<int>)

  function Paired(group: seq<SyncRecord>): (ts: seq<Timed>)
    ensures |ts| == |group|
  {
    seq(|group|, i requires 0 <= i < |group| =>
      Timed(group[i], if i + 1 < |group| then Some(group[i + 1].start) else None))
  }

  function TimedStart(t: Timed): int { t.sync.start }

  function CueStart(c: Cue): int { c.start }

  /** The global replacement of `<br>\s*` by a newline in the inner HTML: each `<br>`
      and the white space after it become one newline. */
  function BrToNewline(s: string): string
    decreases |s|
  {
    if s == [] then []
    else if LiteralAt(s, 0, "<br>") then "\n" + BrToNewline(s[4 + SpaceRun(s, 4)..])
    else [s[0]] + BrToNewline(s[1..])
  }

  /** The text of a cue: the inner HTML with its line breaks, trimmed. */
  function SyncText(r: SyncRecord): string
  {
    Trim(BrToNewline(r.inner))
  }

  /** The drop rules: a block without a following start, or whose following start is
      0 (`!stop`), and a block whose text is empty or trims to `&nbsp;`, give no cue. */
  predicate Dropped(t: Timed)
  {
    t.next.None? || t.next.value == 0 || t.sync.text == "" || Trim(t.sync.text) == "&nbsp;"
  }

  function SyncCue(t: Timed): (c: Option<Cue>)
    ensures c.None? <==> Dropped(t)
    ensures c.Some? ==> c.value.start == t.sync.start && c.value.stop == t.next.value
  {
    if t.next.None? || t.next.value == 0 then None
    else if t.sync.text != "" && Trim(t.sync.text) != "&nbsp;" then
      Some(Cue(t.sync.start, t.next.value, SyncText(t.sync)))
    else None
  }

  /** The track of one label: the blocks stably sorted by start, each turned into a cue
      unless dropped. */
  function LabelTrack(group: seq<SyncRecord>): Track
  {
    Collect(SortBy(Paired(group), TimedStart), SyncCue)
  }

  /** Three blocks of one label, in start order: the first two give cues that run to
      the next block's start, and the last, which has no next block, gives none,
      whatever its text. */
  lemma ThreeBlockTrack(a: SyncRecord, b: SyncRecord, c: SyncRecord)
    requires a.start <= b.start <= c.start && b.start != 0 && c.start != 0
    requires a.text != "" && Trim(a.text) != "&nbsp;" && b.text != "" && Trim(b.text) != "&nbsp;"
    ensures LabelTrack([a, b, c]) == [Cue(a.start, b.start, SyncText(a)), Cue(b.start, c.start, SyncText(b))]
  {
    var ts := [Timed(a, Some(b.start)), Timed(b, Some(c.start)), Timed(c, None)];
    PairedThree(a, b, c);
    SortOfSorted(ts, TimedStart);
    CollectThree(ts[0], ts[1], ts[2], SyncCue);
  }

  lemma PairedThree(a: SyncRecord, b: SyncRecord, c: SyncRecord)
    ensures Paired([a, b, c]) == [Timed(a, Some(b.start)), Timed(b, Some(c.start)), Timed(c, None)]
  {
  }

  lemma CollectThree<T, U>(x: T, y: T, z: T, f: T -> Option<U>)
    requires f(x).Some? && f(y).Some? && f(z).None?
    ensures Collect([x, y, z], f) == [f(x).value, f(y).value]
  {
    assert [x, y, z][1..] == [y, z] && [y, z][1..] == [z] && [z][1..] == [];
    assert Collect([z], f) == [];
    assert Collect([y, z], f) == [f(y).value];
  }

  /** The cues of a label's blocks in file order, before sorting. */
  function FileOrderCues(group: seq<SyncRecord>): Track
  {
    Collect(Paired(group), SyncCue)
  }

  method BuildLabelTrack(group: seq<SyncRecord>) returns (sub: Track)
    ensures sub == LabelTrack(group)
  {
    var sorted := SortBy(Paired(group), TimedStart);
    sub := [];
    var i := 0;
    while i < |sorted|
      invariant 0 <= i <= |sorted|
      invariant sub == Collect(sorted[..i], SyncCue)
    {
      var cue := EmitBlock(sorted[i]);
      CollectStep(sorted, i, sub, cue, SyncCue);
      if cue.Some? {
        sub := sub + [cue.value];
      }
      i := i + 1;
    }
    assert sorted[..i] == sorted;
  }

  /** The body of the loop over the sorted blocks: the cue one block adds, if any. */
  method EmitBlock(e: Timed) returns (cue: Option<Cue>)
    ensures cue == SyncCue(e)
  {
    var start := e.sync.start;
    var stop := e.next;
    cue := None;
    if stop.Some? && stop.value != 0 {
      if e.sync.text != "" && Trim(e.sync.text) != "&nbsp;" {
        cue := Some(Cue(start, stop.value, Trim(BrToNewline(e.sync.inner))));
      }
    }
  }

  /** A label's track is the stable sort by start of its kept cues in file order: it is
      ordered by start, holds the same cues, and cues with the same start keep their
      file order. */
  lemma LabelTrackSpec(group: seq<SyncRecord>, k: int)
    ensures LabelTrack(group) == SortBy(FileOrderCues(group), CueStart)
    ensures SortedBy(LabelTrack(group), CueStart)
    ensures multiset(LabelTrack(group)) == multiset(FileOrderCues(group))
    ensures Filter(LabelTrack(group), KeyIs(CueStart, k)) == Filter(FileOrderCues(group), KeyIs(CueStart, k))
  {
    forall t | SyncCue(t).Some? ensures CueStart(SyncCue(t).value) == TimedStart(t) {
    }
    CollectSortBy(Paired(group), TimedStart, SyncCue, CueStart);
    SortByFacts(FileOrderCues(group), CueStart);
    SortByStable(FileOrderCues(group), CueStart, k);
  }

  /** A cue of a label comes from one of its blocks that is not the last, starts at
      its start, stops at the start of the next block in file order and carries its
      text; and every such block that is not dropped gives its cue. */
  lemma FileOrderCuesSpec(group: seq<SyncRecord>, c: Cue)
    ensures c in FileOrderCues(group) <==>
      exists j :: 0 <= j < |group| - 1 && !Dropped(Timed(group[j], Some(group[j + 1].start)))
                  && c == Cue(group[j].start, group[j + 1].start, SyncText(group[j]))
  {
    var ps := Paired(group);
    CollectMembers(ps, SyncCue, c);
    if c in FileOrderCues(group) {
      var j :| 0 <= j < |ps| && SyncCue(ps[j]) == Some(c);
      PairedCue(group, j);
    }
    if exists j :: 0 <= j < |group| - 1 && !Dropped(Timed(group[j], Some(group[j + 1].start)))
                   && c == Cue(group[j].start, group[j + 1].start, SyncText(group[j])) {
      var j :| 0 <= j < |group| - 1 && !Dropped(Timed(group[j], Some(group[j + 1].start)))
               && c == Cue(group[j].start, group[j + 1].start, SyncText(group[j]));
      PairedCue(group, j);
    }
  }

  lemma PairedCue(group: seq<SyncRecord>, j: nat)
    requires j < |group|
    ensures SyncCue(Paired(group)[j])
            == if j + 1 < |group| && !Dropped(Timed(group[j], Some(group[j + 1].start)))
               then Some(Cue(group[j].start, group[j + 1].start, SyncText(group[j])))
               else None
  {
    var t := Paired(group)[j];
    if j + 1 < |group| {
      assert t == Timed(group[j], Some(group[j + 1].start));
    } else {
      assert t.next.None?;
    }
  }

  // ----- line breaks -----

  /** A prefix without newlines of the rewritten text was already there. */
  lemma {:induction false} BrToNewlinePrefix(t: string, w: string)
    requires forall k :: 0 <= k < |w| ==> w[k] != '\n'
    requires |w| <= |BrToNewline(t)| && BrToNewline(t)[..|w|] == w
    ensures |w| <= |t| && t[..|w|] == w
    decreases |w|
  {
    if w != [] {
      var r := BrToNewline(t);
      assert t != [];
      assert w[0] == r[..|w|][0];
      if !LiteralAt(t, 0, "<br>") {
        var tail := BrToNewline(t[1..]);
        assert r == [t[0]] + tail;
        assert tail[..|w| - 1] == r[..|w|][1..];
        BrToNewlinePrefix(t[1..], w[1..]);
        assert w == [w[0]] + w[1..];
        assert w[0] == r[..|w|][0] == t[0];
      }
    }
  }

  /** No `<br>` is left after the rewrite. */
  lemma {:induction false} BrToNewlineNoBr(s: string)
    ensures !Occurs(BrToNewline(s), "<br>")
    decreases |s|
  {
    if s != [] {
      var r := BrToNewline(s);
      if LiteralAt(s, 0, "<br>") {
        var rest := s[4 + SpaceRun(s, 4)..];
        BrToNewlineNoBr(rest);
        NoBrCons('\n', BrToNewline(rest));
      } else {
        var tail := BrToNewline(s[1..]);
        BrToNewlineNoBr(s[1..]);
        assert r == [s[0]] + tail;
        if LiteralAt(r, 0, "<br>") {
          assert tail[..3] == r[1..4] == r[0..4][1..];
          BrToNewlinePrefix(s[1..], "br>");
          assert false;
        }
        NoBrCons(s[0], tail);
      }
    }
  }

  /** A character in front of a text without `<br>` adds none, unless it starts one. */
  lemma NoBrCons(c: char, tail: string)
    requires !Occurs(tail, "<br>") && !LiteralAt([c] + tail, 0, "<br>")
    ensures !Occurs([c] + tail, "<br>")
  {
    var r := [c] + tail;
    forall q | 0 < q <= |r| && LiteralAt(r, q, "<br>") ensures false {
      assert tail[q - 1..q + 3] == r[q..q + 4];
      assert LiteralAt(tail, q - 1, "<br>");
    }
  }

  /** Text without `<br>` is left as it is. */
  lemma {:induction false} BrToNewlineIdentity(s: string)
    requires !Occurs(s, "<br>")
    ensures BrToNewline(s) == s
    decreases |s|
  {
    if s != [] {
      assert !LiteralAt(s, 0, "<br>");
      assert !Occurs(s[1..], "<br>") by {
        forall q | 0 <= q <= |s[1..]| && LiteralAt(s[1..], q, "<br>") ensures false {
          assert s[1..][q..q + 4] == s[q + 1..q + 5];
          assert LiteralAt(s, q + 1, "<br>");
        }
      }
      BrToNewlineIdentity(s[1..]);
    }
  }

  /** Text without `<br>` is copied as it is, when what follows starts a tag: the
      pattern has no suffix that is also a prefix, so no match can straddle the join. */
  lemma {:induction false} BrToNewlinePlain(a: string, rest: string)
    requires !Occurs(a, "<br>") && (rest == [] || rest[0] == '<')
    ensures BrToNewline(a + rest) == a + BrToNewline(rest)
    decreases |a|
  {
    if a == [] {
      assert a + rest == rest;
    } else {
      var s := a + rest;
      NoBrAtJoin(a, rest);
      BrToNewlineCopy(s);
      assert s[0] == a[0] && s[1..] == a[1..] + rest;
      NoBrTail(a);
      BrToNewlinePlain(a[1..], rest);
      ConsRest(a, BrToNewline(rest));
    }
  }

  lemma BrToNewlineAtBr(w: string, b: string)
    requires AllSpaces(w) && (b == [] || !IsSpace(b[0]))
    ensures BrToNewline("<br>" + w + b) == "\n" + BrToNewline(b)
  {
    var e := "<br>" + w + b;
    assert LiteralAt(e, 0, "<br>") by { assert e[0..4] == "<br>"; }
    SpaceRunEndsAt(e, 4, |w|);
    assert e[4 + |w|..] == b;
  }

  /** A character that does not start `<br>` is copied. */
  lemma BrToNewlineCopy(s: string)
    requires s != [] && !LiteralAt(s, 0, "<br>")
    ensures BrToNewline(s) == [s[0]] + BrToNewline(s[1..])
  {
  }

  lemma ConsRest(a: string, t: string)
    requires a != []
    ensures [a[0]] + (a[1..] + t) == a + t
  {
    assert [a[0]] + a[1..] == a;
  }

  lemma NoBrTail(a: string)
    requires a != [] && !Occurs(a, "<br>")
    ensures !Occurs(a[1..], "<br>")
  {
    forall q | 0 <= q <= |a[1..]| && LiteralAt(a[1..], q, "<br>") ensures false {
      assert a[1..][q..q + 4] == a[q + 1..q + 5];
      assert LiteralAt(a, q + 1, "<br>");
    }
  }

  lemma NoBrAtJoin(a: string, rest: string)
    requires a != [] && !Occurs(a, "<br>") && (rest == [] || rest[0] == '<')
    ensures !LiteralAt(a + rest, 0, "<br>")
  {
    var s := a + rest;
    if |a| >= 4 {
      assert !LiteralAt(a, 0, "<br>");
      assert s[0..4] == a[0..4];
    } else if 4 <= |s| {
      assert s[|a|] == '<';
      assert s[0..4][|a|] == s[|a|];
    }
  }

  /** Each `<br>` and the white space after it become exactly one newline: the text
      before the first `<br>` is kept, and the scan goes on after the white space. */
  lemma BrToNewlineBreak(a: string, w: string, b: string)
    requires !Occurs(a, "<br>") && AllSpaces(w) && (b == [] || !IsSpace(b[0]))
    ensures BrToNewline(a + "<br>" + w + b) == BrToNewline(a) + "\n" + BrToNewline(b)
  {
    var e := "<br>" + w + b;
    assert a + "<br>" + w + b == a + e;
    BrToNewlinePlain(a, e);
    BrToNewlineAtBr(w, b);
    BrToNewlineIdentity(a);
  }

  // ----- all tracks -----

  /** The tracks of the labels, in the given order. */
  function TracksOf(labels: seq<string>, groups: map<string, seq<SyncRecord>>): (tracks: seq<Track>)
    requires forall l :: l in labels ==> l in groups
    ensures |tracks| == |labels|
  {
    if labels == [] then []
    else TracksOf(labels[..|labels| - 1], groups) + [LabelTrack(groups[labels[|labels| - 1]])]
  }

  /** The SAMI branch of `readSubtitle` on the parsed blocks: one track per label, in
      property order, or the `TypeError` of an inherited label. */
  function SamiTracks(records: seq<SyncRecord>): Result<seq<Track>>
  {
    match Grouping(records)
    case Fail(f) => Fail(f)
    case Ok(g) =>
      KeysGrouped(records);
      Ok(TracksOf(ForInOrder(g.order), g.byLabel))
  }

  /** Every key the loop visits has a group. */
  lemma KeysGrouped(records: seq<SyncRecord>)
    requires Grouping(records).Ok?
    ensures var g := Grouping(records).value;
      forall l :: l in ForInOrder(g.order) ==> l in g.byLabel
  {
    var g := Grouping(records).value;
    GroupingKeys(records);
    ForInOrderSpec(g.order);
    assert forall l :: l in ForInOrder(g.order) ==> l in multiset(g.order);
  }

  method ReadSami(records: seq<SyncRecord>) returns (r: Result<seq<Track>>)
    ensures r == SamiTracks(records)
  {
    var grouped := GroupSyncs(records);
    if grouped.Fail? {
      return Fail(grouped.failure);
    }
    var g := grouped.value;
    KeysGrouped(records);
    var subs := BuildTracks(ForInOrder(g.order), g.byLabel);
    return Ok(subs);
  }

  /** The `for (var lang in syncWithLang)` loop, over the keys in property order. */
  method BuildTracks(keys: seq<string>, groups: map<string, seq<SyncRecord>>) returns (subs: seq<Track>)
    requires forall l :: l in keys ==> l in groups
    ensures subs == TracksOf(keys, groups)
  {
    subs := [];
    var i := 0;
    PrefixGrouped(keys, groups, 0);
    while i < |keys|
      invariant 0 <= i <= |keys|
      invariant forall l :: l in keys[..i] ==> l in groups
      invariant subs == TracksOf(keys[..i], groups)
    {
      var lang := keys[i];
      var sub := BuildLabelTrack(groups[lang]);
      TracksOfSnoc(keys, groups, i);
      subs := subs + [sub];
      i := i + 1;
    }
    assert keys[..i] == keys;
  }

  lemma PrefixGrouped(keys: seq<string>, groups: map<string, seq<SyncRecord>>, i: nat)
    requires forall l :: l in keys ==> l in groups
    requires i <= |keys|
    ensures forall l :: l in keys[..i] ==> l in groups
  {
    forall l | l in keys[..i] ensures l in groups {
      var k :| 0 <= k < i && keys[..i][k] == l;
      assert keys[k] == l;
    }
  }

  /** One more key adds its label's track at the end. */
  lemma TracksOfSnoc(keys: seq<string>, groups: map<string, seq<SyncRecord>>, i: nat)
    requires forall l :: l in keys ==> l in groups
    requires i < |keys|
    ensures forall l :: l in keys[..i + 1] ==> l in groups
    ensures forall l :: l in keys[..i] ==> l in groups
    ensures TracksOf(keys[..i + 1], groups) == TracksOf(keys[..i], groups) + [LabelTrack(groups[keys[i]])]
  {
    PrefixGrouped(keys, groups, i);
    PrefixGrouped(keys, groups, i + 1);
    assert keys[..i + 1][..i] == keys[..i];
  }

  /** Every track is the track of one label's blocks, the labels taken in property
      order, each once. */
  lemma SamiTracksSpec(records: seq<SyncRecord>)
    requires SamiTracks(records).Ok?
    ensures var g := Grouping(records).value; var keys := ForInOrder(g.order);
      var ts := SamiTracks(records).value;
      |ts| == |keys| && forall i :: 0 <= i < |ts| ==> ts[i] == LabelTrack(OfLabel(records, keys[i]))
  {
    var g := Grouping(records).value;
    var keys := ForInOrder(g.order);
    KeysGrouped(records);
    GroupingContents(records);
    TracksOfAt(keys, g.byLabel);
  }

  lemma {:induction false} TracksOfAt(labels: seq<string>, groups: map<string, seq<SyncRecord>>)
    requires forall l :: l in labels ==> l in groups
    ensures forall i {:trigger TracksOf(labels, groups)[i]} :: 0 <= i < |labels| ==>
      TracksOf(labels, groups)[i] == LabelTrack(groups[labels[i]])
  {
    if labels != [] {
      var n := |labels| - 1;
      var init := labels[..n];
      TracksOfSnoc(labels, groups, n);
      assert labels[..n + 1] == labels;
      TracksOfAt(init, groups);
      var ts := TracksOf(labels, groups);
      assert ts == TracksOf(init, groups) + [LabelTrack(groups[labels[n]])];
      forall i | 0 <= i < |labels| ensures ts[i] == LabelTrack(groups[labels[i]]) {
        if i < n {
          assert labels[i] == init[i];
          assert ts[i] == TracksOf(init, groups)[i];
        } else {
          assert |TracksOf(init, groups)| == n && i == n;
        }
      }
    }
  }
}
