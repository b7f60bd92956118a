/** The text of an ASS event as the converter rewrites it: `\N` and `\n` become line
    breaks, then every `{...}` override block is replaced by the HTML tags that its
    commands ask for. Each block is translated on its own, with a fresh record of the
    tags it has opened. */
module AssOverride {
  import opened JsText

  // ----- line breaks -----

  /** `\N` or `\n` (a backslash and the letter in either case) starts at `k`. */
  predicate BreakAt(s: string, k: nat)
  {
    k + 1 < |s| && s[k] == '\\' && (s[k + 1] == 'N' || s[k + 1] == 'n')
  }

  predicate HasBreakEscape(s: string)
  {
    exists k :: 0 <= k < |s| && BreakAt(s, k)
  }

  /** `s.replace(/\\N/gi, '\n')`: left to right, each escape becomes one newline and
      the scan goes on after it. */
  function ReplaceBreaks(s: string): (r: string)
    ensures |r| <= |s|
    ensures r == [] <==> s == []
    ensures r != [] ==> r[0] == if BreakAt(s, 0) then '\n' else s[0]
  {
    if s == [] then ""
    else if BreakAt(s, 0) then "\n" + ReplaceBreaks(s[2..])
    else [s[0]] + ReplaceBreaks(s[1..])
  }

  /** No escape is left after the replacement. */
  lemma {:induction false} ReplaceBreaksComplete(s: string)
    ensures !HasBreakEscape(ReplaceBreaks(s))
    decreases |s|
  {
    if s != [] {
      var r := ReplaceBreaks(s);
      if BreakAt(s, 0) {
        ReplaceBreaksComplete(s[2..]);
        forall k: nat ensures !BreakAt(r, k) {
          if k > 0 && BreakAt(r, k) {
            assert BreakAt(ReplaceBreaks(s[2..]), k - 1);
          }
        }
      } else {
        var t := ReplaceBreaks(s[1..]);
        ReplaceBreaksComplete(s[1..]);
        forall k: nat ensures !BreakAt(r, k) {
          if k > 0 && BreakAt(r, k) {
            assert BreakAt(t, k - 1);
          }
        }
      }
    }
  }

  /** A text without escapes is left as it is. */
  lemma {:induction false} ReplaceBreaksIdentity(s: string)
    requires !HasBreakEscape(s)
    ensures ReplaceBreaks(s) == s
    decreases |s|
  {
    if s != [] {
      assert !BreakAt(s, 0);
      assert !HasBreakEscape(s[1..]) by {
        forall k: nat ensures !BreakAt(s[1..], k) {
          if BreakAt(s[1..], k) { assert BreakAt(s, k + 1); }
        }
      }
      ReplaceBreaksIdentity(s[1..]);
    }
  }

  /** Text without an escape is copied as it is, when its last character and what
      follows do not make one. */
  lemma {:induction false} ReplaceBreaksPlain(a: string, rest: string)
    requires !HasBreakEscape(a)
    requires !(a != [] && a[|a| - 1] == '\\' && rest != [] && (rest[0] == 'N' || rest[0] == 'n'))
    ensures ReplaceBreaks(a + rest) == a + ReplaceBreaks(rest)
    decreases |a|
  {
    if a == [] {
      assert a + rest == rest;
    } else {
      var s := a + rest;
      NoBreakAtJoin(a, rest);
      ReplaceBreaksCopy(s);
      assert s[0] == a[0] && s[1..] == a[1..] + rest;
      NoBreakTail(a);
      ReplaceBreaksPlain(a[1..], rest);
      Assoc([a[0]], a[1..], ReplaceBreaks(rest));
      assert [a[0]] + a[1..] == a;
    }
  }

  /** A character that does not start an escape is copied. */
  lemma ReplaceBreaksCopy(s: string)
    requires s != [] && !BreakAt(s, 0)
    ensures ReplaceBreaks(s) == [s[0]] + ReplaceBreaks(s[1..])
  {
  }

  lemma NoBreakAtJoin(a: string, rest: string)
    requires a != [] && !HasBreakEscape(a)
    requires !(a[|a| - 1] == '\\' && rest != [] && (rest[0] == 'N' || rest[0] == 'n'))
    ensures !BreakAt(a + rest, 0)
  {
    if |a| >= 2 {
      assert !BreakAt(a, 0);
    }
  }

  lemma NoBreakTail(a: string)
    requires a != [] && !HasBreakEscape(a)
    ensures !HasBreakEscape(a[1..])
  {
    forall k: nat ensures !BreakAt(a[1..], k) {
      if BreakAt(a[1..], k) { assert BreakAt(a, k + 1); }
    }
  }

  /** Each escape becomes exactly one newline: the text before the first escape is
      kept, and the scan goes on after it. */
  lemma ReplaceBreaksEscape(a: string, n: char, b: string)
    requires !HasBreakEscape(a) && (n == 'N' || n == 'n')
    ensures ReplaceBreaks(a + "\\" + [n] + b) == ReplaceBreaks(a) + "\n" + ReplaceBreaks(b)
  {
    var e := "\\" + [n] + b;
    assert a + "\\" + [n] + b == a + e;
    ReplaceBreaksPlain(a, e);
    assert BreakAt(e, 0) && e[2..] == b;
    ReplaceBreaksIdentity(a);
  }

  /** Replacing twice is replacing once. */
  lemma ReplaceBreaksIdempotent(s: string)
    ensures ReplaceBreaks(ReplaceBreaks(s)) == ReplaceBreaks(s)
  {
    ReplaceBreaksComplete(s);
    ReplaceBreaksIdentity(ReplaceBreaks(s));
  }

  // ----- the commands of one block -----

  /** An HTML tag the translation emits. */
  datatype Tag = Open(name: string) | Close(name: string) | Font(colour: string)

  function TagText(t: Tag): string
  {
    match t
    case Open(n) => "<" + n + ">"
    case Close(n) => "</" + n + ">"
    case Font(c) => "<font color=\"#" + c + "\">"
  }

  function TagsText(ts: seq<Tag>): string
  {
    if ts == [] then "" else TagText(ts[0]) + TagsText(ts[1..])
  }

  lemma {:induction false} TagsTextAppend(a: seq<Tag>, b: seq<Tag>)
    ensures TagsText(a + b) == TagsText(a) + TagsText(b)
    decreases |a|
  {
    if a != [] {
      assert (a + b)[0] == a[0];
      assert (a + b)[1..] == a[1..] + b;
      TagsTextAppend(a[1..], b);
      calc {
        TagsText(a + b);
        TagText(a[0]) + TagsText(a[1..] + b);
        TagText(a[0]) + (TagsText(a[1..]) + TagsText(b));
        { Assoc(TagText(a[0]), TagsText(a[1..]), TagsText(b)); }
        TagText(a[0]) + TagsText(a[1..]) + TagsText(b);
        TagsText(a) + TagsText(b);
      }
    } else {
      assert a + b == b;
    }
  }

  /** The length of the run of `[a-z]` characters that starts at `i`. */
  function LowerRun(s: string, i: nat): (n: nat)
    requires i <= |s|
    ensures i + n <= |s|
    ensures forall k :: i <= k < i + n ==> IsLowerAscii(s[k])
    ensures i + n == |s| || !IsLowerAscii(s[i + n])
    decreases |s| - i
  {
    if i < |s| && IsLowerAscii(s[i]) then 1 + LowerRun(s, i + 1) else 0
  }

  /** `cmd.match(/^([a-z]+)(.*)$/)`: the greedy run of lower-case letters as the name
      and everything after it as the argument, which `.` requires to hold no line
      terminator. */
  function Command(cmd: string): (r: Option<(string, string)>)
    ensures r.Some? ==> |r.value.0| > 0 && r.value.0 + r.value.1 == cmd
    ensures r.Some? ==> forall k :: 0 <= k < |r.value.0| ==> IsLowerAscii(r.value.0[k])
  {
    var n := LowerRun(cmd, 0);
    if n > 0 && NoLineTerminator(cmd[n..]) then
      assert cmd[..n] + cmd[n..] == cmd;
      Some((cmd[..n], cmd[n..]))
    else None
  }

  /** `arg.match(/&H(..)(..)(..)&/)` searched from `p`: `&H`, six characters that are
      not line terminators and `&`, at the leftmost place where they occur. */
  function ColourFrom(arg: string, p: nat): (r: Option<nat>)
    requires p <= |arg|
    ensures r.Some? ==> p <= r.value && ColourAt(arg, r.value)
    ensures r.Some? ==> forall q :: p <= q < r.value ==> !ColourAt(arg, q)
    ensures r.None? ==> forall q :: p <= q ==> !ColourAt(arg, q)
    decreases |arg| - p
  {
    if p + 9 > |arg| then None
    else if ColourAt(arg, p) then Some(p)
    else ColourFrom(arg, p + 1)
  }

  predicate ColourAt(arg: string, p: nat)
  {
    p + 9 <= |arg| && arg[p] == '&' && arg[p + 1] == 'H' && arg[p + 8] == '&'
    && NoLineTerminator(arg[p + 2..p + 8])
  }

  /** The colour written `&Hbbggrr&` as `rrggbb`: the three captured pairs in reverse
      order. */
  function ColourArg(arg: string): (r: Option<string>)
    ensures r.Some? <==> ColourFrom(arg, 0).Some?
    ensures r.Some? ==> var p := ColourFrom(arg, 0).value;
      && |r.value| == 6 && r.value[..2] == arg[p + 6..p + 8]
      && r.value[2..4] == arg[p + 4..p + 6] && r.value[4..] == arg[p + 2..p + 4]
  {
    match ColourFrom(arg, 0)
    case None => None
    case Some(p) => Some(arg[p + 6..p + 8] + arg[p + 4..p + 6] + arg[p + 2..p + 4])
  }

  /** `tagsOpen[name]` is truthy. */
  predicate IsOpen(open: map<string, bool>, name: string)
  {
    name in open && open[name]
  }

  predicate IsStyle(name: string)
  {
    name == "i" || name == "b" || name == "u"
  }

  predicate IsKnown(name: string)
  {
    name == "c" || IsStyle(name) || name == "fs" || name == "pos"
  }

  /** `parseInt(arg) > 0`; `NaN` compares false. */
  predicate Positive(arg: string)
  {
    ParseInt(arg).Some? && ParseInt(arg).value > 0
  }

  /** What one command does: the tags it emits, the record of open tags after it, and
      whether it is reported as unknown. */
  datatype Effect = Effect(tags: seq<Tag>, open: map<string, bool>, unknown: bool)

  function CommandEffect(cmd: string, open: map<string, bool>): Effect
  {
    match Command(cmd)
    case None => Effect([], open, false)
    case Some((name, arg)) =>
      if name == "c" then
        Effect(match ColourArg(arg) case Some(c) => [Font(c)] case None => [], open, false)
      else if IsStyle(name) then
        if Positive(arg) then Effect([Open(name)], open[name := true], false)
        else Effect(if IsOpen(open, name) then [Close(name)] else [], open[name := false], false)
      else if name == "fs" || name == "pos" then Effect([], open, false)
      else Effect([], open, true)
  }

  /** A name of lower-case letters followed by an argument that does not start with
      one is split there by the command pattern. */
  lemma CommandOf(name: string, arg: string)
    requires |name| > 0 && forall k :: 0 <= k < |name| ==> IsLowerAscii(name[k])
    requires (arg == [] || !IsLowerAscii(arg[0])) && NoLineTerminator(arg)
    ensures Command(name + arg) == Some((name, arg))
  {
    var cmd := name + arg;
    LowerRunEndsAt(cmd, 0, |name|);
    assert cmd[..|name|] == name && cmd[|name|..] == arg;
  }

  lemma {:induction false} LowerRunEndsAt(s: string, i: nat, n: nat)
    requires i + n <= |s|
    requires forall k :: i <= k < i + n ==> IsLowerAscii(s[k])
    requires i + n == |s| || !IsLowerAscii(s[i + n])
    ensures LowerRun(s, i) == n
    decreases n
  {
    if n > 0 {
      LowerRunEndsAt(s, i + 1, n - 1);
    }
  }

  /** `\c&Hbbggrr&` emits a font tag whose colour is the three pairs in reverse
      order, `rrggbb`, and changes no open tag. */
  lemma ColourCommand(b: string, g: string, r: string, open: map<string, bool>)
    requires |b| == 2 && |g| == 2 && |r| == 2
    requires NoLineTerminator(b + g + r)
    ensures CommandEffect("c&H" + b + g + r + "&", open) == Effect([Font(r + g + b)], open, false)
  {
    var arg := "&H" + b + g + r + "&";
    assert "c&H" + b + g + r + "&" == "c" + arg;
    assert NoLineTerminator(arg) by {
      forall k | 2 <= k < 8 ensures arg[k] == (b + g + r)[k - 2] { }
    }
    CommandOf("c", arg);
    assert ColourAt(arg, 0) by {
      assert arg[2..8] == b + g + r;
    }
    assert ColourFrom(arg, 0) == Some(0);
    assert arg[6..8] == r && arg[4..6] == g && arg[2..4] == b;
    assert arg[6..8] + arg[4..6] + arg[2..4] == r + g + b;
  }

  /** `{\c&H0000FF&}`, pure red in the blue-green-red order of ASS, becomes
      `<font color="#FF0000">`. */
  lemma RedOverride()
    ensures BlockTags("\\c&H0000FF&") == "<font color=\"#FF0000\">"
  {
    var body, cmd := "\\c&H0000FF&", "c&H0000FF&";
    RedCommands();
    assert BlockOutput(body) == Translate([cmd], map[]);
    TranslateOne(cmd, map[]);
    RedEffect();
    assert BlockTags(body) == TagsText([Font("FF0000")]);
    TagsTextOne(Font("FF0000"));
    RedFontText();
  }

  lemma RedFontText()
    ensures TagText(Font("FF0000")) == "<font color=\"#FF0000\">"
  {
  }

  /** A single command emits the tags of its effect. */
  lemma TranslateOne(cmd: string, open: map<string, bool>)
    ensures Translate([cmd], open).tags == CommandEffect(cmd, open).tags
  {
    var e := CommandEffect(cmd, open);
    assert [cmd][1..] == [];
    assert Translate([cmd], open).tags == e.tags + Translate([], e.open).tags;
  }

  lemma RedCommands()
    ensures Commands("\\c&H0000FF&") == ["c&H0000FF&"]
  {
    var cmd := "c&H0000FF&";
    assert "\\c&H0000FF&" == "" + "\\" + cmd;
    assert !Occurs(cmd, "\\") by {
      forall q | 0 <= q <= |cmd| ensures !LiteralAt(cmd, q, "\\") {
        if q + 1 <= |cmd| { assert cmd[q..q + 1][0] == cmd[q]; }
      }
    }
    SplitFirst("", "\\", cmd);
    SplitNone(cmd, "\\");
  }

  lemma RedEffect()
    ensures CommandEffect("c&H0000FF&", map[]) == Effect([Font("FF0000")], map[], false)
  {
    assert "c&H0000FF&" == "c&H" + "00" + "00" + "FF" + "&";
    ColourCommand("00", "00", "FF", map[]);
    assert "FF" + "00" + "00" == "FF0000";
  }

  /** `\i`, `\b` and `\u` with a positive argument open their tag and record it open.
      With any other argument (zero, negative, or no number at all) they close the tag
      exactly when it is open, and record it closed. Other names keep their state, and
      the command is never reported. */
  lemma StyleCommand(name: string, arg: string, open: map<string, bool>)
    requires IsStyle(name) && (arg == [] || !IsLowerAscii(arg[0])) && NoLineTerminator(arg)
    ensures var e := CommandEffect(name + arg, open);
      && !e.unknown
      && (Positive(arg) ==> e.tags == [Open(name)] && IsOpen(e.open, name))
      && (!Positive(arg) ==> (e.tags == [Close(name)] <==> IsOpen(open, name)) && (e.tags == [] <==> !IsOpen(open, name)))
      && (!Positive(arg) ==> !IsOpen(e.open, name))
      && forall n :: n != name ==> (IsOpen(e.open, n) <==> IsOpen(open, n))
  {
    CommandOf(name, arg);
  }

  /** The tags and the unknown commands of a command list. */
  datatype Output = Output(tags: seq<Tag>, unknown: seq<string>)

  function Translate(cmds: seq<string>, open: map<string, bool>): (r: Output)
    ensures |r.unknown| <= |cmds|
  {
    if cmds == [] then Output([], [])
    else
      var e := CommandEffect(cmds[0], open);
      var rest := Translate(cmds[1..], e.open);
      Output(e.tags + rest.tags, (if e.unknown then [cmds[0]] else []) + rest.unknown)
  }

  /** The commands of a block body: the pieces after each backslash (the piece before
      the first backslash is skipped). */
  function Commands(body: string): seq<string>
  {
    Split(body, "\\")[1..]
  }

  /** A block body translated from a fresh record of open tags. */
  function BlockOutput(body: string): Output
  {
    Translate(Commands(body), map[])
  }

  function BlockTags(body: string): string
  {
    TagsText(BlockOutput(body).tags)
  }

  /** The callback that replaces one `{...}` block, with the `unknown command`
      diagnostics returned instead of printed. */
  method TranslateBlock(body: string) returns (tags: string, unknown: seq<string>)
    ensures tags == BlockTags(body)
    ensures unknown == BlockOutput(body).unknown
  {
    var pieces := Split(body, "\\");
    tags, unknown := RunCommands(pieces);
  }

  /** The loop over the pieces of a block body, skipping the piece before the first
      backslash. */
  method RunCommands(pieces: seq<string>) returns (tags: string, unknown: seq<string>)
    requires |pieces| > 0
    ensures tags == TagsText(Translate(pieces[1..], map[]).tags)
    ensures unknown == Translate(pieces[1..], map[]).unknown
  {
    tags := "";
    unknown := [];
    var tagsOpen: map<string, bool> := map[];
    ghost var all := Translate(pieces[1..], tagsOpen);
    ghost var allTags := TagsText(all.tags);
    var i := 1;
    while i < |pieces|
      invariant 1 <= i <= |pieces|
      invariant allTags == tags + TagsText(Translate(pieces[i..], tagsOpen).tags)
      invariant all.unknown == unknown + Translate(pieces[i..], tagsOpen).unknown
    {
      var cmd := pieces[i];
      var emitted, open, isUnknown := RunCommand(cmd, tagsOpen);
      StepKeeps(pieces, i, tagsOpen, tags, unknown, allTags, all.unknown, emitted, open, isUnknown);
      tags := tags + emitted;
      unknown := unknown + (if isUnknown then [cmd] else []);
      tagsOpen := open;
      i := i + 1;
    }
    assert pieces[i..] == [];
  }

  /** The `switch` on one command: the tags it appends, the record of open tags after
      it, and whether it is reported as unknown. */
  method RunCommand(cmd: string, tagsOpen: map<string, bool>) returns (emitted: string, open: map<string, bool>, unknown: bool)
    ensures emitted == TagsText(CommandEffect(cmd, tagsOpen).tags)
    ensures open == CommandEffect(cmd, tagsOpen).open
    ensures unknown == CommandEffect(cmd, tagsOpen).unknown
  {
    emitted, open, unknown := "", tagsOpen, false;
    ghost var e := CommandEffect(cmd, tagsOpen);
    var m := Command(cmd);
    if m.Some? {
      var name, arg := m.value.0, m.value.1;
      if name == "c" {
        var colour := ColourArg(arg);
        if colour.Some? {
          emitted := "<font color=\"#" + colour.value + "\">";
          TagsTextOne(Font(colour.value));
        }
      } else if name == "i" || name == "b" || name == "u" {
        var n := ParseInt(arg);
        if n.Some? && n.value > 0 {
          emitted := "<" + name + ">";
          open := open[name := true];
          TagsTextOne(Open(name));
        } else {
          if name in open && open[name] {
            emitted := "</" + name + ">";
            TagsTextOne(Close(name));
          }
          open := open[name := false];
        }
      } else if name == "fs" || name == "pos" {
      } else {
        unknown := true;
      }
    }
  }

  /** What is still to be emitted after command `i` is its own effect, then the rest. */
  lemma StepKeeps(cmds: seq<string>, i: nat, open: map<string, bool>, tags: string, unknown: seq<string>,
                  allTags: string, allUnknown: seq<string>,
                  emitted: string, open': map<string, bool>, isUnknown: bool)
    requires i < |cmds|
    requires allTags == tags + TagsText(Translate(cmds[i..], open).tags)
    requires allUnknown == unknown + Translate(cmds[i..], open).unknown
    requires emitted == TagsText(CommandEffect(cmds[i], open).tags)
    requires open' == CommandEffect(cmds[i], open).open
    requires isUnknown == CommandEffect(cmds[i], open).unknown
    ensures allTags == (tags + emitted) + TagsText(Translate(cmds[i + 1..], open').tags)
    ensures allUnknown == (unknown + (if isUnknown then [cmds[i]] else [])) + Translate(cmds[i + 1..], open').unknown
  {
    var e := CommandEffect(cmds[i], open);
    StepTranslate(cmds[i..], open);
    assert cmds[i..][1..] == cmds[i + 1..];
    Assoc(tags, TagsText(e.tags), TagsText(Translate(cmds[i + 1..], e.open).tags));
    Assoc(unknown, if e.unknown then [cmds[i]] else [], Translate(cmds[i + 1..], e.open).unknown);
  }

  /** The first command's effect comes first. */
  lemma StepTranslate(cmds: seq<string>, open: map<string, bool>)
    requires cmds != []
    ensures var e := CommandEffect(cmds[0], open); var rest := Translate(cmds[1..], e.open);
      && TagsText(Translate(cmds, open).tags) == TagsText(e.tags) + TagsText(rest.tags)
      && Translate(cmds, open).unknown == (if e.unknown then [cmds[0]] else []) + rest.unknown
  {
    var e := CommandEffect(cmds[0], open);
    TagsTextAppend(e.tags, Translate(cmds[1..], e.open).tags);
  }

  lemma TagsTextOne(t: Tag)
    ensures TagsText([t]) == TagText(t)
  {
    assert [t][1..] == [];
  }

  lemma Assoc<T>(a: seq<T>, b: seq<T>, c: seq<T>)
    ensures a + (b + c) == a + b + c
  {
  }

  // ----- what a block emits -----

  /** Every tag carries one of the three style letters or is a font tag. */
  lemma {:induction false} TranslateNames(cmds: seq<string>, open: map<string, bool>)
    ensures forall t :: t in Translate(cmds, open).tags ==> t.Font? || IsStyle(t.name)
    ensures forall u :: u in Translate(cmds, open).unknown ==>
              Command(u).Some? && !IsKnown(Command(u).value.0)
    ensures forall i :: 0 <= i < |cmds| && Command(cmds[i]).Some? && !IsKnown(Command(cmds[i]).value.0) ==>
              cmds[i] in Translate(cmds, open).unknown
    decreases |cmds|
  {
    if cmds != [] {
      var e := CommandEffect(cmds[0], open);
      var rest := Translate(cmds[1..], e.open);
      assert Translate(cmds, open) == Output(e.tags + rest.tags, (if e.unknown then [cmds[0]] else []) + rest.unknown);
      TranslateNames(cmds[1..], e.open);
      EffectNames(cmds[0], open);
      forall i | 1 <= i < |cmds| ensures cmds[i] == cmds[1..][i - 1] { }
    }
  }

  /** One command emits only font and style tags, and is reported exactly when its name
      is not a known one. */
  lemma EffectNames(cmd: string, open: map<string, bool>)
    ensures forall t :: t in CommandEffect(cmd, open).tags ==> t.Font? || IsStyle(t.name)
    ensures CommandEffect(cmd, open).unknown <==> Command(cmd).Some? && !IsKnown(Command(cmd).value.0)
  {
  }

  /** `\fs` and `\pos` emit nothing, change no open tag and are not reported. */
  lemma SizeAndPositionIgnored(cmd: string, open: map<string, bool>)
    requires Command(cmd).Some? && (Command(cmd).value.0 == "fs" || Command(cmd).value.0 == "pos")
    ensures CommandEffect(cmd, open) == Effect([], open, false)
  {
  }

  /** A command that does not start with a lower-case letter does nothing and is not
      reported. */
  lemma IgnoredCommand(cmd: string, open: map<string, bool>)
    requires cmd == [] || !IsLowerAscii(cmd[0])
    ensures CommandEffect(cmd, open) == Effect([], open, false)
  {
  }

  /** `Close(n)` at `k` follows an `Open(n)` with no other `Close(n)` in between. */
  ghost predicate ClosesOpened(ts: seq<Tag>)
  {
    forall k, n :: 0 <= k < |ts| && ts[k] == Close(n) ==>
      exists j :: 0 <= j < k && ts[j] == Open(n) && forall x :: j < x < k ==> ts[x] != Close(n)
  }

  /** The record of open tags agrees with the tags emitted so far: a name is open
      exactly when its last tag is an opening one. */
  ghost predicate OpenRecord(ts: seq<Tag>, open: map<string, bool>)
  {
    forall n :: IsOpen(open, n) ==>
      exists j :: 0 <= j < |ts| && ts[j] == Open(n) && forall x :: j < x < |ts| ==> ts[x] != Close(n)
  }

  /** A closing tag is only ever emitted for a tag opened earlier in the same block,
      and each opening is closed at most once. */
  lemma BlockClosesOpened(body: string)
    ensures ClosesOpened(BlockOutput(body).tags)
  {
    TranslateCloses([], Commands(body), map[]);
    assert [] + BlockOutput(body).tags == BlockOutput(body).tags;
  }

  lemma {:induction false} TranslateCloses(done: seq<Tag>, cmds: seq<string>, open: map<string, bool>)
    requires ClosesOpened(done) && OpenRecord(done, open)
    ensures ClosesOpened(done + Translate(cmds, open).tags)
    decreases |cmds|
  {
    if cmds != [] {
      var e := CommandEffect(cmds[0], open);
      StepCloses(done, cmds[0], open);
      var rest := Translate(cmds[1..], e.open).tags;
      TranslateCloses(done + e.tags, cmds[1..], e.open);
      assert Translate(cmds, open).tags == e.tags + rest;
      Assoc(done, e.tags, rest);
    } else {
      assert done + Translate(cmds, open).tags == done;
    }
  }

  /** One command keeps both the pairing of closes with opens and the record. */
  lemma StepCloses(done: seq<Tag>, cmd: string, open: map<string, bool>)
    requires ClosesOpened(done) && OpenRecord(done, open)
    ensures ClosesOpened(done + CommandEffect(cmd, open).tags)
    ensures OpenRecord(done + CommandEffect(cmd, open).tags, CommandEffect(cmd, open).open)
  {
    CommandEffectFits(cmd, open);
    EffectCloses(done, CommandEffect(cmd, open), open);
  }

  /** What a command's effect does to the record of open tags: at most one tag; a
      closing tag only for an open name; a name is open afterwards only if the tag
      just opened it, or it was open and was not just closed. */
  ghost predicate EffectFits(e: Effect, open: map<string, bool>)
  {
    && |e.tags| <= 1
    && (e.tags == [] ==> forall n :: IsOpen(e.open, n) ==> IsOpen(open, n))
    && (|e.tags| == 1 ==>
          && (e.tags[0].Close? ==> IsOpen(open, e.tags[0].name))
          && forall n :: IsOpen(e.open, n) ==>
               (e.tags[0].Open? && n == e.tags[0].name) || (IsOpen(open, n) && e.tags[0] != Close(n)))
  }

  lemma CommandEffectFits(cmd: string, open: map<string, bool>)
    ensures EffectFits(CommandEffect(cmd, open), open)
  {
    var e := CommandEffect(cmd, open);
    match Command(cmd)
    case None =>
      KeepFits(e.tags, open);
    case Some((name, arg)) =>
      if name == "c" {
        KeepFits(e.tags, open);
      } else if IsStyle(name) {
        if Positive(arg) {
          OpenFits(name, open);
        } else {
          CloseFits(name, open);
        }
      } else {
        KeepFits(e.tags, open);
      }
  }

  /** No tag, or a font tag, leaves the record as it was. */
  lemma KeepFits(tags: seq<Tag>, open: map<string, bool>)
    requires tags == [] || (|tags| == 1 && tags[0].Font?)
    ensures EffectFits(Effect(tags, open, false), open) && EffectFits(Effect(tags, open, true), open)
  {
  }

  lemma OpenFits(name: string, open: map<string, bool>)
    ensures EffectFits(Effect([Open(name)], open[name := true], false), open)
  {
    forall n | IsOpen(open[name := true], n)
      ensures n == name || (IsOpen(open, n) && Open(name) != Close(n))
    {
    }
  }

  lemma CloseFits(name: string, open: map<string, bool>)
    ensures EffectFits(Effect(if IsOpen(open, name) then [Close(name)] else [], open[name := false], false), open)
  {
    var open' := open[name := false];
    forall n | IsOpen(open', n) ensures n != name && IsOpen(open, n) {
    }
  }

  lemma EffectCloses(done: seq<Tag>, e: Effect, open: map<string, bool>)
    requires ClosesOpened(done) && OpenRecord(done, open) && EffectFits(e, open)
    ensures ClosesOpened(done + e.tags) && OpenRecord(done + e.tags, e.open)
  {
    var ts := done + e.tags;
    if e.tags == [] {
      assert ts == done;
      forall n | IsOpen(e.open, n)
        ensures exists j :: 0 <= j < |ts| && ts[j] == Open(n) && forall x :: j < x < |ts| ==> ts[x] != Close(n)
      {
        assert IsOpen(open, n);
      }
    } else {
      AppendOne(done, e.tags[0], e.open, open);
      assert e.tags == [e.tags[0]];
    }
  }

  /** Appending one tag from a command. */
  lemma AppendOne(done: seq<Tag>, t: Tag, open': map<string, bool>, open: map<string, bool>)
    requires ClosesOpened(done) && OpenRecord(done, open)
    requires t.Close? ==> IsOpen(open, t.name)
    requires forall n :: IsOpen(open', n) ==> (t.Open? && n == t.name) || (IsOpen(open, n) && t != Close(n))
    ensures ClosesOpened(done + [t]) && OpenRecord(done + [t], open')
  {
    var ts := done + [t];
    forall k, n | 0 <= k < |ts| && ts[k] == Close(n)
      ensures exists j :: 0 <= j < k && ts[j] == Open(n) && forall x :: j < x < k ==> ts[x] != Close(n)
    {
      if k < |done| {
        assert done[k] == Close(n);
        var j :| 0 <= j < k && done[j] == Open(n) && forall x :: j < x < k ==> done[x] != Close(n);
        assert ts[j] == Open(n);
      } else {
        assert t == Close(n) && IsOpen(open, n);
        var j :| 0 <= j < |done| && done[j] == Open(n) && forall x :: j < x < |done| ==> done[x] != Close(n);
        assert ts[j] == Open(n);
      }
    }
    forall n | IsOpen(open', n)
      ensures exists j :: 0 <= j < |ts| && ts[j] == Open(n) && forall x :: j < x < |ts| ==> ts[x] != Close(n)
    {
      if t.Open? && n == t.name {
        assert ts[|done|] == Open(n);
      } else {
        var j :| 0 <= j < |done| && done[j] == Open(n) && forall x :: j < x < |done| ==> done[x] != Close(n);
        assert ts[j] == Open(n);
      }
    }
  }

  // ----- the blocks of a text -----

  /** Where the lazy `(.*?)}` ends when tried at `i`: the first `}` unless a line
      terminator comes first, in which case the block does not match. */
  function BlockEnd(s: string, i: nat): (r: Option<nat>)
    requires i <= |s|
    ensures r.Some? ==> i <= r.value < |s| && s[r.value] == '}'
    ensures r.Some? ==> forall k :: i <= k < r.value ==> s[k] != '}' && !IsLineTerminator(s[k])
    decreases |s| - i
  {
    if i == |s| then None
    else if s[i] == '}' then Some(i)
    else if IsLineTerminator(s[i]) then None
    else BlockEnd(s, i + 1)
  }

  /** `s.replace(/{(.*?)}/g, ...)`: scanning left to right, each `{` that starts a
      block is replaced with the block's tags and the scan resumes after the `}`;
      every other character is kept. */
  function ReplaceBlocks(s: string): string
    decreases |s|
  {
    if s == [] then ""
    else if s[0] == '{' then
      match BlockEnd(s, 1)
      case Some(q) => BlockTags(s[1..q]) + ReplaceBlocks(s[q + 1..])
      case None => "{" + ReplaceBlocks(s[1..])
    else [s[0]] + ReplaceBlocks(s[1..])
  }

  /** The text of an event as it is stored in the cue. */
  function EventText(raw: string): string
  {
    ReplaceBlocks(ReplaceBreaks(raw))
  }

  predicate NoOpenBrace(s: string)
  {
    forall k :: 0 <= k < |s| ==> s[k] != '{'
  }

  /** Text outside braces is copied unchanged. */
  lemma {:induction false} ReplaceBlocksPlain(a: string, rest: string)
    requires NoOpenBrace(a)
    ensures ReplaceBlocks(a + rest) == a + ReplaceBlocks(rest)
    decreases |a|
  {
    if a != [] {
      assert (a + rest)[0] == a[0] != '{';
      assert (a + rest)[1..] == a[1..] + rest;
      assert NoOpenBrace(a[1..]) by {
        forall k | 0 <= k < |a[1..]| ensures a[1..][k] != '{' { assert a[1..][k] == a[k + 1]; }
      }
      ReplaceBlocksPlain(a[1..], rest);
      Assoc([a[0]], a[1..], ReplaceBlocks(rest));
      assert [a[0]] + a[1..] == a;
    } else {
      assert a + rest == rest;
    }
  }

  /** A block whose body holds no `}` and no line terminator is replaced by exactly
      the tags of its commands. */
  lemma ReplaceBlocksBlock(body: string, rest: string)
    requires forall k :: 0 <= k < |body| ==> body[k] != '}' && !IsLineTerminator(body[k])
    ensures ReplaceBlocks("{" + body + "}" + rest) == BlockTags(body) + ReplaceBlocks(rest)
  {
    var s := "{" + body + "}" + rest;
    BlockEndAt(s, 1, |body| + 1);
    assert s[1..|body| + 1] == body;
    assert s[|body| + 2..] == rest;
  }

  lemma {:induction false} BlockEndAt(s: string, i: nat, q: nat)
    requires i <= q < |s| && s[q] == '}'
    requires forall k :: i <= k < q ==> s[k] != '}' && !IsLineTerminator(s[k])
    ensures BlockEnd(s, i) == Some(q)
    decreases q - i
  {
    if i < q {
      BlockEndAt(s, i + 1, q);
    }
  }

  /** A `{` with a line break before any `}` is kept as a character. */
  lemma UnclosedBrace(a: string, rest: string)
    requires forall k :: 0 <= k < |a| ==> a[k] != '}' && !IsLineTerminator(a[k])
    requires rest == [] || IsLineTerminator(rest[0])
    ensures ReplaceBlocks("{" + a + rest) == "{" + ReplaceBlocks(a + rest)
  {
    var s := "{" + a + rest;
    BlockEndStops(s, 1, |a| + 1);
    assert s[1..] == a + rest;
  }

  lemma {:induction false} BlockEndStops(s: string, i: nat, q: nat)
    requires i <= q <= |s|
    requires forall k :: i <= k < q ==> s[k] != '}' && !IsLineTerminator(s[k])
    requires q == |s| || IsLineTerminator(s[q])
    ensures BlockEnd(s, i).None?
    decreases q - i
  {
    if i < q {
      BlockEndStops(s, i + 1, q);
    }
  }
}
