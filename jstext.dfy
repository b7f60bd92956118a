/** Strings as JavaScript sees them: the character classes its regular
    expressions use, literal and case-insensitive searches, `split`, `trim`
    and `parseInt`. Every regular expression of the converter is modelled on
    top of these. */
module JsText {

  datatype Option<+T> = None | Some(value: T)

  /** `\d` */
  predicate IsDigit(c: char) { '0' <= c <= '9' }

  /** `[a-z]` (no `i` flag) */
  predicate IsLowerAscii(c: char) { 'a' <= c <= 'z' }

  /** The line terminators, which `.` does not match and after which `^` matches in multiline mode. */
  predicate IsLineTerminator(c: char) {
    c == '\n' || c == '\r' || c == '\U{2028}' || c == '\U{2029}'
  }

  /** `\s`; also the characters `trim` removes and `parseInt` skips. */
  predicate IsSpace(c: char) {
    || c == '\t' || c == '\U{B}' || c == '\U{C}' || c == ' ' || c == '\U{A0}' || c == '\U{FEFF}'
    || c == '\U{1680}' || ('\U{2000}' <= c <= '\U{200A}') || c == '\U{202F}' || c == '\U{205F}'
    || c == '\U{3000}' || IsLineTerminator(c)
  }

  /** The case folding of a non-unicode regular expression with the `i` flag, as far
      as it matters against a pattern made of ASCII characters: only ASCII letters fold. */
  function FoldCase(c: char): (r: char)
    ensures 'A' <= c <= 'Z' ==> r as int == c as int + 32
    ensures !('A' <= c <= 'Z') ==> r == c
  {
    if 'A' <= c <= 'Z' then (c as int + 32) as char else c
  }

  /** `lit` occurs in `s` at position `p`. */
  predicate LiteralAt(s: string, p: nat, lit: string) {
    p + |lit| <= |s| && s[p..p + |lit|] == lit
  }

  /** `lit` (written in lower case) occurs at `p` in `s` under the `i` flag. */
  predicate FoldedAt(s: string, p: nat, lit: string) {
    p + |lit| <= |s| && forall k :: 0 <= k < |lit| ==> FoldCase(s[p + k]) == lit[k]
  }

  predicate Occurs(s: string, lit: string) {
    exists q :: 0 <= q <= |s| && LiteralAt(s, q, lit)
  }

  predicate AllDigits(s: string) { forall i :: 0 <= i < |s| ==> IsDigit(s[i]) }

  predicate AllSpaces(s: string) { forall i :: 0 <= i < |s| ==> IsSpace(s[i]) }

  predicate NoLineTerminator(s: string) { forall i :: 0 <= i < |s| ==> !IsLineTerminator(s[i]) }

  /** The length of the run of `\s` characters that starts at `i` (what a greedy `\s*` takes). */
  function SpaceRun(s: string, i: nat): (n: nat)
    requires i <= |s|
    ensures i + n <= |s|
    ensures forall k :: i <= k < i + n ==> IsSpace(s[k])
    ensures i + n == |s| || !IsSpace(s[i + n])
    decreases |s| - i
  {
    if i < |s| && IsSpace(s[i]) then 1 + SpaceRun(s, i + 1) else 0
  }

  /** The length of the run of `\d` characters that starts at `i` (what a greedy `\d+` takes). */
  function DigitRun(s: string, i: nat): (n: nat)
    requires i <= |s|
    ensures i + n <= |s|
    ensures forall k :: i <= k < i + n ==> IsDigit(s[k])
    ensures i + n == |s| || !IsDigit(s[i + n])
    decreases |s| - i
  {
    if i < |s| && IsDigit(s[i]) then 1 + DigitRun(s, i + 1) else 0
  }

  /** A digit run followed by a non-digit or the end is what the greedy `\d` run takes. */
  lemma {:induction false} DigitRunEndsAt(text: string, k: nat, d: nat)
    requires k + d <= |text|
    requires forall j :: k <= j < k + d ==> IsDigit(text[j])
    requires k + d == |text| || !IsDigit(text[k + d])
    ensures DigitRun(text, k) == d
    decreases d
  {
    if d > 0 {
      DigitRunEndsAt(text, k + 1, d - 1);
    }
  }

  /** A white-space run followed by something else or the end is what the greedy
      `\s*` takes. */
  lemma {:induction false} SpaceRunEndsAt(text: string, k: nat, d: nat)
    requires k + d <= |text|
    requires forall j :: k <= j < k + d ==> IsSpace(text[j])
    requires k + d == |text| || !IsSpace(text[k + d])
    ensures SpaceRun(text, k) == d
    decreases d
  {
    if d > 0 {
      SpaceRunEndsAt(text, k + 1, d - 1);
    }
  }

  /** `s` without its leading `\s` characters. */
  function TrimStart(s: string): (r: string)
    ensures |r| <= |s| && r == s[|s| - |r|..]
    ensures AllSpaces(s[..|s| - |r|])
    ensures r == [] || !IsSpace(r[0])
  {
    if |s| > 0 && IsSpace(s[0]) then
      var r := TrimStart(s[1..]);
      TrimStartStep(s, r);
      r
    else s
  }

  /** `s` without its trailing `\s` characters. */
  function TrimEnd(s: string): (r: string)
    ensures |r| <= |s| && r == s[..|r|]
    ensures AllSpaces(s[|r|..])
    ensures r == [] || !IsSpace(r[|r| - 1])
  {
    if |s| > 0 && IsSpace(s[|s| - 1]) then
      var r := TrimEnd(s[..|s| - 1]);
      TrimEndStep(s, r);
      r
    else s
  }

  lemma TrimStartStep(s: string, r: string)
    requires |s| > 0 && IsSpace(s[0])
    requires |r| <= |s| - 1 && r == s[1..][|s| - 1 - |r|..] && AllSpaces(s[1..][..|s| - 1 - |r|])
    ensures r == s[|s| - |r|..] && AllSpaces(s[..|s| - |r|])
  {
    var t := s[1..];
    var n := |s| - 1 - |r|;
    assert t[n..] == s[n + 1..];
    assert t[..n] == s[1..n + 1];
    forall k | 0 < k < n + 1 ensures IsSpace(s[k]) {
      assert s[k] == t[..n][k - 1];
    }
  }

  lemma TrimEndStep(s: string, r: string)
    requires |s| > 0 && IsSpace(s[|s| - 1])
    requires |r| <= |s| - 1 && r == s[..|s| - 1][..|r|] && AllSpaces(s[..|s| - 1][|r|..])
    ensures r == s[..|r|] && AllSpaces(s[|r|..])
  {
    var t := s[..|s| - 1];
    assert t[..|r|] == s[..|r|];
    forall k | 0 <= k < |s| - |r| ensures IsSpace(s[|r|..][k]) {
      if k < |s| - 1 - |r| {
        assert s[|r| + k] == t[|r|..][k];
      }
    }
  }

  /** `String.prototype.trim`. */
  function Trim(s: string): (r: string)
  {
    TrimEnd(TrimStart(s))
  }

  /** Trimming keeps a middle part of `s`, drops only spaces around it, and leaves
      no space at either end. */
  lemma TrimSpec(s: string)
    ensures exists a, b :: 0 <= a <= b <= |s| && Trim(s) == s[a..b]
                           && AllSpaces(s[..a]) && AllSpaces(s[b..])
    ensures Trim(s) == [] || (!IsSpace(Trim(s)[0]) && !IsSpace(Trim(s)[|Trim(s)| - 1]))
  {
    var a, b := TrimBounds(s);
    var t := TrimStart(s);
    var r := TrimEnd(t);
    assert r != [] ==> r[0] == t[0];
  }

  /** Where the trimmed part of `s` begins and ends. */
  lemma TrimBounds(s: string) returns (a: nat, b: nat)
    ensures a <= b <= |s| && Trim(s) == s[a..b] && AllSpaces(s[..a]) && AllSpaces(s[b..])
  {
    a := TrimStartAt(s);
    b := TrimEndAt(s, a);
  }

  lemma TrimStartAt(s: string) returns (a: nat)
    ensures a <= |s| && TrimStart(s) == s[a..] && AllSpaces(s[..a])
  {
    a := |s| - |TrimStart(s)|;
  }

  lemma TrimEndAt(s: string, a: nat) returns (b: nat)
    requires a <= |s|
    ensures a <= b <= |s| && TrimEnd(s[a..]) == s[a..b] && AllSpaces(s[b..])
  {
    var t := s[a..];
    var n := |TrimEnd(t)|;
    SuffixSlices(s, a, t, n);
    b := a + n;
  }

  lemma SuffixSlices(s: string, a: nat, t: string, n: nat)
    requires a <= |s| && t == s[a..] && n <= |t|
    ensures t[..n] == s[a..a + n] && t[n..] == s[a + n..]
  {
  }

  /** A string without surrounding spaces is its own trim. */
  lemma TrimOfTrimmed(s: string)
    requires s == [] || (!IsSpace(s[0]) && !IsSpace(s[|s| - 1]))
    ensures Trim(s) == s
  {
  }

  // ----- decimal and hexadecimal digits -----

  function DigitValue(c: char): nat
    requires IsDigit(c)
  {
    c as int - '0' as int
  }

  function DigitChar(d: nat): (c: char)
    requires d < 10
    ensures IsDigit(c) && DigitValue(c) == d
  {
    ('0' as int + d) as char
  }

  /** The value of a string of decimal digits (most significant first). */
  function DigitsValue(s: string): nat
    requires AllDigits(s)
  {
    if s == [] then 0 else DigitsValue(s[..|s| - 1]) * 10 + DigitValue(s[|s| - 1])
  }

  /** The decimal notation of `n`, as `String(n)` writes it. */
  function NatToString(n: nat): (r: string)
    ensures |r| > 0 && AllDigits(r) && DigitsValue(r) == n
    ensures |r| == 1 || r[0] != '0'
    ensures n < 10 <==> |r| == 1
  {
    if n < 10 then [DigitChar(n)]
    else
      var r := NatToString(n / 10) + [DigitChar(n % 10)];
      assert r[..|r| - 1] == NatToString(n / 10);
      r
  }

  /** The value of the digits that occupy `s[i..j]`. */
  lemma DigitsValueOfSlice(s: string, i: nat, j: nat)
    requires i <= j <= |s| && AllDigits(s[i..j])
    ensures DigitsValue(s[i..j]) >= 0
  {
  }

  /** A string of `n` decimal digits is worth less than 10^n. */
  lemma DigitsValueBound(s: string)
    requires AllDigits(s)
    ensures DigitsValue(s) < Pow10(|s|)
  {
    if s != [] {
      DigitsValueBound(s[..|s| - 1]);
    }
  }

  function Pow10(n: nat): (r: nat)
    ensures r >= 1
  {
    if n == 0 then 1 else 10 * Pow10(n - 1)
  }

  /** Leading zeros do not change the value of a digit string. */
  lemma {:induction false} DigitsValueLeadingZeros(z: string, s: string)
    requires forall i :: 0 <= i < |z| ==> z[i] == '0'
    requires AllDigits(s)
    ensures AllDigits(z + s) && DigitsValue(z + s) == DigitsValue(s)
  {
    if s == [] {
      assert z + s == z;
      ZerosValue(z);
    } else {
      assert (z + s)[..|z + s| - 1] == z + s[..|s| - 1];
      DigitsValueLeadingZeros(z, s[..|s| - 1]);
    }
  }

  lemma {:induction false} ZerosValue(z: string)
    requires forall i :: 0 <= i < |z| ==> z[i] == '0'
    ensures AllDigits(z) && DigitsValue(z) == 0
  {
    if z != [] {
      ZerosValue(z[..|z| - 1]);
    }
  }

  predicate IsHexDigit(c: char) {
    IsDigit(c) || 'a' <= c <= 'f' || 'A' <= c <= 'F'
  }

  function HexDigitValue(c: char): (v: nat)
    requires IsHexDigit(c)
    ensures v < 16
  {
    if IsDigit(c) then DigitValue(c)
    else if 'a' <= c <= 'f' then c as int - 'a' as int + 10
    else c as int - 'A' as int + 10
  }

  /** The length of the run of hexadecimal digits starting at `i`. */
  function HexRun(s: string, i: nat): (n: nat)
    requires i <= |s|
    ensures i + n <= |s|
    ensures forall k :: i <= k < i + n ==> IsHexDigit(s[k])
    ensures i + n == |s| || !IsHexDigit(s[i + n])
    decreases |s| - i
  {
    if i < |s| && IsHexDigit(s[i]) then 1 + HexRun(s, i + 1) else 0
  }

  function HexValue(s: string): nat
    requires forall i :: 0 <= i < |s| ==> IsHexDigit(s[i])
  {
    if s == [] then 0 else HexValue(s[..|s| - 1]) * 16 + HexDigitValue(s[|s| - 1])
  }

  /** The value of the longest run of digits at the start of `u`, read in hexadecimal
      after a `0x`/`0X` prefix and in decimal otherwise; `None` when the run is empty. */
  function UnsignedPrefix(u: string): (r: Option<nat>)
  {
    if |u| >= 2 && u[0] == '0' && (u[1] == 'x' || u[1] == 'X') then
      var n := HexRun(u, 2);
      if n == 0 then None else Some(HexValue(u[2..2 + n]))
    else
      var n := DigitRun(u, 0);
      if n == 0 then None else Some(DigitsValue(u[..n]))
  }

  /** `parseInt(s)` with no radix: skip leading spaces, take an optional sign, then the
      longest run of hexadecimal digits after a `0x`/`0X` prefix or else of decimal
      digits. `None` stands for `NaN`, which is what an empty run yields. */
  function ParseInt(s: string): (r: Option<int>)
  {
    var t := TrimStart(s);
    var negative := |t| > 0 && t[0] == '-';
    var u := if |t| > 0 && (t[0] == '-' || t[0] == '+') then t[1..] else t;
    match UnsignedPrefix(u)
    case None => None
    case Some(v) =>
      var w: int := v;
      Some(if negative then -w else w)
  }

  /** The decimal reading stops at the first character that is not a digit. */
  lemma UnsignedDecimalPrefix(d: string, rest: string)
    requires |d| > 0 && AllDigits(d)
    requires rest == [] || !IsDigit(rest[0])
    requires !(d == "0" && rest != [] && (rest[0] == 'x' || rest[0] == 'X'))
    ensures UnsignedPrefix(d + rest) == Some(DigitsValue(d))
  {
    var u := d + rest;
    var n := DigitRun(u, 0);
    assert forall k :: 0 <= k < |d| ==> IsDigit(u[k]) by {
      forall k | 0 <= k < |d| ensures IsDigit(u[k]) { assert u[k] == d[k]; }
    }
    assert |d| == |u| || !IsDigit(u[|d|]);
    assert n == |d|;
    assert u[..n] == d;
    assert !(|u| >= 2 && u[0] == '0' && (u[1] == 'x' || u[1] == 'X')) by {
      if |d| >= 2 {
        assert u[1] == d[1];
      } else if |u| >= 2 && u[0] == '0' {
        assert d == "0";
        assert u[1] == rest[0];
      }
    }
  }

  /** `parseInt` reads the longest decimal prefix after leading spaces and stops at the
      first other character. */
  lemma ParseIntDecimalPrefix(ws: string, d: string, rest: string)
    requires AllSpaces(ws) && |d| > 0 && AllDigits(d)
    requires rest == [] || !IsDigit(rest[0])
    requires !(d == "0" && rest != [] && (rest[0] == 'x' || rest[0] == 'X'))
    ensures ParseInt(ws + d + rest) == Some(DigitsValue(d))
  {
    ConcatAssoc(ws, d, rest);
    TrimStartSkipsSpaces(ws, d + rest);
    ParseIntOfTrimmed(ws + d + rest, d, rest);
  }

  lemma ConcatAssoc(a: string, b: string, c: string)
    ensures a + b + c == a + (b + c)
    ensures |b| > 0 ==> (b + c)[0] == b[0]
  {
  }

  /** Once the spaces are gone, an unsigned decimal prefix is read as such. */
  lemma ParseIntOfTrimmed(s: string, d: string, rest: string)
    requires TrimStart(s) == d + rest
    requires |d| > 0 && AllDigits(d)
    requires rest == [] || !IsDigit(rest[0])
    requires !(d == "0" && rest != [] && (rest[0] == 'x' || rest[0] == 'X'))
    ensures ParseInt(s) == Some(DigitsValue(d))
  {
    assert (d + rest)[0] == d[0];
    UnsignedDecimalPrefix(d, rest);
  }

  /** Leading spaces are skipped up to the first non-space character. */
  lemma {:induction false} TrimStartSkipsSpaces(ws: string, s: string)
    requires AllSpaces(ws)
    requires s == [] || !IsSpace(s[0])
    ensures TrimStart(ws + s) == s
  {
    if ws != [] {
      assert (ws + s)[1..] == ws[1..] + s;
      TrimStartSkipsSpaces(ws[1..], s);
    }
  }

  /** The decimal notation of a number reads back as that number. */
  lemma ParseIntOfNatToString(n: nat)
    ensures ParseInt(NatToString(n)) == Some(n)
  {
    var d := NatToString(n);
    assert "" + d + "" == d;
    ParseIntDecimalPrefix("", d, "");
  }

  // ----- searching and splitting -----

  /** The first position at or after `from` where `lit` occurs (`indexOf`). */
  function IndexOf(s: string, lit: string, from: nat): (r: Option<nat>)
    requires |lit| > 0
    ensures r.Some? ==> from <= r.value && LiteralAt(s, r.value, lit)
    ensures r.Some? ==> forall q :: from <= q < r.value ==> !LiteralAt(s, q, lit)
    ensures r.None? ==> forall q :: from <= q ==> !LiteralAt(s, q, lit)
    decreases |s| - from
  {
    if from + |lit| > |s| then None
    else if s[from..from + |lit|] == lit then Some(from)
    else IndexOf(s, lit, from + 1)
  }

  /** `parts.join(sep)` */
  function Join(parts: seq<string>, sep: string): string
  {
    if |parts| == 0 then ""
    else if |parts| == 1 then parts[0]
    else parts[0] + sep + Join(parts[1..], sep)
  }

  /** `s.split(sep)` for a non-empty separator: the pieces between the occurrences of
      `sep`, found left to right without overlap. */
  function Split(s: string, sep: string): (parts: seq<string>)
    requires |sep| > 0
    ensures |parts| > 0
    ensures Join(parts, sep) == s
    ensures forall i :: 0 <= i < |parts| ==> !Occurs(parts[i], sep)
    decreases |s|
  {
    match IndexOf(s, sep, 0)
    case None =>
      assert !Occurs(s, sep);
      [s]
    case Some(p) =>
      var rest := Split(s[p + |sep|..], sep);
      SplitHead(s, sep, p);
      var parts := [s[..p]] + rest;
      assert parts[1..] == rest;
      parts
  }

  /** The piece before the first occurrence of the separator holds no occurrence. */
  lemma SplitHead(s: string, sep: string, p: nat)
    requires |sep| > 0 && LiteralAt(s, p, sep)
    requires forall q :: 0 <= q < p ==> !LiteralAt(s, q, sep)
    ensures s == s[..p] + sep + s[p + |sep|..]
    ensures !Occurs(s[..p], sep)
  {
    assert s == s[..p] + s[p..p + |sep|] + s[p + |sep|..];
    forall q | 0 <= q <= p && LiteralAt(s[..p], q, sep)
      ensures false
    {
      assert s[..p][q..q + |sep|] == s[q..q + |sep|];
      assert LiteralAt(s, q, sep);
    }
  }

  /** A piece followed by the separator splits off as the first part when the
      separator does not occur earlier. */
  lemma SplitFirst(b: string, sep: string, rest: string)
    requires |sep| > 0
    requires forall q :: 0 <= q < |b| ==> !LiteralAt(b + sep + rest, q, sep)
    ensures Split(b + sep + rest, sep) == [b] + Split(rest, sep)
  {
    var s := b + sep + rest;
    assert LiteralAt(s, |b|, sep) by {
      assert s[|b|..|b| + |sep|] == sep;
    }
    var p := IndexOf(s, sep, 0);
    assert p == Some(|b|);
    assert s[..|b|] == b;
    assert s[|b| + |sep|..] == rest;
  }

  /** A string in which the separator does not occur is one piece. */
  lemma SplitNone(s: string, sep: string)
    requires |sep| > 0
    requires !Occurs(s, sep)
    ensures Split(s, sep) == [s]
  {
  }
}
