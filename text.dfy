/**
 * The slice of Python's `str` behaviour that the pipeline relies on: character classes,
 * `lower`/`upper`, `strip`, substring tests, `zfill`, `str(int)`/`int(str)` and the
 * code-point ordering used by `sorted`.
 *
 * Case mapping covers ASCII plus the Latin-1 letters À..þ (not ß to "SS", ÿ to Ÿ or µ to Μ,
 * whose images lie outside that range); `\d` and `int()` cover ASCII digits.
 */
module Text {
  import opened Sorting

  type String = seq<char>

  // ---------------------------------------------------------------- characters

  predicate IsDigit(c: char) { '0' <= c <= '9' }
  predicate IsAsciiUpper(c: char) { 'A' <= c <= 'Z' }
  predicate IsAsciiLower(c: char) { 'a' <= c <= 'z' }
  predicate IsAsciiAlpha(c: char) { IsAsciiUpper(c) || IsAsciiLower(c) }
  predicate IsAsciiAlnum(c: char) { IsAsciiAlpha(c) || IsDigit(c) }

  /** Latin-1 capitals À..Þ without the multiplication sign. */
  predicate IsLatinUpper(c: char) { '\U{C0}' <= c <= '\U{DE}' && c != '\U{D7}' }
  /** Latin-1 small letters à..þ without the division sign. */
  predicate IsLatinLower(c: char) { '\U{E0}' <= c <= '\U{FE}' && c != '\U{F7}' }

  /** Python's `str.isspace` (equally, the characters `\s` matches in a `str` pattern). */
  predicate IsSpace(c: char) {
    || '\U{09}' <= c <= '\U{0D}'
    || '\U{1C}' <= c <= '\U{20}'
    || c == '\U{85}' || c == '\U{A0}' || c == '\U{1680}'
    || '\U{2000}' <= c <= '\U{200A}'
    || c == '\U{2028}' || c == '\U{2029}' || c == '\U{202F}' || c == '\U{205F}' || c == '\U{3000}'
  }

  /** The line boundaries of Python's `str.splitlines`. */
  predicate IsLineBreak(c: char) {
    || '\U{0A}' <= c <= '\U{0D}'
    || '\U{1C}' <= c <= '\U{1E}'
    || c == '\U{85}' || c == '\U{2028}' || c == '\U{2029}'
  }

  /**
   * Word characters for `\b` up to U+00FF: letters, digits and the underscore, where Python
   * also counts ª µ º, the superscripts ² ³ ¹ and the fractions ¼ ½ ¾.
   */
  predicate IsWordChar(c: char) {
    || IsAsciiAlnum(c) || c == '_' || IsLatinUpper(c) || IsLatinLower(c) || c == '\U{DF}' || c == '\U{FF}'
    || c == '\U{AA}' || c == '\U{B5}' || c == '\U{BA}' || c == '\U{B2}' || c == '\U{B3}' || c == '\U{B9}'
    || '\U{BC}' <= c <= '\U{BE}'
  }

  function LowerChar(c: char): (r: char)
    ensures IsSpace(r) <==> IsSpace(c)
    ensures IsDigit(r) <==> IsDigit(c)
    ensures !IsAsciiUpper(r) && !IsLatinUpper(r)
    ensures !IsAsciiUpper(c) && !IsLatinUpper(c) ==> r == c
  {
    if IsAsciiUpper(c) || IsLatinUpper(c) then (c as int + 32) as char else c
  }

  function UpperChar(c: char): (r: char)
    ensures IsSpace(r) <==> IsSpace(c)
    ensures IsDigit(r) <==> IsDigit(c)
    ensures !IsAsciiLower(r) && !IsLatinLower(r)
    ensures !IsAsciiLower(c) && !IsLatinLower(c) ==> r == c
  {
    if IsAsciiLower(c) || IsLatinLower(c) then (c as int - 32) as char else c
  }

  /** `s.lower()` */
  function Lower(s: String): (r: String)
    ensures |r| == |s|
    ensures forall i :: 0 <= i < |s| ==> r[i] == LowerChar(s[i])
  {
    seq(|s|, i requires 0 <= i < |s| => LowerChar(s[i]))
  }

  /** `s.upper()` */
  function Upper(s: String): (r: String)
    ensures |r| == |s|
    ensures forall i :: 0 <= i < |s| ==> r[i] == UpperChar(s[i])
  {
    seq(|s|, i requires 0 <= i < |s| => UpperChar(s[i]))
  }

  lemma LowerIdempotent(s: String)
    ensures Lower(Lower(s)) == Lower(s)
  {
    assert forall i :: 0 <= i < |s| ==> Lower(Lower(s))[i] == Lower(s)[i];
  }

  lemma LowerAppend(a: String, b: String)
    ensures Lower(a + b) == Lower(a) + Lower(b)
  {
    assert forall i :: 0 <= i < |a + b| ==> Lower(a + b)[i] == (Lower(a) + Lower(b))[i];
  }

  // ---------------------------------------------------------------- strip

  function StripLeft(s: String): (r: String)
    ensures |r| <= |s| && r == s[|s| - |r|..]
    ensures r == [] || !IsSpace(r[0])
    ensures forall i :: 0 <= i < |s| - |r| ==> IsSpace(s[i])
  {
    if s != [] && IsSpace(s[0]) then StripLeft(s[1..]) else s
  }

  function StripRight(s: String): (r: String)
    ensures |r| <= |s| && r == s[..|r|]
    ensures r == [] || !IsSpace(r[|r| - 1])
    ensures forall i :: |r| <= i < |s| ==> IsSpace(s[i])
  {
    if s != [] && IsSpace(s[|s| - 1]) then StripRight(s[..|s| - 1]) else s
  }

  /** `s.strip()`: the longest slice of `s` that neither starts nor ends with whitespace. */
  function Strip(s: String): (r: String)
    ensures r == [] || (!IsSpace(r[0]) && !IsSpace(r[|r| - 1]))
    ensures |r| <= |StripLeft(s)| && r == StripLeft(s)[..|r|]
  {
    StripRight(StripLeft(s))
  }

  predicate AllSpace(s: String) { forall i :: 0 <= i < |s| ==> IsSpace(s[i]) }

  /** Surrounding whitespace is exactly what `strip` removes. */
  lemma {:induction false} StripSurrounded(pre: String, x: String, post: String)
    requires AllSpace(pre) && AllSpace(post)
    requires x == [] || (!IsSpace(x[0]) && !IsSpace(x[|x| - 1]))
    ensures Strip(pre + x + post) == x
  {
    var y := x + post;
    assert pre + x + post == pre + y;
    if x == [] {
      assert y == post;
      StripLeftOfSpaces(pre, y);
      StripLeftAllSpace(post);
    } else {
      assert y[0] == x[0];
      StripLeftOfSpaces(pre, y);
      assert StripLeft(y) == y;
      StripRightOfSpaces(x, post);
    }
  }

  /** Stripping twice strips nothing more. */
  lemma StripIdempotent(s: String)
    ensures Strip(Strip(s)) == Strip(s)
  {
    var x := Strip(s);
    assert [] + x + [] == x;
    StripSurrounded([], x, []);
  }

  /** A text without surrounding whitespace is its own `strip()`. */
  lemma StripPlain(l: String)
    requires l != [] && !IsSpace(l[0]) && !IsSpace(l[|l| - 1])
    ensures Strip(l) == l
  {
    assert [] + l + [] == l;
    StripSurrounded([], l, []);
  }

  lemma {:induction false} StripLeftOfSpaces(pre: String, rest: String)
    requires AllSpace(pre)
    requires rest == [] || !IsSpace(rest[0]) || AllSpace(rest)
    ensures StripLeft(pre + rest) == StripLeft(rest)
  {
    if pre != [] {
      var all := pre + rest;
      assert all[0] == pre[0] && IsSpace(all[0]);
      assert all[1..] == pre[1..] + rest;
      assert StripLeft(all) == StripLeft(all[1..]);
      assert AllSpace(pre[1..]) by {
        forall i | 0 <= i < |pre| - 1 ensures IsSpace(pre[1..][i]) { assert pre[1..][i] == pre[i + 1]; }
      }
      StripLeftOfSpaces(pre[1..], rest);
    }
  }

  lemma {:induction false} StripLeftAllSpace(s: String)
    requires AllSpace(s)
    ensures StripLeft(s) == []
  {
    if s != [] { StripLeftAllSpace(s[1..]); }
  }

  lemma {:induction false} StripRightOfSpaces(x: String, post: String)
    requires AllSpace(post)
    requires x == [] || !IsSpace(x[|x| - 1])
    ensures StripRight(x + post) == x
  {
    if post == [] {
      assert x + post == x;
    } else {
      assert (x + post)[..|x + post| - 1] == x + post[..|post| - 1];
      StripRightOfSpaces(x, post[..|post| - 1]);
    }
  }

  // ---------------------------------------------------------------- substrings

  predicate IsPrefix(p: String, s: String) { |p| <= |s| && s[..|p|] == p }

  /** `sub in s` */
  predicate Contains(s: String, sub: String)
    decreases |s|
  {
    IsPrefix(sub, s) || (s != [] && Contains(s[1..], sub))
  }

  lemma {:induction false} ContainsAt(s: String, sub: String, i: nat)
    requires i + |sub| <= |s| && s[i..i + |sub|] == sub
    ensures Contains(s, sub)
    decreases i
  {
    if i > 0 {
      assert s[1..][i - 1..i - 1 + |sub|] == sub;
      ContainsAt(s[1..], sub, i - 1);
    }
  }

  lemma {:induction false} ContainsWitness(s: String, sub: String) returns (i: nat)
    requires Contains(s, sub)
    ensures i + |sub| <= |s| && s[i..i + |sub|] == sub
    decreases |s|
  {
    if IsPrefix(sub, s) {
      i := 0;
    } else {
      var j := ContainsWitness(s[1..], sub);
      i := j + 1;
      assert s[i..i + |sub|] == s[1..][j..j + |sub|];
    }
  }

  /** Every character of a substring occurs in the text that contains it. */
  lemma ContainsChars(s: String, sub: String)
    requires Contains(s, sub)
    ensures forall k :: 0 <= k < |sub| ==> sub[k] in s
  {
    var i := ContainsWitness(s, sub);
    forall k | 0 <= k < |sub| ensures sub[k] in s {
      assert s[i + k] == s[i..i + |sub|][k];
    }
  }

  /** `s.replace(pat, rep)`: every occurrence of `pat`, scanning left to right without overlap, becomes `rep`. */
  function ReplaceAll(s: String, pat: String, rep: String): (r: String)
    requires pat != []
    ensures forall i :: 0 <= i < |r| ==> r[i] in s || r[i] in rep
    ensures |pat| == |rep| ==> |r| == |s|
    decreases |s|
  {
    if |s| < |pat| then s
    else if s[..|pat|] == pat then rep + ReplaceAll(s[|pat|..], pat, rep)
    else [s[0]] + ReplaceAll(s[1..], pat, rep)
  }

  /** A string without the pattern is left as it is. */
  lemma {:induction false} ReplaceAbsent(s: String, pat: String, rep: String)
    requires pat != [] && !Contains(s, pat)
    ensures ReplaceAll(s, pat, rep) == s
    decreases |s|
  {
    if |s| >= |pat| {
      assert !IsPrefix(pat, s);
      ReplaceAbsent(s[1..], pat, rep);
    }
  }

  /**
   * When the pattern's first character does not occur before it, a trailing pattern is the only
   * occurrence: `x + pat` becomes `x + rep`.
   */
  lemma {:induction false} ReplaceAtEnd(x: String, pat: String, rep: String)
    requires pat != [] && forall i :: 0 <= i < |x| ==> x[i] != pat[0]
    ensures ReplaceAll(x + pat, pat, rep) == x + rep
    decreases |x|
  {
    var s := x + pat;
    if x == [] {
      assert s[..|pat|] == pat && s[|pat|..] == [];
      assert ReplaceAll(s, pat, rep) == rep + ReplaceAll([], pat, rep);
    } else {
      assert s[..|pat|] != pat by { assert s[..|pat|][0] == x[0]; }
      assert s[1..] == x[1..] + pat;
      ReplaceAtEnd(x[1..], pat, rep);
      assert ReplaceAll(s, pat, rep) == [x[0]] + ReplaceAll(x[1..] + pat, pat, rep);
      assert [x[0]] + (x[1..] + rep) == x + rep;
    }
  }

  // ---------------------------------------------------------------- runs

  /** How many leading characters of `s` are not kept. */
  function RunLength(s: String, keep: char -> bool): (k: nat)
    ensures k <= |s| && (k == |s| || keep(s[k]))
    ensures forall i :: 0 <= i < k ==> !keep(s[i])
  {
    if s != [] && !keep(s[0]) then 1 + RunLength(s[1..], keep) else 0
  }

  /** The character at `i` is kept, or is an `_` followed by a kept character or by nothing. */
  predicate SquashedAt(r: String, i: nat, keep: char -> bool)
    requires i < |r|
  {
    keep(r[i]) || (r[i] == '_' && (i + 1 == |r| || keep(r[i + 1])))
  }

  predicate Squashed(r: String, keep: char -> bool) {
    forall i: nat :: i < |r| ==> SquashedAt(r, i, keep)
  }

  lemma SquashedCons(c: char, t: String, keep: char -> bool)
    requires Squashed(t, keep) && (keep(c) || (c == '_' && (t == [] || keep(t[0]))))
    ensures Squashed([c] + t, keep)
  {
    var r := [c] + t;
    forall i: nat | i < |r| ensures SquashedAt(r, i, keep) {
      if i > 0 {
        assert SquashedAt(t, i - 1, keep);
        assert r[i] == t[i - 1];
        if i < |t| { assert r[i + 1] == t[i]; }
      } else if t != [] {
        assert r[1] == t[0];
      }
    }
  }

  /**
   * `re.sub(r"[^...]+", "_", s)` for the character class `keep`: every maximal run of other
   * characters becomes one `_`.
   */
  function Squash(s: String, keep: char -> bool): (r: String)
    ensures |r| <= |s| && (r == [] <==> s == [])
    ensures s != [] && keep(s[0]) ==> r[0] == s[0]
    ensures Squashed(r, keep)
    decreases |s|
  {
    if s == [] then []
    else if keep(s[0]) then
      var t := Squash(s[1..], keep);
      SquashedCons(s[0], t, keep);
      [s[0]] + t
    else
      var t := Squash(s[1 + RunLength(s[1..], keep)..], keep);
      SquashedCons('_', t, keep);
      "_" + t
  }

  /** A string that is already in squashed form is left as it is. */
  lemma {:induction false} SquashSettled(s: String, keep: char -> bool)
    requires Squashed(s, keep)
    ensures Squash(s, keep) == s
    decreases |s|
  {
    if s != [] {
      SquashedTail(s, keep);
      SquashSettled(s[1..], keep);
      if !keep(s[0]) {
        assert SquashedAt(s, 0, keep);
        assert RunLength(s[1..], keep) == 0;
        assert s[1 + RunLength(s[1..], keep)..] == s[1..];
      }
    }
  }

  lemma SquashedTail(s: String, keep: char -> bool)
    requires Squashed(s, keep) && s != []
    ensures Squashed(s[1..], keep)
  {
    forall i: nat | i < |s| - 1 ensures SquashedAt(s[1..], i, keep) {
      assert SquashedAt(s, i + 1, keep);
      assert s[1..][i] == s[i + 1];
      if i + 1 < |s| - 1 { assert s[1..][i + 1] == s[i + 2]; }
    }
  }

  /**
   * A run of characters that are not kept, between kept text and text that starts with a kept
   * character, is replaced by exactly one `_`, and nothing around it changes.
   */
  lemma {:induction false} SquashRun(x: String, run: String, y: String, keep: char -> bool)
    requires (forall i :: 0 <= i < |x| ==> keep(x[i])) && run != [] && forall i :: 0 <= i < |run| ==> !keep(run[i])
    requires y == [] || keep(y[0])
    ensures Squash(x + run + y, keep) == x + "_" + Squash(y, keep)
    decreases |x|
  {
    if x == [] {
      assert x + run + y == run + y;
      SquashRunAlone(run, y, keep);
    } else {
      SquashRun(x[1..], run, y, keep);
      assert x[1..] + run + y == x[1..] + (run + y);
      SquashRunStep(x, run + y, Squash(y, keep), keep);
      assert x + run + y == x + (run + y);
    }
  }

  lemma SquashRunStep(x: String, t: String, q: String, keep: char -> bool)
    requires x != [] && keep(x[0])
    requires Squash(x[1..] + t, keep) == x[1..] + "_" + q
    ensures Squash(x + t, keep) == x + "_" + q
  {
    assert x + t == [x[0]] + (x[1..] + t);
    SquashKeptHead(x[0], x[1..] + t, keep);
    assert [x[0]] + (x[1..] + "_" + q) == x + "_" + q;
  }

  lemma SquashKeptHead(c: char, t: String, keep: char -> bool)
    requires keep(c)
    ensures Squash([c] + t, keep) == [c] + Squash(t, keep)
  {
    assert ([c] + t)[1..] == t;
  }

  lemma SquashRunAlone(run: String, y: String, keep: char -> bool)
    requires run != [] && forall i :: 0 <= i < |run| ==> !keep(run[i])
    requires y == [] || keep(y[0])
    ensures Squash(run + y, keep) == "_" + Squash(y, keep)
  {
    var s := run + y;
    assert s[1..] == run[1..] + y;
    RunLengthOf(run[1..], y, keep);
    assert s[|run|..] == y;
  }

  lemma {:induction false} RunLengthOf(run: String, y: String, keep: char -> bool)
    requires forall i :: 0 <= i < |run| ==> !keep(run[i])
    requires y == [] || keep(y[0])
    ensures RunLength(run + y, keep) == |run|
    decreases |run|
  {
    if run != [] {
      assert (run + y)[1..] == run[1..] + y;
      RunLengthOf(run[1..], y, keep);
    } else {
      assert run + y == y;
    }
  }

  /** Squashing keeps every kept character, in order: only runs of the others are replaced. */
  lemma {:induction false} SquashKeeps(s: String, keep: char -> bool)
    requires !keep('_')
    ensures Filter(Squash(s, keep), keep) == Filter(s, keep)
    decreases |s|
  {
    if s != [] {
      if keep(s[0]) {
        var t := Squash(s[1..], keep);
        assert ([s[0]] + t)[1..] == t;
        SquashKeeps(s[1..], keep);
      } else {
        var k := RunLength(s[1..], keep);
        var t := Squash(s[1 + k..], keep);
        assert ("_" + t)[1..] == t;
        SquashKeeps(s[1 + k..], keep);
        assert s[1..] == s[1..][..k] + s[1 + k..];
        FilterAppend(s[1..][..k], s[1 + k..], keep);
        FilterNone(s[1..][..k], keep);
      }
    }
  }

  // ---------------------------------------------------------------- digits and integers

  function DigitsOnly(s: String): (r: String)
    ensures |r| <= |s|
    ensures forall i :: 0 <= i < |r| ==> IsDigit(r[i])
  {
    if s == [] then [] else (if IsDigit(s[0]) then [s[0]] else []) + DigitsOnly(s[1..])
  }

  lemma {:induction false} DigitsOnlyKeepsDigits(s: String)
    requires forall i :: 0 <= i < |s| ==> IsDigit(s[i])
    ensures DigitsOnly(s) == s
  {
    if s != [] { DigitsOnlyKeepsDigits(s[1..]); }
  }

  function Zeros(n: nat): (r: String)
    ensures |r| == n && forall i :: 0 <= i < n ==> r[i] == '0'
  {
    seq(n, _ => '0')
  }

  /** `s.zfill(width)` for a string without a sign: left-pad with '0', never truncate. */
  function ZFill(s: String, width: nat): (r: String)
    ensures |r| == if |s| >= width then |s| else width
    ensures r[|r| - |s|..] == s
    ensures forall i :: 0 <= i < |r| - |s| ==> r[i] == '0'
  {
    if |s| >= width then s else Zeros(width - |s|) + s
  }

  /** Padding digits with zeros gives digits. */
  lemma ZFillDigits(s: String, width: nat)
    requires AllDigits(s)
    ensures AllDigits(ZFill(s, width))
  {
    var r := ZFill(s, width);
    forall i | 0 <= i < |r| ensures IsDigit(r[i]) {
      if i >= |r| - |s| {
        assert r[i] == r[|r| - |s|..][i - (|r| - |s|)];
      }
    }
  }

  function DigitChar(d: nat): (c: char)
    requires d < 10
    ensures IsDigit(c)
  {
    ('0' as int + d) as char
  }

  function DigitVal(c: char): (d: nat)
    requires IsDigit(c)
    ensures d < 10 && DigitChar(d) == c
  {
    c as int - '0' as int
  }

  /** `str(n)` for a natural number. */
  function NatToString(n: nat): (r: String)
    ensures |r| > 0
    ensures forall i :: 0 <= i < |r| ==> IsDigit(r[i])
    ensures r[0] == '0' ==> n == 0 && |r| == 1
  {
    if n < 10 then [DigitChar(n)] else NatToString(n / 10) + [DigitChar(n % 10)]
  }

  /** `str(n)` */
  function IntToString(n: int): String
  {
    if n < 0 then ['-'] + NatToString(-n) else NatToString(n)
  }

  predicate AllDigits(s: String) { forall i :: 0 <= i < |s| ==> IsDigit(s[i]) }

  /** The value of a string of decimal digits (leading zeros allowed, as `int("007")`). */
  function DigitsValue(s: String): nat
    requires AllDigits(s)
  {
    if s == [] then 0 else DigitsValue(s[..|s| - 1]) * 10 + DigitVal(s[|s| - 1])
  }

  /** `re.fullmatch(r"-?\d+", s)` */
  predicate IsIntLiteral(s: String) {
    if s != [] && s[0] == '-' then |s| > 1 && AllDigits(s[1..]) else |s| > 0 && AllDigits(s)
  }

  /** `int(s)` for a string accepted by `IsIntLiteral`. */
  function ParseInt(s: String): int
    requires IsIntLiteral(s)
  {
    if s[0] == '-' then 0 - DigitsValue(s[1..]) else DigitsValue(s)
  }

  /** Reading back the decimal form of a natural gives the natural. */
  lemma {:induction false} NatToStringRoundTrip(n: nat)
    ensures DigitsValue(NatToString(n)) == n
  {
    if n >= 10 {
      var s := NatToString(n);
      assert s[..|s| - 1] == NatToString(n / 10);
      NatToStringRoundTrip(n / 10);
    }
  }

  lemma IntToStringRoundTrip(n: int)
    ensures IsIntLiteral(IntToString(n)) && ParseInt(IntToString(n)) == n
  {
    if n < 0 {
      assert IntToString(n)[1..] == NatToString(-n);
      NatToStringRoundTrip(-n);
    } else {
      NatToStringRoundTrip(n);
    }
  }

  lemma NatToStringInjective(a: nat, b: nat)
    requires NatToString(a) == NatToString(b)
    ensures a == b
  {
    NatToStringRoundTrip(a);
    NatToStringRoundTrip(b);
  }

  /** `f"{n:02d}"` for 0 <= n < 100. */
  function Pad2(n: nat): (r: String)
    requires n < 100
    ensures |r| == 2 && AllDigits(r) && DigitsValue(r) == n
  {
    var r := [DigitChar(n / 10), DigitChar(n % 10)];
    assert r[..1] == [DigitChar(n / 10)] && r[..1][..0] == [];
    assert DigitsValue(r[..1]) == n / 10;
    r
  }

  // ---------------------------------------------------------------- ordering

  /** Python's `a <= b` on strings: lexicographic by code point, a prefix first. */
  predicate StrLe(a: String, b: String)
    decreases |a|
  {
    a == [] || (b != [] && (a[0] < b[0] || (a[0] == b[0] && StrLe(a[1..], b[1..]))))
  }

  lemma {:induction false} StrLeTotal(a: String, b: String)
    ensures StrLe(a, b) || StrLe(b, a)
    decreases |a|
  {
    if a != [] && b != [] && a[0] == b[0] { StrLeTotal(a[1..], b[1..]); }
  }

  lemma {:induction false} StrLeTransitive(a: String, b: String, c: String)
    requires StrLe(a, b) && StrLe(b, c)
    ensures StrLe(a, c)
    decreases |a|
  {
    if a != [] && a[0] == b[0] && b[0] == c[0] { StrLeTransitive(a[1..], b[1..], c[1..]); }
  }

  lemma {:induction false} StrLeAntisymmetric(a: String, b: String)
    requires StrLe(a, b) && StrLe(b, a)
    ensures a == b
    decreases |a|
  {
    if a != [] { StrLeAntisymmetric(a[1..], b[1..]); }
  }

  // ---------------------------------------------------------------- paths

  predicate IsSep(c: char) { c == '/' || c == '\\' }

  /** `os.path.basename` on a Windows path: everything after the last separator. */
  function Basename(p: String): (r: String)
    ensures forall i :: 0 <= i < |r| ==> !IsSep(r[i])
    ensures |r| <= |p| && r == p[|p| - |r|..]
  {
    if p == [] then [] else if IsSep(p[|p| - 1]) then [] else Basename(p[..|p| - 1]) + [p[|p| - 1]]
  }

  lemma BasenameStep(p: String)
    requires p != [] && !IsSep(p[|p| - 1])
    ensures Basename(p) == Basename(p[..|p| - 1]) + [p[|p| - 1]]
  { }

  /** The base name of a path is what follows its last separator: a name after a directory, or alone. */
  lemma {:induction false} BasenameJoin(dir: String, name: String)
    requires dir == [] || IsSep(dir[|dir| - 1])
    requires forall i :: 0 <= i < |name| ==> !IsSep(name[i])
    ensures Basename(dir + name) == name
  {
    if name != [] {
      var p := dir + name;
      var init := name[..|name| - 1];
      assert p[|p| - 1] == name[|name| - 1] && !IsSep(p[|p| - 1]);
      assert p[..|p| - 1] == dir + init;
      assert forall i :: 0 <= i < |init| ==> init[i] == name[i];
      BasenameJoin(dir, init);
      BasenameStep(p);
      assert init + [name[|name| - 1]] == name;
    } else {
      assert dir + name == dir;
      if dir != [] {
        assert IsSep(dir[|dir| - 1]);
      }
    }
  }
}
