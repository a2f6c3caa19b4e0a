/**
 * String helpers shared by the model: the two `trim` functions of the runtimes the
 * system is written for, prefix cuts, substring search, decimal rendering of
 * numbers, and joining and splitting on a separator.
 *
 * A JavaScript string is a sequence of UTF-16 code units and a PHP string one of
 * bytes; here both are `seq<char>` of Unicode scalar values.
 */
module Text {

  /** The characters JavaScript's `String.prototype.trim` removes: WhiteSpace and LineTerminator. */
  const JsWhitespace: set<char> := {
    '\t', '\n', '\U{0B}', '\U{0C}', '\r', ' ', '\U{A0}', '\U{1680}',
    '\U{2000}', '\U{2001}', '\U{2002}', '\U{2003}', '\U{2004}', '\U{2005}',
    '\U{2006}', '\U{2007}', '\U{2008}', '\U{2009}', '\U{200A}',
    '\U{2028}', '\U{2029}', '\U{202F}', '\U{205F}', '\U{3000}', '\U{FEFF}'
  }

  /** The characters PHP's `trim` removes by default: space, tab, newline, carriage return, NUL and vertical tab. */
  const PhpTrimChars: set<char> := {' ', '\t', '\n', '\r', '\0', '\U{0B}'}

  /** Drops the leading characters that belong to `cs`. */
  function TrimStart(s: string, cs: set<char>): (r: string)
    ensures |r| <= |s| && r == s[|s| - |r|..]
    ensures forall i :: 0 <= i < |s| - |r| ==> s[i] in cs
    ensures r != [] ==> r[0] !in cs
  {
    if s != [] && s[0] in cs then TrimStart(s[1..], cs) else s
  }

  /** Drops the trailing characters that belong to `cs`. */
  function TrimEnd(s: string, cs: set<char>): (r: string)
    ensures |r| <= |s| && r == s[..|r|]
    ensures forall i :: |r| <= i < |s| ==> s[i] in cs
    ensures r != [] ==> r[|r| - 1] !in cs
  {
    if s != [] && s[|s| - 1] in cs then TrimEnd(s[..|s| - 1], cs) else s
  }

  /** Drops the characters of `cs` at both ends: empty exactly when every character is in `cs`. */
  function Trim(s: string, cs: set<char>): (r: string)
    ensures |r| <= |s|
    ensures r != [] ==> r[0] !in cs && r[|r| - 1] !in cs
    ensures r == [] <==> forall i :: 0 <= i < |s| ==> s[i] in cs
  {
    var t := TrimStart(s, cs);
    var r := TrimEnd(t, cs);
    r
  }

  /**
   * Trimming removes characters of `cs` at the two ends and nothing else: the
   * result is one contiguous window of the input, and every character before and
   * after the window is in `cs`.
   */
  lemma TrimKeepsWindow(s: string, cs: set<char>)
    ensures var r := Trim(s, cs); var i := |s| - |TrimStart(s, cs)|;
      0 <= i <= |s| - |r| && (forall k :: 0 <= k < |r| ==> r[k] == s[i + k]) &&
      (forall k :: 0 <= k < i ==> s[k] in cs) && (forall k :: i + |r| <= k < |s| ==> s[k] in cs)
  {
    assert Trim(s, cs) == TrimEnd(TrimStart(s, cs), cs);
    TrimStartThenEnd(s, cs, TrimStart(s, cs), Trim(s, cs));
  }

  /** Trimming one character off the end leaves a prefix followed only by that character. */
  lemma TrimEndOfChar(s: string, cs: set<char>, c: char, r: string)
    requires cs == {c} && r == TrimEnd(s, cs)
    ensures r == s[..|r|]
    ensures forall k :: |r| <= k < |s| ==> s[k] == c
    ensures r == [] || s[|r| - 1] != c
  {
    forall k | |r| <= k < |s| ensures s[k] == c {
      assert s[k] in cs;
    }
  }

  /** Trimming one character off the start leaves a suffix preceded only by that character. */
  lemma TrimStartOfChar(s: string, cs: set<char>, c: char, r: string)
    requires cs == {c} && r == TrimStart(s, cs)
    ensures r == s[|s| - |r|..]
    ensures forall k :: 0 <= k < |s| - |r| ==> s[k] == c
    ensures r == [] || s[|s| - |r|] != c
  {
    forall k | 0 <= k < |s| - |r| ensures s[k] == c {
      assert s[k] in cs;
    }
    if r != [] {
      assert r[0] == s[|s| - |r|] && r[0] !in cs;
    }
  }

  /**
   * Joining a trimmed-at-the-end `base` and a trimmed-at-the-start `path` with one `c`:
   * a prefix of `base` that ends before its trailing run of `c`, then `c`, then the suffix of
   * `path` after its leading run of `c`.
   */
  lemma JoinTrimmed(base: string, path: string, cs: set<char>, c: char, kept: string, rest: string)
    requires cs == {c} && kept == TrimEnd(base, cs) && rest == TrimStart(path, cs)
    ensures var i := |kept|; var j := |path| - |rest|;
      && 0 <= i <= |base| && 0 <= j <= |path|
      && kept + [c] + rest == base[..i] + [c] + path[j..]
      && (forall k :: i <= k < |base| ==> base[k] == c)
      && (forall k :: 0 <= k < j ==> path[k] == c)
      && (i == 0 || base[i - 1] != c)
      && (j == |path| || path[j] != c)
  {
    TrimEndOfChar(base, cs, c, kept);
    TrimStartOfChar(path, cs, c, rest);
  }

  /** The window statement for the two one-sided trims, applied one after the other. */
  lemma TrimStartThenEnd(s: string, cs: set<char>, t: string, r: string)
    requires t == TrimStart(s, cs) && r == TrimEnd(t, cs)
    ensures var i := |s| - |t|;
      0 <= i <= |s| - |r| && (forall k :: 0 <= k < |r| ==> r[k] == s[i + k]) &&
      (forall k :: 0 <= k < i ==> s[k] in cs) && (forall k :: i + |r| <= k < |s| ==> s[k] in cs)
  {
    TrimWindow(s, cs, t, r);
  }

  /**
   * Dropping a run of characters of `cs` from the front of `s` (leaving `t`) and
   * then from the back of `t` (leaving `r`) keeps one contiguous window of `s`.
   */
  lemma TrimWindow(s: string, cs: set<char>, t: string, r: string)
    requires |t| <= |s| && t == s[|s| - |t|..] && (forall k :: 0 <= k < |s| - |t| ==> s[k] in cs)
    requires |r| <= |t| && r == t[..|r|] && (forall k :: |r| <= k < |t| ==> t[k] in cs)
    ensures var i := |s| - |t|;
      0 <= i <= |s| - |r| && (forall k :: 0 <= k < |r| ==> r[k] == s[i + k]) &&
      (forall k :: 0 <= k < i ==> s[k] in cs) && (forall k :: i + |r| <= k < |s| ==> s[k] in cs)
  {
    var i := |s| - |t|;
    forall k | i + |r| <= k < |s| ensures s[k] in cs {
      assert s[k] == t[k - i];
    }
  }

  /** Trimming twice is trimming once. */
  lemma {:induction false} TrimIdempotent(s: string, cs: set<char>)
    ensures Trim(Trim(s, cs), cs) == Trim(s, cs)
  {
    var r := Trim(s, cs);
    if r != [] {
      assert TrimStart(r, cs) == r;
      assert TrimEnd(r, cs) == r;
    }
  }

  /** `s.trim()` in JavaScript. */
  function JsTrim(s: string): string {
    Trim(s, JsWhitespace)
  }

  /** `trim($s)` in PHP. */
  function PhpTrim(s: string): string {
    Trim(s, PhpTrimChars)
  }

  /** The first `n` elements, or all of them when there are fewer: JavaScript's `s.substring(0, n)` and `a.slice(0, n)`, PHP's `array_slice($a, 0, n)`. */
  function Take<T>(s: seq<T>, n: nat): (r: seq<T>)
    ensures |r| == if |s| <= n then |s| else n
    ensures r <= s
  {
    if |s| <= n then s else s[..n]
  }

  /** Below the bound, appending at most one element to the input appends it to the cut. */
  lemma TakeAppendShort<T>(xs: seq<T>, ys: seq<T>, n: nat)
    requires |xs| < n && |ys| <= 1
    ensures Take(xs + ys, n) == Take(xs, n) + ys
  { }

  /** Once the bound is reached, whatever follows is cut off. */
  lemma TakeSaturated<T>(xs: seq<T>, ys: seq<T>, n: nat)
    requires |xs| >= n
    ensures Take(xs + ys, n) == Take(xs, n)
  {
    assert (xs + ys)[..n] == xs[..n];
  }

  /** Whether `sub` occurs in `s` at some position: JavaScript's `s.includes(sub)`. */
  predicate Contains(s: string, sub: string)
    decreases |s|
  {
    sub <= s || (s != [] && Contains(s[1..], sub))
  }

  /** `Contains` is exactly "some suffix of `s` starts with `sub`". */
  lemma {:induction false} ContainsIff(s: string, sub: string)
    ensures Contains(s, sub) <==> exists k :: 0 <= k <= |s| && sub <= s[k..]
  {
    if sub <= s {
      assert sub <= s[0..];
    } else if s == [] {
    } else {
      ContainsIff(s[1..], sub);
      if exists k :: 0 <= k <= |s| && sub <= s[k..] {
        var k :| 0 <= k <= |s| && sub <= s[k..];
        assert k != 0;
        assert s[1..][k - 1..] == s[k..];
      }
      if Contains(s[1..], sub) {
        var k :| 0 <= k <= |s| - 1 && sub <= s[1..][k..];
        assert s[1..][k..] == s[k + 1..];
      }
    }
  }

  /** An occurrence survives putting text before and after it. */
  lemma {:induction false} ContainsExtended(p: string, s: string, q: string, sub: string)
    requires Contains(s, sub)
    ensures Contains(p + s + q, sub)
  {
    ContainsIff(s, sub);
    var k :| 0 <= k <= |s| && sub <= s[k..];
    var t := p + s + q;
    assert t[|p| + k..] == s[k..] + q;
    ContainsIff(t, sub);
  }

  /** Every piece occurs in the joined string. */
  lemma {:induction false} JoinContainsPiece(xs: seq<string>, sep: string, i: nat)
    requires i < |xs|
    ensures Contains(Join(xs, sep), xs[i])
  {
    if |xs| == 1 {
      assert xs[i] <= Join(xs, sep);
    } else if i == 0 {
      assert xs[0] <= Join(xs, sep);
    } else {
      JoinContainsPiece(xs[1..], sep, i - 1);
      assert xs[1..][i - 1] == xs[i];
      ContainsExtended(xs[0] + sep, Join(xs[1..], sep), "", xs[i]);
      assert xs[0] + sep + Join(xs[1..], sep) + "" == Join(xs, sep);
    }
  }

  /** The decimal digit `d`. */
  function DigitChar(d: nat): (c: char)
    requires d < 10
    ensures '0' <= c <= '9' && (c as int) - ('0' as int) == d
  {
    "0123456789"[d]
  }

  predicate IsDigits(s: string) {
    forall i :: 0 <= i < |s| ==> '0' <= s[i] <= '9'
  }

  /** The value of a string of decimal digits. */
  function DigitsValue(s: string): nat
    requires IsDigits(s)
  {
    if s == [] then 0
    else DigitsValue(s[..|s| - 1]) * 10 + ((s[|s| - 1] as int) - ('0' as int))
  }

  /** The decimal rendering of `n`, as a JavaScript template literal prints a number. */
  function NatToString(n: nat): (r: string)
    ensures r != [] && IsDigits(r)
  {
    if n < 10 then [DigitChar(n)] else NatToString(n / 10) + [DigitChar(n % 10)]
  }

  /** The rendering reads back as the number, and has no leading zero. */
  lemma {:induction false} NatToStringRoundTrip(n: nat)
    ensures DigitsValue(NatToString(n)) == n
    ensures NatToString(n)[0] == '0' <==> n == 0
  {
    if n >= 10 {
      NatToStringRoundTrip(n / 10);
      var s := NatToString(n);
      assert s[..|s| - 1] == NatToString(n / 10);
      assert s[0] == NatToString(n / 10)[0];
    }
  }

  /** The elements of `xs` with `sep` between neighbours: JavaScript's `xs.join(sep)`. */
  function Join(xs: seq<string>, sep: string): string {
    if |xs| == 0 then ""
    else if |xs| == 1 then xs[0]
    else xs[0] + sep + Join(xs[1..], sep)
  }

  /** The pieces of `s` between occurrences of `c`: JavaScript's `s.split(c)` for a one-character separator. */
  function Split(s: string, c: char): (r: seq<string>)
    ensures |r| > 0
  {
    if s == [] then [""]
    else
      var rest := Split(s[1..], c);
      if s[0] == c then [""] + rest else [[s[0]] + rest[0]] + rest[1..]
  }

  lemma {:induction false} SplitWithout(x: string, c: char)
    requires c !in x
    ensures Split(x, c) == [x]
  {
    if x != [] {
      SplitWithout(x[1..], c);
      assert [x[0]] + x[1..] == x;
    }
  }

  lemma {:induction false} SplitAfter(x: string, c: char, y: string)
    requires c !in x
    ensures Split(x + [c] + y, c) == [x] + Split(y, c)
  {
    var s := x + [c] + y;
    if x == [] {
      assert s[1..] == y;
    } else {
      assert s[1..] == x[1..] + [c] + y;
      SplitAfter(x[1..], c, y);
      assert [x[0]] + x[1..] == x;
    }
  }

  /** Splitting a join on a separator none of the pieces contains gives the pieces back. */
  lemma {:induction false} SplitJoin(xs: seq<string>, c: char)
    requires |xs| > 0
    requires forall i :: 0 <= i < |xs| ==> c !in xs[i]
    ensures Split(Join(xs, [c]), c) == xs
  {
    if |xs| == 1 {
      SplitWithout(xs[0], c);
    } else {
      SplitJoin(xs[1..], c);
      SplitAfter(xs[0], c, Join(xs[1..], [c]));
      assert [xs[0]] + xs[1..] == xs;
    }
  }
}
