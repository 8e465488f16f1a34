/**
 * Character classes and string operations shared by the extractor, the
 * evidence digest and the page-text join: Python's notion of whitespace,
 * ASCII case folding, `str.strip()`, `str.join` and `str(int)`.
 */
module Strings {

  /** Python's whitespace: the characters for which `str.isspace()` holds.
      Both `\s` in a `str` pattern and `str.strip()` use exactly this set. */
  predicate IsSpace(c: char) {
    || ('\t' <= c <= '\r')
    || ('\U{1C}' <= c <= '\U{1F}')
    || c == ' ' || c == '\U{85}' || c == '\U{A0}' || c == '\U{1680}'
    || ('\U{2000}' <= c <= '\U{200A}')
    || c == '\U{2028}' || c == '\U{2029}' || c == '\U{202F}' || c == '\U{205F}'
    || c == '\U{3000}'
  }

  /** ASCII lower-casing, the case folding the extractor uses. */
  function Lower(c: char): char {
    if 'A' <= c <= 'Z' then (c as int - 'A' as int + 'a' as int) as char else c
  }

  predicate AllSpace(s: string) {
    forall i :: 0 <= i < |s| ==> IsSpace(s[i])
  }

  /** No whitespace at either end: what `str.strip()` returns. */
  predicate Trimmed(s: string) {
    s == [] || (!IsSpace(s[0]) && !IsSpace(s[|s| - 1]))
  }

  /** The index of the first non-whitespace character at or after `i`
      (the greedy `\s*`). */
  function SkipSpace(s: string, i: nat): (r: nat)
    requires i <= |s|
    ensures i <= r <= |s|
    ensures AllSpace(s[i..r])
    ensures r < |s| ==> !IsSpace(s[r])
    decreases |s| - i
  {
    if i < |s| && IsSpace(s[i]) then SkipSpace(s, i + 1) else i
  }

  /** The index just after the last non-whitespace character before `j`. */
  function SkipSpaceBack(s: string, j: nat): (r: nat)
    requires j <= |s|
    ensures r <= j
    ensures AllSpace(s[r..j])
    ensures r > 0 ==> !IsSpace(s[r - 1])
    decreases j
  {
    if j > 0 && IsSpace(s[j - 1]) then
      var r := SkipSpaceBack(s, j - 1);
      assert s[r..j] == s[r..j - 1] + [s[j - 1]];
      r
    else j
  }

  lemma SpacesAt(s: string, a: nat, b: nat)
    requires a <= b <= |s| && AllSpace(s[a..b])
    ensures forall k :: a <= k < b ==> IsSpace(s[k])
  {
    forall k | a <= k < b ensures IsSpace(s[k]) {
      assert s[a..b][k - a] == s[k];
    }
  }

  /** `SkipSpace` stops exactly at the first non-whitespace character. */
  lemma SkipSpaceAt(s: string, i: nat, r: nat)
    requires i <= r <= |s| && AllSpace(s[i..r]) && (r < |s| ==> !IsSpace(s[r]))
    ensures SkipSpace(s, i) == r
  {
    SpacesAt(s, i, r);
    SpacesAt(s, i, SkipSpace(s, i));
  }

  /** `SkipSpaceBack` stops exactly after the last non-whitespace character. */
  lemma SkipSpaceBackAt(s: string, j: nat, r: nat)
    requires r <= j <= |s| && AllSpace(s[r..j]) && (r > 0 ==> !IsSpace(s[r - 1]))
    ensures SkipSpaceBack(s, j) == r
  {
    SpacesAt(s, r, j);
    SpacesAt(s, SkipSpaceBack(s, j), j);
  }

  /** `str.lstrip()`: drops the leading whitespace. */
  function StripStart(s: string): (r: string)
    ensures r == [] || !IsSpace(r[0])
  {
    s[SkipSpace(s, 0)..]
  }

  /** `str.rstrip()`: drops the trailing whitespace. */
  function StripEnd(s: string): (r: string)
    ensures r == [] || !IsSpace(r[|r| - 1])
  {
    s[..SkipSpaceBack(s, |s|)]
  }

  /** `r` occurs as a contiguous piece of `s`. */
  ghost predicate IsInfix(r: string, s: string) {
    exists i, j :: 0 <= i <= j <= |s| && s[i..j] == r
  }

  lemma InfixOfSlice(r: string, s: string, c: nat, e: nat)
    requires c <= e <= |s| && IsInfix(r, s[c..e])
    ensures IsInfix(r, s)
  {
    var i, j :| 0 <= i <= j <= e - c && s[c..e][i..j] == r;
    assert s[c..e][i..j] == s[c + i..c + j] by {
      forall k | 0 <= k < j - i ensures s[c..e][i..j][k] == s[c + i..c + j][k] {
        assert s[c..e][i..j][k] == s[c..e][i + k] == s[c + i + k];
      }
    }
    assert 0 <= c + i <= c + j <= |s| && s[c + i..c + j] == r;
  }

  /** `str.strip()`: the result is trimmed and is a contiguous piece of `s`. */
  function Strip(s: string): (r: string)
    ensures Trimmed(r)
    ensures IsInfix(r, s)
  {
    var q := SkipSpace(s, 0);
    var t := StripStart(s);
    var k := SkipSpaceBack(t, |t|);
    assert t[..k] == s[q..q + k];
    assert k > 0 ==> t[..k][0] == t[0];
    StripEnd(t)
  }

  /** Leading whitespace does not change what `lstrip` returns. */
  lemma {:induction false} StripStartSpaces(a: string, x: string)
    requires AllSpace(a)
    ensures StripStart(a + x) == StripStart(x)
  {
    var q := SkipSpace(x, 0);
    var ax := a + x;
    var pre := ax[0..|a| + q];
    assert AllSpace(pre) by {
      forall i | 0 <= i < |pre| ensures IsSpace(pre[i]) {
        if i < |a| {
          assert pre[i] == a[i];
        } else {
          assert pre[i] == x[0..q][i - |a|];
        }
      }
    }
    assert |a| + q < |ax| ==> ax[|a| + q] == x[q];
    SkipSpaceAt(ax, 0, |a| + q);
    assert ax[|a| + q..] == x[q..];
  }

  /** Trailing whitespace does not change what `rstrip` returns. */
  lemma {:induction false} StripEndSpaces(x: string, b: string)
    requires AllSpace(b)
    ensures StripEnd(x + b) == StripEnd(x)
  {
    var q := SkipSpaceBack(x, |x|);
    var xb := x + b;
    var post := xb[q..|xb|];
    assert AllSpace(post) by {
      forall i | 0 <= i < |post| ensures IsSpace(post[i]) {
        if q + i < |x| {
          assert post[i] == x[q..|x|][i];
        } else {
          assert post[i] == b[q + i - |x|];
        }
      }
    }
    assert q > 0 ==> xb[q - 1] == x[q - 1];
    SkipSpaceBackAt(xb, |xb|, q);
    assert xb[..q] == x[..q];
  }

  /** Once `lstrip` keeps something, text appended after it is kept whole. */
  lemma {:induction false} StripStartAppend(x: string, b: string)
    requires StripStart(x) != []
    ensures StripStart(x + b) == StripStart(x) + b
  {
    var q := SkipSpace(x, 0);
    var xb := x + b;
    assert xb[0..q] == x[0..q];
    assert xb[q] == x[q];
    SkipSpaceAt(xb, 0, q);
    assert xb[q..] == x[q..] + b;
  }

  /** A string that `lstrip` empties is all whitespace. */
  lemma {:induction false} StripStartEmpty(x: string)
    requires StripStart(x) == []
    ensures AllSpace(x)
  {
    assert x[0..|x|] == x;
  }

  /** Leading whitespace does not change what `strip` returns. */
  lemma {:induction false} StripLeading(a: string, x: string)
    requires AllSpace(a)
    ensures Strip(a + x) == Strip(x)
  {
    StripStartSpaces(a, x);
  }

  /** Trailing whitespace does not change what `strip` returns. */
  lemma {:induction false} StripTrailing(x: string, b: string)
    requires AllSpace(b)
    ensures Strip(x + b) == Strip(x)
  {
    if StripStart(x) == [] {
      StripStartEmpty(x);
      StripStartSpaces(x, b);
      assert b + [] == b;
      StripStartSpaces(b, []);
    } else {
      StripStartAppend(x, b);
      StripEndSpaces(StripStart(x), b);
    }
  }

  /** Leading and trailing whitespace do not change what `strip` returns. */
  lemma {:induction false} StripIgnoresPadding(a: string, x: string, b: string)
    requires AllSpace(a) && AllSpace(b)
    ensures Strip(a + x + b) == Strip(x)
  {
    assert a + x + b == a + (x + b);
    StripLeading(a, x + b);
    StripTrailing(x, b);
  }

  /** The same, for a slice whose ends are whitespace. */
  lemma StripSlice(s: string, b: nat, c: nat, e: nat, j: nat)
    requires b <= c <= e <= j <= |s|
    requires AllSpace(s[b..c]) && AllSpace(s[e..j])
    ensures Strip(s[b..j]) == Strip(s[c..e])
  {
    assert s[b..j] == s[b..c] + s[c..e] + s[e..j];
    StripIgnoresPadding(s[b..c], s[c..e], s[e..j]);
  }

  /** `strip` is characterised by what it removes: whitespace padding on
      both sides of a trimmed string is removed exactly. */
  lemma StripPadded(a: string, t: string, b: string)
    requires AllSpace(a) && Trimmed(t) && AllSpace(b)
    ensures Strip(a + t + b) == t
  {
    StripIgnoresPadding(a, t, b);
    SkipSpaceAt(t, 0, 0);
    assert StripStart(t) == t;
    SkipSpaceBackAt(t, |t|, |t|);
    assert StripEnd(t) == t;
  }

  /** `sep.join(xs)`. */
  function Join(xs: seq<string>, sep: string): string {
    if |xs| == 0 then "" else if |xs| == 1 then xs[0] else xs[0] + sep + Join(xs[1..], sep)
  }

  /** `s.split(c)` for a single-character separator: the pieces between
      consecutive occurrences of `c`. */
  function Split(s: string, c: char): (r: seq<string>)
    ensures |r| >= 1
  {
    if s == [] then [""]
    else
      var rest := Split(s[1..], c);
      if s[0] == c then [""] + rest else [[s[0]] + rest[0]] + rest[1..]
  }

  lemma {:induction false} SplitPiece(x: string, y: string, c: char)
    requires forall i :: 0 <= i < |x| ==> x[i] != c
    ensures Split(x + [c] + y, c) == [x] + Split(y, c)
    decreases |x|
  {
    if x == [] {
      assert x + [c] + y == [c] + y;
      assert ([c] + y)[1..] == y;
    } else {
      assert (x + [c] + y)[1..] == x[1..] + [c] + y;
      SplitPiece(x[1..], y, c);
      assert [x[0]] + x[1..] == x;
    }
  }

  lemma {:induction false} SplitWhole(x: string, c: char)
    requires forall i :: 0 <= i < |x| ==> x[i] != c
    ensures Split(x, c) == [x]
    decreases |x|
  {
    if x != [] {
      SplitWhole(x[1..], c);
      assert [x[0]] + x[1..] == x;
    }
  }

  /** Splitting a join at its one-character separator gives back the pieces,
      provided no piece contains the separator. */
  lemma {:induction false} SplitJoin(xs: seq<string>, c: char)
    requires |xs| >= 1
    requires forall k, i :: 0 <= k < |xs| && 0 <= i < |xs[k]| ==> xs[k][i] != c
    ensures Split(Join(xs, [c]), c) == xs
    decreases |xs|
  {
    if |xs| == 1 {
      SplitWhole(xs[0], c);
    } else {
      SplitJoin(xs[1..], c);
      SplitPiece(xs[0], Join(xs[1..], [c]), c);
      assert [xs[0]] + xs[1..] == xs;
    }
  }

  function DigitChar(d: nat): (c: char)
    requires d < 10
    ensures '0' <= c <= '9'
  {
    ('0' as int + d) as char
  }

  /** `str(n)` for a non-negative integer: decimal digits, most significant
      first, no leading zero. */
  function Decimal(n: nat): (r: string)
    ensures |r| >= 1
    ensures forall i :: 0 <= i < |r| ==> '0' <= r[i] <= '9'
    ensures r[0] == '0' ==> n == 0
  {
    if n < 10 then [DigitChar(n)] else Decimal(n / 10) + [DigitChar(n % 10)]
  }

  /** Reads a string of decimal digits back as a number. */
  function ParseDecimal(s: string): nat
    requires forall i :: 0 <= i < |s| ==> '0' <= s[i] <= '9'
  {
    if s == [] then 0
    else ParseDecimal(s[..|s| - 1]) * 10 + (s[|s| - 1] as int - '0' as int)
  }

  lemma {:induction false} DecimalRoundTrip(n: nat)
    ensures ParseDecimal(Decimal(n)) == n
  {
    if n >= 10 {
      DecimalRoundTrip(n / 10);
      var d := Decimal(n);
      assert d[..|d| - 1] == Decimal(n / 10);
    }
  }
}
