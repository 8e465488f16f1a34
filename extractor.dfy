/**
 * The section extractor of the upload loop: `extract(label, next_label)`
 * returns the text that follows the first `[LABEL]` marker of the model's
 * reply, up to the next expected marker. The regular expression the
 * application builds is specified here directly, step by step: the leftmost
 * marker (`re.search`), the optional colon (`:?`), the greedy whitespace
 * (`\s*`), the lazy capture (`(.*?)`) and the lookahead that ends it
 * (`(?=\s*\[NEXT\]|$)`), followed by `strip()`.
 */
module Extractor {
  import opened Wrappers
  import opened Strings

  /** What `extract` returns when the marker is missing. */
  const NOT_FOUND := "Data not found"

  function Marker(name: string): string {
    "[" + name + "]"
  }

  /** A field label: upper-case ASCII letters only, as every label of the
      application is. */
  predicate IsLabel(l: string) {
    forall i :: 0 <= i < |l| ==> 'A' <= l[i] <= 'Z'
  }

  /** Pattern `m` occurs at position `i` of `s`, letters compared without
      regard to case: the exact text of `m` always occurs. */
  predicate OccursAt(s: string, m: string, i: nat): (b: bool)
    ensures i + |m| <= |s| && s[i..i + |m|] == m ==> b
  {
    i + |m| <= |s| && forall t :: 0 <= t < |m| ==> Lower(s[i + t]) == Lower(m[t])
  }

  /** What case-insensitive matching of a label's marker accepts: the
      brackets as they are, and each letter of the label in upper or lower
      case. */
  lemma {:induction false} MarkerMatch(s: string, name: string, i: nat)
    requires IsLabel(name)
    ensures OccursAt(s, Marker(name), i)
            <==> && i + |name| + 2 <= |s| && s[i] == '[' && s[i + |name| + 1] == ']'
                 && forall t :: 0 <= t < |name| ==> s[i + 1 + t] == name[t] || s[i + 1 + t] == Lower(name[t])
  {
    var m := Marker(name);
    if i + |m| <= |s| {
      assert m[0] == '[' && m[|name| + 1] == ']';
      assert forall t :: 0 <= t < |name| ==> m[1 + t] == name[t];
      if OccursAt(s, m, i) {
        assert Lower(s[i]) == Lower(m[0]);
        assert Lower(s[i + |name| + 1]) == Lower(m[|name| + 1]);
        forall t | 0 <= t < |name|
          ensures s[i + 1 + t] == name[t] || s[i + 1 + t] == Lower(name[t])
        {
          assert Lower(s[i + 1 + t]) == Lower(m[1 + t]);
          LowerLetter(s[i + 1 + t], name[t]);
        }
      }
      if s[i] == '[' && s[i + |name| + 1] == ']'
         && forall t :: 0 <= t < |name| ==> s[i + 1 + t] == name[t] || s[i + 1 + t] == Lower(name[t])
      {
        forall t | 0 <= t < |m| ensures Lower(s[i + t]) == Lower(m[t]) {
          if 0 < t < |m| - 1 {
            assert s[i + 1 + (t - 1)] == name[t - 1] || s[i + 1 + (t - 1)] == Lower(name[t - 1]);
            LowerLetter(s[i + t], name[t - 1]);
          }
        }
      }
    }
  }

  /** Two characters fold to the same upper-case letter exactly when the
      first is that letter or its lower-case form. */
  lemma LowerLetter(x: char, c: char)
    requires 'A' <= c <= 'Z'
    ensures Lower(x) == Lower(c) <==> x == c || x == Lower(c)
  {
  }

  /** The leftmost occurrence of `m` at or after `from`. */
  function Find(s: string, m: string, from: nat): (r: Option<nat>)
    ensures r.Some? ==> from <= r.value && OccursAt(s, m, r.value)
    ensures forall j: nat :: from <= j && (r.None? || j < r.value) ==> !OccursAt(s, m, j)
    decreases |s| + 1 - from
  {
    if |s| < from + |m| then None
    else if OccursAt(s, m, from) then Some(from)
    else Find(s, m, from + 1)
  }

  /** Skips the optional `:` that follows a marker ending at `a`. */
  function AfterColon(s: string, a: nat): (b: nat)
    requires a <= |s|
    ensures a <= b <= |s|
    ensures b == a + 1 <==> a < |s| && s[a] == ':'
    ensures b == a <==> !(a < |s| && s[a] == ':')
  {
    if a < |s| && s[a] == ':' then a + 1 else a
  }

  /** `$` without the MULTILINE flag: the end of the text, or just before a
      final newline. */
  predicate AtEnd(s: string, k: nat) {
    k == |s| || (k + 1 == |s| && s[k] == '\n')
  }

  /** The lookahead `(?=\s*\[NEXT\]|$)` succeeds at position `k`. */
  predicate Stops(s: string, k: nat, m: string)
    requires k <= |s|
  {
    OccursAt(s, m, SkipSpace(s, k)) || AtEnd(s, k)
  }

  /** The lazy `(.*?)` begun at `c`: it ends at the first position where the
      lookahead succeeds, and there always is one. */
  function LazyEnd(s: string, c: nat, m: string): (e: nat)
    requires c <= |s|
    ensures c <= e <= |s| && Stops(s, e, m)
    ensures forall k :: c <= k < e ==> !Stops(s, k, m)
    decreases |s| - c
  {
    if Stops(s, c, m) then c else LazyEnd(s, c + 1, m)
  }

  /** Where the captured group begins once the marker is found at `p`:
      after the marker, its optional `:` and any whitespace (`:?\s*`). */
  function ValueStart(s: string, name: string, p: nat): (c: nat)
    requires p + |Marker(name)| <= |s|
    ensures p + |Marker(name)| <= c <= |s|
  {
    SkipSpace(s, AfterColon(s, p + |Marker(name)|))
  }

  /** Where the captured group ends: at the lazy end when a next label is
      given, at the end of the text (the greedy `(.*)`) when not. */
  function ValueEnd(s: string, c: nat, next: Option<string>): (e: nat)
    requires c <= |s|
    ensures c <= e <= |s|
  {
    if next.Some? then LazyEnd(s, c, Marker(next.value)) else |s|
  }

  /** `match.group(1).strip()` when `re.search` matches, `None` when it does
      not. The search fails only when the marker is absent: once `[LABEL]` is
      found, the lookahead can always succeed at the end of the text. */
  function Capture(response: string, name: string, next: Option<string>): (r: Option<string>)
    ensures r.None? <==> forall i: nat :: !OccursAt(response, Marker(name), i)
    ensures r.Some? ==> Trimmed(r.value) && IsInfix(r.value, response)
  {
    match Find(response, Marker(name), 0)
    case None => None
    case Some(p) =>
      var c := ValueStart(response, name, p);
      var e := ValueEnd(response, c, next);
      InfixOfSlice(Strip(response[c..e]), response, c, e);
      Some(Strip(response[c..e]))
  }

  /** `extract(label, next_label)`: the captured value, or the sentinel. */
  function Extract(response: string, name: string, next: Option<string>): (r: string)
    ensures (forall i: nat :: !OccursAt(response, Marker(name), i)) ==> r == NOT_FOUND
    ensures Trimmed(r)
    ensures r == NOT_FOUND || IsInfix(r, response)
  {
    match Capture(response, name, next)
    case None => NOT_FOUND
    case Some(v) => v
  }

  /** A captured value is what `extract` returns. */
  lemma {:induction false} ExtractCaptured(response: string, name: string, next: Option<string>, v: string)
    requires Capture(response, name, next) == Some(v)
    ensures Extract(response, name, next) == v
  {
  }

  /** An occurrence of a marker begins with a literal `[`, never whitespace. */
  lemma {:induction false} MarkerStart(s: string, name: string, j: nat)
    requires OccursAt(s, Marker(name), j)
    ensures j < |s| && s[j] == '[' && !IsSpace(s[j])
  {
    assert Lower(s[j + 0]) == Lower(Marker(name)[0]);
  }

  /** Where the value that starts after position `b` ends: the first
      `[NEXT]` at or after `b`, or the end of the text. */
  function NextOrEnd(s: string, m: string, b: nat): (j: nat)
    requires b <= |s|
    ensures b <= j <= |s|
  {
    match Find(s, m, b)
    case Some(j) => j
    case None => |s|
  }

  /** When a `[NEXT]` follows, the lazy capture stops at most whitespace
      short of the first one. */
  lemma {:induction false} LazyEndAtNext(s: string, b: nat, next: string, j: nat)
    requires b <= |s| && Find(s, Marker(next), b) == Some(j)
    ensures var e := LazyEnd(s, SkipSpace(s, b), Marker(next));
            SkipSpace(s, b) <= e <= j && AllSpace(s[e..j])
  {
    var m := Marker(next);
    var c := SkipSpace(s, b);
    var e := LazyEnd(s, c, m);
    MarkerStart(s, next, j);
    SpacesAt(s, b, c);
    assert c <= j;
    assert SkipSpace(s, j) == j;
    assert Stops(s, j, m);
    var k := SkipSpace(s, e);
    SpacesAt(s, e, k);
    assert OccursAt(s, m, k);
    assert k == j;
  }

  /** When no `[NEXT]` follows, the lazy capture stops at the end of the
      text or just before a final newline. */
  lemma {:induction false} LazyEndAtEnd(s: string, b: nat, next: string)
    requires b <= |s| && Find(s, Marker(next), b) == None
    ensures var e := LazyEnd(s, SkipSpace(s, b), Marker(next));
            AllSpace(s[e..])
  {
    var m := Marker(next);
    var e := LazyEnd(s, SkipSpace(s, b), m);
    assert !OccursAt(s, m, SkipSpace(s, e));
    assert e < |s| ==> s[e..] == ['\n'];
  }

  /** The lazy capture stops at most whitespace short of the next marker (or
      of the end of the text). */
  lemma {:induction false} LazyEndBeforeNext(s: string, b: nat, next: string)
    requires b <= |s|
    ensures var c := SkipSpace(s, b);
            var e := LazyEnd(s, c, Marker(next));
            c <= e <= NextOrEnd(s, Marker(next), b) && AllSpace(s[e..NextOrEnd(s, Marker(next), b)])
  {
    var e := LazyEnd(s, SkipSpace(s, b), Marker(next));
    match Find(s, Marker(next), b)
    case Some(j) =>
      LazyEndAtNext(s, b, next, j);
    case None =>
      LazyEndAtEnd(s, b, next);
      assert s[e..|s|] == s[e..];
  }

  /** The definition of `Capture` once the marker is found at `p`. */
  lemma {:induction false} CaptureFound(s: string, name: string, next: Option<string>, p: nat)
    requires Find(s, Marker(name), 0) == Some(p)
    ensures var c := ValueStart(s, name, p);
            Capture(s, name, next) == Some(Strip(s[c..ValueEnd(s, c, next)]))
  {
  }

  /** With a next label, the value is the stripped text between the first
      `[LABEL]` (and its optional colon) and the first `[NEXT]` after it, or
      the end of the text when none follows. */
  lemma {:induction false} CaptureUpToNext(s: string, name: string, next: string, p: nat)
    requires Find(s, Marker(name), 0) == Some(p)
    ensures var b := AfterColon(s, p + |Marker(name)|);
            Capture(s, name, Some(next)) == Some(Strip(s[b..NextOrEnd(s, Marker(next), b)]))
  {
    var b := AfterColon(s, p + |Marker(name)|);
    var c := SkipSpace(s, b);
    var e := LazyEnd(s, c, Marker(next));
    var j := NextOrEnd(s, Marker(next), b);
    assert ValueStart(s, name, p) == c;
    assert ValueEnd(s, c, Some(next)) == e;
    assert Strip(s[b..j]) == Strip(s[c..e]) by {
      LazyEndBeforeNext(s, b, next);
      StripSlice(s, b, c, e, j);
    }
    CaptureFound(s, name, Some(next), p);
  }

  /** `CaptureUpToNext` with the colon and the next marker already located. */
  lemma {:induction false} CaptureBetween(s: string, name: string, next: string, p: nat, b: nat, j: nat)
    requires Find(s, Marker(name), 0) == Some(p)
    requires AfterColon(s, p + |Marker(name)|) == b
    requires Find(s, Marker(next), b) == Some(j)
    ensures b <= j <= |s| && Capture(s, name, Some(next)) == Some(Strip(s[b..j]))
  {
    CaptureUpToNext(s, name, next, p);
  }

  /** Without a next label (the last field), the value is the stripped rest
      of the text after the first `[LABEL]` and its optional colon, later
      bracketed text included. */
  lemma {:induction false} CaptureRest(s: string, name: string, p: nat)
    requires Find(s, Marker(name), 0) == Some(p)
    ensures var b := AfterColon(s, p + |Marker(name)|);
            Capture(s, name, None) == Some(Strip(s[b..]))
  {
    var b := AfterColon(s, p + |Marker(name)|);
    var c := SkipSpace(s, b);
    assert ValueStart(s, name, p) == c;
    assert ValueEnd(s, c, None) == |s|;
    assert s[c..|s|] == s[c..];
    assert Strip(s[b..]) == Strip(s[c..]) by {
      assert s[b..] == s[b..c] + s[c..];
      StripLeading(s[b..c], s[c..]);
    }
    CaptureFound(s, name, None, p);
  }

  /** When `[LABEL]` first occurs at `p` and a next label is given,
      `extract` returns the stripped text after the marker and its optional
      colon, up to the first `[NEXT]` that follows, or to the end of the
      text when none does. */
  lemma {:induction false} ExtractUpToNext(s: string, name: string, next: string, p: nat)
    requires Find(s, Marker(name), 0) == Some(p)
    ensures var b := AfterColon(s, p + |Marker(name)|);
            Extract(s, name, Some(next)) == Strip(s[b..NextOrEnd(s, Marker(next), b)])
  {
    var b := AfterColon(s, p + |Marker(name)|);
    CaptureUpToNext(s, name, next, p);
    ExtractCaptured(s, name, Some(next), Strip(s[b..NextOrEnd(s, Marker(next), b)]));
  }

  /** When `[LABEL]` first occurs at `p` and no next label is given,
      `extract` returns the stripped rest of the text after the marker and
      its optional colon. */
  lemma {:induction false} ExtractRest(s: string, name: string, p: nat)
    requires Find(s, Marker(name), 0) == Some(p)
    ensures var b := AfterColon(s, p + |Marker(name)|);
            Extract(s, name, None) == Strip(s[b..])
  {
    var b := AfterColon(s, p + |Marker(name)|);
    CaptureRest(s, name, p);
    ExtractCaptured(s, name, None, Strip(s[b..]));
  }

  /** `p` is the leftmost occurrence of `m` at or after `from`. */
  ghost predicate FirstAt(s: string, m: string, from: nat, p: nat) {
    from <= p && OccursAt(s, m, p) && forall j: nat :: from <= j < p ==> !OccursAt(s, m, j)
  }

  /** The search finds exactly the leftmost occurrence. */
  lemma {:induction false} FindFirst(s: string, m: string, from: nat, p: nat)
    requires FirstAt(s, m, from, p)
    ensures Find(s, m, from) == Some(p)
  {
    match Find(s, m, from)
    case None =>
    case Some(q) =>
      if q < p {
      } else if p < q {
      }
  }
}
