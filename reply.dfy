/**
 * Replies written the way the prompt asks: one `[LABEL]: value` section per
 * label, in the listed order, each on its own line. Such a reply is read
 * back exactly by the extractor, as long as every value is already trimmed
 * and holds no marker of its own.
 */
module Reply {
  import opened Wrappers
  import opened Strings
  import opened Extractor
  import opened Paper

  function Section(name: string, value: string): string {
    Marker(name) + ": " + value
  }

  /** The sections, each followed by a newline. */
  function Render(names: seq<string>, values: seq<string>): string
    requires |names| == |values|
  {
    if |names| == 0 then ""
    else Section(names[0], values[0]) + "\n" + Render(names[1..], values[1..])
  }

  /** `m` occurs nowhere in `v`. */
  ghost predicate Lacks(v: string, m: string) {
    forall i: nat :: !OccursAt(v, m, i)
  }

  /** No marker of any of `names` occurs in `v`. */
  ghost predicate MarkerFree(v: string, names: seq<string>) {
    forall j :: 0 <= j < |names| ==> Lacks(v, Marker(names[j]))
  }

  ghost predicate Distinct(names: seq<string>) {
    forall i, j :: 0 <= i < j < |names| ==> names[i] != names[j]
  }

  /** A reply in the prompt's format: distinct labels, and values that are
      trimmed and free of markers. */
  ghost predicate WellFormed(names: seq<string>, values: seq<string>) {
    && |names| == |values|
    && Distinct(names)
    && (forall j :: 0 <= j < |names| ==> IsLabel(names[j]))
    && (forall j :: 0 <= j < |values| ==> Trimmed(values[j]) && MarkerFree(values[j], names))
  }

  lemma OccursShift(a: string, x: string, m: string, i: nat)
    ensures OccursAt(a + x, m, |a| + i) <==> OccursAt(x, m, i)
  {
  }

  lemma OccursInside(x: string, y: string, m: string, i: nat)
    requires i + |m| <= |x|
    ensures OccursAt(x + y, m, i) <==> OccursAt(x, m, i)
  {
  }

  /** Where a label's marker occurs, its closing bracket and its letters. */
  lemma MarkerChars(s: string, i: nat, a: string, t: nat)
    requires IsLabel(a) && OccursAt(s, Marker(a), i) && t <= |a|
    ensures t == |a| ==> Lower(s[i + 1 + t]) == ']'
    ensures t < |a| ==> Lower(s[i + 1 + t]) == Lower(a[t]) && 'a' <= Lower(a[t]) <= 'z'
  {
    assert Lower(s[i + (1 + t)]) == Lower(Marker(a)[1 + t]);
  }

  /** Two markers of labels cannot occur at the same place unless the labels
      are equal: a `]` would have to match a letter. */
  lemma {:induction false} MarkersExclusive(s: string, i: nat, a: string, b: string)
    requires IsLabel(a) && IsLabel(b)
    requires OccursAt(s, Marker(a), i) && OccursAt(s, Marker(b), i)
    ensures a == b
  {
    if |a| < |b| {
      MarkerChars(s, i, a, |a|);
      MarkerChars(s, i, b, |a|);
      assert false;
    } else if |b| < |a| {
      MarkerChars(s, i, b, |b|);
      MarkerChars(s, i, a, |b|);
      assert false;
    } else {
      forall t | 0 <= t < |a| ensures a[t] == b[t] {
        MarkerChars(s, i, a, t);
        MarkerChars(s, i, b, t);
      }
    }
  }

  /** No character of a label's marker folds to a newline. */
  lemma MarkerNoNewline(name: string, t: nat)
    requires IsLabel(name) && t < |Marker(name)|
    ensures Lower(Marker(name)[t]) != '\n'
  {
    if 0 < t < |Marker(name)| - 1 {
      assert Marker(name)[t] == name[t - 1];
    }
  }

  /** A marker of `name` begins nowhere in a section of another label, nor
      at the newline after it. */
  lemma {:induction false} SectionAbsent(n0: string, v0: string, name: string, rest: string, i: nat)
    requires IsLabel(n0) && IsLabel(name) && n0 != name
    requires Lacks(v0, Marker(name))
    requires i <= |Section(n0, v0)|
    ensures !OccursAt(Section(n0, v0) + "\n" + rest, Marker(name), i)
  {
    var m := Marker(name);
    var head := Marker(n0) + ": ";
    var s := Section(n0, v0) + "\n" + rest;
    assert s == head + v0 + ("\n" + rest);
    if OccursAt(s, m, i) {
      MarkerStart(s, name, i);
      if i == 0 {
        assert OccursAt(s, Marker(n0), 0) by {
          assert forall t :: 0 <= t < |Marker(n0)| ==> s[t] == Marker(n0)[t];
        }
        MarkersExclusive(s, 0, n0, name);
      } else if i < |head| {
      } else if i < |head| + |v0| {
        var k := i - |head|;
        if k + |m| <= |v0| {
          assert head + (v0 + ("\n" + rest)) == s;
          OccursShift(head, v0 + ("\n" + rest), m, k);
          OccursInside(v0, "\n" + rest, m, k);
        } else {
          var t := |head| + |v0| - i;
          assert s[i + t] == '\n';
          MarkerNoNewline(name, t);
        }
      }
    }
  }

  /** ... nor anywhere in a run of sections of other labels. */
  lemma {:induction false} RenderAbsent(names: seq<string>, values: seq<string>, name: string, rest: string, i: nat)
    requires |names| == |values|
    requires IsLabel(name) && forall j :: 0 <= j < |names| ==> IsLabel(names[j]) && names[j] != name
    requires forall j :: 0 <= j < |values| ==> Lacks(values[j], Marker(name))
    requires i < |Render(names, values)|
    ensures !OccursAt(Render(names, values) + rest, Marker(name), i)
    decreases |names|
  {
    var sec := Section(names[0], values[0]);
    var tail := Render(names[1..], values[1..]);
    assert Render(names, values) + rest == sec + "\n" + (tail + rest);
    if i <= |sec| {
      SectionAbsent(names[0], values[0], name, tail + rest, i);
    } else {
      var i' := i - |sec| - 1;
      RenderAbsent(names[1..], values[1..], name, rest, i');
      assert sec + "\n" + (tail + rest) == (sec + "\n") + (tail + rest);
      OccursShift(sec + "\n", tail + rest, Marker(name), i');
    }
  }

  lemma OccursPrefix(m: string, y: string)
    ensures OccursAt(m + y, m, 0)
  {
    assert forall t :: 0 <= t < |m| ==> (m + y)[t] == m[t];
  }

  /** A rendered reply is the sections before `k`, then section `k` and its
      newline, then the sections after `k`. */
  lemma {:induction false} RenderSplit(names: seq<string>, values: seq<string>, k: nat)
    requires |names| == |values| && k < |names|
    ensures Render(names, values)
            == Render(names[..k], values[..k])
               + (Section(names[k], values[k]) + ("\n" + Render(names[k + 1..], values[k + 1..])))
    decreases k
  {
    var ns, vs := names[1..], values[1..];
    var sec := Section(names[0], values[0]);
    if k == 0 {
      assert names[..k] == [] && values[..k] == [];
      assert ns == names[k + 1..] && vs == values[k + 1..];
    } else {
      var a := Render(ns[..k - 1], vs[..k - 1]);
      var x := Section(names[k], values[k]) + ("\n" + Render(names[k + 1..], values[k + 1..]));
      assert Render(ns, vs) == a + x by {
        RenderSplit(ns, vs, k - 1);
        assert ns[k - 1] == names[k] && vs[k - 1] == values[k];
        assert ns[k..] == names[k + 1..] && vs[k..] == values[k + 1..];
      }
      assert Render(names[..k], values[..k]) == sec + "\n" + a by {
        assert names[..k][0] == names[0] && values[..k][0] == values[0];
        assert ns[..k - 1] == names[..k][1..] && vs[..k - 1] == values[..k][1..];
      }
      assert sec + "\n" + (a + x) == sec + "\n" + a + x;
    }
  }

  /** A rendered reply opens with the marker of its first label. */
  lemma {:induction false} RenderOpens(names: seq<string>, values: seq<string>)
    requires |names| == |values| && 0 < |names|
    ensures OccursAt(Render(names, values), Marker(names[0]), 0)
  {
    var rest := ": " + values[0] + "\n" + Render(names[1..], values[1..]);
    assert Render(names, values) == Marker(names[0]) + rest;
    OccursPrefix(Marker(names[0]), rest);
  }

  /** In a run of sections of other labels followed by a section of
      `name`, the first marker of `name` opens that section. */
  lemma {:induction false} FindAtSection(ns: seq<string>, vs: seq<string>, name: string, v: string, more: string)
    requires |ns| == |vs| && IsLabel(name)
    requires forall j :: 0 <= j < |ns| ==> IsLabel(ns[j]) && ns[j] != name
    requires forall j :: 0 <= j < |vs| ==> Lacks(vs[j], Marker(name))
    ensures FirstAt(Render(ns, vs) + (Section(name, v) + more), Marker(name), 0, |Render(ns, vs)|)
  {
    var pre := Render(ns, vs);
    var m := Marker(name);
    var s := pre + (Section(name, v) + more);
    forall i: nat | i < |pre| ensures !OccursAt(s, m, i) {
      RenderAbsent(ns, vs, name, Section(name, v) + more, i);
    }
    assert OccursAt(s, m, |pre|) by {
      assert Section(name, v) + more == m + (": " + v + more);
      OccursPrefix(m, ": " + v + more);
      OccursShift(pre, Section(name, v) + more, m, 0);
    }
  }

  /** Searching from inside a section of `n0`, the first marker of `n1` is
      the one that opens the section after it. */
  lemma {:induction false} FindAfterSection(pre: string, n0: string, v0: string, n1: string, r: string, b: nat)
    requires IsLabel(n0) && IsLabel(n1) && n0 != n1
    requires Lacks(v0, Marker(n1))
    requires OccursAt(r, Marker(n1), 0)
    requires |pre| <= b <= |pre| + |Section(n0, v0)| + 1
    ensures FirstAt(pre + (Section(n0, v0) + ("\n" + r)), Marker(n1), b, |pre| + |Section(n0, v0)| + 1)
  {
    var sec := Section(n0, v0);
    var s := pre + (sec + ("\n" + r));
    var n := Marker(n1);
    var j := |pre| + |sec| + 1;
    assert s == pre + (sec + "\n" + r);
    forall i: nat | b <= i < j ensures !OccursAt(s, n, i) {
      SectionAbsent(n0, v0, n1, r, i - |pre|);
      OccursShift(pre, sec + "\n" + r, n, i - |pre|);
    }
    assert OccursAt(s, n, j) by {
      assert s == (pre + sec + "\n") + r;
      OccursShift(pre + sec + "\n", r, n, 0);
    }
  }

  /** The layout of a section inside a reply: the colon right after the
      marker, then a space, the value and the newline. */
  lemma {:induction false} SectionLayout(pre: string, name: string, v: string, post: string)
    ensures var s := pre + (Section(name, v) + ("\n" + post));
            var b := |pre| + |Marker(name)| + 1;
            && b + |v| + 2 <= |s|
            && s[b - 1] == ':'
            && s[b..b + |v| + 2] == " " + v + "\n"
            && s[b..] == " " + v + "\n" + post
  {
    var s := pre + (Section(name, v) + ("\n" + post));
    var m := Marker(name);
    assert s == (pre + m + ":") + (" " + v + "\n") + post;
  }

  /** Where the marker search first finds label `k`: at section `k`. */
  lemma {:induction false} LabelAt(names: seq<string>, values: seq<string>, k: nat)
    requires WellFormed(names, values) && k < |names|
    ensures FirstAt(Render(names, values), Marker(names[k]), 0, |Render(names[..k], values[..k])|)
  {
    var ns, vs := names[..k], values[..k];
    var post := Render(names[k + 1..], values[k + 1..]);
    assert Render(names, values) == Render(ns, vs) + (Section(names[k], values[k]) + ("\n" + post)) by {
      RenderSplit(names, values, k);
    }
    forall j | 0 <= j < |ns| ensures IsLabel(ns[j]) && ns[j] != names[k] {
      assert ns[j] == names[j];
    }
    forall j | 0 <= j < |vs| ensures Lacks(vs[j], Marker(names[k])) {
      assert vs[j] == values[j];
      assert MarkerFree(values[j], names);
    }
    FindAtSection(ns, vs, names[k], values[k], "\n" + post);
  }

  /** Where the value of section `k` begins: after its marker, the colon and
      one space. */
  function ValuePos(names: seq<string>, values: seq<string>, k: nat): nat
    requires |names| == |values| && k < |names|
  {
    |Render(names[..k], values[..k])| + |Marker(names[k])| + 1
  }

  /** Searching from the value of section `k`, the marker search first finds
      label `k + 1` right after the value and its newline. */
  lemma {:induction false} NextLabelAt(names: seq<string>, values: seq<string>, k: nat)
    requires WellFormed(names, values) && k + 1 < |names|
    ensures var b := ValuePos(names, values, k);
            FirstAt(Render(names, values), Marker(names[k + 1]), b, b + |values[k]| + 2)
  {
    var pre := Render(names[..k], values[..k]);
    var post := Render(names[k + 1..], values[k + 1..]);
    assert Render(names, values) == pre + (Section(names[k], values[k]) + ("\n" + post)) by {
      RenderSplit(names, values, k);
    }
    RenderOpens(names[k + 1..], values[k + 1..]);
    assert names[k + 1..][0] == names[k + 1];
    assert MarkerFree(values[k], names);
    FindAfterSection(pre, names[k], values[k], names[k + 1], post, ValuePos(names, values, k));
  }

  /** Section `k` as it sits in the reply: the colon, a space, the value
      and a newline, which ends the reply for the last section. */
  lemma {:induction false} ValueAt(names: seq<string>, values: seq<string>, k: nat)
    requires |names| == |values| && k < |names|
    ensures var s := Render(names, values);
            var b := ValuePos(names, values, k);
            && b + |values[k]| + 2 <= |s| && s[b - 1] == ':'
            && s[b..b + |values[k]| + 2] == " " + values[k] + "\n"
            && (k + 1 == |names| ==> s[b..] == " " + values[k] + "\n")
  {
    var pre := Render(names[..k], values[..k]);
    var post := Render(names[k + 1..], values[k + 1..]);
    assert Render(names, values) == pre + (Section(names[k], values[k]) + ("\n" + post)) by {
      RenderSplit(names, values, k);
    }
    SectionLayout(pre, names[k], values[k], post);
    if k + 1 == |names| {
      assert post == "";
      assert " " + values[k] + "\n" + post == " " + values[k] + "\n";
    }
  }

  /** `extract` read off the positions of a reply in the prompt's format:
      the marker first found at `p` and followed by a colon, the value
      beginning after the colon and a space at `b`, and ending with a
      newline right before the next marker, first found at `j` (or ending
      the text when there is no next label). */
  lemma {:induction false} ExtractAt(s: string, name: string, next: Option<string>, p: nat, b: nat, j: nat, v: string)
    requires Trimmed(v)
    requires FirstAt(s, Marker(name), 0, p)
    requires b == p + |Marker(name)| + 1 && b <= |s| && s[b - 1] == ':'
    requires next.Some? ==> FirstAt(s, Marker(next.value), b, j) && j == b + |v| + 2 <= |s| && s[b..j] == " " + v + "\n"
    requires next.None? ==> s[b..] == " " + v + "\n"
    ensures Extract(s, name, next) == v
  {
    FindFirst(s, Marker(name), 0, p);
    assert AfterColon(s, p + |Marker(name)|) == b;
    StripPadded(" ", v, "\n");
    if next.Some? {
      FindFirst(s, Marker(next.value), b, j);
      CaptureBetween(s, name, next.value, p, b, j);
    } else {
      CaptureRest(s, name, p);
    }
    ExtractCaptured(s, name, next, v);
  }

  /** Each section of a reply written in the prompt's format is read back
      exactly: its label is found at its own section, and the value runs to
      the next label's marker (or to the end for the last label). */
  lemma {:induction false} RenderExtract(names: seq<string>, values: seq<string>, k: nat)
    requires WellFormed(names, values) && k < |names|
    ensures Extract(Render(names, values), names[k], NextLabel(names, k)) == values[k]
  {
    assert Trimmed(values[k]);
    LabelAt(names, values, k);
    ValueAt(names, values, k);
    if k + 1 < |names| {
      NextLabelAt(names, values, k);
    }
    var b := ValuePos(names, values, k);
    ExtractAt(Render(names, values), names[k], NextLabel(names, k),
              |Render(names[..k], values[..k])|, b, b + |values[k]| + 2, values[k]);
  }

  /** Every marker name of the application is a label. */
  lemma LabelsAreLabels()
    ensures forall j :: 0 <= j < |LABELS| ==> IsLabel(LABELS[j])
  {
    assert IsLabel(TITLE) && IsLabel(AUTHORS) && IsLabel(YEAR) && IsLabel(REFERENCE);
    assert IsLabel(SUMMARY) && IsLabel(BACKGROUND) && IsLabel(METHODOLOGY);
    assert IsLabel(CONTEXT) && IsLabel(FINDINGS) && IsLabel(RELIABILITY);
  }

  /** The values of a reply in the prompt's format, read back in order. */
  lemma {:induction false} ValuesOfRender(values: seq<string>)
    requires WellFormed(LABELS, values)
    ensures Values(Render(LABELS, values)) == values
  {
    forall k | 0 <= k < |LABELS| ensures Values(Render(LABELS, values))[k] == values[k] {
      RenderExtract(LABELS, values, k);
    }
  }

  /** Round trip: the reply `[TITLE]: t1 ... [RELIABILITY]: t10`, one
      section per line in the prompt's order, with trimmed, marker-free
      values, yields the record holding exactly those values. */
  lemma {:induction false} RecordRoundTrip(values: seq<string>, num: nat)
    requires |values| == |LABELS|
    requires forall j :: 0 <= j < |values| ==> Trimmed(values[j]) && MarkerFree(values[j], LABELS)
    ensures BuildRecord(Render(LABELS, values), num) == Record(num, values)
  {
    assert Distinct(LABELS);
    LabelsAreLabels();
    ValuesOfRender(values);
  }
}
