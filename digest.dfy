/**
 * The evidence digest handed to the synthesis request: one line
 * `Paper {#}: {Findings}` per row of the master table, in table order,
 * joined with newlines.
 */
module Digest {
  import opened Strings
  import opened Paper
  import opened Batch

  /** The line for one row. */
  function Entry(r: Record): string {
    "Paper " + Decimal(r.num) + ": " + Findings(r)
  }

  /** The lines for all rows, in table order. */
  function Entries(rs: seq<Record>): (es: seq<string>)
    ensures |es| == |rs|
  {
    seq(|rs|, i requires 0 <= i < |rs| => Entry(rs[i]))
  }

  /** `"\n".join(...)` of the lines: empty for an empty table, and
      otherwise opening with the first row's line. */
  function Digest(rs: seq<Record>): (d: string)
    ensures rs == [] ==> d == ""
    ensures rs != [] ==> |Entry(rs[0])| <= |d| && d[..|Entry(rs[0])|] == Entry(rs[0])
  {
    Join(Entries(rs), "\n")
  }

  /** `c` does not occur in `s`. */
  predicate Free(s: string, c: char) {
    forall i :: 0 <= i < |s| ==> s[i] != c
  }

  /** Joining one more piece adds the separator and the piece. */
  lemma {:induction false} JoinSnoc(xs: seq<string>, x: string, sep: string)
    requires |xs| >= 1
    ensures Join(xs + [x], sep) == Join(xs, sep) + sep + x
    decreases |xs|
  {
    if |xs| == 1 {
      assert xs + [x] == [xs[0], x];
      assert [xs[0], x][1..] == [x];
    } else {
      var ys := xs + [x];
      assert ys[0] == xs[0] && ys[1..] == xs[1..] + [x];
      JoinSnoc(xs[1..], x, sep);
    }
  }

  /** A line holds no newline when its Findings value holds none. */
  lemma {:induction false} EntryFree(r: Record)
    requires Free(Findings(r), '\n')
    ensures Free(Entry(r), '\n')
  {
    var d := Decimal(r.num);
    forall i | 0 <= i < |Entry(r)| ensures Entry(r)[i] != '\n' {
      if i < 6 {
        assert Entry(r)[i] == "Paper "[i];
      } else if i < 6 + |d| {
        assert Entry(r)[i] == d[i - 6];
      } else if i < 8 + |d| {
        assert Entry(r)[i] == ": "[i - 6 - |d|];
      } else {
        assert Entry(r)[i] == Findings(r)[i - 8 - |d|];
      }
    }
  }

  /** A new row adds a line: after a newline, unless it is the first. */
  lemma {:induction false} DigestAppend(rs: seq<Record>, r: Record)
    ensures Digest(rs + [r]) == if rs == [] then Entry(r) else Digest(rs) + "\n" + Entry(r)
  {
    assert Entries(rs + [r]) == Entries(rs) + [Entry(r)];
    if rs == [] {
      assert Entries(rs) + [Entry(r)] == [Entry(r)];
    } else {
      JoinSnoc(Entries(rs), Entry(r), "\n");
    }
  }

  /** Splitting the digest at its newlines gives back one line per row, in
      table order, provided no Findings value holds a newline of its own. */
  lemma {:induction false} DigestLines(rs: seq<Record>)
    requires |rs| >= 1
    requires forall i :: 0 <= i < |rs| ==> Free(Findings(rs[i]), '\n')
    ensures Split(Digest(rs), '\n') == Entries(rs)
  {
    var es := Entries(rs);
    forall k, i | 0 <= k < |es| && 0 <= i < |es[k]| ensures es[k][i] != '\n' {
      EntryFree(rs[k]);
    }
    SplitJoin(es, '\n');
  }

  /** The digest ends with the last row's line, so it has no trailing
      newline when that row's Findings value is trimmed. */
  lemma {:induction false} DigestEnd(rs: seq<Record>)
    requires |rs| >= 1 && Trimmed(Findings(rs[|rs| - 1]))
    ensures var d := Digest(rs);
            var e := Entry(rs[|rs| - 1]);
            |e| <= |d| && d[|d| - |e|..] == e && d[|d| - 1] != '\n'
  {
    var init := rs[..|rs| - 1];
    var r := rs[|rs| - 1];
    assert init + [r] == rs;
    DigestAppend(init, r);
    var e := Entry(r);
    assert e[|e| - 1] != '\n' by {
      if Findings(r) == [] {
        assert e[|e| - 1] == ' ';
      } else {
        assert e[|e| - 1] == Findings(r)[|Findings(r)| - 1];
      }
    }
  }

  /** After a batch from a fresh session, whatever the Findings values
      hold, the digest is the newline-join of the entries `Paper {i + 1}:
      {Findings}`, one per row, numbered 1..N in table order. */
  lemma {:induction false} EntriesOfReview(files: seq<Upload>)
    ensures var rs := Review(EMPTY, files).masterData;
            var es := Entries(rs);
            && Digest(rs) == Join(es, "\n")
            && forall i :: 0 <= i < |rs| ==> es[i] == "Paper " + Decimal(i + 1) + ": " + Findings(rs[i])
  {
    ReviewNumbered(files);
  }

  /** After a batch from a fresh session, line `i` of the digest reads
      `Paper {i + 1}: ...`: the numbers are 1..N in order. */
  lemma {:induction false} DigestOfReview(files: seq<Upload>)
    requires var rs := Review(EMPTY, files).masterData;
             |rs| >= 1 && forall i :: 0 <= i < |rs| ==> Free(Findings(rs[i]), '\n')
    ensures var rs := Review(EMPTY, files).masterData;
            var lines := Split(Digest(rs), '\n');
            |lines| == |rs|
            && forall i :: 0 <= i < |rs| ==> lines[i] == "Paper " + Decimal(i + 1) + ": " + Findings(rs[i])
  {
    var rs := Review(EMPTY, files).masterData;
    ReviewNumbered(files);
    DigestLines(rs);
  }
}
