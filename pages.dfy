/**
 * The text sent to the model for one PDF: the texts of its pages, in page
 * order, keeping only the pages whose text is non-empty, joined with no
 * separator. The page texts themselves come from the PDF library and are
 * an input here.
 */
module Pages {
  import opened Strings

  /** The pages whose text is non-empty, in page order (the `if` of the
      comprehension). */
  function NonEmpty(pages: seq<string>): (r: seq<string>)
    ensures |r| <= |pages|
    ensures forall k :: 0 <= k < |r| ==> r[k] != ""
  {
    if pages == [] then []
    else if pages[0] == "" then NonEmpty(pages[1..])
    else [pages[0]] + NonEmpty(pages[1..])
  }

  /** `"".join(...)` of the kept page texts. Leaving out the empty pages
      does not change the text: it is every page's text, in order. */
  function FullText(pages: seq<string>): (r: string)
    ensures r == Concat(pages)
  {
    JoinNoSeparator(NonEmpty(pages));
    ConcatNonEmpty(pages);
    Join(NonEmpty(pages), "")
  }

  /** Plain concatenation of all the page texts, empty ones included: the
      reference the join is compared against. */
  function Concat(pages: seq<string>): string {
    if pages == [] then "" else pages[0] + Concat(pages[1..])
  }

  /** The total number of characters on the pages. */
  function TotalLength(pages: seq<string>): nat {
    if pages == [] then 0 else |pages[0]| + TotalLength(pages[1..])
  }

  /** Joining with the empty separator is concatenation. */
  lemma {:induction false} JoinNoSeparator(xs: seq<string>)
    ensures Join(xs, "") == Concat(xs)
    decreases |xs|
  {
    if |xs| == 1 {
      assert xs[1..] == [];
      assert xs[0] + "" == xs[0];
    } else if |xs| > 1 {
      JoinNoSeparator(xs[1..]);
      assert xs[0] + "" + Join(xs[1..], "") == xs[0] + Join(xs[1..], "");
    }
  }

  lemma {:induction false} ConcatNonEmpty(pages: seq<string>)
    ensures Concat(NonEmpty(pages)) == Concat(pages)
    decreases |pages|
  {
    if pages != [] {
      ConcatNonEmpty(pages[1..]);
      if pages[0] == "" {
        assert Concat(pages) == "" + Concat(pages[1..]);
      } else {
        assert ([pages[0]] + NonEmpty(pages[1..]))[1..] == NonEmpty(pages[1..]);
      }
    }
  }

  /** The text of a document made of two parts is the text of the first
      followed by the text of the second. */
  lemma {:induction false} ConcatAppend(a: seq<string>, b: seq<string>)
    ensures Concat(a + b) == Concat(a) + Concat(b)
    decreases |a|
  {
    if a == [] {
      assert a + b == b;
    } else {
      assert (a + b)[0] == a[0] && (a + b)[1..] == a[1..] + b;
      ConcatAppend(a[1..], b);
    }
  }

  /** Nothing is lost or added: the full text is exactly as long as all the
      pages together. */
  lemma {:induction false} ConcatLength(pages: seq<string>)
    ensures |Concat(pages)| == TotalLength(pages)
    decreases |pages|
  {
    if pages != [] {
      ConcatLength(pages[1..]);
    }
  }

  /** Page `k` appears whole in the full text, right after the pages before
      it. */
  lemma {:induction false} PageInFullText(pages: seq<string>, k: nat)
    requires k < |pages|
    ensures var s := FullText(pages);
            var at := TotalLength(pages[..k]);
            at + |pages[k]| <= |s| && s[at..at + |pages[k]|] == pages[k]
  {
    assert pages == pages[..k] + ([pages[k]] + pages[k + 1..]);
    ConcatAppend(pages[..k], [pages[k]] + pages[k + 1..]);
    ConcatAppend([pages[k]], pages[k + 1..]);
    assert Concat([pages[k]]) == pages[k] by {
      assert [pages[k]][1..] == [];
    }
    ConcatLength(pages[..k]);
  }

  /** The full text is empty exactly when every page's text is. */
  lemma {:induction false} FullTextEmpty(pages: seq<string>)
    ensures FullText(pages) == "" <==> forall k :: 0 <= k < |pages| ==> pages[k] == ""
  {
    ConcatLength(pages);
    TotalLengthZero(pages);
  }

  lemma {:induction false} TotalLengthZero(pages: seq<string>)
    ensures TotalLength(pages) == 0 <==> forall k :: 0 <= k < |pages| ==> pages[k] == ""
    decreases |pages|
  {
    if pages != [] {
      TotalLengthZero(pages[1..]);
      assert forall k :: 1 <= k < |pages| ==> pages[k] == pages[1..][k - 1];
    }
  }
}
