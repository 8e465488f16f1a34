/**
 * The upload loop's bookkeeping. The session keeps the master table (a list
 * of records) and the set of file names already analysed. Each uploaded file
 * is skipped when its name was seen before; otherwise its reply is turned
 * into a record numbered one past the current length of the table, the
 * record is appended and the name remembered. A file whose reading or
 * analysis raises leaves both untouched.
 *
 * Reading the PDF and asking the model are outside the model: each upload
 * carries their combined outcome, the reply text or a failure.
 */
module Batch {
  import opened Paper

  /** What reading a file and asking the model gave: the reply text, or an
      exception at any point of the `try` block. */
  datatype Outcome = Fail | Ok(response: string)

  /** An uploaded file: its name and what analysing it gives. */
  datatype Upload = Upload(name: string, outcome: Outcome)

  /** The session state as a value: the master table and the set of
      processed file names. */
  datatype Session = Session(masterData: seq<Record>, processed: set<string>)

  /** The fresh session: an empty table and no file seen. */
  const EMPTY := Session([], {})

  /** The table's `#` column runs 1, 2, ..., N down the rows. */
  ghost predicate Numbered(rs: seq<Record>) {
    forall i :: 0 <= i < |rs| ==> rs[i].num == i + 1
  }

  /** What the loop keeps true: rows numbered 1..N, and one processed file
      name per row. */
  ghost predicate Consistent(st: Session) {
    Numbered(st.masterData) && |st.processed| == |st.masterData|
  }

  /** One turn of the upload loop for `f`: skip a known name, leave the
      state alone on failure, else append the numbered record and remember
      the name. The table only grows, by one row at most, and the set of
      names only grows. */
  function Analyze(st: Session, f: Upload): (r: Session)
    ensures st.masterData <= r.masterData && |r.masterData| <= |st.masterData| + 1
    ensures st.processed <= r.processed
  {
    if f.name in st.processed then st
    else
      match f.outcome
      case Fail => st
      case Ok(response) =>
        Session(st.masterData + [BuildRecord(response, |st.masterData| + 1)], st.processed + {f.name})
  }

  /** The whole loop over a batch, in upload order. It never removes or
      changes existing rows or names, and appends at most one row per
      upload. */
  function Review(st: Session, files: seq<Upload>): (r: Session)
    ensures st.masterData <= r.masterData && |r.masterData| <= |st.masterData| + |files|
    ensures st.processed <= r.processed
    decreases |files|
  {
    if |files| == 0 then st
    else Analyze(Review(st, files[..|files| - 1]), files[|files| - 1])
  }

  /** A turn changes nothing exactly when the name was already processed or
      the analysis failed. */
  lemma {:induction false} AnalyzeUnchanged(st: Session, f: Upload)
    ensures Analyze(st, f) == st <==> (f.name in st.processed || f.outcome == Fail)
  {
    if f.name !in st.processed && f.outcome.Ok? {
      assert |Analyze(st, f).masterData| == |st.masterData| + 1;
    }
  }

  /** A successful turn for a new name appends exactly one row, numbered one
      past the previous length and holding the fields of the reply, and then
      adds the name. */
  lemma {:induction false} AnalyzeSuccess(st: Session, f: Upload)
    requires f.name !in st.processed && f.outcome.Ok?
    ensures var r := Analyze(st, f);
            && |r.masterData| == |st.masterData| + 1
            && r.masterData[..|st.masterData|] == st.masterData
            && r.masterData[|st.masterData|].num == |st.masterData| + 1
            && r.masterData[|st.masterData|].fields == Values(f.outcome.response)
            && r.processed == st.processed + {f.name}
  {
    var r := Analyze(st, f);
    assert r.masterData[..|st.masterData|] == st.masterData;
  }

  lemma NumberedAppend(rs: seq<Record>, rec: Record)
    requires Numbered(rs) && rec.num == |rs| + 1
    ensures Numbered(rs + [rec])
  {
    forall i | 0 <= i < |rs| + 1 ensures (rs + [rec])[i].num == i + 1 {
      if i < |rs| {
        assert (rs + [rec])[i] == rs[i];
      }
    }
  }

  /** A turn keeps the rows numbered and one name per row. */
  lemma {:induction false} AnalyzeConsistent(st: Session, f: Upload)
    requires Consistent(st)
    ensures Consistent(Analyze(st, f))
  {
    if f.name !in st.processed && f.outcome.Ok? {
      var rec := BuildRecord(f.outcome.response, |st.masterData| + 1);
      assert Analyze(st, f) == Session(st.masterData + [rec], st.processed + {f.name});
      NumberedAppend(st.masterData, rec);
    }
  }

  /** A batch keeps the rows numbered and one name per row. */
  lemma {:induction false} ReviewConsistent(st: Session, files: seq<Upload>)
    requires Consistent(st)
    ensures Consistent(Review(st, files))
    decreases |files|
  {
    if |files| > 0 {
      ReviewConsistent(st, files[..|files| - 1]);
      AnalyzeConsistent(Review(st, files[..|files| - 1]), files[|files| - 1]);
    }
  }

  /** From a fresh session, row `i` of the table has `#` equal to `i + 1`:
      the numbers are exactly 1..N. */
  lemma {:induction false} ReviewNumbered(files: seq<Upload>)
    ensures var rs := Review(EMPTY, files).masterData;
            forall i :: 0 <= i < |rs| ==> rs[i].num == i + 1
  {
    ReviewConsistent(EMPTY, files);
  }

  /** After a batch, a name is processed exactly when it was before or some
      upload of that name succeeded; a file whose every upload failed stays
      unprocessed and can be tried again in a later batch. */
  lemma {:induction false} ReviewProcessed(st: Session, files: seq<Upload>, name: string)
    ensures name in Review(st, files).processed
            <==> name in st.processed
                 || exists i :: 0 <= i < |files| && files[i].name == name && files[i].outcome.Ok?
    decreases |files|
  {
    if |files| > 0 {
      var init := files[..|files| - 1];
      var last := files[|files| - 1];
      ReviewProcessed(st, init, name);
      var before := Review(st, init);
      if exists i :: 0 <= i < |init| && init[i].name == name && init[i].outcome.Ok? {
        var i :| 0 <= i < |init| && init[i].name == name && init[i].outcome.Ok?;
        assert files[i] == init[i];
      }
      if exists i :: 0 <= i < |files| && files[i].name == name && files[i].outcome.Ok? {
        var i :| 0 <= i < |files| && files[i].name == name && files[i].outcome.Ok?;
        if i < |init| {
          assert init[i] == files[i];
        }
      }
    }
  }

  /** A turn adds a row exactly when it adds a name not seen before. */
  lemma {:induction false} AnalyzeOneRowPerName(base: set<string>, st: Session, f: Upload)
    requires base <= st.processed
    ensures |Analyze(st, f).masterData| - |st.masterData|
            == |Analyze(st, f).processed - base| - |st.processed - base|
  {
    if f.name !in st.processed && f.outcome.Ok? {
      var p := st.processed + {f.name};
      assert |Analyze(st, f).masterData| == |st.masterData| + 1;
      assert Analyze(st, f).processed == p;
      assert p - base == (st.processed - base) + {f.name};
    } else {
      assert Analyze(st, f) == st;
    }
  }

  /** Every row appended by a batch belongs to one newly processed name. */
  lemma {:induction false} ReviewOneRowPerName(st: Session, files: seq<Upload>)
    ensures |Review(st, files).masterData| == |st.masterData| + |Review(st, files).processed - st.processed|
    decreases |files|
  {
    if |files| == 0 {
      assert st.processed - st.processed == {};
    } else {
      var init := files[..|files| - 1];
      var f := files[|files| - 1];
      var before := Review(st, init);
      ReviewOneRowPerName(st, init);
      assert Review(st, files) == Analyze(before, f);
      AnalyzeOneRowPerName(st.processed, before, f);
    }
  }

  /** A batch in which no upload would change the state leaves it alone. */
  lemma {:induction false} ReviewFixed(st: Session, files: seq<Upload>)
    requires forall i :: 0 <= i < |files| ==> files[i].name in st.processed || files[i].outcome == Fail
    ensures Review(st, files) == st
    decreases |files|
  {
    if |files| > 0 {
      ReviewFixed(st, files[..|files| - 1]);
    }
  }

  /** Pressing the button again on the same uploads changes nothing when
      every file that failed fails again: every file that succeeded is now
      skipped. */
  lemma {:induction false} ReviewRerun(st: Session, files: seq<Upload>)
    ensures Review(Review(st, files), files) == Review(st, files)
  {
    var r := Review(st, files);
    forall i | 0 <= i < |files| ensures files[i].name in r.processed || files[i].outcome == Fail {
      ReviewProcessed(st, files, files[i].name);
    }
    ReviewFixed(r, files);
  }

  /** A second batch after a first one, with any outcomes: the outcomes of
      the second press need not repeat those of the first, since each
      press reads and analyses every file not yet processed again. Every
      row it appends belongs to a name it newly processes, and such a name
      was not processed before the first batch and had no successful upload
      in it. */
  lemma {:induction false} ReviewSecondPress(st: Session, first: seq<Upload>, second: seq<Upload>)
    ensures var r1 := Review(st, first);
            var r2 := Review(r1, second);
            && |r2.masterData| == |r1.masterData| + |r2.processed - r1.processed|
            && forall n :: n in r2.processed - r1.processed
                 ==> n !in st.processed
                     && forall i :: 0 <= i < |first| && first[i].name == n ==> first[i].outcome == Fail
  {
    var r1 := Review(st, first);
    var r2 := Review(r1, second);
    ReviewOneRowPerName(r1, second);
    forall n | n in r2.processed - r1.processed
      ensures n !in st.processed
      ensures forall i :: 0 <= i < |first| && first[i].name == n ==> first[i].outcome == Fail
    {
      ReviewProcessed(st, first, n);
    }
  }

  /** The session state the application keeps across reruns of the page. */
  class ReviewState {
    var masterData: seq<Record>
    var processedFilenames: set<string>

    ghost predicate Valid()
      reads this
    {
      Consistent(Snapshot())
    }

    function Snapshot(): Session
      reads this
    {
      Session(masterData, processedFilenames)
    }

    /** The first run of the page: an empty table and no name seen. */
    constructor ()
      ensures Snapshot() == EMPTY
      ensures Valid()
    {
      masterData := [];
      processedFilenames := {};
    }

    /** One turn of the loop for `file`. */
    method AnalyzeFile(file: Upload)
      requires Valid()
      modifies this
      ensures Valid()
      ensures Snapshot() == Analyze(old(Snapshot()), file)
      ensures file.name in old(processedFilenames) || file.outcome == Fail
              ==> masterData == old(masterData) && processedFilenames == old(processedFilenames)
      ensures file.name !in old(processedFilenames) && file.outcome.Ok?
              ==> && masterData == old(masterData) + [BuildRecord(file.outcome.response, |old(masterData)| + 1)]
                  && processedFilenames == old(processedFilenames) + {file.name}
    {
      AnalyzeConsistent(Snapshot(), file);
      if file.name in processedFilenames {
        return;
      }
      match file.outcome
      case Fail =>
      case Ok(response) =>
        masterData := masterData + [BuildRecord(response, |masterData| + 1)];
        processedFilenames := processedFilenames + {file.name};
    }

    /** The button's loop over the uploaded files, in order. */
    method ExecuteReview(files: seq<Upload>)
      requires Valid()
      modifies this
      ensures Valid()
      ensures Snapshot() == Review(old(Snapshot()), files)
    {
      var i := 0;
      while i < |files|
        invariant 0 <= i <= |files|
        invariant Valid()
        invariant Snapshot() == Review(old(Snapshot()), files[..i])
      {
        assert files[..i + 1][..i] == files[..i];
        AnalyzeFile(files[i]);
        i := i + 1;
      }
      assert files[..i] == files;
    }
  }
}
