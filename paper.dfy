/**
 * The ten-field record the upload loop builds from one reply of the model,
 * by chaining the extractor over the markers in the order the prompt lists
 * them: TITLE, AUTHORS, ..., FINDINGS, and RELIABILITY last.
 */
module Paper {
  import opened Wrappers
  import opened Strings
  import opened Extractor

  const TITLE := "TITLE"
  const AUTHORS := "AUTHORS"
  const YEAR := "YEAR"
  const REFERENCE := "REFERENCE"
  const SUMMARY := "SUMMARY"
  const BACKGROUND := "BACKGROUND"
  const METHODOLOGY := "METHODOLOGY"
  const CONTEXT := "CONTEXT"
  const FINDINGS := "FINDINGS"
  const RELIABILITY := "RELIABILITY"

  /** The markers, in the order the prompt asks for them. */
  const LABELS: seq<string> :=
    [TITLE, AUTHORS, YEAR, REFERENCE, SUMMARY, BACKGROUND, METHODOLOGY, CONTEXT, FINDINGS, RELIABILITY]

  /** Ten values, one per label, in the order of `LABELS`. */
  type Fields = vs: seq<string> | |vs| == 10 witness ["", "", "", "", "", "", "", "", "", ""]

  /** One row of the master table: its `#`, and the values of the ten
      columns below, in the order of `LABELS`. */
  datatype Record = Record(num: nat, fields: Fields)

  /** The position of each column of the table within `fields`; column
      `TitleCol` is filled from label `LABELS[TitleCol]`, and so on. */
  const TitleCol := 0
  const AuthorsCol := 1
  const YearCol := 2
  const ReferenceCol := 3
  const SummaryCol := 4
  const BackgroundCol := 5
  const MethodologyCol := 6
  const ContextCol := 7
  const FindingsCol := 8
  const ReliabilityCol := 9

  /** Each column's position is that of the label it is filled from. */
  lemma ColumnsFollowLabels()
    ensures LABELS[TitleCol] == TITLE && LABELS[AuthorsCol] == AUTHORS
    ensures LABELS[YearCol] == YEAR && LABELS[ReferenceCol] == REFERENCE
    ensures LABELS[SummaryCol] == SUMMARY && LABELS[BackgroundCol] == BACKGROUND
    ensures LABELS[MethodologyCol] == METHODOLOGY && LABELS[ContextCol] == CONTEXT
    ensures LABELS[FindingsCol] == FINDINGS && LABELS[ReliabilityCol] == RELIABILITY
  {
  }

  /** The Findings column, filled from the FINDINGS section. */
  function Findings(r: Record): string {
    r.fields[FindingsCol]
  }

  /** The label that ends field `k`: the next one in the list, none for the last. */
  function NextLabel(names: seq<string>, k: nat): Option<string>
    requires k < |names|
  {
    if k + 1 < |names| then Some(names[k + 1]) else None
  }

  /** A field value is what `extract` can return: trimmed, and either the
      sentinel or a piece of the reply. */
  ghost predicate FieldOf(v: string, response: string) {
    Trimmed(v) && (v == NOT_FOUND || IsInfix(v, response))
  }

  /** Field `k` of a reply: extracted with label `k`, ended by label `k + 1`
      (the last field runs to the end of the reply). */
  function Field(response: string, k: nat): string
    requires k < |LABELS|
  {
    Extract(response, LABELS[k], NextLabel(LABELS, k))
  }

  /** The ten field values of a reply, in the order of `LABELS`. */
  function Values(response: string): Fields {
    seq(|LABELS|, k requires 0 <= k < |LABELS| => Field(response, k))
  }

  /** The record appended for a reply, numbered `num`: TITLE ended by
      AUTHORS, AUTHORS by YEAR, and so on down to RELIABILITY, which runs to
      the end of the reply. Every field is trimmed text of the reply or the
      sentinel, and the sentinel whenever its marker is missing. */
  function BuildRecord(response: string, num: nat): (r: Record)
    ensures r.num == num
    ensures forall k :: 0 <= k < |LABELS| ==> FieldOf(r.fields[k], response)
    ensures forall k :: 0 <= k < |LABELS| && (forall i: nat :: !OccursAt(response, Marker(LABELS[k]), i))
                        ==> r.fields[k] == NOT_FOUND
  {
    Record(num, Values(response))
  }
}
