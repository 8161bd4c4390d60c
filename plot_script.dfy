/** The non-plotting logic of the plotting script: dropping failed runs and
    building the two-line axis label of a mutant. */
module PlotScript {
  import opened Common
  import opened Tables
  import Mutations
  import MutantIds

  /** A row describes a run that did not fail. */
  predicate IsCompleted(r: Row) {
    r.avgScore != "FAILED"
  }

  /** The rows whose `avg_score` is not the marker "FAILED". */
  function KeepCompleted(rows: seq<Row>): (kept: seq<Row>)
    ensures forall i :: 0 <= i < |kept| ==> kept[i].avgScore != "FAILED"
    ensures forall r :: r in kept <==> r in rows && r.avgScore != "FAILED"
  {
    FilterMembers(rows, IsCompleted);
    Filter(rows, IsCompleted)
  }

  /** The filter keeps the order of the rows it keeps: filtering two runs of
      rows and concatenating is filtering their concatenation, and a single
      row is kept exactly when it did not fail. */
  lemma KeepCompletedInOrder(a: seq<Row>, b: seq<Row>, r: Row)
    ensures KeepCompleted(a + b) == KeepCompleted(a) + KeepCompleted(b)
    ensures KeepCompleted([r]) == if r.avgScore != "FAILED" then [r] else []
  {
    FilterConcat(a, b, IsCompleted);
    FilterSingleton(r, IsCompleted);
  }

  /** The axis label of a row: the shortened mutations, a line break, and the
      mutant identifier in parentheses. */
  function PlotLabel(mutations: string, filename: string): (text: string)
    ensures StartsWith(text, Mutations.Shortened(mutations))
    ensures EndsWith(text, "(" + MutantIds.ExtractMutantId(filename) + ")")
    ensures |text| == |Mutations.Shortened(mutations)| + |MutantIds.ExtractMutantId(filename)| + 3
    ensures text[|Mutations.Shortened(mutations)|] == '\n'
  {
    var first := Mutations.Shortened(mutations);
    var id := MutantIds.ExtractMutantId(filename);
    LabelLayout(first, id);
    first + "\n(" + id + ")"
  }

  /** The layout of a two-line label, for any two lines. */
  lemma LabelLayout(first: string, id: string)
    ensures var text := first + "\n(" + id + ")";
            && StartsWith(text, first) && EndsWith(text, "(" + id + ")")
            && text[|first|] == '\n' && |text| == |first| + |id| + 3
  {
    var text := first + "\n(" + id + ")";
    assert text[..|first|] == first;
    assert text[|text| - |id| - 2..] == "(" + id + ")";
  }

  /** When the mutations contain no line break, the label's first line is
      exactly the shortened mutations and its second line is the
      parenthesised identifier. */
  lemma PlotLabelLines(mutations: string, filename: string)
    requires '\n' !in mutations
    ensures var text := PlotLabel(mutations, filename);
            var n := |Mutations.Shortened(mutations)|;
            n < |text| && text[n] == '\n' && '\n' !in text[..n]
            && text[..n] == Mutations.Shortened(mutations)
            && text[n + 1..] == "(" + MutantIds.ExtractMutantId(filename) + ")"
  {
    Mutations.ShortenedChars(mutations, '\n');
    var text := PlotLabel(mutations, filename);
    var n := |Mutations.Shortened(mutations)|;
    assert text[..n] == Mutations.Shortened(mutations);
  }
}
