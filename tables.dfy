/** The tabular data both analysis scripts read: rows of a summary table
    with their identifying columns, the raw text of the `avg_score` column
    and the replicate scores, and the selection of replicate columns. */
module Tables {
  import opened Common

  /** A replicate score. Floating-point arithmetic is not modelled. */
  type Score = real

  /** One row of a summary table. `avgScore` is the cell as read, which is the
      marker "FAILED" for a failed run; `values` holds the numeric-or-missing
      value of every numeric column by name. */
  datatype Row = Row(
    filename: string,
    mutations: string,
    group: string,
    avgScore: string,
    values: map<string, Option<Score>>)

  /** A table: its column names in order, and its rows. */
  datatype Frame = Frame(columns: seq<string>, rows: seq<Row>)

  /** The value of `column` in row `r`; a column the row does not have reads
      as missing, as it does after tables with different columns are
      concatenated. */
  function Cell(r: Row, column: string): (v: Option<Score>)
    ensures column !in r.values ==> v.None?
    ensures column in r.values ==> v == r.values[column]
  {
    if column in r.values then r.values[column] else None
  }

  /** A replicate column is one whose name starts with "rep". */
  predicate IsRepColumn(column: string) {
    StartsWith(column, "rep")
  }

  /** The replicate columns, in column order. */
  function RepColumns(columns: seq<string>): (reps: seq<string>)
    ensures forall c :: c in reps <==> c in columns && StartsWith(c, "rep")
    ensures forall i :: 0 <= i < |reps| ==> StartsWith(reps[i], "rep")
  {
    FilterMembers(columns, IsRepColumn);
    Filter(columns, IsRepColumn)
  }

  /** The selection keeps column order: selecting from two runs of columns
      and concatenating is the same as selecting from their concatenation,
      and a single column is kept exactly when it is a replicate column. */
  lemma RepColumnsInOrder(a: seq<string>, b: seq<string>, c: string)
    ensures RepColumns(a + b) == RepColumns(a) + RepColumns(b)
    ensures RepColumns([c]) == if StartsWith(c, "rep") then [c] else []
  {
    FilterConcat(a, b, IsRepColumn);
    FilterSingleton(c, IsRepColumn);
  }
}
