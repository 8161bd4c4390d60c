/** The bootstrap analysis: replicate scores of every mutant, gathered from
    several summary tables, grouped by (cleaned identifier, mutations, group),
    flattened into one sample per group, and summarised by bootstrap
    resampling.

    The floating-point estimators (mean, population standard deviation,
    percentile) are parameters, and so is the random source: a draw is given
    by `rng(call, iteration, position)`, and the index it selects is that
    number modulo the sample size. */
module Bootstrap {
  import opened Common
  import opened Tables
  import MutantIds
  import Ordering
  import Grouping

  /** The numerical estimators the analysis uses; their arithmetic is not
      modelled. `percentile(xs, q)` is the q-th percentile, q in [0, 100]. */
  datatype Numerics = Numerics(
    mean: seq<Score> -> Score,
    std: seq<Score> -> Score,
    percentile: (seq<Score>, real) -> Score)

  /** The random source: an arbitrary natural number for every draw, by
      bootstrap call, iteration and position in the resample. */
  type RandomSource = (nat, nat, nat) -> nat

  /** The four bootstrap statistics, or the all-NaN sentinel of an empty
      sample. */
  datatype BootStats =
    | Undefined
    | Stats(mean: Score, std: Score, lower: Score, upper: Score)

  const DefaultIterations: nat := 1000
  const DefaultConfidence: real := 0.95

  // ---------------------------------------------------------------------
  // Missing values

  /** The non-missing values, in their original order. */
  function RemoveMissing(data: seq<Option<Score>>): (clean: seq<Score>)
    ensures |clean| <= |data|
  {
    if data == [] then []
    else match data[0]
      case Some(x) => [x] + RemoveMissing(data[1..])
      case None => RemoveMissing(data[1..])
  }

  /** A value remains exactly when it occurs in the input and is not
      missing. */
  lemma {:induction false} RemoveMissingMembers(data: seq<Option<Score>>)
    ensures forall x :: x in RemoveMissing(data) <==> Some(x) in data
  {
    if data != [] {
      RemoveMissingMembers(data[1..]);
      assert data == [data[0]] + data[1..];
    }
  }

  /** Removal keeps order: it distributes over concatenation. */
  lemma {:induction false} RemoveMissingConcat(a: seq<Option<Score>>, b: seq<Option<Score>>)
    ensures RemoveMissing(a + b) == RemoveMissing(a) + RemoveMissing(b)
  {
    if a == [] {
      assert a + b == b;
    } else {
      assert (a + b)[0] == a[0] && (a + b)[1..] == a[1..] + b;
      RemoveMissingConcat(a[1..], b);
    }
  }

  /** Nothing remains exactly when every value is missing. */
  lemma RemoveMissingEmpty(data: seq<Option<Score>>)
    ensures RemoveMissing(data) == [] <==> forall i :: 0 <= i < |data| ==> data[i].None?
  {
    RemoveMissingMembers(data);
    if RemoveMissing(data) != [] {
      var x := RemoveMissing(data)[0];
      assert Some(x) in data;
    }
  }

  /** A sample without missing values loses nothing. */
  lemma {:induction false} RemoveMissingNone(data: seq<Option<Score>>)
    requires forall i :: 0 <= i < |data| ==> data[i].Some?
    ensures |RemoveMissing(data)| == |data|
    ensures forall i :: 0 <= i < |data| ==> RemoveMissing(data)[i] == data[i].value
  {
    if data != [] {
      RemoveMissingNone(data[1..]);
    }
  }

  /** A sample of five with its second value missing keeps the other four,
      in order. */
  lemma RemoveMissingExample(data: seq<Option<Score>>, x1: Score, x3: Score, x4: Score, x5: Score)
    requires data == [Some(x1), None, Some(x3), Some(x4), Some(x5)]
    ensures RemoveMissing(data) == [x1, x3, x4, x5]
  {
    var t5: seq<Option<Score>> := [Some(x5)];
    var t4 := [Some(x4)] + t5;
    var t3 := [Some(x3)] + t4;
    var t2 := [None] + t3;
    assert data == [Some(x1)] + t2;
    RemoveMissingCons(Some(x5), []);
    assert [Some(x5)] + [] == t5;
    RemoveMissingCons(Some(x4), t5);
    RemoveMissingCons(Some(x3), t4);
    RemoveMissingCons(None, t3);
    RemoveMissingCons(Some(x1), t2);
  }

  /** One step of the removal. */
  lemma RemoveMissingCons(v: Option<Score>, rest: seq<Option<Score>>)
    ensures RemoveMissing([v] + rest) == (if v.Some? then [v.value] else []) + RemoveMissing(rest)
  {
    assert ([v] + rest)[1..] == rest;
  }

  // ---------------------------------------------------------------------
  // Resampling

  /** Resample `iteration` of bootstrap call `call`: as many draws with
      replacement from `clean` as it has values. */
  function Resample(clean: seq<Score>, rng: RandomSource, call: nat, iteration: nat): (r: seq<Score>)
    requires |clean| > 0
    ensures |r| == |clean|
  {
    seq(|clean|, k requires 0 <= k < |clean| => clean[rng(call, iteration, k) % |clean|])
  }

  /** Every value of a resample is a non-missing value of the input. */
  lemma ResampleFromData(data: seq<Option<Score>>, rng: RandomSource, call: nat, iteration: nat)
    requires RemoveMissing(data) != []
    ensures |Resample(RemoveMissing(data), rng, call, iteration)| == |RemoveMissing(data)|
    ensures forall k :: 0 <= k < |RemoveMissing(data)| ==>
              Some(Resample(RemoveMissing(data), rng, call, iteration)[k]) in data
  {
    var clean := RemoveMissing(data);
    RemoveMissingMembers(data);
    forall k | 0 <= k < |clean| ensures Some(Resample(clean, rng, call, iteration)[k]) in data {
      var v := Resample(clean, rng, call, iteration)[k];
      assert v in RemoveMissing(data);
    }
  }

  /** Every sequence of indices is a possible resample: the random source can
      draw any with-replacement sample. */
  lemma ResampleReachable(clean: seq<Score>, picks: seq<nat>)
    requires |clean| > 0 && |picks| == |clean|
    requires forall k :: 0 <= k < |picks| ==> picks[k] < |clean|
    ensures Resample(clean, (c: nat, b: nat, k: nat) => if k < |picks| then picks[k] else 0, 0, 0)
            == seq(|clean|, k requires 0 <= k < |clean| => clean[picks[k]])
  {
  }

  /** The means of the `n` resamples of call `call`, in iteration order. */
  function BootMeans(clean: seq<Score>, n: nat, rng: RandomSource, call: nat, num: Numerics): (means: seq<Score>)
    requires |clean| > 0
    ensures |means| == n
  {
    seq(n, b requires 0 <= b < n => num.mean(Resample(clean, rng, call, b)))
  }

  /** The percentile argument of the lower and the upper bound of a
      confidence level. */
  function LowerPercent(ci: real): real { ((1.0 - ci) / 2.0) * 100.0 }
  function UpperPercent(ci: real): real { (1.0 - (1.0 - ci) / 2.0) * 100.0 }

  /** The default confidence level asks for the 2.5th and the 97.5th
      percentile, and every level strictly between 0 and 1 gives a lower
      percentile below the upper one, both within [0, 100]. */
  lemma PercentBounds(ci: real)
    requires 0.0 < ci < 1.0
    ensures 0.0 < LowerPercent(ci) < 50.0 < UpperPercent(ci) < 100.0
    ensures LowerPercent(DefaultConfidence) == 2.5 && UpperPercent(DefaultConfidence) == 97.5
  {
  }

  /** What a bootstrap call computes from `data`. */
  function BootstrapOf(data: seq<Option<Score>>, nBootstrap: nat, ci: real, rng: RandomSource, call: nat, num: Numerics): (r: BootStats)
    ensures r.Undefined? <==> forall i :: 0 <= i < |data| ==> data[i].None?
  {
    RemoveMissingEmpty(data);
    var clean := RemoveMissing(data);
    if clean == [] then Undefined
    else
      var means := BootMeans(clean, nBootstrap, rng, call, num);
      Stats(num.mean(means), num.std(means), num.percentile(means, LowerPercent(ci)), num.percentile(means, UpperPercent(ci)))
  }

  /** Otherwise the statistics summarise exactly `nBootstrap` resample means,
      mean number `b` being the mean of resample `b`. */
  lemma BootstrapStatsOfMeans(data: seq<Option<Score>>, nBootstrap: nat, ci: real, rng: RandomSource, call: nat, num: Numerics)
    requires exists i :: 0 <= i < |data| && data[i].Some?
    ensures RemoveMissing(data) != []
    ensures var means := BootMeans(RemoveMissing(data), nBootstrap, rng, call, num);
            && |means| == nBootstrap
            && (forall b :: 0 <= b < nBootstrap ==> means[b] == num.mean(Resample(RemoveMissing(data), rng, call, b)))
            && BootstrapOf(data, nBootstrap, ci, rng, call, num)
               == Stats(num.mean(means), num.std(means),
                        num.percentile(means, LowerPercent(ci)), num.percentile(means, UpperPercent(ci)))
  {
    RemoveMissingEmpty(data);
  }

  /** Removes the missing values, returns the sentinel for an empty sample,
      and otherwise resamples `nBootstrap` times and summarises the resample
      means. */
  method BootstrapStats(data: seq<Option<Score>>, nBootstrap: nat, ci: real, rng: RandomSource, call: nat, num: Numerics)
    returns (res: BootStats)
    ensures res == BootstrapOf(data, nBootstrap, ci, rng, call, num)
  {
    var clean := RemoveMissing(data);
    if |clean| == 0 {
      return Undefined;
    }
    var bootMeans: seq<Score> := [];
    for b := 0 to nBootstrap
      invariant |bootMeans| == b
      invariant forall j :: 0 <= j < b ==> bootMeans[j] == num.mean(Resample(clean, rng, call, j))
    {
      var resample := Resample(clean, rng, call, b);
      bootMeans := bootMeans + [num.mean(resample)];
    }
    assert bootMeans == BootMeans(clean, nBootstrap, rng, call, num);
    var alpha := 1.0 - ci;
    var lower := num.percentile(bootMeans, (alpha / 2.0) * 100.0);
    var upper := num.percentile(bootMeans, (1.0 - alpha / 2.0) * 100.0);
    res := Stats(num.mean(bootMeans), num.std(bootMeans), lower, upper);
  }

  // ---------------------------------------------------------------------
  // Loading and combining the input tables

  /** The tables that exist, in input order; `None` is a missing file. */
  function Present(inputs: seq<Option<Frame>>): (frames: seq<Frame>)
    ensures |frames| <= |inputs|
    ensures frames == [] <==> forall i :: 0 <= i < |inputs| ==> inputs[i].None?
  {
    if inputs == [] then []
    else if inputs[|inputs| - 1].Some? then Present(inputs[..|inputs| - 1]) + [inputs[|inputs| - 1].value]
    else Present(inputs[..|inputs| - 1])
  }

  /** A table is loaded exactly when it is the content of an existing file. */
  lemma {:induction false} PresentMembers(inputs: seq<Option<Frame>>)
    ensures forall f :: f in Present(inputs) <==> Some(f) in inputs
  {
    if inputs != [] {
      var prev := inputs[..|inputs| - 1];
      PresentMembers(prev);
      assert inputs == prev + [inputs[|inputs| - 1]];
    }
  }

  /** Loading keeps input order: the tables of two runs of files are those of
      the first run followed by those of the second. */
  lemma {:induction false} PresentConcat(a: seq<Option<Frame>>, b: seq<Option<Frame>>)
    ensures Present(a + b) == Present(a) + Present(b)
  {
    if b == [] {
      assert a + b == a;
    } else {
      var prev := b[..|b| - 1];
      PresentConcat(a, prev);
      assert (a + b)[..|a + b| - 1] == a + prev;
      assert (a + b)[|a + b| - 1] == b[|b| - 1];
    }
  }

  /** Collects the tables whose file exists. */
  method LoadInputs(inputs: seq<Option<Frame>>) returns (allData: seq<Frame>)
    ensures allData == Present(inputs)
  {
    allData := [];
    for i := 0 to |inputs|
      invariant allData == Present(inputs[..i])
    {
      assert inputs[..i + 1][..i] == inputs[..i];
      if inputs[i].Some? {
        allData := allData + [inputs[i].value];
      }
    }
    assert inputs[..|inputs|] == inputs;
  }

  /** `acc` followed by the columns of `cols` it does not have yet, in order. */
  function AddColumns(acc: seq<string>, cols: seq<string>): (r: seq<string>)
    ensures forall c :: c in r <==> c in acc || c in cols
    ensures |acc| <= |r| && r[..|acc|] == acc
    ensures (forall i, j :: 0 <= i < j < |acc| ==> acc[i] != acc[j]) ==>
            (forall i, j :: 0 <= i < j < |r| ==> r[i] != r[j])
    decreases |cols|
  {
    if cols == [] then acc
    else AddColumns(if cols[0] in acc then acc else acc + [cols[0]], cols[1..])
  }

  /** The columns of the concatenated tables: every column of every table,
      once, in order of first appearance. */
  function CombinedColumns(frames: seq<Frame>): (cols: seq<string>)
    ensures forall c :: c in cols <==> exists i :: 0 <= i < |frames| && c in frames[i].columns
    ensures forall i, j :: 0 <= i < j < |cols| ==> cols[i] != cols[j]
  {
    if frames == [] then []
    else
      var prev := frames[..|frames| - 1];
      assert forall i :: 0 <= i < |prev| ==> prev[i] == frames[i];
      AddColumns(CombinedColumns(prev), frames[|frames| - 1].columns)
  }

  /** A column name as its own key: the grouping by it lists the distinct
      names in order of first appearance. */
  function ColumnName(c: string): string { c }

  /** The column names of the tables, one table after the other, repeats
      included. */
  function AllColumns(frames: seq<Frame>): (cols: seq<string>)
  {
    if frames == [] then [] else AllColumns(frames[..|frames| - 1]) + frames[|frames| - 1].columns
  }

  /** Adding columns is adding new keys, with the column names as keys. */
  lemma {:induction false} AddColumnsIsAddNew(acc: seq<string>, cols: seq<string>)
    ensures AddColumns(acc, cols) == Grouping.AddNew(acc, cols)
    decreases |cols|
  {
    if cols != [] {
      AddColumnsIsAddNew(if cols[0] in acc then acc else acc + [cols[0]], cols[1..]);
    }
  }

  /** The columns of the concatenation are the distinct column names of the
      tables in order of first appearance, as the outer join lays them out. */
  lemma {:induction false} CombinedColumnsOrder(frames: seq<Frame>)
    ensures CombinedColumns(frames) == Grouping.FirstKeys(AllColumns(frames), ColumnName)
  {
    if frames != [] {
      var prev := frames[..|frames| - 1];
      CombinedColumnsOrder(prev);
      AddColumnsIsAddNew(CombinedColumns(prev), frames[|frames| - 1].columns);
      Grouping.AddNewFirstKeys(AllColumns(prev), frames[|frames| - 1].columns, ColumnName);
    }
  }

  /** The rows of the tables, one table after the other. */
  function CombinedRows(frames: seq<Frame>): (rows: seq<Row>)
    ensures frames == [] ==> rows == []
  {
    if frames == [] then [] else frames[0].rows + CombinedRows(frames[1..])
  }

  // ---------------------------------------------------------------------
  // Grouping

  /** The grouping key of a row: cleaned identifier, mutations and group. */
  type Key = (string, string, string)

  /** The identifier a file name is cleaned to: the first match of the
      mutant-identifier pattern, or the name itself. */
  function CleanName(filename: string): (name: string)
    ensures |name| <= |filename|
    ensures name == filename || MutantIds.IsMutantIdIn(filename, name)
  {
    var m := MutantIds.Search(filename, 0);
    if m.Some? then filename[m.value.0..m.value.1] else filename
  }

  /** The analysis cleans file names exactly as the plotting script extracts
      identifiers, so both scripts name a mutant alike. */
  lemma CleanNameAgrees(filename: string)
    ensures CleanName(filename) == MutantIds.ExtractMutantId(filename)
  {
  }

  /** The key of a row: its cleaned identifier, its mutations and its group. */
  function KeyOf(r: Row): (k: Key)
    ensures k.0 == MutantIds.ExtractMutantId(r.filename)
    ensures k.1 == r.mutations && k.2 == r.group
  {
    CleanNameAgrees(r.filename);
    (CleanName(r.filename), r.mutations, r.group)
  }

  /** The rows with key `k`, in their original order. */
  function RowsWithKey(rows: seq<Row>, k: Key): seq<Row> {
    Grouping.WithKey(rows, KeyOf, k)
  }

  /** The distinct keys of the rows, in order of first appearance. */
  function GroupKeys(rows: seq<Row>): seq<Key> {
    Grouping.FirstKeys(rows, KeyOf)
  }

  /** The groups in the order the grouping visits them: the keys ascending, in
      the order of tuples of strings. */
  function GroupOrder(rows: seq<Row>): (keys: seq<Key>)
    ensures |keys| == |GroupKeys(rows)|
  {
    Ordering.SortTriples(GroupKeys(rows))
  }

  /** Every key of a row is visited once, and the keys are visited in strictly
      increasing order. */
  lemma GroupOrderSpec(rows: seq<Row>)
    ensures forall k :: k in GroupOrder(rows) <==> exists i :: 0 <= i < |rows| && KeyOf(rows[i]) == k
    ensures forall i, j :: 0 <= i < j < |GroupOrder(rows)| ==> Ordering.TripleLess(GroupOrder(rows)[i], GroupOrder(rows)[j])
    ensures forall i, j :: 0 <= i < j < |GroupOrder(rows)| ==> GroupOrder(rows)[i] != GroupOrder(rows)[j]
  {
    var keys := GroupOrder(rows);
    Grouping.FirstKeysDistinct(rows, KeyOf);
    Ordering.SortDistinct(GroupKeys(rows));
    forall k ensures k in keys <==> exists i :: 0 <= i < |rows| && KeyOf(rows[i]) == k {
      Grouping.FirstKeysMember(rows, KeyOf, k);
    }
    forall i, j | 0 <= i < j < |keys| ensures keys[i] != keys[j] {
      Ordering.TripleLessOrder(keys[i], keys[j], keys[i]);
    }
  }

  /** Sorts the rows into groups by key: `keys` lists the groups in the order
      they are visited and `groups[k]` holds the rows of group `k` in their
      original order. */
  method GroupRows(rows: seq<Row>) returns (keys: seq<Key>, groups: map<Key, seq<Row>>)
    ensures keys == GroupOrder(rows)
    ensures forall k :: k in groups <==> k in keys
    ensures forall k :: k in groups ==> groups[k] == RowsWithKey(rows, k)
  {
    var seen: seq<Key> := [];
    groups := map[];
    for i := 0 to |rows|
      invariant Grouping.Grouped(rows[..i], KeyOf, seen, groups)
    {
      var r := rows[i];
      var k := KeyOf(r);
      assert rows[..i + 1] == rows[..i] + [r];
      if k in groups {
        Grouping.GroupedKnownKey(rows[..i], r, KeyOf, seen, groups);
        groups := groups[k := groups[k] + [r]];
      } else {
        Grouping.GroupedNewKey(rows[..i], r, KeyOf, seen, groups);
        seen := seen + [k];
        groups := groups[k := [r]];
      }
    }
    assert rows[..|rows|] == rows;
    keys := Ordering.SortTriples(seen);
    GroupedInOrder(rows, seen, groups);
  }

  /** The grouping of all rows, with its keys sorted, is the grouping the
      analysis visits. */
  lemma GroupedInOrder(rows: seq<Row>, seen: seq<Key>, groups: map<Key, seq<Row>>)
    requires Grouping.Grouped(rows, KeyOf, seen, groups)
    ensures Ordering.SortTriples(seen) == GroupOrder(rows)
    ensures forall k :: k in groups <==> k in Ordering.SortTriples(seen)
    ensures forall k :: k in groups ==> groups[k] == RowsWithKey(rows, k)
  {
    Grouping.FirstKeysDistinct(rows, KeyOf);
    Ordering.SortDistinct(seen);
  }

  /** The groups of the analysis partition the combined rows: every row lies
      in the group of its own key and in no other, and the groups together
      hold exactly the input rows. */
  lemma GroupsPartition(rows: seq<Row>)
    ensures Grouping.GroupsUnion(rows, KeyOf, GroupOrder(rows)) == multiset(rows)
    ensures forall i :: 0 <= i < |rows| ==> KeyOf(rows[i]) in GroupOrder(rows) && rows[i] in RowsWithKey(rows, KeyOf(rows[i]))
    ensures forall i, k :: 0 <= i < |rows| && k != KeyOf(rows[i]) ==> rows[i] !in RowsWithKey(rows, k)
  {
    GroupOrderSpec(rows);
    Grouping.GroupsPartitionRecords(rows, KeyOf, GroupOrder(rows));
    forall k {
      Grouping.WithKeyMembers(rows, KeyOf, k);
    }
  }

  /** Rows of the same mutant from different tables are merged into one group:
      the group of the concatenation is the concatenation of the groups. */
  lemma GroupMergesTables(frames: seq<Frame>, f: Frame, k: Key)
    ensures CombinedRows(frames + [f]) == CombinedRows(frames) + f.rows
    ensures RowsWithKey(CombinedRows(frames + [f]), k) == RowsWithKey(CombinedRows(frames), k) + RowsWithKey(f.rows, k)
  {
    CombinedRowsSnoc(frames, f);
    Grouping.WithKeyConcat(CombinedRows(frames), f.rows, KeyOf, k);
  }

  /** A row of the concatenation is a row of one of the tables, and every
      row of every table is in it. */
  lemma {:induction false} CombinedRowsMembers(frames: seq<Frame>)
    ensures forall r :: r in CombinedRows(frames) <==> exists i :: 0 <= i < |frames| && r in frames[i].rows
  {
    if frames != [] {
      CombinedRowsMembers(frames[1..]);
      forall r | r in CombinedRows(frames) ensures exists i :: 0 <= i < |frames| && r in frames[i].rows {
        if r !in frames[0].rows {
          assert r in CombinedRows(frames[1..]);
          var i :| 0 <= i < |frames[1..]| && r in frames[1..][i].rows;
          assert frames[1..][i] == frames[i + 1];
        }
      }
      forall r, i | 0 <= i < |frames| && r in frames[i].rows ensures r in CombinedRows(frames) {
        if i > 0 {
          assert frames[1..][i - 1] == frames[i];
        }
      }
    }
  }

  lemma {:induction false} CombinedRowsSnoc(frames: seq<Frame>, f: Frame)
    ensures CombinedRows(frames + [f]) == CombinedRows(frames) + f.rows
  {
    if frames == [] {
      assert ([] + [f])[1..] == [];
    } else {
      assert (frames + [f])[1..] == frames[1..] + [f];
      CombinedRowsSnoc(frames[1..], f);
    }
  }

  // ---------------------------------------------------------------------
  // Flattening

  /** The replicate values of one row, in the order of `repCols`. */
  function RowValues(r: Row, repCols: seq<string>): (v: seq<Option<Score>>)
    ensures |v| == |repCols|
  {
    seq(|repCols|, j requires 0 <= j < |repCols| => Cell(r, repCols[j]))
  }

  /** The replicate values of the rows, row after row. */
  function Flatten(rows: seq<Row>, repCols: seq<string>): (v: seq<Option<Score>>)
    ensures |v| == |rows| * |repCols|
  {
    if rows == [] then []
    else
      assert |rows| * |repCols| == |repCols| + (|rows| - 1) * |repCols|;
      RowValues(rows[0], repCols) + Flatten(rows[1..], repCols)
  }

  /** The position of value `j` of row `i` when every row has `n` values,
      taken row after row. */
  function Position(i: nat, j: nat, n: nat): nat {
    i * n + j
  }

  /** Value `j` of row `i` is at its row-major position. */
  lemma {:induction false} FlattenAt(rows: seq<Row>, repCols: seq<string>, i: nat, j: nat)
    requires i < |rows| && j < |repCols|
    ensures Position(i, j, |repCols|) < |Flatten(rows, repCols)|
    ensures Flatten(rows, repCols)[Position(i, j, |repCols|)] == Cell(rows[i], repCols[j])
  {
    var n := |repCols|;
    MulBound(i, |rows|, n, j);
    if i > 0 {
      var rest := rows[1..];
      FlattenAt(rest, repCols, i - 1, j);
      assert rest[i - 1] == rows[i];
      MulShift(i, n, j);
      assert Flatten(rows, repCols) == RowValues(rows[0], repCols) + Flatten(rest, repCols);
    }
  }

  /** Arithmetic of the row-major layout. */
  lemma MulBound(i: nat, m: nat, n: nat, j: nat)
    requires i < m && j < n
    ensures Position(i, j, n) < m * n
  {
    assert i * n <= (m - 1) * n;
    assert (m - 1) * n == m * n - n;
  }

  lemma MulShift(i: nat, n: nat, j: nat)
    requires i > 0
    ensures Position(i, j, n) - n == Position(i - 1, j, n)
  {
  }

  /** The flattened values are laid out row-major: value `j` of row `i` is at
      position `i * |repCols| + j`, and there are rows × columns values. */
  lemma FlattenRowMajor(rows: seq<Row>, repCols: seq<string>)
    ensures |Flatten(rows, repCols)| == |rows| * |repCols|
    ensures forall i: nat, j: nat :: i < |rows| && j < |repCols| ==>
              Position(i, j, |repCols|) < |Flatten(rows, repCols)|
              && Flatten(rows, repCols)[Position(i, j, |repCols|)] == Cell(rows[i], repCols[j])
  {
    forall i: nat, j: nat | i < |rows| && j < |repCols|
      ensures Position(i, j, |repCols|) < |Flatten(rows, repCols)|
              && Flatten(rows, repCols)[Position(i, j, |repCols|)] == Cell(rows[i], repCols[j])
    {
      FlattenAt(rows, repCols, i, j);
    }
  }

  /** Flattening a merged group gives the samples of its parts one after the
      other. */
  lemma {:induction false} FlattenConcat(a: seq<Row>, b: seq<Row>, repCols: seq<string>)
    ensures Flatten(a + b, repCols) == Flatten(a, repCols) + Flatten(b, repCols)
  {
    if a == [] {
      assert a + b == b;
    } else {
      assert (a + b)[0] == a[0] && (a + b)[1..] == a[1..] + b;
      FlattenConcat(a[1..], b, repCols);
    }
  }

  // ---------------------------------------------------------------------
  // Per-group summaries

  /** One row of the output table. The original mean and standard deviation
      ignore missing values and are NaN (`None`) for an empty sample. */
  datatype Summary = Summary(
    name: string,
    mutations: string,
    group: string,
    originalMean: Option<Score>,
    originalStd: Option<Score>,
    boot: BootStats,
    nSamples: nat)

  /** The summary of the group `k`, whose rows are `rows`, made by bootstrap
      call number `call`. */
  function Summarise(k: Key, rows: seq<Row>, repCols: seq<string>, rng: RandomSource, call: nat, num: Numerics): (s: Summary)
    ensures (s.name, s.mutations, s.group) == k
    ensures s.boot.Undefined? <==> s.nSamples == 0
    ensures s.originalMean.None? <==> s.nSamples == 0
    ensures s.originalStd.None? <==> s.nSamples == 0
  {
    var allReps := Flatten(rows, repCols);
    var clean := RemoveMissing(allReps);
    Summary(k.0, k.1, k.2,
            if clean == [] then None else Some(num.mean(clean)),
            if clean == [] then None else Some(num.std(clean)),
            BootstrapOf(allReps, DefaultIterations, DefaultConfidence, rng, call, num),
            |clean|)
  }

  /** `n_samples` counts the non-missing replicate values of the group, which
      are the values the bootstrap resamples from; there are at most rows ×
      replicate columns of them, and the statistics are undefined exactly when
      there are none. */
  lemma SummaryCounts(k: Key, rows: seq<Row>, repCols: seq<string>, rng: RandomSource, call: nat, num: Numerics)
    ensures var s := Summarise(k, rows, repCols, rng, call, num);
            && s.nSamples == |RemoveMissing(Flatten(rows, repCols))|
            && s.nSamples <= |rows| * |repCols|
            && (s.boot.Undefined? <==> s.nSamples == 0)
            && (s.originalMean.None? <==> s.nSamples == 0)
  {
    FlattenRowMajor(rows, repCols);
  }

  /** The summaries of the groups `keys` of `rows`, in the order of `keys`;
      group number `g` uses bootstrap call number `g`. */
  function SummariesOf(rows: seq<Row>, keys: seq<Key>, repCols: seq<string>, rng: RandomSource, num: Numerics): (out: seq<Summary>)
    ensures |out| == |keys|
  {
    seq(|keys|, g requires 0 <= g < |keys| =>
      Summarise(keys[g], RowsWithKey(rows, keys[g]), repCols, rng, g, num))
  }

  /** The summaries of all groups of a combined table, in the order the
      groups are visited. */
  function Summaries(combined: Frame, rng: RandomSource, num: Numerics): (out: seq<Summary>)
    ensures |out| == |GroupKeys(combined.rows)|
  {
    SummariesOf(combined.rows, GroupOrder(combined.rows), RepColumns(combined.columns), rng, num)
  }

  /** The summary of one group, computed as the analysis loop does. */
  method SummariseGroup(k: Key, groupData: seq<Row>, repCols: seq<string>, rng: RandomSource, call: nat, num: Numerics)
    returns (s: Summary)
    ensures s == Summarise(k, groupData, repCols, rng, call, num)
  {
    var allReps := Flatten(groupData, repCols);
    var boot := BootstrapStats(allReps, DefaultIterations, DefaultConfidence, rng, call, num);
    var clean := RemoveMissing(allReps);
    var origMean := if clean == [] then None else Some(num.mean(clean));
    var origStd := if clean == [] then None else Some(num.std(clean));
    s := Summary(k.0, k.1, k.2, origMean, origStd, boot, |clean|);
  }

  /** The loop over the groups: summarises group after group, in the order
      of `keys`. */
  method SummariseGroups(rows: seq<Row>, keys: seq<Key>, groups: map<Key, seq<Row>>,
                         repCols: seq<string>, rng: RandomSource, num: Numerics)
    returns (results: seq<Summary>)
    requires forall k :: k in keys ==> k in groups && groups[k] == RowsWithKey(rows, k)
    ensures results == SummariesOf(rows, keys, repCols, rng, num)
  {
    results := [];
    for g := 0 to |keys|
      invariant |results| == g
      invariant forall h :: 0 <= h < g ==>
                  results[h] == Summarise(keys[h], RowsWithKey(rows, keys[h]), repCols, rng, h, num)
    {
      var k := keys[g];
      var summary := SummariseGroup(k, groups[k], repCols, rng, g, num);
      results := results + [summary];
    }
  }

  /** The result of the analysis. */
  datatype Outcome = NoInputFiles | Done(summaries: seq<Summary>)

  /** The analysis: load the tables that exist, stop when there are none,
      concatenate them, select the replicate columns, group the rows, and
      summarise every group. */
  method Analyse(inputs: seq<Option<Frame>>, rng: RandomSource, num: Numerics) returns (out: Outcome)
    ensures out.NoInputFiles? <==> forall i :: 0 <= i < |inputs| ==> inputs[i].None?
    ensures out.Done? ==>
              var frames := Present(inputs);
              out.summaries == Summaries(Frame(CombinedColumns(frames), CombinedRows(frames)), rng, num)
  {
    var allData := LoadInputs(inputs);
    if allData == [] {
      return NoInputFiles;
    }
    var combined := Frame(CombinedColumns(allData), CombinedRows(allData));
    var repCols := RepColumns(combined.columns);
    var keys, groups := GroupRows(combined.rows);
    var results := SummariseGroups(combined.rows, keys, groups, repCols, rng, num);
    return Done(results);
  }
}
