/** The slice of pandas the two pipelines use: `groupby(key).agg(spec)` with
    sorted group keys, flattening of the two-level column labels with "_",
    `fillna`, `rename(columns=...)`, `drop(columns=...)` and column selection.
    A NaN cell is `None`. */
module Frames {
  import opened Wrappers
  import Seqs
  import Stats
  import Grouping

  /** The reductions named in an aggregation spec. */
  datatype AggFn = Mean | Min | Max | Std | Sum | First

  function AggName(f: AggFn): string {
    match f
    case Mean => "mean"
    case Min => "min"
    case Max => "max"
    case Std => "std"
    case Sum => "sum"
    case First => "first"
  }

  /** One reduction over one column of one group. The empty cases never arise
      inside a group-by, where every group has at least one row. */
  function Apply(f: AggFn, xs: seq<real>, sqrt: real -> real): (r: Option<real>)
    ensures r.None? <==> (f == Std && |xs| < 2) || (f != Sum && |xs| == 0)
    ensures r.Some? && f in {Mean, Min, Max, First} ==> Stats.Min(xs) <= r.value <= Stats.Max(xs)
    ensures f == Sum && |xs| == 0 ==> r == Some(0.0)
  {
    match f
    case Mean =>
      if |xs| == 0 then None else Stats.MeanBounds(xs, Stats.Min(xs), Stats.Max(xs)); Some(Stats.Mean(xs))
    case Min => if |xs| == 0 then None else Some(Stats.Min(xs))
    case Max => if |xs| == 0 then None else Some(Stats.Max(xs))
    case Std => Stats.SampleStd(xs, sqrt)
    case Sum => Some(Stats.Sum(xs))
    case First => if |xs| == 0 then None else Some(xs[0])
  }

  /** The dictionary passed to `agg`: for each source column, its reductions, in order. */
  type AggSpec<C> = seq<(C, seq<AggFn>)>

  /** Number of output columns a spec produces. */
  function Width<C>(spec: AggSpec<C>): nat {
    if |spec| == 0 then 0 else |spec[0].1| + Width(spec[1..])
  }

  function Label(column: string, f: AggFn): string {
    column + "_" + AggName(f)
  }

  function ColumnLabels(column: string, fns: seq<AggFn>): (r: seq<string>)
    ensures |r| == |fns|
  {
    Seqs.Map(fns, f => Label(column, f))
  }

  /** The flattened output column labels, `"<column>_<reduction>"`, in spec order. */
  function Labels<C>(spec: AggSpec<C>, name: C -> string): (r: seq<string>)
    ensures |r| == Width(spec)
  {
    if |spec| == 0 then [] else ColumnLabels(name(spec[0].0), spec[0].1) + Labels(spec[1..], name)
  }

  /** The values of one source column within a group. */
  function ColumnValues<R, C>(group: seq<R>, value: (R, C) -> real, c: C): (r: seq<real>)
    ensures |r| == |group|
  {
    Seqs.Map(group, Column(value, c))
  }

  /** Reading column `c` of a row. */
  function Column<R, C>(value: (R, C) -> real, c: C): R -> real {
    row => value(row, c)
  }

  /** Entry `t` of a column is the value of row `t`. */
  lemma ColumnAt<R, C>(group: seq<R>, value: (R, C) -> real, c: C, t: nat)
    requires t < |group|
    ensures ColumnValues(group, value, c)[t] == value(group[t], c)
  {
    assert ColumnValues(group, value, c)[t] == Column(value, c)(group[t]);
  }

  function Reduce(xs: seq<real>, fns: seq<AggFn>, sqrt: real -> real): (r: seq<Option<real>>)
    ensures |r| == |fns|
  {
    Seqs.Map(fns, f => Apply(f, xs, sqrt))
  }

  /** The aggregated cells of one group, in the order of `Labels`. */
  function AggRow<R, C>(group: seq<R>, spec: AggSpec<C>, value: (R, C) -> real, sqrt: real -> real): (r: seq<Option<real>>)
    ensures |r| == Width(spec)
  {
    if |spec| == 0 then []
    else Reduce(ColumnValues(group, value, spec[0].0), spec[0].1, sqrt) + AggRow(group, spec[1..], value, sqrt)
  }

  /** The cells of the first dictionary entry come first. */
  lemma AggRowCons<R, C>(group: seq<R>, spec: AggSpec<C>, value: (R, C) -> real, sqrt: real -> real)
    requires |spec| > 0
    ensures AggRow(group, spec, value, sqrt)
            == Reduce(ColumnValues(group, value, spec[0].0), spec[0].1, sqrt) + AggRow(group, spec[1..], value, sqrt)
  {
  }

  /** Aggregating by two dictionaries one after the other lays their cells side by side. */
  lemma {:induction false} AggRowConcat<R, C>(group: seq<R>, s1: AggSpec<C>, s2: AggSpec<C>,
                                              value: (R, C) -> real, sqrt: real -> real)
    ensures AggRow(group, s1 + s2, value, sqrt) == AggRow(group, s1, value, sqrt) + AggRow(group, s2, value, sqrt)
    decreases |s1|
  {
    if |s1| == 0 {
      assert s1 + s2 == s2;
    } else {
      assert (s1 + s2)[0] == s1[0];
      assert (s1 + s2)[1..] == s1[1..] + s2;
      AggRowConcat(group, s1[1..], s2, value, sqrt);
    }
  }

  /** The labels of two dictionaries one after the other. */
  lemma {:induction false} LabelsConcat<C>(s1: AggSpec<C>, s2: AggSpec<C>, name: C -> string)
    ensures Labels(s1 + s2, name) == Labels(s1, name) + Labels(s2, name)
    decreases |s1|
  {
    if |s1| == 0 {
      assert s1 + s2 == s2;
    } else {
      assert (s1 + s2)[0] == s1[0];
      assert (s1 + s2)[1..] == s1[1..] + s2;
      LabelsConcat(s1[1..], s2, name);
    }
  }

  /** Position of the first output column of dictionary entry `j`: entry
      `j`'s columns occupy `Offset(spec, j)` up to `Offset(spec, j) + |spec[j].1|`. */
  function Offset<C>(spec: AggSpec<C>, j: nat): (o: nat)
    requires j <= |spec|
    ensures j < |spec| ==> o + |spec[j].1| <= Width(spec)
  {
    if j == 0 then 0
    else
      assert j < |spec| ==> spec[1..][j - 1] == spec[j];
      |spec[0].1| + Offset(spec[1..], j - 1)
  }

  /** The output column at entry `j`, reduction `k` is labelled `"<column>_<reduction>"`. */
  lemma {:induction false} LabelAt<C>(spec: AggSpec<C>, name: C -> string, j: nat, k: nat)
    requires j < |spec| && k < |spec[j].1|
    ensures Labels(spec, name)[Offset(spec, j) + k] == Label(name(spec[j].0), spec[j].1[k])
    decreases j
  {
    var head := ColumnLabels(name(spec[0].0), spec[0].1);
    assert Labels(spec, name) == head + Labels(spec[1..], name);
    if j > 0 {
      LabelAt(spec[1..], name, j - 1, k);
      assert spec[1..][j - 1] == spec[j];
    } else {
      assert head[k] == Label(name(spec[0].0), spec[0].1[k]);
    }
  }

  /** The cell under that label is that reduction of that column's values in
      the group: labels and cells line up entry by entry. */
  lemma {:induction false} CellAt<R, C>(group: seq<R>, spec: AggSpec<C>, value: (R, C) -> real,
                                        sqrt: real -> real, j: nat, k: nat)
    requires j < |spec| && k < |spec[j].1|
    ensures AggRow(group, spec, value, sqrt)[Offset(spec, j) + k]
            == Apply(spec[j].1[k], ColumnValues(group, value, spec[j].0), sqrt)
    decreases j
  {
    var head := Reduce(ColumnValues(group, value, spec[0].0), spec[0].1, sqrt);
    assert AggRow(group, spec, value, sqrt) == head + AggRow(group, spec[1..], value, sqrt);
    if j > 0 {
      CellAt(group, spec[1..], value, sqrt, j - 1, k);
      assert spec[1..][j - 1] == spec[j];
    } else {
      assert head[k] == Apply(spec[0].1[k], ColumnValues(group, value, spec[0].0), sqrt);
    }
  }

  /** Two dictionaries that apply the same reductions to columns holding the
      same values, one read from rows `r`, the other from `f(r)`, give the
      same cells. */
  lemma {:induction false} AggRowTranslate<R, S, C, D>(group: seq<R>, f: R -> S,
                                                       spec: AggSpec<C>, value: (S, C) -> real,
                                                       spec': AggSpec<D>, value': (R, D) -> real,
                                                       sqrt: real -> real)
    requires |spec'| == |spec|
    requires forall i :: 0 <= i < |spec| ==> spec'[i].1 == spec[i].1
    requires forall i, r :: 0 <= i < |spec| ==> value'(r, spec'[i].0) == value(f(r), spec[i].0)
    ensures AggRow(group, spec', value', sqrt) == AggRow(Seqs.Map(group, f), spec, value, sqrt)
    decreases |spec|
  {
    if |spec| > 0 {
      var xs := ColumnValues(group, value', spec'[0].0);
      var ys := ColumnValues(Seqs.Map(group, f), value, spec[0].0);
      forall j | 0 <= j < |xs|
        ensures xs[j] == ys[j]
      {
        assert value'(group[j], spec'[0].0) == value(f(group[j]), spec[0].0);
      }
      assert xs == ys;
      AggRowTranslate(group, f, spec[1..], value, spec'[1..], value', sqrt);
    }
  }

  /** Two dictionaries whose column names agree entry by entry have the same labels. */
  lemma {:induction false} LabelsTranslate<C, D>(spec: AggSpec<C>, name: C -> string, spec': AggSpec<D>, name': D -> string)
    requires |spec'| == |spec|
    requires forall i :: 0 <= i < |spec| ==> spec'[i].1 == spec[i].1 && name'(spec'[i].0) == name(spec[i].0)
    ensures Labels(spec', name') == Labels(spec, name)
    decreases |spec|
  {
    if |spec| > 0 {
      LabelsTranslate(spec[1..], name, spec'[1..], name');
    }
  }

  /** A table: column labels, a row index (the group keys) and cells, row by row. */
  datatype Frame<V> = Frame(columns: seq<string>, index: seq<int>, cells: seq<seq<V>>)

  ghost predicate WellFormed<V>(f: Frame<V>) {
    && |f.cells| == |f.index|
    && forall i :: 0 <= i < |f.cells| ==> |f.cells[i]| == |f.columns|
  }

  /** Two frames with the same labels and index are equal when their rows are. */
  lemma FrameRows<V>(a: Frame<V>, b: Frame<V>)
    requires a.columns == b.columns && a.index == b.index
    requires WellFormed(a) && WellFormed(b)
    requires forall i :: 0 <= i < |a.index| ==> a.cells[i] == b.cells[i]
    ensures a == b
  {
  }

  /** The rows whose key is `k`, in input order. */
  function Group<R>(rows: seq<R>, key: R -> int, k: int): seq<R> {
    Seqs.Filter(rows, HasKey(key, k))
  }

  function HasKey<R>(key: R -> int, k: int): R -> bool {
    r => key(r) == k
  }

  lemma GroupNonEmpty<R>(rows: seq<R>, key: R -> int, k: int)
    requires k in Seqs.Map(rows, key)
    ensures |Group(rows, key, k)| > 0
  {
    var i :| 0 <= i < |rows| && key(rows[i]) == k;
    assert rows[i] in Group(rows, key, k);
  }

  function GroupKeys<R>(rows: seq<R>, key: R -> int): (r: seq<int>)
    ensures Grouping.StrictlySorted(r, Grouping.IntLess)
    ensures forall k :: k in r <==> k in Seqs.Map(rows, key)
  {
    Grouping.IntOrder();
    Grouping.SortedKeys(Seqs.Map(rows, key), Grouping.IntLess)
  }

  /** Grouping rows by `key'` is grouping their images under `f` by `key`, when `key'` reads `key` through `f`. */
  lemma GroupTranslate<R, S>(rows: seq<R>, f: R -> S, key: S -> int, key': R -> int, k: int)
    requires forall r :: key'(r) == key(f(r))
    ensures GroupKeys(rows, key') == GroupKeys(Seqs.Map(rows, f), key)
    ensures Seqs.Map(Group(rows, key', k), f) == Group(Seqs.Map(rows, f), key, k)
  {
    Seqs.MapCompose(rows, f, key, key');
    Seqs.MapFilter(rows, f, HasKey(key', k), HasKey(key, k));
  }

  /** `rows.groupby(key).agg(spec)` with the flattened column labels: one row
      per distinct key, keys ascending, NaN where a reduction is undefined.
      The caller passes the flattened labels, which the precondition pins to
      `Labels(spec, name)`. */
  function GroupByAgg<R, C>(rows: seq<R>, key: R -> int, spec: AggSpec<C>, name: C -> string,
                            labels: seq<string>, value: (R, C) -> real, sqrt: real -> real): (f: Frame<Option<real>>)
    requires labels == Labels(spec, name)
    ensures WellFormed(f)
    ensures f.columns == labels
    ensures Grouping.StrictlySorted(f.index, Grouping.IntLess)
    ensures forall k :: k in f.index <==> k in Seqs.Map(rows, key)
    ensures forall i :: 0 <= i < |f.index| ==> |Group(rows, key, f.index[i])| > 0
    ensures |f.cells| == |f.index|
    ensures forall i :: 0 <= i < |f.index| ==> f.cells[i] == AggRow(Group(rows, key, f.index[i]), spec, value, sqrt)
  {
    var keys := GroupKeys(rows, key);
    var cells := Seqs.Map(keys, k => AggRow(Group(rows, key, k), spec, value, sqrt));
    assert forall i :: 0 <= i < |keys| ==> |Group(rows, key, keys[i])| > 0 by {
      forall i | 0 <= i < |keys|
        ensures |Group(rows, key, keys[i])| > 0
      {
        GroupNonEmpty(rows, key, keys[i]);
      }
    }
    Frame(labels, keys, cells)
  }

  function FillCell(v: Option<real>, fill: real): real {
    match v
    case Some(x) => x
    case None => fill
  }

  function FillRow(row: seq<Option<real>>, fill: real): (r: seq<real>)
    ensures |r| == |row|
  {
    Seqs.Map(row, v => FillCell(v, fill))
  }

  /** Cell `i` of a filled reduction is reduction `fns[i]`, filled. */
  lemma FillReduceAt(xs: seq<real>, fns: seq<AggFn>, sqrt: real -> real, fill: real, i: nat)
    requires i < |fns|
    ensures FillRow(Reduce(xs, fns, sqrt), fill)[i] == FillCell(Apply(fns[i], xs, sqrt), fill)
  {
  }

  /** `fillna(fill)`: every NaN cell becomes `fill`, every other cell is kept. */
  function FillNa(f: Frame<Option<real>>, fill: real): (g: Frame<real>)
    ensures g.columns == f.columns && g.index == f.index && |g.cells| == |f.cells|
    ensures forall i :: 0 <= i < |f.cells| ==> |g.cells[i]| == |f.cells[i]|
    ensures forall i, j :: 0 <= i < |f.cells| && 0 <= j < |f.cells[i]| ==>
      |g.cells[i]| == |f.cells[i]| && g.cells[i][j] == (if f.cells[i][j].Some? then f.cells[i][j].value else fill)
  {
    Frame(f.columns, f.index, Seqs.Map(f.cells, row => FillRow(row, fill)))
  }

  function RenameLabel(c: string, from: string, to: string): string {
    if c == from then to else c
  }

  /** `rename(columns={from: to})`: relabels, leaves the cells alone. */
  function Rename<V>(f: Frame<V>, from: string, to: string): (g: Frame<V>)
    ensures g.index == f.index && g.cells == f.cells && |g.columns| == |f.columns|
    ensures forall j :: 0 <= j < |f.columns| ==> g.columns[j] == (if f.columns[j] == from then to else f.columns[j])
  {
    Frame(Seqs.Map(f.columns, c => RenameLabel(c, from, to)), f.index, f.cells)
  }

  /** The entries of `row` whose column label is not `target`. */
  function DropCells<V>(columns: seq<string>, row: seq<V>, target: string): seq<V> {
    if |columns| == 0 || |row| == 0 then []
    else (if columns[0] == target then [] else [row[0]]) + DropCells(columns[1..], row[1..], target)
  }

  /** `drop(columns=[target])`: removes every column labelled `target`. pandas
      raises a KeyError when there is none, hence the precondition. */
  function Drop<V>(f: Frame<V>, target: string): (g: Frame<V>)
    requires target in f.columns
    ensures target !in g.columns
    ensures g.index == f.index && |g.cells| == |f.cells|
    ensures WellFormed(f) ==> WellFormed(g)
    ensures g.columns == DropCells(f.columns, f.columns, target)
    ensures forall i :: 0 <= i < |f.cells| ==> g.cells[i] == DropCells(f.columns, f.cells[i], target)
  {
    var g := Frame(DropCells(f.columns, f.columns, target), f.index,
                   Seqs.Map(f.cells, row => DropCells(f.columns, row, target)));
    DropCellsOmits(f.columns, f.columns, target);
    assert WellFormed(f) ==> WellFormed(g) by {
      if WellFormed(f) {
        forall i | 0 <= i < |f.cells|
          ensures |g.cells[i]| == |g.columns|
        {
          DropCellsLength(f.columns, f.cells[i], f.columns, target);
        }
      }
    }
    g
  }

  lemma {:induction false} DropCellsOmits(columns: seq<string>, row: seq<string>, target: string)
    requires row == columns
    ensures target !in DropCells(columns, row, target)
    decreases |columns|
  {
    if |columns| > 0 {
      DropCellsOmits(columns[1..], row[1..], target);
    }
  }

  /** Rows of equal length lose the same number of cells. */
  lemma {:induction false} DropCellsLength<V, W>(columns: seq<string>, row: seq<V>, other: seq<W>, target: string)
    requires |row| == |columns| == |other|
    ensures |DropCells(columns, row, target)| == |DropCells(columns, other, target)|
    decreases |columns|
  {
    if |columns| > 0 {
      DropCellsLength(columns[1..], row[1..], other[1..], target);
    }
  }

  /** Dropping a target the leading columns do not carry keeps them and drops within the rest. */
  lemma {:induction false} DropCellsConcat<V>(c1: seq<string>, r1: seq<V>, c2: seq<string>, r2: seq<V>, target: string)
    requires |c1| == |r1| && target !in c1
    ensures DropCells(c1 + c2, r1 + r2, target) == r1 + DropCells(c2, r2, target)
    decreases |c1|
  {
    if |c1| > 0 {
      assert (c1 + c2)[1..] == c1[1..] + c2;
      assert (r1 + r2)[1..] == r1[1..] + r2;
      DropCellsConcat(c1[1..], r1[1..], c2, r2, target);
      assert r1 == [r1[0]] + r1[1..];
    } else {
      assert c1 + c2 == c2 && r1 + r2 == r2;
    }
  }

  /** A row with no cell under `target` loses nothing. */
  lemma {:induction false} DropCellsAbsent<V>(columns: seq<string>, row: seq<V>, target: string)
    requires |columns| == |row| && target !in columns
    ensures DropCells(columns, row, target) == row
    decreases |columns|
  {
    if |columns| > 0 {
      DropCellsAbsent(columns[1..], row[1..], target);
      assert row == [row[0]] + row[1..];
    }
  }

  /** Dropping the last column, the only one labelled `target`, keeps the
      other columns and, in every row, the cells before the last, in order. */
  lemma DropLast<V>(f: Frame<V>, columns: seq<string>, target: string)
    requires WellFormed(f) && f.columns == columns + [target] && target !in columns
    ensures Drop(f, target).columns == columns
    ensures Drop(f, target).index == f.index
    ensures forall i :: 0 <= i < |f.cells| ==> Drop(f, target).cells[i] == f.cells[i][..|columns|]
  {
    var g := Drop(f, target);
    var n := |columns|;
    DropLastCells(columns, columns, target, target);
    forall i | 0 <= i < |f.cells|
      ensures g.cells[i] == f.cells[i][..n]
    {
      DropLastCells(columns, f.cells[i][..n], target, f.cells[i][n]);
      assert f.cells[i] == f.cells[i][..n] + [f.cells[i][n]];
    }
  }

  lemma DropLastCells<V>(columns: seq<string>, row: seq<V>, target: string, last: V)
    requires |columns| == |row| && target !in columns
    ensures DropCells(columns + [target], row + [last], target) == row
  {
    DropCellsConcat(columns, row, [target], [last], target);
    assert DropCells([target], [last], target) == [];
  }

  function IndexOf(columns: seq<string>, target: string): (j: nat)
    requires target in columns
    ensures j < |columns| && columns[j] == target
    ensures forall t :: 0 <= t < j ==> columns[t] != target
  {
    if columns[0] == target then 0 else 1 + IndexOf(columns[1..], target)
  }

  /** `frame[target]` for a label that names one column: that column's
      cells, row by row. With a repeated label pandas would return a frame
      of all such columns; the frames selected from here carry the label
      once (see `Training.TargetColumn`), so the first match is the only one. */
  function Select(f: Frame<real>, target: string): (r: seq<real>)
    requires WellFormed(f) && target in f.columns
    ensures |r| == |f.cells|
    ensures forall i :: 0 <= i < |f.cells| ==> r[i] == f.cells[i][IndexOf(f.columns, target)]
  {
    var j := IndexOf(f.columns, target);
    seq(|f.cells|, i requires 0 <= i < |f.cells| => f.cells[i][j])
  }

  // ---------------------------------------------------------------------------
  // Order independence

  /** Every reduction except `First` ignores the order of its input. */
  lemma ApplyPermutation(f: AggFn, xs: seq<real>, ys: seq<real>, sqrt: real -> real)
    requires f != First && multiset(xs) == multiset(ys)
    ensures Apply(f, xs, sqrt) == Apply(f, ys, sqrt)
  {
    assert |xs| == |multiset(xs)| == |ys|;
    if f == Sum || f == Mean {
      Stats.SumPermutation(xs, ys);
    } else if (f == Min || f == Max) && |xs| > 0 {
      Stats.MinMaxPermutation(xs, ys);
    } else if f == Std {
      Stats.SampleStdPermutation(xs, ys, sqrt);
    }
  }

  /** A dictionary none of whose reductions is `First`. */
  predicate OrderFree<C>(spec: AggSpec<C>) {
    forall i, j :: 0 <= i < |spec| && 0 <= j < |spec[i].1| ==> spec[i].1[j] != First
  }

  lemma ReducePermutation(xs: seq<real>, ys: seq<real>, fns: seq<AggFn>, sqrt: real -> real)
    requires forall j :: 0 <= j < |fns| ==> fns[j] != First
    requires multiset(xs) == multiset(ys)
    ensures Reduce(xs, fns, sqrt) == Reduce(ys, fns, sqrt)
  {
    forall j | 0 <= j < |fns|
      ensures Reduce(xs, fns, sqrt)[j] == Reduce(ys, fns, sqrt)[j]
    {
      ApplyPermutation(fns[j], xs, ys, sqrt);
    }
  }

  /** Without `First`, the aggregated row of a group does not depend on the order of its rows. */
  lemma {:induction false} AggRowPermutation<R, C>(g: seq<R>, h: seq<R>, spec: AggSpec<C>,
                                                   value: (R, C) -> real, sqrt: real -> real)
    requires OrderFree(spec) && multiset(g) == multiset(h)
    ensures AggRow(g, spec, value, sqrt) == AggRow(h, spec, value, sqrt)
    decreases |spec|
  {
    if |spec| > 0 {
      Seqs.MapPermutation(g, h, Column(value, spec[0].0));
      ReducePermutation(ColumnValues(g, value, spec[0].0), ColumnValues(h, value, spec[0].0), spec[0].1, sqrt);
      assert OrderFree(spec[1..]) by {
        forall i, j | 0 <= i < |spec[1..]| && 0 <= j < |spec[1..][i].1|
          ensures spec[1..][i].1[j] != First
        {
          assert spec[1..][i] == spec[i + 1];
        }
      }
      AggRowPermutation(g, h, spec[1..], value, sqrt);
    }
  }

  /** Without `First`, `groupby(key).agg(spec)` does not depend on the order of the input rows. */
  lemma GroupByAggPermutation<R, C>(rows: seq<R>, rows': seq<R>, key: R -> int, spec: AggSpec<C>,
                                    name: C -> string, labels: seq<string>, value: (R, C) -> real, sqrt: real -> real)
    requires labels == Labels(spec, name)
    requires OrderFree(spec) && multiset(rows) == multiset(rows')
    ensures GroupByAgg(rows, key, spec, name, labels, value, sqrt) == GroupByAgg(rows', key, spec, name, labels, value, sqrt)
  {
    var ks, ks' := Seqs.Map(rows, key), Seqs.Map(rows', key);
    Seqs.MapPermutation(rows, rows', key);
    Seqs.PermutationMembers(ks, ks');
    Grouping.IntOrder();
    Grouping.SortedKeysOrderIndependent(ks, ks', Grouping.IntLess);
    var f, f' := GroupByAgg(rows, key, spec, name, labels, value, sqrt), GroupByAgg(rows', key, spec, name, labels, value, sqrt);
    assert f.index == f'.index;
    forall i | 0 <= i < |f.index|
      ensures f.cells[i] == f'.cells[i]
    {
      var k := f.index[i];
      Seqs.FilterPermutation(rows, rows', HasKey(key, k));
      AggRowPermutation(Group(rows, key, k), Group(rows', key, k), spec, value, sqrt);
    }
  }
}
