/** Training-side feature engineering (`train_models`, up to the split): the
    labelled event rows are grouped by student with the inference dictionary
    plus `completed: first`, the target column is renamed, NaN is filled by 0,
    and the frame is split into the feature frame and the target column. */
module Training {
  import opened Wrappers
  import Seqs
  import opened Events
  import Frames
  import Features

  /** The columns of a labelled row the training dictionary reads. */
  datatype TrainingColumn = Feature(column: Features.FeatureColumn) | Completed

  function TrainingColumnName(c: TrainingColumn): string {
    match c
    case Feature(f) => Features.ColumnName(f)
    case Completed => "completed"
  }

  function TrainingValue(l: LabeledEvent, c: TrainingColumn): real {
    match c
    case Feature(f) => Features.EventValue(l.event, f)
    case Completed => l.completed as real
  }

  /** The aggregation dictionary of the training code. */
  const TrainingAggregation: Frames.AggSpec<TrainingColumn> := [
    (Feature(Features.Score), [Frames.Mean, Frames.Min, Frames.Max, Frames.Std]),
    (Feature(Features.TimeSpent), [Frames.Sum, Frames.Mean, Frames.Std]),
    (Feature(Features.ChapterId), [Frames.Max]),
    (Completed, [Frames.First])
  ]

  /** The target's flattened label and the name it is renamed to. */
  const FirstTargetLabel: string := "completed_first"
  const TargetLabel: string := "completed"

  function LabeledStudentId(l: LabeledEvent): int {
    l.event.studentId
  }

  /** The feature frame `X` and the target column `y`. */
  datatype TrainingSet = TrainingSet(features: Frames.Frame<real>, target: seq<real>)

  /** `groupby('student_id').agg(...)` with the training dictionary, its
      labels flattened: one row per student, in ascending id order. */
  function GroupedTraining(data: seq<LabeledEvent>, sqrt: real -> real): (g: Frames.Frame<Option<real>>)
    ensures Frames.WellFormed(g)
    ensures g.columns == Features.FeatureNames + [FirstTargetLabel]
    ensures g.index == Frames.GroupKeys(data, LabeledStudentId)
    ensures AggregatesStudents(g.index, g.cells, data, sqrt)
  {
    TrainingLabels();
    Frames.GroupByAgg(data, LabeledStudentId, TrainingAggregation, TrainingColumnName,
                      Features.FeatureNames + [FirstTargetLabel], TrainingValue, sqrt)
  }

  /** Row `i` of `cells` aggregates the non-empty group of rows of student `index[i]`. */
  ghost predicate AggregatesStudents(index: seq<int>, cells: seq<seq<Option<real>>>, data: seq<LabeledEvent>, sqrt: real -> real) {
    && |cells| == |index|
    && (forall i :: 0 <= i < |index| ==> |StudentRows(data, index[i])| > 0)
    && (forall i :: 0 <= i < |index| ==>
          cells[i] == Frames.AggRow(StudentRows(data, index[i]), TrainingAggregation, TrainingValue, sqrt))
  }

  /** The aggregated, renamed and filled training frame: the eight features,
      then the target. */
  function StudentTrainingFrame(data: seq<LabeledEvent>, sqrt: real -> real): (f: Frames.Frame<real>)
    ensures Frames.WellFormed(f)
    ensures f.columns == Features.FeatureNames + [TargetLabel]
    ensures f.index == Frames.GroupKeys(data, LabeledStudentId)
    ensures forall i :: 0 <= i < |f.index| ==> TrainingRowOf(f.cells[i], StudentRows(data, f.index[i]), sqrt)
  {
    var grouped := GroupedTraining(data, sqrt);
    var f := Frames.FillNa(Frames.Rename(grouped, FirstTargetLabel, TargetLabel), 0.0);
    RenamedAndFilled(data, sqrt, grouped, f);
    f
  }

  /** Renaming the target and filling NaN keeps the frame's shape and index,
      fixes its labels and turns every row into a training row. */
  lemma RenamedAndFilled(data: seq<LabeledEvent>, sqrt: real -> real, grouped: Frames.Frame<Option<real>>, f: Frames.Frame<real>)
    requires Frames.WellFormed(grouped) && grouped.columns == Features.FeatureNames + [FirstTargetLabel]
    requires AggregatesStudents(grouped.index, grouped.cells, data, sqrt)
    requires f == Frames.FillNa(Frames.Rename(grouped, FirstTargetLabel, TargetLabel), 0.0)
    ensures Frames.WellFormed(f) && f.index == grouped.index
    ensures f.columns == Features.FeatureNames + [TargetLabel]
    ensures forall i :: 0 <= i < |f.index| ==> TrainingRowOf(f.cells[i], StudentRows(data, f.index[i]), sqrt)
  {
    var renamed := Frames.Rename(grouped, FirstTargetLabel, TargetLabel);
    RenameTarget(grouped.columns, renamed.columns);
    assert Frames.WellFormed(f) by {
      forall i | 0 <= i < |f.cells|
        ensures |f.cells[i]| == |f.columns|
      {
        assert |f.cells[i]| == |renamed.cells[i]| == |grouped.columns|;
      }
    }
    FilledTrainingRows(data, sqrt, renamed, f);
  }

  /** The labelled rows of student `k`, in input order. */
  function StudentRows(data: seq<LabeledEvent>, k: int): seq<LabeledEvent> {
    Frames.Group(data, LabeledStudentId, k)
  }

  /** `row` is the training row of the non-empty group `g`: the feature
      vector of its events, then the label of its first row. */
  ghost predicate TrainingRowOf(row: seq<real>, g: seq<LabeledEvent>, sqrt: real -> real) {
    |g| > 0 && row == Features.AsRow(Features.Summarize(Seqs.Map(g, EventOf), sqrt)) + [g[0].completed as real]
  }

  /** Filling the NaN cells of the per-student training aggregation gives,
      row by row, the training rows of the students' labelled events. */
  lemma FilledTrainingRows(data: seq<LabeledEvent>, sqrt: real -> real, grouped: Frames.Frame<Option<real>>, f: Frames.Frame<real>)
    requires AggregatesStudents(grouped.index, grouped.cells, data, sqrt)
    requires f == Frames.FillNa(grouped, 0.0)
    ensures forall i :: 0 <= i < |f.index| ==> TrainingRowOf(f.cells[i], StudentRows(data, f.index[i]), sqrt)
  {
    forall i | 0 <= i < |f.index|
      ensures TrainingRowOf(f.cells[i], StudentRows(data, f.index[i]), sqrt)
    {
      assert f.cells[i] == Frames.FillRow(grouped.cells[i], 0.0);
      FilledTrainingRow(StudentRows(data, f.index[i]), sqrt);
    }
  }

  /** One filled training row. */
  lemma FilledTrainingRow(g: seq<LabeledEvent>, sqrt: real -> real)
    requires |g| > 0
    ensures TrainingRowOf(Frames.FillRow(Frames.AggRow(g, TrainingAggregation, TrainingValue, sqrt), 0.0), g, sqrt)
  {
    var events := Seqs.Map(g, EventOf);
    var a := Frames.AggRow(events, Features.StudentAggregation, Features.EventValue, sqrt);
    var c := g[0].completed as real;
    TrainingRowSplit(g, sqrt);
    Seqs.MapConcat(a, [Some(c)], v => Frames.FillCell(v, 0.0));
    assert Frames.FillRow([Some(c)], 0.0) == [c];
    Features.AggRowIsSummary(events, sqrt);
  }

  /** `X = drop(columns=['completed'])`, `y = frame['completed']`. */
  function StudentTrainingSet(data: seq<LabeledEvent>, sqrt: real -> real): (t: TrainingSet)
    ensures Frames.WellFormed(t.features)
    ensures t.features.columns == Features.FeatureNames
    ensures |t.target| == |t.features.index|
    ensures t.features.index == Frames.GroupKeys(data, LabeledStudentId)
    ensures forall i :: 0 <= i < |t.features.index| ==>
      Features.RowSummarizes(t.features.cells[i], Seqs.Map(StudentRows(data, t.features.index[i]), EventOf), sqrt)
    ensures forall i :: 0 <= i < |t.target| ==> TargetIsFirst(t.target[i], StudentRows(data, t.features.index[i]))
  {
    var f := StudentTrainingFrame(data, sqrt);
    assert f.columns[|Features.FeatureNames|] == TargetLabel;
    var x, y := Frames.Drop(f, TargetLabel), Frames.Select(f, TargetLabel);
    SplitTrainingRows(data, sqrt, f, x, y);
    TrainingSet(x, y)
  }

  /** `v` is the `completed` value of the first row of the non-empty group `g`. */
  ghost predicate TargetIsFirst(v: real, g: seq<LabeledEvent>) {
    |g| > 0 && v == g[0].completed as real
  }

  /** `completed: first` follows input order: the group of student `k`
      starts with the earliest input row that belongs to `k`, so its target
      is that row's label. */
  lemma FirstRowTarget(data: seq<LabeledEvent>, k: int, j: nat)
    requires j < |data| && data[j].event.studentId == k
    requires forall t :: 0 <= t < j ==> data[t].event.studentId != k
    ensures |StudentRows(data, k)| > 0 && StudentRows(data, k)[0] == data[j]
  {
    var p := Frames.HasKey(LabeledStudentId, k);
    assert forall t :: 0 <= t < j ==> !p(data[t]);
    Seqs.FilterHeadIsFirst(data, p, j);
  }

  /** Splitting the filled training frame row by row. */
  lemma SplitTrainingRows(data: seq<LabeledEvent>, sqrt: real -> real, f: Frames.Frame<real>,
                          x: Frames.Frame<real>, y: seq<real>)
    requires Frames.WellFormed(f) && f.columns == Features.FeatureNames + [TargetLabel]
    requires forall i :: 0 <= i < |f.index| ==> TrainingRowOf(f.cells[i], StudentRows(data, f.index[i]), sqrt)
    requires x == Frames.Drop(f, TargetLabel) && y == Frames.Select(f, TargetLabel)
    ensures Frames.WellFormed(x) && x.columns == Features.FeatureNames
    ensures x.index == f.index && |y| == |x.index|
    ensures forall i :: 0 <= i < |x.index| ==>
      Features.RowSummarizes(x.cells[i], Seqs.Map(StudentRows(data, x.index[i]), EventOf), sqrt)
    ensures forall i :: 0 <= i < |y| ==> TargetIsFirst(y[i], StudentRows(data, x.index[i]))
  {
    FeatureNamesOmitTarget();
    Frames.DropCellsConcat(Features.FeatureNames, Features.FeatureNames, [TargetLabel], [TargetLabel], TargetLabel);
    TargetColumn();
    forall i | 0 <= i < |x.index|
      ensures Features.RowSummarizes(x.cells[i], Seqs.Map(StudentRows(data, x.index[i]), EventOf), sqrt)
      ensures TargetIsFirst(y[i], StudentRows(data, x.index[i]))
    {
      assert x.cells[i] == Frames.DropCells(f.columns, f.cells[i], TargetLabel);
      SplitTrainingRow(f.cells[i], StudentRows(data, f.index[i]), sqrt);
    }
  }

  /** A training row without its target cell is the feature vector; the target cell is the first label. */
  lemma SplitTrainingRow(row: seq<real>, g: seq<LabeledEvent>, sqrt: real -> real)
    requires TrainingRowOf(row, g, sqrt)
    ensures Features.RowSummarizes(Frames.DropCells(Features.FeatureNames + [TargetLabel], row, TargetLabel), Seqs.Map(g, EventOf), sqrt)
    ensures TargetIsFirst(row[|Features.FeatureNames|], g)
  {
    var s := Features.AsRow(Features.Summarize(Seqs.Map(g, EventOf), sqrt));
    var c := g[0].completed as real;
    Features.AsRowFields(Features.Summarize(Seqs.Map(g, EventOf), sqrt));
    FeatureNamesOmitTarget();
    Frames.DropCellsConcat(Features.FeatureNames, s, [TargetLabel], [c], TargetLabel);
    assert Frames.DropCells([TargetLabel], [c], TargetLabel) == [];
  }

  // ---------------------------------------------------------------------------
  // Labels

  lemma FeatureNamesOmitTarget()
    ensures TargetLabel !in Features.FeatureNames && FirstTargetLabel !in Features.FeatureNames
  {
    var names := Features.FeatureNames;
    forall j | 0 <= j < |names|
      ensures names[j] != TargetLabel && names[j] != FirstTargetLabel
    {
      assert names[j][0] != 'c' || names[j][1] != 'o';
    }
  }

  /** The training dictionary is the inference dictionary, read through the
      event of each labelled row, followed by the target. */
  lemma TrainingAggregationSplit(spec: Frames.AggSpec<TrainingColumn>)
    requires spec == TrainingAggregation
    ensures spec == spec[..3] + [(Completed, [Frames.First])]
    ensures |spec[..3]| == |Features.StudentAggregation|
    ensures forall i :: 0 <= i < 3 ==> spec[..3][i] == (Feature(Features.StudentAggregation[i].0), Features.StudentAggregation[i].1)
  {
  }

  /** The training labels are the eight feature names followed by `completed_first`. */
  lemma TrainingLabels()
    ensures Frames.Labels(TrainingAggregation, TrainingColumnName) == Features.FeatureNames + [FirstTargetLabel]
  {
    var spec := TrainingAggregation;
    TrainingAggregationSplit(spec);
    Frames.LabelsConcat(spec[..3], [(Completed, [Frames.First])], TrainingColumnName);
    Frames.LabelsTranslate(Features.StudentAggregation, Features.ColumnName, spec[..3], TrainingColumnName);
    Features.StudentAggregationLabels();
    TargetLabelFlattened();
  }

  /** `completed: first` flattens to `completed_first`. */
  lemma TargetLabelFlattened()
    ensures Frames.Labels([(Completed, [Frames.First])], TrainingColumnName) == [FirstTargetLabel]
  {
    var spec: Frames.AggSpec<TrainingColumn> := [(Completed, [Frames.First])];
    assert spec[1..] == [];
    assert Frames.ColumnLabels("completed", [Frames.First])[0] == "completed_first";
  }

  /** Renaming `completed_first` touches the target label only. */
  lemma RenameTarget(columns: seq<string>, renamed: seq<string>)
    requires columns == Features.FeatureNames + [FirstTargetLabel]
    requires |renamed| == |columns|
    requires forall j :: 0 <= j < |columns| ==>
      renamed[j] == (if columns[j] == FirstTargetLabel then TargetLabel else columns[j])
    ensures renamed == Features.FeatureNames + [TargetLabel]
  {
    FeatureNamesOmitTarget();
    forall j | 0 <= j < |Features.FeatureNames|
      ensures renamed[j] == Features.FeatureNames[j]
    {
      assert columns[j] == Features.FeatureNames[j];
    }
  }

  // ---------------------------------------------------------------------------
  // Train/inference consistency

  /** The training row of a student: the inference cells of their events, then their first label. */
  lemma TrainingRowSplit(g: seq<LabeledEvent>, sqrt: real -> real)
    requires |g| > 0
    ensures Frames.AggRow(g, TrainingAggregation, TrainingValue, sqrt)
            == Frames.AggRow(Seqs.Map(g, EventOf), Features.StudentAggregation, Features.EventValue, sqrt)
             + [Some(g[0].completed as real)]
  {
    SpecRowSplit(g, TrainingAggregation, Features.StudentAggregation, sqrt);
  }

  lemma SpecRowSplit(g: seq<LabeledEvent>, spec: Frames.AggSpec<TrainingColumn>,
                     inference: Frames.AggSpec<Features.FeatureColumn>, sqrt: real -> real)
    requires |g| > 0
    requires spec == TrainingAggregation
    requires inference == Features.StudentAggregation
    ensures Frames.AggRow(g, spec, TrainingValue, sqrt)
            == Frames.AggRow(Seqs.Map(g, EventOf), inference, Features.EventValue, sqrt) + [Some(g[0].completed as real)]
  {
    var last: Frames.AggSpec<TrainingColumn> := [(Completed, [Frames.First])];
    assert spec == spec[..3] + last;
    Frames.AggRowConcat(g, spec[..3], last, TrainingValue, sqrt);
    FeatureCellsTranslate(g, spec[..3], inference, sqrt);
    TargetCell(g, last, sqrt);
  }

  lemma FeatureCellsTranslate(g: seq<LabeledEvent>, spec: Frames.AggSpec<TrainingColumn>,
                              inference: Frames.AggSpec<Features.FeatureColumn>, sqrt: real -> real)
    requires spec == TrainingAggregation[..3]
    requires inference == Features.StudentAggregation
    ensures Frames.AggRow(g, spec, TrainingValue, sqrt) == Frames.AggRow(Seqs.Map(g, EventOf), inference, Features.EventValue, sqrt)
  {
    Frames.AggRowTranslate(g, EventOf, inference, Features.EventValue, spec, TrainingValue, sqrt);
  }

  /** `completed: first` is the label of the student's first row. */
  lemma TargetCell(g: seq<LabeledEvent>, spec: Frames.AggSpec<TrainingColumn>, sqrt: real -> real)
    requires |g| > 0 && spec == [(Completed, [Frames.First])]
    ensures Frames.AggRow(g, spec, TrainingValue, sqrt) == [Some(g[0].completed as real)]
  {
    var firsts := Frames.ColumnValues(g, TrainingValue, Completed);
    assert firsts[0] == g[0].completed as real;
    Frames.AggRowCons(g, spec, TrainingValue, sqrt);
    assert Frames.Reduce(firsts, [Frames.First], sqrt)[0] == Some(firsts[0]);
  }

  /** Dropping the target from the training frame leaves exactly the frame
      the inference code computes from the same events without their labels. */
  lemma TrainingFeaturesMatchInference(data: seq<LabeledEvent>, sqrt: real -> real)
    ensures StudentTrainingSet(data, sqrt).features == Features.PreprocessStudentData(Seqs.Map(data, EventOf), sqrt)
  {
    var events := Seqs.Map(data, EventOf);
    SameFrames(data, sqrt, StudentTrainingSet(data, sqrt).features, Features.PreprocessStudentData(events, sqrt));
  }

  /** Two well-formed frames over the same labels, one indexed like the
      training groups, the other like the inference groups, whose rows
      summarize the same students' events, are equal. */
  lemma SameFrames(data: seq<LabeledEvent>, sqrt: real -> real, x: Frames.Frame<real>, p: Frames.Frame<real>)
    requires Frames.WellFormed(x) && Frames.WellFormed(p) && x.columns == p.columns
    requires x.index == Frames.GroupKeys(data, LabeledStudentId)
    requires p.index == Frames.GroupKeys(Seqs.Map(data, EventOf), Features.StudentId)
    requires forall i :: 0 <= i < |x.index| ==>
      Features.RowSummarizes(x.cells[i], Seqs.Map(StudentRows(data, x.index[i]), EventOf), sqrt)
    requires forall i :: 0 <= i < |p.index| ==>
      Features.RowSummarizes(p.cells[i], Features.StudentEvents(Seqs.Map(data, EventOf), p.index[i]), sqrt)
    ensures x == p
  {
    assert x.index == p.index by {
      Frames.GroupTranslate(data, EventOf, Features.StudentId, LabeledStudentId, 0);
    }
    MatchingRows(data, sqrt, x.index, x.cells, p.cells);
    Frames.FrameRows(x, p);
  }

  /** Rows that summarize the same students' events, with and without labels, agree. */
  lemma MatchingRows(data: seq<LabeledEvent>, sqrt: real -> real, index: seq<int>,
                      xs: seq<seq<real>>, ps: seq<seq<real>>)
    requires |xs| == |index| == |ps|
    requires forall i :: 0 <= i < |index| ==>
      Features.RowSummarizes(xs[i], Seqs.Map(StudentRows(data, index[i]), EventOf), sqrt)
    requires forall i :: 0 <= i < |index| ==>
      Features.RowSummarizes(ps[i], Features.StudentEvents(Seqs.Map(data, EventOf), index[i]), sqrt)
    ensures forall i :: 0 <= i < |index| ==> xs[i] == ps[i]
  {
    forall i | 0 <= i < |index|
      ensures xs[i] == ps[i]
    {
      var k := index[i];
      assert Features.RowSummarizes(xs[i], Seqs.Map(StudentRows(data, k), EventOf), sqrt);
      assert Features.RowSummarizes(ps[i], Features.StudentEvents(Seqs.Map(data, EventOf), k), sqrt);
      MatchingRow(data, sqrt, k, xs[i], ps[i]);
    }
  }

  /** The rows of student `k`, computed from the labelled rows and from the
      events alone, agree. */
  lemma MatchingRow(data: seq<LabeledEvent>, sqrt: real -> real, k: int, x: seq<real>, p: seq<real>)
    requires Features.RowSummarizes(x, Seqs.Map(StudentRows(data, k), EventOf), sqrt)
    requires Features.RowSummarizes(p, Features.StudentEvents(Seqs.Map(data, EventOf), k), sqrt)
    ensures x == p
  {
    Frames.GroupTranslate(data, EventOf, Features.StudentId, LabeledStudentId, k);
  }

  // ---------------------------------------------------------------------------
  // The target

  /** `frame['completed']` reads the last column. */
  lemma TargetColumn()
    ensures Frames.IndexOf(Features.FeatureNames + [TargetLabel], TargetLabel) == |Features.FeatureNames|
  {
    FeatureNamesOmitTarget();
    var columns := Features.FeatureNames + [TargetLabel];
    assert columns[|Features.FeatureNames|] == TargetLabel;
  }
}
