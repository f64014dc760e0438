/** Inference-side feature aggregation (`preprocess_student_data`): the event
    rows of a batch are grouped by student and each group becomes one row of
    eight features, in a fixed order, with NaN filled by 0. */
module Features {
  import opened Wrappers
  import Seqs
  import Stats
  import Grouping
  import opened Events
  import Frames

  /** The event columns the aggregation reads. */
  datatype FeatureColumn = Score | TimeSpent | ChapterId

  function ColumnName(c: FeatureColumn): string {
    match c
    case Score => "score"
    case TimeSpent => "time_spent"
    case ChapterId => "chapter_id"
  }

  function EventValue(e: Event, c: FeatureColumn): real {
    match c
    case Score => e.score
    case TimeSpent => e.timeSpent
    case ChapterId => e.chapterId as real
  }

  /** The aggregation dictionary of the inference code. */
  const StudentAggregation: Frames.AggSpec<FeatureColumn> := [
    (Score, [Frames.Mean, Frames.Min, Frames.Max, Frames.Std]),
    (TimeSpent, [Frames.Sum, Frames.Mean, Frames.Std]),
    (ChapterId, [Frames.Max])
  ]

  /** The feature order the scaler and the classifier were fitted on. */
  const FeatureNames: seq<string> := [
    "score_mean", "score_min", "score_max", "score_std",
    "time_spent_sum", "time_spent_mean", "time_spent_std", "chapter_id_max"
  ]

  function StudentId(e: Event): int {
    e.studentId
  }

  /** The events of student `k`, in input order. */
  function StudentEvents(events: seq<Event>, k: int): seq<Event> {
    Frames.Group(events, StudentId, k)
  }

  /** Flattening the labels of the inference dictionary gives the eight feature names. */
  lemma StudentAggregationLabels()
    ensures Frames.Labels(StudentAggregation, ColumnName) == FeatureNames
  {
    var spec := StudentAggregation;
    assert spec[1..][1..][1..] == [];
    ScoreLabels();
    TimeLabels();
    assert Frames.ColumnLabels("chapter_id", [Frames.Max])[0] == "chapter_id_max";
    assert Frames.Labels(spec, ColumnName)
        == Frames.ColumnLabels("score", spec[0].1) + Frames.ColumnLabels("time_spent", spec[1].1)
         + Frames.ColumnLabels("chapter_id", spec[2].1);
  }

  lemma ScoreLabels()
    ensures Frames.ColumnLabels("score", [Frames.Mean, Frames.Min, Frames.Max, Frames.Std])
            == ["score_mean", "score_min", "score_max", "score_std"]
  {
    var labels := Frames.ColumnLabels("score", [Frames.Mean, Frames.Min, Frames.Max, Frames.Std]);
    assert labels[0] == Frames.Label("score", Frames.Mean) == "score_mean";
    assert labels[1] == Frames.Label("score", Frames.Min) == "score_min";
    assert labels[2] == Frames.Label("score", Frames.Max) == "score_max";
    assert labels[3] == Frames.Label("score", Frames.Std) == "score_std";
  }

  lemma TimeLabels()
    ensures Frames.ColumnLabels("time_spent", [Frames.Sum, Frames.Mean, Frames.Std])
            == ["time_spent_sum", "time_spent_mean", "time_spent_std"]
  {
    var labels := Frames.ColumnLabels("time_spent", [Frames.Sum, Frames.Mean, Frames.Std]);
    assert labels[0] == Frames.Label("time_spent", Frames.Sum) == "time_spent_sum";
    assert labels[1] == Frames.Label("time_spent", Frames.Mean) == "time_spent_mean";
    assert labels[2] == Frames.Label("time_spent", Frames.Std) == "time_spent_std";
  }

  /** `preprocess_student_data`: one row per distinct student, ascending by
      student id, holding the eight features in the order of `FeatureNames`. */
  function PreprocessStudentData(events: seq<Event>, sqrt: real -> real): (f: Frames.Frame<real>)
    ensures Frames.WellFormed(f)
    ensures f.columns == FeatureNames
    ensures IndexesStudents(f.index, events)
    ensures f.index == Frames.GroupKeys(events, StudentId)
    ensures forall i :: 0 <= i < |f.index| ==> RowSummarizes(f.cells[i], StudentEvents(events, f.index[i]), sqrt)
  {
    StudentAggregationLabels();
    var grouped := Frames.GroupByAgg(events, StudentId, StudentAggregation, ColumnName, FeatureNames, EventValue, sqrt);
    var f := Frames.FillNa(grouped, 0.0);
    Grouping.IntAscending(grouped.index);
    StudentIds(events);
    FilledRowsSummarize(events, sqrt, grouped, f);
    f
  }

  /** `row` is the feature vector of the non-empty group `g`. */
  ghost predicate RowSummarizes(row: seq<real>, g: seq<Event>, sqrt: real -> real) {
    |g| > 0 && row == AsRow(Summarize(g, sqrt))
  }

  /** Filling the NaN cells of the per-student aggregation gives, row by
      row, the feature vectors of the students' events. */
  lemma FilledRowsSummarize(events: seq<Event>, sqrt: real -> real, grouped: Frames.Frame<Option<real>>, f: Frames.Frame<real>)
    requires |grouped.cells| == |grouped.index|
    requires forall i :: 0 <= i < |grouped.index| ==>
      grouped.cells[i] == Frames.AggRow(StudentEvents(events, grouped.index[i]), StudentAggregation, EventValue, sqrt)
    requires forall i :: 0 <= i < |grouped.index| ==> |StudentEvents(events, grouped.index[i])| > 0
    requires f == Frames.FillNa(grouped, 0.0)
    ensures forall i :: 0 <= i < |f.index| ==> RowSummarizes(f.cells[i], StudentEvents(events, f.index[i]), sqrt)
  {
    forall i | 0 <= i < |f.index|
      ensures RowSummarizes(f.cells[i], StudentEvents(events, f.index[i]), sqrt)
    {
      var g := StudentEvents(events, f.index[i]);
      assert f.cells[i] == Frames.FillRow(grouped.cells[i], 0.0);
      AggRowIsSummary(g, sqrt);
    }
  }

  /** Some event of the batch belongs to student `k`. */
  ghost predicate HasStudent(events: seq<Event>, k: int) {
    exists e :: e in events && e.studentId == k
  }

  /** `index` lists every student id of the batch once, ascending, and no
      other id. */
  ghost predicate IndexesStudents(index: seq<int>, events: seq<Event>) {
    && (forall i, j :: 0 <= i < j < |index| ==> index[i] < index[j])
    && (forall k :: k in index <==> HasStudent(events, k))
  }

  /** The student ids of a batch, as the group-by sees them. */
  lemma StudentIds(events: seq<Event>)
    ensures forall k :: k in Seqs.Map(events, StudentId) <==> HasStudent(events, k)
  {
    forall k
      ensures k in Seqs.Map(events, StudentId) <==> HasStudent(events, k)
    {
      if k in Seqs.Map(events, StudentId) {
        var i :| 0 <= i < |events| && Seqs.Map(events, StudentId)[i] == k;
        assert events[i] in events;
      }
      if HasStudent(events, k) {
        var e :| e in events && e.studentId == k;
        var i :| 0 <= i < |events| && events[i] == e;
        assert Seqs.Map(events, StudentId)[i] == k;
      }
    }
  }

  // ---------------------------------------------------------------------------
  // The same features, named

  /** The eight features of one student. */
  datatype StudentFeatures = StudentFeatures(
    scoreMean: real, scoreMin: real, scoreMax: real, scoreStd: real,
    timeSum: real, timeMean: real, timeStd: real, chapterMax: real)

  /** The features as a row, in the order of `FeatureNames`. */
  function AsRow(s: StudentFeatures): seq<real> {
    ScoreRow(s) + TimeRow(s) + [s.chapterMax]
  }

  function ScoreRow(s: StudentFeatures): seq<real> {
    [s.scoreMean, s.scoreMin, s.scoreMax, s.scoreStd]
  }

  function TimeRow(s: StudentFeatures): seq<real> {
    [s.timeSum, s.timeMean, s.timeStd]
  }

  /** The largest chapter id of a group bounds every chapter id in it and is one of them. */
  lemma ChapterMax(g: seq<Event>)
    requires |g| > 0
    ensures forall e :: e in g ==> e.chapterId as real <= Stats.Max(Chapters(g))
    ensures exists e :: e in g && Stats.Max(Chapters(g)) == e.chapterId as real
  {
    var chapters := Chapters(g);
    forall e | e in g
      ensures e.chapterId as real <= Stats.Max(chapters)
    {
      var i :| 0 <= i < |g| && g[i] == e;
      assert chapters[i] == e.chapterId as real;
    }
    var i :| 0 <= i < |chapters| && chapters[i] == Stats.Max(chapters);
    assert g[i] in g;
  }

  /** The features of one student's events, computed directly from the statistics. */
  function Summarize(g: seq<Event>, sqrt: real -> real): (s: StudentFeatures)
    requires |g| > 0
    ensures s.scoreMin <= s.scoreMean <= s.scoreMax
    ensures forall e :: e in g ==> e.chapterId as real <= s.chapterMax
    ensures exists e :: e in g && s.chapterMax == e.chapterId as real
    ensures |g| == 1 ==> s.scoreStd == 0.0 && s.timeStd == 0.0
    ensures Stats.IsSqrt(sqrt) ==> 0.0 <= s.scoreStd && 0.0 <= s.timeStd
  {
    var scores, times, chapters := Scores(g), Times(g), Chapters(g);
    var s := StudentFeatures(
      Stats.Mean(scores), Stats.Min(scores), Stats.Max(scores), Frames.FillCell(Stats.SampleStd(scores, sqrt), 0.0),
      Stats.Sum(times), Stats.Mean(times), Frames.FillCell(Stats.SampleStd(times, sqrt), 0.0),
      Stats.Max(chapters));
    assert s.scoreMin <= s.scoreMean <= s.scoreMax by {
      Stats.MeanBetweenMinMax(scores);
    }
    ChapterMax(g);
    Stats.SampleStdNonNegative(scores, sqrt);
    Stats.SampleStdNonNegative(times, sqrt);
    s
  }

  /** Total time is the mean time times the number of events. */
  lemma TimeSumIsMeanTimesCount(g: seq<Event>, sqrt: real -> real)
    requires |g| > 0
    ensures Stats.IsMeanTimesCount(Summarize(g, sqrt).timeSum, Summarize(g, sqrt).timeMean, |g|)
  {
    Stats.SumIsMeanTimesCount(Times(g));
  }

  /** The score reductions of a non-empty group, NaN filled by 0. */
  lemma ScoreCells(xs: seq<real>, fns: seq<Frames.AggFn>, sqrt: real -> real)
    requires |xs| > 0 && fns == [Frames.Mean, Frames.Min, Frames.Max, Frames.Std]
    ensures Frames.FillRow(Frames.Reduce(xs, fns, sqrt), 0.0)
            == [Stats.Mean(xs), Stats.Min(xs), Stats.Max(xs), Frames.FillCell(Stats.SampleStd(xs, sqrt), 0.0)]
  {
    Frames.FillReduceAt(xs, fns, sqrt, 0.0, 0);
    Frames.FillReduceAt(xs, fns, sqrt, 0.0, 1);
    Frames.FillReduceAt(xs, fns, sqrt, 0.0, 2);
    Frames.FillReduceAt(xs, fns, sqrt, 0.0, 3);
    Seqs.Elements4(Frames.FillRow(Frames.Reduce(xs, fns, sqrt), 0.0),
      Stats.Mean(xs), Stats.Min(xs), Stats.Max(xs), Frames.FillCell(Stats.SampleStd(xs, sqrt), 0.0));
  }

  /** The time reductions of a non-empty group, NaN filled by 0. */
  lemma TimeCells(xs: seq<real>, fns: seq<Frames.AggFn>, sqrt: real -> real)
    requires |xs| > 0 && fns == [Frames.Sum, Frames.Mean, Frames.Std]
    ensures Frames.FillRow(Frames.Reduce(xs, fns, sqrt), 0.0)
            == [Stats.Sum(xs), Stats.Mean(xs), Frames.FillCell(Stats.SampleStd(xs, sqrt), 0.0)]
  {
    Frames.FillReduceAt(xs, fns, sqrt, 0.0, 0);
    Frames.FillReduceAt(xs, fns, sqrt, 0.0, 1);
    Frames.FillReduceAt(xs, fns, sqrt, 0.0, 2);
    Seqs.Elements3(Frames.FillRow(Frames.Reduce(xs, fns, sqrt), 0.0),
      Stats.Sum(xs), Stats.Mean(xs), Frames.FillCell(Stats.SampleStd(xs, sqrt), 0.0));
  }

  /** The chapter reduction of a non-empty group. */
  lemma ChapterCells(xs: seq<real>, fns: seq<Frames.AggFn>, sqrt: real -> real)
    requires |xs| > 0 && fns == [Frames.Max]
    ensures Frames.FillRow(Frames.Reduce(xs, fns, sqrt), 0.0) == [Stats.Max(xs)]
  {
    Frames.FillReduceAt(xs, fns, sqrt, 0.0, 0);
  }

  /** The generic group-by reduction over the inference dictionary, NaN filled
      by 0, is exactly the named feature row. */
  lemma AggRowIsSummary(g: seq<Event>, sqrt: real -> real)
    requires |g| > 0
    ensures Frames.FillRow(Frames.AggRow(g, StudentAggregation, EventValue, sqrt), 0.0) == AsRow(Summarize(g, sqrt))
  {
    SpecRowIsSummary(g, StudentAggregation, sqrt);
  }

  /** The filled row of a three-entry dictionary, such as the inference one,
      is the cells of the first entry, then the second's, then the third's. */
  lemma SplitRow(g: seq<Event>, spec: Frames.AggSpec<FeatureColumn>, sqrt: real -> real)
    requires |spec| == 3
    ensures Frames.FillRow(Frames.AggRow(g, spec, EventValue, sqrt), 0.0)
            == Frames.FillRow(Frames.Reduce(Frames.ColumnValues(g, EventValue, spec[0].0), spec[0].1, sqrt), 0.0)
             + Frames.FillRow(Frames.Reduce(Frames.ColumnValues(g, EventValue, spec[1].0), spec[1].1, sqrt), 0.0)
             + Frames.FillRow(Frames.Reduce(Frames.ColumnValues(g, EventValue, spec[2].0), spec[2].1, sqrt), 0.0)
  {
    var a := Frames.Reduce(Frames.ColumnValues(g, EventValue, spec[0].0), spec[0].1, sqrt);
    var b := Frames.Reduce(Frames.ColumnValues(g, EventValue, spec[1].0), spec[1].1, sqrt);
    var c := Frames.Reduce(Frames.ColumnValues(g, EventValue, spec[2].0), spec[2].1, sqrt);
    Frames.AggRowCons(g, spec, EventValue, sqrt);
    Frames.AggRowCons(g, spec[1..], EventValue, sqrt);
    Frames.AggRowCons(g, spec[1..][1..], EventValue, sqrt);
    assert spec[1..][1..][1..] == [];
    assert Frames.AggRow(g, spec, EventValue, sqrt) == a + (b + (c + []));
    assert c + [] == c;
    Seqs.MapConcat(b, c, v => Frames.FillCell(v, 0.0));
    Seqs.MapConcat(a, b + c, v => Frames.FillCell(v, 0.0));
  }

  /** The columns the aggregation reads are the score, time and chapter columns. */
  lemma EventColumns(g: seq<Event>)
    ensures Frames.ColumnValues(g, EventValue, Score) == Scores(g)
    ensures Frames.ColumnValues(g, EventValue, TimeSpent) == Times(g)
    ensures Frames.ColumnValues(g, EventValue, ChapterId) == Chapters(g)
  {
    forall t | 0 <= t < |g|
      ensures Frames.ColumnValues(g, EventValue, Score)[t] == Scores(g)[t]
      ensures Frames.ColumnValues(g, EventValue, TimeSpent)[t] == Times(g)[t]
      ensures Frames.ColumnValues(g, EventValue, ChapterId)[t] == Chapters(g)[t]
    {
      Frames.ColumnAt(g, EventValue, Score, t);
      Frames.ColumnAt(g, EventValue, TimeSpent, t);
      Frames.ColumnAt(g, EventValue, ChapterId, t);
    }
  }

  lemma ScoreBlock(g: seq<Event>, fns: seq<Frames.AggFn>, sqrt: real -> real)
    requires |g| > 0 && fns == [Frames.Mean, Frames.Min, Frames.Max, Frames.Std]
    ensures Frames.FillRow(Frames.Reduce(Frames.ColumnValues(g, EventValue, Score), fns, sqrt), 0.0)
            == ScoreRow(Summarize(g, sqrt))
  {
    EventColumns(g);
    ScoreCells(Scores(g), fns, sqrt);
  }

  lemma TimeBlock(g: seq<Event>, fns: seq<Frames.AggFn>, sqrt: real -> real)
    requires |g| > 0 && fns == [Frames.Sum, Frames.Mean, Frames.Std]
    ensures Frames.FillRow(Frames.Reduce(Frames.ColumnValues(g, EventValue, TimeSpent), fns, sqrt), 0.0)
            == TimeRow(Summarize(g, sqrt))
  {
    EventColumns(g);
    TimeCells(Times(g), fns, sqrt);
  }

  lemma ChapterBlock(g: seq<Event>, fns: seq<Frames.AggFn>, sqrt: real -> real)
    requires |g| > 0 && fns == [Frames.Max]
    ensures Frames.FillRow(Frames.Reduce(Frames.ColumnValues(g, EventValue, ChapterId), fns, sqrt), 0.0)
            == [Summarize(g, sqrt).chapterMax]
  {
    EventColumns(g);
    ChapterCells(Chapters(g), fns, sqrt);
  }

  lemma SpecRowIsSummary(g: seq<Event>, spec: Frames.AggSpec<FeatureColumn>, sqrt: real -> real)
    requires |g| > 0
    requires spec == StudentAggregation
    ensures Frames.FillRow(Frames.AggRow(g, spec, EventValue, sqrt), 0.0) == AsRow(Summarize(g, sqrt))
  {
    SplitRow(g, spec, sqrt);
    ScoreBlock(g, spec[0].1, sqrt);
    TimeBlock(g, spec[1].1, sqrt);
    ChapterBlock(g, spec[2].1, sqrt);
  }

  lemma AsRowFields(s: StudentFeatures)
    ensures |AsRow(s)| == 8
    ensures AsRow(s)[0] == s.scoreMean && AsRow(s)[1] == s.scoreMin && AsRow(s)[2] == s.scoreMax
    ensures AsRow(s)[3] == s.scoreStd && AsRow(s)[4] == s.timeSum && AsRow(s)[5] == s.timeMean
    ensures AsRow(s)[6] == s.timeStd && AsRow(s)[7] == s.chapterMax
  {
  }

  /** What a feature row says about its student's events: the score mean
      lies between the minimum and the maximum, the time total is the mean
      time times the event count, the chapter maximum is the largest chapter
      id seen, and a single event has standard deviation 0. */
  lemma FeatureRowFacts(row: seq<real>, g: seq<Event>, sqrt: real -> real)
    requires RowSummarizes(row, g, sqrt)
    ensures |row| == 8
    ensures row[1] <= row[0] <= row[2]
    ensures Stats.IsMeanTimesCount(row[4], row[5], |g|)
    ensures forall e :: e in g ==> e.chapterId as real <= row[7]
    ensures exists e :: e in g && row[7] == e.chapterId as real
    ensures |g| == 1 ==> row[3] == 0.0 && row[6] == 0.0
    ensures Stats.IsSqrt(sqrt) ==> 0.0 <= row[3] && 0.0 <= row[6]
  {
    AsRowFields(Summarize(g, sqrt));
    TimeSumIsMeanTimesCount(g, sqrt);
  }

  /** The events grouped under a student are exactly that student's events:
      each of them as many times as it occurs in the batch, and nothing else. */
  lemma StudentEventsExact(events: seq<Event>, k: int)
    ensures forall e :: multiset(StudentEvents(events, k))[e] == if e.studentId == k then multiset(events)[e] else 0
    ensures forall e :: e in StudentEvents(events, k) ==> e in events && e.studentId == k
    ensures forall j :: 0 <= j < |events| && events[j].studentId == k ==> events[j] in StudentEvents(events, k)
  {
    var g := StudentEvents(events, k);
    forall e: Event
      ensures multiset(g)[e] == if e.studentId == k then multiset(events)[e] else 0
    {
      Seqs.FilterCount(events, Frames.HasKey(StudentId, k), e);
      assert StudentId(e) == e.studentId;
      assert Frames.HasKey(StudentId, k)(e) == (StudentId(e) == k);
    }
    forall e | e in g
      ensures e in events && e.studentId == k
    {
      var t :| 0 <= t < |g| && g[t] == e;
      assert Frames.HasKey(StudentId, k)(g[t]);
      assert StudentId(g[t]) == k;
    }
    forall j | 0 <= j < |events| && events[j].studentId == k
      ensures events[j] in g
    {
      assert StudentId(events[j]) == k;
      assert Frames.HasKey(StudentId, k)(events[j]);
    }
  }

  // ---------------------------------------------------------------------------
  // Order independence

  /** The inference dictionary uses no order-sensitive reduction. */
  lemma StudentAggregationOrderFree()
    ensures Frames.OrderFree(StudentAggregation)
  {
    var spec := StudentAggregation;
    forall i, j | 0 <= i < |spec| && 0 <= j < |spec[i].1|
      ensures spec[i].1[j] != Frames.First
    {
      assert i == 0 || i == 1 || i == 2;
    }
  }

  /** Reordering the event rows of a batch does not change the feature frame. */
  lemma PreprocessOrderIndependent(events: seq<Event>, events': seq<Event>, sqrt: real -> real)
    requires multiset(events) == multiset(events')
    ensures PreprocessStudentData(events, sqrt) == PreprocessStudentData(events', sqrt)
  {
    StudentAggregationOrderFree();
    StudentAggregationLabels();
    Frames.GroupByAggPermutation(events, events', StudentId, StudentAggregation, ColumnName, FeatureNames, EventValue, sqrt);
  }
}
