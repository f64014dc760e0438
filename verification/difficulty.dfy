/** The chapter difficulty table: the training script groups the event rows
    by (course, chapter), keeps the mean score and mean time of each group and
    scores each chapter by a fixed heuristic; the `/difficulty` endpoint
    serves the table it loaded at start-up. */
module Difficulty {
  import opened Wrappers
  import Seqs
  import Stats
  import Grouping
  import opened Events

  // ---------------------------------------------------------------------------
  // Grouping by (course_id, chapter_id)

  datatype ChapterKey = ChapterKey(courseId: string, chapterId: int)

  function KeyOf(e: Event): ChapterKey {
    ChapterKey(e.courseId, e.chapterId)
  }

  /** pandas sorts tuple keys lexicographically: by course id in Python's
      string order, then by chapter id. */
  predicate KeyLess(a: ChapterKey, b: ChapterKey) {
    || Grouping.StringLess(a.courseId, b.courseId)
    || (a.courseId == b.courseId && a.chapterId < b.chapterId)
  }

  lemma KeyOrder()
    ensures Grouping.StrictTotalOrder(KeyLess)
  {
    Grouping.StringOrder();
  }

  function OnChapter(k: ChapterKey): Event -> bool {
    e => KeyOf(e) == k
  }

  /** The rows of chapter `k`, in input order. */
  function ChapterEvents(events: seq<Event>, k: ChapterKey): seq<Event> {
    Seqs.Filter(events, OnChapter(k))
  }

  /** Some row of the data belongs to chapter `k`. */
  ghost predicate HasChapter(events: seq<Event>, k: ChapterKey) {
    exists e :: e in events && KeyOf(e) == k
  }

  /** The distinct (course, chapter) keys of the data, ascending. */
  function ChapterKeys(events: seq<Event>): (r: seq<ChapterKey>)
    ensures Grouping.StrictlySorted(r, KeyLess)
    ensures forall k :: k in r <==> HasChapter(events, k)
  {
    KeyOrder();
    ChapterKeysPresent(events);
    Grouping.SortedKeys(Seqs.Map(events, KeyOf), KeyLess)
  }

  lemma ChapterKeysPresent(events: seq<Event>)
    ensures forall k :: k in Seqs.Map(events, KeyOf) <==> HasChapter(events, k)
  {
    forall k
      ensures k in Seqs.Map(events, KeyOf) <==> HasChapter(events, k)
    {
      if k in Seqs.Map(events, KeyOf) {
        var i :| 0 <= i < |events| && Seqs.Map(events, KeyOf)[i] == k;
        assert events[i] in events;
      }
      if HasChapter(events, k) {
        var e :| e in events && KeyOf(e) == k;
        var i :| 0 <= i < |events| && events[i] == e;
        assert Seqs.Map(events, KeyOf)[i] == k;
      }
    }
  }

  /** The rows grouped under a key are exactly the rows of that chapter:
      each of them as many times as it occurs in the data, and nothing else. */
  lemma ChapterEventsExact(events: seq<Event>, k: ChapterKey)
    ensures forall e :: multiset(ChapterEvents(events, k))[e] == if KeyOf(e) == k then multiset(events)[e] else 0
    ensures forall e :: e in ChapterEvents(events, k) ==> e in events && KeyOf(e) == k
    ensures forall e :: e in events && KeyOf(e) == k ==> e in ChapterEvents(events, k)
    ensures HasChapter(events, k) ==> |ChapterEvents(events, k)| > 0
  {
    var g := ChapterEvents(events, k);
    forall e: Event
      ensures multiset(g)[e] == if KeyOf(e) == k then multiset(events)[e] else 0
    {
      Seqs.FilterCount(events, OnChapter(k), e);
      assert OnChapter(k)(e) == (KeyOf(e) == k);
    }
    forall e | e in g
      ensures e in events && KeyOf(e) == k
    {
      var t :| 0 <= t < |g| && g[t] == e;
      assert OnChapter(k)(g[t]);
    }
    forall e | e in events && KeyOf(e) == k
      ensures e in g
    {
      var t :| 0 <= t < |events| && events[t] == e;
      assert OnChapter(k)(events[t]);
    }
    if HasChapter(events, k) {
      var e :| e in events && KeyOf(e) == k;
      assert e in g;
    }
  }

  // ---------------------------------------------------------------------------
  // The mean score and mean time of each chapter

  /** One row of the grouped table after `reset_index()`: the two key
      columns, then `score` and `time_spent`, both group means. */
  datatype ChapterStats = ChapterStats(courseId: string, chapterId: int, score: real, timeSpent: real)

  function StatsKey(s: ChapterStats): ChapterKey {
    ChapterKey(s.courseId, s.chapterId)
  }

  /** The mean score and the mean time of every (course, chapter) pair of
      the data, one record per pair, pairs ascending by course id and then
      by chapter id. */
  function ChapterStatistics(events: seq<Event>): (t: seq<ChapterStats>)
    ensures |t| == |ChapterKeys(events)|
    ensures forall i, j :: 0 <= i < j < |t| ==> KeyLess(StatsKey(t[i]), StatsKey(t[j]))
    ensures forall k :: k in Seqs.Map(t, StatsKey) <==> HasChapter(events, k)
    ensures forall i :: 0 <= i < |t| ==>
              var g := ChapterEvents(events, StatsKey(t[i]));
              |g| > 0 && t[i].score == Stats.Mean(Scores(g)) && t[i].timeSpent == Stats.Mean(Times(g))
  {
    var keys := ChapterKeys(events);
    var t := Seqs.Map(keys, k => ChapterRow(events, k));
    KeysOfRows(events, keys, t);
    t
  }

  /** The record of chapter `k`: its key, and mean score and time over that
      chapter's rows (a chapter without rows never reaches the table). */
  function ChapterRow(events: seq<Event>, k: ChapterKey): (s: ChapterStats)
    ensures StatsKey(s) == k
    ensures var g := ChapterEvents(events, k);
            |g| > 0 ==> Stats.Min(Scores(g)) <= s.score <= Stats.Max(Scores(g))
                        && Stats.Min(Times(g)) <= s.timeSpent <= Stats.Max(Times(g))
  {
    var g := ChapterEvents(events, k);
    if |g| == 0 then ChapterStats(k.courseId, k.chapterId, 0.0, 0.0)
    else
      Stats.MeanBetweenMinMax(Scores(g));
      Stats.MeanBetweenMinMax(Times(g));
      ChapterStats(k.courseId, k.chapterId, Stats.Mean(Scores(g)), Stats.Mean(Times(g)))
  }

  lemma KeysOfRows(events: seq<Event>, keys: seq<ChapterKey>, t: seq<ChapterStats>)
    requires keys == ChapterKeys(events)
    requires t == Seqs.Map(keys, k => ChapterRow(events, k))
    ensures Seqs.Map(t, StatsKey) == keys
    ensures forall i :: 0 <= i < |t| ==> |ChapterEvents(events, StatsKey(t[i]))| > 0
  {
    var ks := Seqs.Map(t, StatsKey);
    assert forall i :: 0 <= i < |ks| ==> ks[i] == StatsKey(t[i]) == keys[i];
    forall i | 0 <= i < |t|
      ensures |ChapterEvents(events, StatsKey(t[i]))| > 0
    {
      assert keys[i] in keys;
      ChapterEventsExact(events, keys[i]);
    }
  }

  /** Each row's mean score lies between the lowest and highest score of its
      chapter, and its mean time is non-negative when the times are. */
  lemma ChapterMeans(events: seq<Event>, i: nat)
    requires i < |ChapterStatistics(events)|
    ensures var s := ChapterStatistics(events)[i];
            var g := ChapterEvents(events, StatsKey(s));
            |g| > 0
            && Stats.Min(Scores(g)) <= s.score <= Stats.Max(Scores(g))
            && ((forall e :: e in events ==> 0.0 <= e.timeSpent) ==> 0.0 <= s.timeSpent)
  {
    var s := ChapterStatistics(events)[i];
    var g := ChapterEvents(events, StatsKey(s));
    assert |g| > 0 && s.score == Stats.Mean(Scores(g)) && s.timeSpent == Stats.Mean(Times(g));
    assert forall e :: e in g ==> e in events by {
      ChapterEventsExact(events, StatsKey(s));
    }
    MeansOfGroup(events, g, s);
  }

  /** A record of the means of a non-empty group of rows. */
  lemma MeansOfGroup(events: seq<Event>, g: seq<Event>, s: ChapterStats)
    requires |g| > 0 && s.score == Stats.Mean(Scores(g)) && s.timeSpent == Stats.Mean(Times(g))
    requires forall e :: e in g ==> e in events
    ensures Stats.Min(Scores(g)) <= s.score <= Stats.Max(Scores(g))
    ensures (forall e :: e in events ==> 0.0 <= e.timeSpent) ==> 0.0 <= s.timeSpent
  {
    Stats.MeanBetweenMinMax(Scores(g));
    Stats.MeanBetweenMinMax(Times(g));
    var j :| 0 <= j < |g| && Times(g)[j] == Stats.Min(Times(g));
    assert g[j] in g;
  }

  /** The table does not depend on the order of the rows. */
  lemma ChapterStatisticsOrderIndependent(events: seq<Event>, events': seq<Event>)
    requires multiset(events) == multiset(events')
    ensures ChapterStatistics(events) == ChapterStatistics(events')
  {
    Seqs.PermutationMembers(events, events');
    KeyOrder();
    ChapterKeysPresent(events);
    ChapterKeysPresent(events');
    Grouping.SortedKeysOrderIndependent(Seqs.Map(events, KeyOf), Seqs.Map(events', KeyOf), KeyLess);
    var t, t' := ChapterStatistics(events), ChapterStatistics(events');
    forall i | 0 <= i < |t|
      ensures t[i] == t'[i]
    {
      ChapterRowOrderIndependent(events, events', StatsKey(t[i]));
    }
  }

  lemma ChapterRowOrderIndependent(events: seq<Event>, events': seq<Event>, k: ChapterKey)
    requires multiset(events) == multiset(events')
    ensures ChapterRow(events, k) == ChapterRow(events', k)
  {
    var g, g' := ChapterEvents(events, k), ChapterEvents(events', k);
    Seqs.FilterPermutation(events, events', OnChapter(k));
    assert |g| == |multiset(g)| == |g'|;
    if |g| > 0 {
      Seqs.MapPermutation(g, g', (e: Event) => e.score);
      Seqs.MapPermutation(g, g', (e: Event) => e.timeSpent);
      Stats.SumPermutation(Scores(g), Scores(g'));
      Stats.SumPermutation(Times(g), Times(g'));
    }
  }

  // ---------------------------------------------------------------------------
  // The difficulty score

  /** Full marks: the score term is how far the mean falls short of it. */
  const FullScore: real := 100.0
  /** The weight of the time term: the slowest chapter adds this much. */
  const TimeWeight: real := 50.0

  /** A row of `difficulty_stats.csv`. A score that is not a finite number
      (the time column's maximum is 0) is None. */
  datatype ChapterDifficulty = ChapterDifficulty(stats: ChapterStats, difficultyScore: Option<real>)

  function TimeOf(s: ChapterStats): real {
    s.timeSpent
  }

  /** The largest mean time over the chapters of a non-empty table. */
  function MaxTime(t: seq<ChapterStats>): (m: real)
    requires |t| > 0
    ensures exists i :: 0 <= i < |t| && t[i].timeSpent == m
    ensures forall i :: 0 <= i < |t| ==> t[i].timeSpent <= m
  {
    var times := Seqs.Map(t, TimeOf);
    var m := Stats.Max(times);
    assert forall j :: 0 <= j < |t| ==> times[j] == t[j].timeSpent;
    var i :| 0 <= i < |times| && times[i] == m;
    m
  }

  /** How far the mean score falls short of full marks, plus the chapter's
      share of the largest mean time scaled to the time weight. Dividing by a
      zero maximum gives NaN or an infinity in pandas, modelled as None. */
  function DifficultyScore(s: ChapterStats, maxTime: real): (d: Option<real>)
    ensures d.None? <==> maxTime == 0.0
  {
    if maxTime == 0.0 then None
    else Some((FullScore - s.score) + s.timeSpent / maxTime * TimeWeight)
  }

  function Scored(maxTime: real): ChapterStats -> ChapterDifficulty {
    s => ChapterDifficulty(s, DifficultyScore(s, maxTime))
  }

  /** Adds the `difficulty_score` column; an empty table stays empty. */
  function ScoreChapters(t: seq<ChapterStats>): (r: seq<ChapterDifficulty>)
    ensures |r| == |t|
    ensures forall i :: 0 <= i < |t| ==> r[i].stats == t[i]
    ensures forall i :: 0 <= i < |t| ==> (r[i].difficultyScore.None? <==> MaxTime(t) == 0.0)
    ensures forall i :: 0 <= i < |t| ==> r[i].difficultyScore == DifficultyScore(t[i], MaxTime(t))
  {
    if |t| == 0 then [] else Seqs.Map(t, Scored(MaxTime(t)))
  }

  /** The table the training script writes: the statistics of every
      (course, chapter) pair of the labelled rows, in key order, each scored
      against the largest mean time of the table. */
  function DifficultyTable(data: seq<LabeledEvent>): (r: seq<ChapterDifficulty>)
    ensures var t := ChapterStatistics(Seqs.Map(data, EventOf));
            |r| == |t|
            && (forall i :: 0 <= i < |t| ==> r[i].stats == t[i])
            && (forall i :: 0 <= i < |t| ==> r[i].difficultyScore == DifficultyScore(t[i], MaxTime(t)))
            && ((exists i :: 0 <= i < |r| && r[i].difficultyScore.None?) <==> |t| > 0 && MaxTime(t) == 0.0)
  {
    var t := ChapterStatistics(Seqs.Map(data, EventOf));
    var r := ScoreChapters(t);
    assert |t| > 0 && MaxTime(t) == 0.0 ==> r[0].difficultyScore.None?;
    r
  }

  /** The written table does not depend on the order of the training rows. */
  lemma DifficultyTableOrderIndependent(data: seq<LabeledEvent>, data': seq<LabeledEvent>)
    requires multiset(data) == multiset(data')
    ensures DifficultyTable(data) == DifficultyTable(data')
  {
    Seqs.MapPermutation(data, data', EventOf);
    ChapterStatisticsOrderIndependent(Seqs.Map(data, EventOf), Seqs.Map(data', EventOf));
  }

  /** A time between 0 and a positive maximum contributes between 0 and the
      full time weight. */
  lemma TimeTermBounds(time: real, m: real)
    requires 0.0 <= time <= m && 0.0 < m
    ensures 0.0 <= time / m * TimeWeight <= TimeWeight
  {
    var q := time / m;
    assert q * m == time;
  }

  /** With non-negative times and a positive maximum, each score lies
      between the score term alone and the score term plus the full time
      weight. */
  lemma DifficultyBounds(t: seq<ChapterStats>, i: nat)
    requires i < |t|
    requires forall j :: 0 <= j < |t| ==> 0.0 <= t[j].timeSpent
    requires MaxTime(t) != 0.0
    ensures var d := ScoreChapters(t)[i].difficultyScore;
            d.Some? && FullScore - t[i].score <= d.value <= FullScore - t[i].score + TimeWeight
  {
    var m := MaxTime(t);
    TimeTermBounds(t[i].timeSpent, m);
  }

  /** The chapter with the largest mean time gets the whole time weight. */
  lemma SlowestChapter(t: seq<ChapterStats>, i: nat)
    requires i < |t| && t[i].timeSpent == MaxTime(t) != 0.0
    ensures ScoreChapters(t)[i].difficultyScore == Some(FullScore - t[i].score + TimeWeight)
  {
    var m := MaxTime(t);
    assert m / m == 1.0;
  }

  /** A positive maximum keeps the order of the times in the time term. */
  lemma DivideMonotone(a: real, b: real, m: real)
    requires a <= b && 0.0 < m
    ensures a / m * TimeWeight <= b / m * TimeWeight
    ensures a < b ==> a / m * TimeWeight < b / m * TimeWeight
  {
    var qa, qb := a / m, b / m;
    assert qa * m == a && qb * m == b;
  }

  /** Lower mean score and higher mean time make a chapter harder: when
      chapter `j` scores no better and takes no less time than chapter `i`,
      it is at least as difficult, and strictly more if either is strict. */
  lemma DifficultyOrder(t: seq<ChapterStats>, i: nat, j: nat)
    requires i < |t| && j < |t|
    requires 0.0 < MaxTime(t)
    requires t[j].score <= t[i].score && t[i].timeSpent <= t[j].timeSpent
    ensures var r := ScoreChapters(t);
            r[i].difficultyScore.Some? && r[j].difficultyScore.Some?
            && r[i].difficultyScore.value <= r[j].difficultyScore.value
            && (t[j].score < t[i].score || t[i].timeSpent < t[j].timeSpent ==>
                  r[i].difficultyScore.value < r[j].difficultyScore.value)
  {
    DivideMonotone(t[i].timeSpent, t[j].timeSpent, MaxTime(t));
  }

  // ---------------------------------------------------------------------------
  // The `/difficulty` endpoint

  /** HTTP 500 "Difficulty stats not loaded.", and the JSON encoder's refusal
      of a NaN or infinite value. */
  datatype InsightsError = StatsNotLoaded | NotFinite

  /** `get_difficulty_insights`: the loaded table's records, in table order. */
  function DifficultyInsights(table: Option<seq<ChapterDifficulty>>): (r: Result<seq<ChapterDifficulty>, InsightsError>)
    ensures r == Err(StatsNotLoaded) <==> table.None?
    ensures r == Err(NotFinite) <==>
              table.Some? && exists i :: 0 <= i < |table.value| && table.value[i].difficultyScore.None?
    ensures r.Ok? ==> table == Some(r.value)
  {
    match table
    case None => Err(StatsNotLoaded)
    case Some(rows) =>
      if exists i :: 0 <= i < |rows| && rows[i].difficultyScore.None? then Err(NotFinite)
      else Ok(rows)
  }
}
