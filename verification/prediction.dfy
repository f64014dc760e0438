/** The prediction endpoint (`predict_completion`): a batch of event rows is
    aggregated into the feature frame, scaled, classified, and turned into one
    result per student, in the frame's row order. */
module Prediction {
  import opened Wrappers
  import opened Events
  import Features
  import Risk

  /** The artifacts loaded at start-up. The fitted scaler and classifier are
      uninterpreted: each call answers None where the library would raise. */
  datatype Artifacts = Artifacts(
    transform: seq<seq<real>> -> Option<seq<seq<real>>>,
    predict: seq<seq<real>> -> Option<seq<int>>,
    positiveProba: seq<seq<real>> -> Option<seq<real>>)

  /** HTTP 500 "Model not loaded." and HTTP 400 "Error processing file". */
  datatype PredictError = ModelNotLoaded | ProcessingFailed

  datatype PredictionResult = PredictionResult(
    studentId: int, probability: real, predictedCompletion: bool, risk: Risk.RiskLevel)

  /** The result for the row of student `studentId`, given the model's
      class prediction and probability for that row. */
  function ResultFor(studentId: int, pred: int, prob: real): (r: PredictionResult)
    ensures r.studentId == studentId && r.probability == prob
    ensures r.predictedCompletion <==> pred != 0
    ensures r.risk == Risk.Tier(prob)
    ensures Risk.RiskName(r.risk) == if prob < 0.3 then "High" else if prob < 0.7 then "Medium" else "Low"
  {
    PredictionResult(studentId, prob, pred != 0, Risk.Tier(prob))
  }

  /** The loop over the feature rows: row `idx` reads `preds[idx]` and
      `probs[idx]`; a model output shorter than the frame raises (None). */
  function Results(index: seq<int>, preds: seq<int>, probs: seq<real>): (r: Option<seq<PredictionResult>>)
    ensures r.None? <==> |preds| < |index| || |probs| < |index|
    ensures r.Some? ==> |r.value| == |index|
    ensures r.Some? ==> forall i :: 0 <= i < |index| ==> r.value[i] == ResultFor(index[i], preds[i], probs[i])
  {
    if |preds| < |index| || |probs| < |index| then None
    else Some(seq(|index|, i requires 0 <= i < |index| => ResultFor(index[i], preds[i], probs[i])))
  }

  /** Scaling then classifying the feature rows: the class predictions and
      the positive-class probabilities, or None if either call raises. */
  function ModelOutputs(a: Artifacts, rows: seq<seq<real>>): (r: Option<(seq<int>, seq<real>)>)
    ensures r.Some? <==> var scaled := a.transform(rows);
                         scaled.Some? && a.predict(scaled.value).Some? && a.positiveProba(scaled.value).Some?
    ensures r.Some? ==> var scaled := a.transform(rows).value;
                        r.value == (a.predict(scaled).value, a.positiveProba(scaled).value)
  {
    match a.transform(rows)
    case None => None
    case Some(scaled) =>
      match a.predict(scaled)
      case None => None
      case Some(preds) =>
        match a.positiveProba(scaled)
        case None => None
        case Some(probs) => Some((preds, probs))
  }

  /** `predict_completion` on an already decoded batch of event rows. */
  function PredictCompletion(artifacts: Option<Artifacts>, events: seq<Event>, sqrt: real -> real)
    : (r: Result<seq<PredictionResult>, PredictError>)
    ensures r == Err(ModelNotLoaded) <==> artifacts.None?
    ensures r == Err(ProcessingFailed) <==>
              artifacts.Some?
              && var f := Features.PreprocessStudentData(events, sqrt);
                 var out := ModelOutputs(artifacts.value, f.cells);
                 out.None? || |out.value.0| < |f.index| || |out.value.1| < |f.index|
    ensures r.Ok? ==> artifacts.Some?
                      && var f := Features.PreprocessStudentData(events, sqrt);
                         var out := ModelOutputs(artifacts.value, f.cells);
                         && out.Some? && |out.value.0| >= |f.index| && |out.value.1| >= |f.index|
                         && |r.value| == |f.index|
                         && forall i :: 0 <= i < |f.index| ==>
                              r.value[i] == ResultFor(f.index[i], out.value.0[i], out.value.1[i])
  {
    match artifacts
    case None => Err(ModelNotLoaded)
    case Some(a) =>
      var features := Features.PreprocessStudentData(events, sqrt);
      match ModelOutputs(a, features.cells)
      case None => Err(ProcessingFailed)
      case Some(out) =>
        match Results(features.index, out.0, out.1)
        case None => Err(ProcessingFailed)
        case Some(results) => Ok(results)
  }

  // ---------------------------------------------------------------------------
  // Properties of the response

  /** The results' ids are strictly ascending and are exactly the student
      ids of the events: one result per student of the batch. */
  ghost predicate OnePerStudent(rs: seq<PredictionResult>, events: seq<Event>) {
    && (forall i, j :: 0 <= i < j < |rs| ==> rs[i].studentId < rs[j].studentId)
    && (forall e :: e in events ==> exists i :: 0 <= i < |rs| && rs[i].studentId == e.studentId)
    && (forall i :: 0 <= i < |rs| ==> Features.HasStudent(events, rs[i].studentId))
  }

  /** A successful response has exactly one result per student of the batch:
      the ids are strictly ascending and are exactly the ids in the events. */
  lemma OneResultPerStudent(artifacts: Option<Artifacts>, events: seq<Event>, sqrt: real -> real)
    ensures PredictCompletion(artifacts, events, sqrt).Ok? ==>
              OnePerStudent(PredictCompletion(artifacts, events, sqrt).value, events)
  {
    var r := PredictCompletion(artifacts, events, sqrt);
    if r.Ok? {
      IdsFollowIndex(r.value, Features.PreprocessStudentData(events, sqrt).index, events);
    }
  }

  /** Results that follow an index of the batch's students, one per entry,
      are one per student. */
  lemma IdsFollowIndex(rs: seq<PredictionResult>, index: seq<int>, events: seq<Event>)
    requires |rs| == |index| && forall i :: 0 <= i < |rs| ==> rs[i].studentId == index[i]
    requires Features.IndexesStudents(index, events)
    ensures OnePerStudent(rs, events)
  {
    forall i, j | 0 <= i < j < |rs|
      ensures rs[i].studentId < rs[j].studentId
    {
      assert index[i] < index[j];
    }
    forall i | 0 <= i < |rs|
      ensures Features.HasStudent(events, rs[i].studentId)
    {
      assert index[i] in index;
    }
    forall e | e in events
      ensures exists i :: 0 <= i < |rs| && rs[i].studentId == e.studentId
    {
      assert Features.HasStudent(events, e.studentId);
      var i :| 0 <= i < |index| && index[i] == e.studentId;
      assert rs[i].studentId == e.studentId;
    }
  }
}
