# AI Learning Intelligence Tool — a verified model of its data logic

The AI Learning Intelligence Tool takes records of students working through
course chapters (`student_id, course_id, chapter_id, time_spent, score`) and
predicts whether each student will complete. It also scores how difficult each
chapter is. This project models in Dafny the pure data logic behind both, and
proves what that logic guarantees:

- **Inference features** (`preprocess_student_data`). The events are grouped
  by student. Each student gets one row of eight features: score mean, min,
  max and sample std; time sum, mean and sample std; and the highest chapter.
  The two multi-level labels are flattened to `score_mean`, …,
  `chapter_id_max`. A missing std is filled with 0.
- **Prediction** (`predict_completion`). The feature rows are scaled and
  classified. Each student's row becomes a result: the id, the probability,
  the predicted class, and a risk tier (High below 0.3, Medium below 0.7,
  Low otherwise). A missing model answers "not loaded". Any failure of the
  processing answers HTTP 400.
- **Training features** (`train_models`, up to the split). The same
  aggregation runs on the training rows, plus `completed: first`. The target
  label is renamed, NaN is filled, and the frame is split into `X` and `y`.
  The project proves that `X` is exactly the frame that inference computes for
  the same events: the same labels, index and cells.
- **Chapter difficulty** (`train_models`, and the `/difficulty` endpoint). The
  rows are grouped by `(course_id, chapter_id)` and each group is reduced to
  its mean score and mean time. Each chapter's score is
  `(100 - score) + time / max(time) * 50`. The endpoint serves the loaded
  table, or an error when none was loaded.

pandas' `groupby(...).agg({...})` is modelled once, generically, in module
`Frames`:
- an aggregation dictionary is data;
- column labels are flattened as `"<column>_<reduction>"`;
- NaN cells are `None`;
- `fillna`, `rename`, `drop` and column selection are modelled too.

Numbers are `real`. The square root inside `std` is a parameter `sqrt`. Facts
that need its sign rely only on `Stats.IsSqrt`: the root of 0 is 0 and the
root of a positive number is positive.

Modules, one file each:
- `Wrappers`: `Option` and `Result`.
- `Seqs`: map, filter, and permutation facts.
- `Stats`: sum, mean, min, max and sample std.
- `Grouping`: sorted distinct keys; the integer order and Python's string order.
- `Events`: the event rows.
- `Frames`: the group-by engine.
- `Features`: inference aggregation.
- `Training`: training aggregation and the `X`/`y` split.
- `Risk`: the risk tier.
- `Prediction`: the prediction endpoint.
- `Difficulty`: the chapter table and its endpoint.

## Model

| member | source | states |
|---|---|---|
| Features.PreprocessStudentData | app/main.py:38-49 | The frame is well formed and its columns are the eight feature labels in order. Its index lists every student id of the batch exactly once, strictly ascending, and no other id. Row `i` is the feature vector of the events of student `index[i]`, and that student has at least one event. |
| Features.StudentAggregationLabels | app/main.py:41-47 | Flattening the inference dictionary gives exactly `score_mean, score_min, score_max, score_std, time_spent_sum, time_spent_mean, time_spent_std, chapter_id_max`. |
| Features.FeatureRowFacts | app/main.py:42-48 | A feature row has 8 cells and score_min ≤ score_mean ≤ score_max. time_spent_sum is time_spent_mean times the number of events. chapter_id_max bounds every chapter of the student and is one of them. Both stds are 0 for a single-event student and, under a sound root, never negative. |
| Features.Summarize | app/main.py:42-48 | The per-student feature vector: min ≤ mean ≤ max score, the chapter max bounds and is attained, single-event stds are 0, and stds are non-negative under a sound root. |
| Features.TimeSumIsMeanTimesCount | app/main.py:43 | A student's total time equals mean time × event count. |
| Features.ChapterMax | app/main.py:44 | The highest chapter is at least every chapter of the group and is one of them. |
| Features.AggRowIsSummary | app/main.py:41-47 | The eight cells produced for one group, in label order, after filling, are the named feature vector of that group. |
| Features.EventColumns | app/main.py:42-44 | The columns the dictionary names are the events' score, time_spent and chapter_id values, row by row. |
| Features.StudentEventsExact | app/main.py:41 | A student's group holds each event with that id exactly as many times as the batch does, and no other event. So it is non-empty when the student occurs. |
| Features.StudentIds | app/main.py:41 | The group-by keys are exactly the ids that occur in some event. |
| Features.StudentAggregationOrderFree | app/main.py:41-45 | The inference dictionary uses no order-sensitive reduction. |
| Features.PreprocessOrderIndependent | app/main.py:41-48 | Any rearrangement of the batch rows gives the same feature frame. |
| Frames.Apply | app/main.py:42-44 | One reduction of a column. It is NaN exactly for `std` of fewer than two values, or for any reduction other than `sum` of no values. A defined mean, min, max or first lies between the column's minimum and maximum. The sum of no values is 0. |
| Frames.Labels | app/main.py:47 | Flattening gives one label per (column, reduction) pair of the dictionary. |
| Frames.AggRow | app/main.py:41-45 | A group's aggregated row has one cell per (column, reduction) pair of the dictionary. |
| Frames.LabelAt | app/main.py:47 | The label at entry `j`, reduction `k` of the dictionary is `"<column>_<reduction>"`. |
| Frames.CellAt | app/main.py:41-47 | The cell at that same position is that reduction applied to that column's values in the group. So every label names the cell under it. |
| Frames.GroupByAgg | app/main.py:41-47 | One row per distinct key: keys strictly ascending, exactly the keys of the rows, every group non-empty. Cells are well formed under the flattened labels. Row `i` is the aggregation of the rows whose key is `index[i]`. |
| Frames.GroupByAggPermutation | app/main.py:41-45 | Without `first`, `groupby(...).agg(...)` is the same for any rearrangement of the rows. |
| Frames.AggRowPermutation | app/main.py:41-45 | The aggregated cells of a group do not depend on the order of its rows when no `first` is used. |
| Frames.ReducePermutation | app/main.py:42-44 | mean, min, max, std and sum of a column do not depend on the order of its values. |
| Frames.AggRowConcat | scripts/train_models.py:23-28 | Appending entries to an aggregation dictionary appends their cells to every row. |
| Frames.LabelsConcat | scripts/train_models.py:31 | Appending dictionary entries appends their flattened labels. |
| Frames.AggRowTranslate | scripts/train_models.py:23-27 | Reading columns of the training rows through the event part gives the same cells as aggregating the events. |
| Frames.GroupTranslate | scripts/train_models.py:23 | Grouping training rows by student gives the same keys, and the same groups up to taking the event part, as grouping the events. |
| Frames.FillNa | app/main.py:48 | Labels, index and shape are kept. A NaN cell becomes the fill value and every other cell keeps its value. |
| Frames.FillReduceAt | app/main.py:48 | Filled cell `i` of a reduced group is reduction `i` of the values, or the fill value where it is undefined. |
| Frames.Rename | scripts/train_models.py:32 | Only the labels equal to `from` change, to `to`. Index and cells are untouched. |
| Frames.Drop | scripts/train_models.py:38 | The target label is gone. Index and row count are kept. A well-formed frame stays well formed. The other labels keep their order, and each row keeps exactly the cells under them, in order. |
| Frames.DropLast | scripts/train_models.py:38 | Dropping a label that occurs only as the last column removes that column: the other labels, the index, and each row's leading cells stay. |
| Frames.Select | scripts/train_models.py:39 | One value per row: the row's cell under the first column with that label. |
| Frames.IndexOf | scripts/train_models.py:39 | The position of the first column with the label. |
| Frames.FrameRows | scripts/train_models.py:38 | Two well-formed frames with equal labels and index are equal when their rows are. |
| Stats.SampleStd | app/main.py:42-43 | pandas' default std with ddof 1 is defined exactly when there are at least two values. |
| Stats.MeanBetweenMinMax | app/main.py:42 | min ≤ mean ≤ max. |
| Stats.SumIsMeanTimesCount | app/main.py:43 | sum = mean × count. |
| Stats.SampleStdNonNegative | app/main.py:42-43 | Under a sound root, a defined std is non-negative. |
| Stats.ConstantSampleStd | app/main.py:42-43 | The std of constant values is 0. |
| Stats.SquaredDeviationPositive | app/main.py:42-43 | A value different from the centre has a strictly positive squared deviation. |
| Stats.SampleStdPositive | app/main.py:42-43 | Under a sound root, two different values among the inputs give a defined and strictly positive std. |
| Stats.SampleStdExample | app/main.py:42-43 | The std of 80, 85 and 90 is the root of 25. The divisor is n − 1 = 2, not n = 3. |
| Stats.SumPermutation | app/main.py:42-43 | The sum does not depend on order. |
| Stats.MinMaxPermutation | app/main.py:42-44 | Min and max do not depend on order. |
| Stats.SampleStdPermutation | app/main.py:42-43 | The std does not depend on order. |
| Grouping.SortedKeys | app/main.py:41 | groupby's keys: strictly sorted, with exactly the members of the input keys. |
| Grouping.SortedUnique | app/main.py:41 | A set of keys has exactly one strictly sorted arrangement. |
| Grouping.SortedKeysOrderIndependent | app/main.py:41 | The sorted keys do not depend on the order the keys arrived in. |
| Grouping.StringOrder | scripts/train_models.py:66 | Python's code-point string order, used for `course_id`, is a strict total order. |
| Risk.Tier | app/main.py:83-87 | High iff prob < 0.3, Medium iff 0.3 ≤ prob < 0.7, Low iff prob ≥ 0.7. |
| Risk.TierMonotone | app/main.py:83-87 | A higher probability never gives a riskier tier. |
| Risk.RiskNamesDistinct | app/main.py:83-87 | The three tier labels name the tiers one-to-one. |
| Prediction.ResultFor | app/main.py:79-94 | The result keeps the student id and probability. predicted_completion holds iff the class is non-zero. The tier is `Risk.Tier` of the probability. Its label is "High" below 0.3, else "Medium" below 0.7, else "Low". |
| Prediction.ModelOutputs | app/main.py:70-74 | The outputs exist iff scaling, class prediction and probability prediction all succeed. They are then the classes and the positive-class probabilities of the scaled rows. |
| Prediction.Results | app/main.py:77-94 | The loop fails, which becomes HTTP 400, iff a model output is shorter than the frame. Otherwise result `i` is built from row `i`'s id, class and probability. |
| Prediction.PredictCompletion | app/main.py:53-99 | "Model not loaded" iff no model is loaded. The HTTP 400 answer comes iff a model is loaded and either a model call fails or a model output is shorter than the frame. On success the scaler and classifier ran on the feature frame, and there is one result per frame row, in frame order, built from that row's outputs. |
| Prediction.OneResultPerStudent | app/main.py:67-94 | A successful response's ids are strictly ascending. Every student of the batch has a result, and every result's id comes from the batch. |
| Prediction.IdsFollowIndex | app/main.py:78-90 | Results that follow a strictly ascending index of exactly the batch's students are one per student. |
| Training.GroupedTraining | scripts/train_models.py:23-31 | The training aggregation is well formed, labelled by the eight feature labels then `completed_first`, and indexed by the sorted distinct student ids. Row `i` aggregates the non-empty group of student `index[i]`. |
| Training.RenamedAndFilled | scripts/train_models.py:32-35 | Renaming the target and filling NaN keeps the frame well formed and its index. Its labels become the eight feature labels then `completed`, and every row becomes its student's training row. |
| Training.StudentTrainingFrame | scripts/train_models.py:23-35 | The frame is well formed. Its labels are the eight feature labels then `completed`. Its index is the sorted distinct student ids. Row `i` is the feature vector of student `index[i]`'s events, then the `completed` value of that student's first row. |
| Training.FilledTrainingRow | scripts/train_models.py:23-35 | One student's aggregated and filled training row is the feature vector of their events, then the label of their first row. |
| Training.StudentTrainingSet | scripts/train_models.py:38-39 | `X` is well formed with exactly the eight feature labels and the sorted distinct student ids as index. Row `i` of `X` is the feature vector of student `index[i]`'s events. `y` has one value per row of `X`, and `y[i]` is the `completed` value of that student's first row. |
| Training.SplitTrainingRow | scripts/train_models.py:38-39 | Dropping `completed` from a training row leaves the feature vector. The cell at the `completed` column is the first row's label. |
| Training.TrainingLabels | scripts/train_models.py:23-31 | Flattening the training dictionary gives the eight feature labels then `completed_first`. |
| Training.TargetLabelFlattened | scripts/train_models.py:27-31 | `completed: first` flattens to `completed_first`. |
| Training.RenameTarget | scripts/train_models.py:32 | Renaming `completed_first` turns the labels into the eight feature labels then `completed`. |
| Training.FeatureNamesOmitTarget | scripts/train_models.py:32-38 | Neither `completed` nor `completed_first` is a feature label, so only the target is renamed and dropped. |
| Training.TrainingAggregationSplit | scripts/train_models.py:23-28 | The training dictionary is the inference dictionary, read through the event part, followed by `completed: first`. |
| Training.TargetCell | scripts/train_models.py:27 | `completed: first` of a student's rows is the `completed` value of the first of them. |
| Training.FirstRowTarget | scripts/train_models.py:23-27 | Student `k`'s group starts with the earliest input row of `k`, so its `completed: first` target is that row's label: grouping keeps input order within a group. |
| Seqs.FilterHeadIsFirst | scripts/train_models.py:23-27 | The first element a filter keeps is the earliest element of the input that satisfies the predicate. |
| Training.TrainingRowSplit | scripts/train_models.py:23-28 | A training row is the inference cells of the same events, then the target cell. |
| Training.TrainingFeaturesMatchInference | scripts/train_models.py:23-38 | `X` equals `preprocess_student_data` of the same events: the same labels, index and cells. |
| Training.SameFrames | scripts/train_models.py:23-38 | A training feature frame and an inference frame with the same labels, whose rows summarize each student's events, are equal, index and cells. |
| Training.MatchingRows | scripts/train_models.py:23-38 | Training feature rows and inference rows over the same index agree row by row. |
| Training.MatchingRow | scripts/train_models.py:23-38 | A training feature row and an inference row for the same student id agree, because the student's labelled rows without their labels are that student's events. |
| Training.TargetColumn | scripts/train_models.py:39 | `completed` is the last column, after the eight features. |
| Difficulty.KeyOrder | scripts/train_models.py:66 | The (course, chapter) order that groupby sorts by is a strict total order. |
| Difficulty.ChapterKeys | scripts/train_models.py:66 | The distinct (course, chapter) pairs, strictly ascending: exactly the pairs that occur in the data. |
| Difficulty.ChapterEventsExact | scripts/train_models.py:66 | A chapter's group holds each row of that chapter exactly as many times as the data does, and no other row. It is non-empty when the chapter occurs. |
| Difficulty.ChapterRow | scripts/train_models.py:66-69 | A chapter's record carries its (course, chapter) key. When the chapter has rows, its mean score and mean time lie between their lowest and highest values. |
| Difficulty.KeysOfRows | scripts/train_models.py:66-69 | The records built from the sorted distinct keys carry exactly those keys, in order, and each key's group is non-empty. |
| Difficulty.ChapterStatistics | scripts/train_models.py:66-69 | One record per distinct (course, chapter) pair, ascending, and no other. Its score and time_spent are the means over exactly that chapter's rows. |
| Difficulty.ChapterMeans | scripts/train_models.py:67-68 | A record's mean score lies between its chapter's lowest and highest score. Its mean time is non-negative when all times are. |
| Difficulty.MeansOfGroup | scripts/train_models.py:67-68 | The means of a non-empty group: the score between the group's lowest and highest score, and a non-negative time when all times are. |
| Difficulty.ChapterStatisticsOrderIndependent | scripts/train_models.py:66-69 | Rearranging the rows does not change the table. |
| Difficulty.DifficultyTableOrderIndependent | scripts/train_models.py:66-74 | Rearranging the training rows does not change the scored table. |
| Difficulty.MaxTime | scripts/train_models.py:74 | The column maximum is one record's time and at least every record's time. |
| Difficulty.DifficultyScore | scripts/train_models.py:74 | The score is undefined (NaN or infinite in pandas) iff the maximum time is 0. |
| Difficulty.ScoreChapters | scripts/train_models.py:74 | One scored record per record, the statistics unchanged. A record's score is undefined iff the maximum time is 0. |
| Difficulty.DifficultyTable | scripts/train_models.py:66-74 | The written table has one record per chapter record, with that record's statistics and its difficulty score against the largest mean time. Some score is undefined iff the table is non-empty and the largest mean time is 0. |
| Difficulty.TimeTermBounds | scripts/train_models.py:74 | A time between 0 and a positive maximum contributes between 0 and 50. |
| Difficulty.DifficultyBounds | scripts/train_models.py:74 | With non-negative times and a non-zero maximum, every score is defined and lies in [100 − score, 150 − score]. |
| Difficulty.SlowestChapter | scripts/train_models.py:74 | The chapter whose mean time is the maximum scores exactly 150 − its mean score. |
| Difficulty.DivideMonotone | scripts/train_models.py:74 | The time term keeps the order of the times, strictly when they differ. |
| Difficulty.DifficultyOrder | scripts/train_models.py:71-74 | "Lower score + higher time = harder": a chapter scoring no better and taking no less time is at least as difficult, and strictly more if either differs. So at equal time, a lower score is strictly harder. |
| Difficulty.DifficultyInsights | app/main.py:101-108 | "Difficulty stats not loaded" iff no table was loaded. A table with an undefined score cannot be encoded as JSON. Otherwise the loaded records are returned unchanged. |

## Left out

- Prediction.ResultFor: `completion_probability` is kept unrounded. The response rounds it to two decimals (app/main.py:91). The tier is computed from the unrounded value in both.
- Prediction.PredictCompletion: the upload is taken as already-decoded event rows. Reading the file, UTF-8 decoding and CSV parsing are I/O. A malformed upload is one more way to reach the HTTP 400 answer.
- The scaler and the classifier are uninterpreted parameters. Each answers `None` where the library would raise. Their numerics are library code that is not shown.
- Loading artifacts at start-up (app/main.py:18-27) is file I/O. It is modelled only as the `Option` the endpoints receive. So are saving them and writing and re-reading `difficulty_stats.csv`; the table read back is taken to be the one written.
- `train_test_split`, scaling and fitting the classifier, and the accuracy report (scripts/train_models.py:41-56) are left out: they are scikit-learn library code outside the modelled core. The split and the forest are seeded with `random_state=42`, and the scaler and the metrics are deterministic, but none of their numerics are visible here.
- When `data/student_data.csv` does not exist, `train_models` prints a message and returns without training (scripts/train_models.py:14-17). That check is file I/O, so the model starts from the rows already read.
- scripts/generate_data.py is left out: it draws synthetic data at random.
- The `/insights` endpoint is left out: it returns constant text.
- Static file serving and the server start are left out.
- Floating point is left out. Numbers are exact reals.
- Stats.SampleStd: the square root is a parameter. Facts that need its sign rely only on `Stats.IsSqrt`: the root of 0 is 0 and the root of a positive number is positive. Exact values such as `sqrt(25) = 5` are not claimed.
- Frames.GroupByAgg: the flattened labels are passed in and pinned to `Frames.Labels(spec, name)` by the precondition. This keeps the label strings out of proofs about the cells.
- The label flattening `'_'.join(col).strip()` is modelled without `strip()`. None of the labels involved has surrounding whitespace.
- pandas' `first` skips NaN. `completed` is never NaN here, so `first` is the first row's value.
- Training.StudentTrainingSet: the training frame is not claimed to be order-independent. `completed: first` depends on row order, so only the features (`Features.PreprocessOrderIndependent`) are.
- Grouping of rows with a NaN key (pandas drops them) is left out. Keys are always present in the model.

## Notes on the source

- The comment on line 72 of scripts/train_models.py gives the time term as `AvgTime / MaxTime * 100`. The code on line 74 multiplies by 50, and the model follows the code. The same comment names the score term `MaxScore - AvgScore`; the code uses the constant 100.
- When the largest mean time is 0, pandas divides by zero. The model does not exclude this case. It gives such scores as undefined (`None`), and the endpoint then fails to encode them as JSON.
