/** The row-level input: one recorded (student, chapter) interaction. */
module Events {
  import Seqs

  /** One row of the interaction table: student_id, course_id, chapter_id,
      time_spent and score. */
  datatype Event = Event(studentId: int, courseId: string, chapterId: int, timeSpent: real, score: real)

  /** A training row: an interaction plus the `completed` target column. */
  datatype LabeledEvent = LabeledEvent(event: Event, completed: int)

  function EventOf(l: LabeledEvent): Event {
    l.event
  }

  /** The `score` column of some rows. */
  function Scores(g: seq<Event>): seq<real> {
    Seqs.Map(g, (e: Event) => e.score)
  }

  /** The `time_spent` column of some rows. */
  function Times(g: seq<Event>): seq<real> {
    Seqs.Map(g, (e: Event) => e.timeSpent)
  }

  /** The `chapter_id` column of some rows, as numbers. */
  function Chapters(g: seq<Event>): seq<real> {
    Seqs.Map(g, (e: Event) => e.chapterId as real)
  }
}
