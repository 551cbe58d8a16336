/** The `questions` table row and the scheduling state it carries. */
module Schema {

  /** The four columns that the SM-2 scheduler rewrites after a review. Dates are day numbers. */
  datatype Schedule = Schedule(interval: int, easeFactor: real, repetitions: int, nextReviewDate: int)

  /** One row of the `questions` table, column for column. */
  datatype Question = Question(
    id: int,
    userId: int,
    noteId: int,
    questionText: string,
    answerText: string,
    interval: int,
    easeFactor: real,
    repetitions: int,
    nextReviewDate: int)
  {
    /** The scheduling columns of this row. */
    function State(): Schedule {
      Schedule(interval, easeFactor, repetitions, nextReviewDate)
    }

    /** This row with its scheduling columns overwritten and every other column kept. */
    function WithState(s: Schedule): (q: Question)
      ensures q.State() == s
      ensures q.id == id && q.userId == userId && q.noteId == noteId
      ensures q.questionText == questionText && q.answerText == answerText
    {
      this.(interval := s.interval, easeFactor := s.easeFactor,
            repetitions := s.repetitions, nextReviewDate := s.nextReviewDate)
    }

    /** A question is due when its next review date is at or before `now`. */
    function IsDue(now: int): (due: bool)
      ensures due <==> nextReviewDate <= now
    {
      nextReviewDate <= now
    }
  }

  /** The insert item that note creation hands to the repository. */
  datatype NewQuestion = NewQuestion(noteId: int, questionText: string, answerText: string)

  /** The columns that an insert item leaves to the database. */
  datatype RowDefaults = RowDefaults(userId: int, initial: Schedule)
}
