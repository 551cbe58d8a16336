/**
 * The request handlers that drive the core: the review submission, which runs the SM-2 step on
 * local variables and writes the result back, and the part of note creation that turns the
 * language model's questions into insert rows. The language model's reply is a parameter.
 */
module ServerRoutes {
  import opened Wrappers
  import opened Schema
  import opened Sm2
  import opened Storage
  import SharedRoutes

  /** The responses of the review route: 400, 404, or 200 with the updated row. */
  datatype ReviewResponse = BadRequest | NotFound | Reviewed(question: Question)

  /**
   * `POST /api/questions/:id/review` on day `today`: the body is validated first, then the
   * question is looked up, then its scheduling columns are recomputed and written back.
   */
  method ReviewQuestion(storage: DatabaseStorage, id: int, quality: int, today: int)
    returns (resp: ReviewResponse)
    requires storage.Valid()
    modifies storage
    ensures storage.Valid() && storage.nextId == old(storage.nextId)
    ensures resp.BadRequest? <==> SharedRoutes.ParseReviewInput(quality).None?
    ensures resp.NotFound? <==>
      SharedRoutes.ParseReviewInput(quality).Some? && old(storage.GetQuestion(id)).None?
    ensures !resp.Reviewed? ==> storage.rows == old(storage.rows)
    ensures resp.Reviewed? ==>
      var s := NextState(old(storage.GetQuestion(id)).value.State(), quality, today);
      && resp.question == old(storage.GetQuestion(id)).value.WithState(s)
      && storage.rows == Rescheduled(old(storage.rows), id, s)
  {
    var input := SharedRoutes.ParseReviewInput(quality);
    if input.None? {
      return BadRequest;
    }
    var question := storage.GetQuestion(id);
    if question.None? {
      return NotFound;
    }

    var interval, easeFactor, repetitions := question.value.interval, question.value.easeFactor, question.value.repetitions;
    var q := input.value;
    if q >= 3 {
      if repetitions == 0 {
        interval := 1;
      } else if repetitions == 1 {
        interval := 6;
      } else {
        interval := JsRound(interval as real * easeFactor);
      }
      repetitions := repetitions + 1;
    } else {
      repetitions := 0;
      interval := 1;
    }

    easeFactor := easeFactor + (0.1 - (5 - q) as real * (0.08 + (5 - q) as real * 0.02));
    if easeFactor < 1.3 {
      easeFactor := 1.3;
    }

    var nextReviewDate := today + interval;
    assert Schedule(interval, easeFactor, repetitions, nextReviewDate) == NextState(question.value.State(), quality, today);
    var updated := storage.UpdateQuestionReview(id, interval, easeFactor, repetitions, nextReviewDate);
    resp := Reviewed(updated.value);
  }

  /** A question just reviewed with a consistent schedule is not due again the same day. */
  lemma ReviewedNotDueToday(q: Question, quality: int, today: int)
    requires Consistent(q.State())
    ensures !q.WithState(NextState(q.State(), quality, today)).IsDue(today)
  {
    ReviewKeepsConsistent(q.State(), quality, today);
  }

  /** One question/answer pair of the language model's reply. */
  datatype GeneratedQuestion = GeneratedQuestion(questionText: string, answerText: string)

  /** `result.questions.map(...)`: one insert item per generated question, all for the new note. */
  function ToInsert(noteId: int, generated: seq<GeneratedQuestion>): (items: seq<NewQuestion>)
    ensures |items| == |generated|
    ensures forall k :: 0 <= k < |items| ==> items[k].noteId == noteId
    ensures forall k :: 0 <= k < |items| ==>
      items[k].questionText == generated[k].questionText && items[k].answerText == generated[k].answerText
    decreases |generated|
  {
    if generated == [] then []
    else [NewQuestion(noteId, generated[0].questionText, generated[0].answerText)] + ToInsert(noteId, generated[1..])
  }

  /**
   * The question half of `POST /api/notes` for the note with id `noteId`: `reply` is the parsed
   * `questions` array of the language model's answer, or `None` when the answer has no such
   * array or the call failed. Nothing else is inserted in either case.
   */
  method StoreGeneratedQuestions(storage: DatabaseStorage, noteId: int, reply: Option<seq<GeneratedQuestion>>,
                                 defaults: RowDefaults)
    requires storage.Valid()
    modifies storage
    ensures storage.Valid()
    ensures reply.None? ==> storage.rows == old(storage.rows)
    ensures reply.Some? ==>
      storage.rows == old(storage.rows) + NewRows(ToInsert(noteId, reply.value), old(storage.nextId), defaults)
    ensures storage.nextId == old(storage.nextId) + (if reply.Some? then |reply.value| else 0)
  {
    if reply.Some? {
      var toInsert := ToInsert(noteId, reply.value);
      storage.CreateQuestions(toInsert, defaults);
    }
  }

  /**
   * Each generated question becomes exactly one new row, in the reply's order, carrying the
   * note's id and the question's texts.
   */
  lemma GeneratedRowsFollowReply(noteId: int, generated: seq<GeneratedQuestion>, firstId: int, defaults: RowDefaults)
    ensures var rows := NewRows(ToInsert(noteId, generated), firstId, defaults);
      && |rows| == |generated|
      && forall k :: 0 <= k < |rows| ==>
        && rows[k].id == firstId + k
        && rows[k].noteId == noteId
        && rows[k].questionText == generated[k].questionText
        && rows[k].answerText == generated[k].answerText
        && rows[k].State() == defaults.initial
  {
  }

  /** A reply without questions adds no row: there is no fallback question. */
  lemma EmptyReplyAddsNothing(rows: seq<Question>, noteId: int, firstId: int, defaults: RowDefaults)
    ensures rows + NewRows(ToInsert(noteId, []), firstId, defaults) == rows
  {
    assert NewRows(ToInsert(noteId, []), firstId, defaults) == [];
  }
}
