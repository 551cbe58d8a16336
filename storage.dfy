/**
 * The question repository over an in-memory table. The rows are kept in insertion order;
 * `nextId` plays the part of the `serial` primary-key sequence.
 */
module Storage {
  import opened Wrappers
  import opened Schema

  /** Ids grow along the table, as a serial key does over inserts that only append. */
  predicate IdsIncreasing(rows: seq<Question>) {
    forall j, k :: 0 <= j < k < |rows| ==> rows[j].id < rows[k].id
  }

  /** Ids grow along the table, and every id was handed out before `nextId`. */
  predicate IdsFresh(rows: seq<Question>, nextId: int) {
    && (forall k :: 0 <= k < |rows| ==> rows[k].id < nextId)
    && IdsIncreasing(rows)
  }

  /** The first row with the given id. */
  function FindById(rows: seq<Question>, id: int): (r: Option<Question>)
    ensures r.Some? ==> r.value in rows && r.value.id == id
    ensures r.None? <==> forall k :: 0 <= k < |rows| ==> rows[k].id != id
  {
    if rows == [] then None
    else if rows[0].id == id then Some(rows[0])
    else
      assert forall k :: 1 <= k < |rows| ==> rows[k] == rows[1..][k - 1];
      FindById(rows[1..], id)
  }

  /** The due row with the earliest next review date; of several, the first in table order. */
  function EarliestDue(rows: seq<Question>, now: int): (r: Option<Question>)
    ensures r.Some? ==> r.value in rows && r.value.IsDue(now)
    ensures r.Some? ==> forall k :: 0 <= k < |rows| && rows[k].IsDue(now) ==>
      r.value.nextReviewDate <= rows[k].nextReviewDate
    ensures r.None? <==> forall k :: 0 <= k < |rows| ==> !rows[k].IsDue(now)
  {
    if rows == [] then None
    else
      var rest := EarliestDue(rows[1..], now);
      assert forall k :: 1 <= k < |rows| ==> rows[k] == rows[1..][k - 1];
      if !rows[0].IsDue(now) then rest
      else if rest.None? || rows[0].nextReviewDate <= rest.value.nextReviewDate then Some(rows[0])
      else rest
  }

  /** The number of due rows. */
  function CountDue(rows: seq<Question>, now: int): (n: nat)
    ensures n <= |rows|
    decreases |rows|
  {
    if rows == [] then 0
    else CountDue(rows[..|rows| - 1], now) + (if rows[|rows| - 1].IsDue(now) then 1 else 0)
  }

  /** The table after the scheduling columns of every row with the given id are overwritten. */
  function Rescheduled(rows: seq<Question>, id: int, s: Schedule): (r: seq<Question>)
    ensures |r| == |rows|
  {
    seq(|rows|, k requires 0 <= k < |rows| => if rows[k].id == id then rows[k].WithState(s) else rows[k])
  }

  /** The rows an insert of `items` adds, with ids handed out from `firstId` on. */
  function NewRows(items: seq<NewQuestion>, firstId: int, defaults: RowDefaults): (r: seq<Question>)
    ensures |r| == |items|
  {
    seq(|items|, k requires 0 <= k < |items| =>
      Question(firstId + k, defaults.userId, items[k].noteId, items[k].questionText, items[k].answerText,
               defaults.initial.interval, defaults.initial.easeFactor, defaults.initial.repetitions,
               defaults.initial.nextReviewDate))
  }

  class DatabaseStorage {
    var rows: seq<Question>
    var nextId: int

    ghost predicate Valid()
      reads this
    {
      IdsFresh(rows, nextId)
    }

    /** An empty table whose serial starts at 1. */
    constructor ()
      ensures Valid() && rows == [] && nextId == 1
    {
      rows := [];
      nextId := 1;
    }

    /** Inserts one row per item, in order; an empty list inserts nothing. */
    method CreateQuestions(items: seq<NewQuestion>, defaults: RowDefaults)
      requires Valid()
      modifies this
      ensures Valid()
      ensures rows == old(rows) + NewRows(items, old(nextId), defaults)
      ensures nextId == old(nextId) + |items|
      ensures items == [] ==> rows == old(rows) && nextId == old(nextId)
    {
      if |items| == 0 {
        return;
      }
      var added := NewRows(items, nextId, defaults);
      rows := rows + added;
      nextId := nextId + |items|;
    }

    /** The due question with the earliest next review date, or nothing when none is due. */
    function GetDailyQuestion(now: int): (r: Option<Question>)
      reads this
      ensures r.Some? ==> r.value in rows && r.value.IsDue(now)
      ensures r.Some? ==> forall k :: 0 <= k < |rows| && rows[k].IsDue(now) ==>
        r.value.nextReviewDate <= rows[k].nextReviewDate
      ensures r.None? <==> forall k :: 0 <= k < |rows| ==> !rows[k].IsDue(now)
    {
      EarliestDue(rows, now)
    }

    /** The row with the given id, or nothing. */
    function GetQuestion(id: int): (r: Option<Question>)
      reads this
      ensures r.Some? ==> r.value in rows && r.value.id == id
      ensures r.None? <==> forall k :: 0 <= k < |rows| ==> rows[k].id != id
    {
      FindById(rows, id)
    }

    /**
     * Overwrites interval, ease factor, repetitions and next review date of the row with that id
     * and returns the updated row; nothing is returned, and nothing changes, when no row has it.
     */
    method UpdateQuestionReview(id: int, interval: int, easeFactor: real, repetitions: int, nextReviewDate: int)
      returns (updated: Option<Question>)
      requires Valid()
      modifies this
      ensures Valid() && nextId == old(nextId)
      ensures rows == Rescheduled(old(rows), id, Schedule(interval, easeFactor, repetitions, nextReviewDate))
      ensures updated == GetQuestion(id)
      ensures updated.None? <==> old(GetQuestion(id)).None?
      ensures updated.Some? ==>
        updated.value == old(GetQuestion(id)).value.WithState(Schedule(interval, easeFactor, repetitions, nextReviewDate))
    {
      var s := Schedule(interval, easeFactor, repetitions, nextReviewDate);
      ghost var before := rows;
      rows := Rescheduled(rows, id, s);
      RescheduledFrame(before, id, s);
      updated := FindById(rows, id);
      if updated.Some? {
        FindUniqueId(before, id, old(GetQuestion(id)).value);
        FindUniqueId(rows, id, updated.value);
      }
    }

    /** Counts the due questions as unstable and the others as safe, in one pass over the table. */
    method GetMemoryStatus(now: int) returns (safe: nat, unstable: nat)
      ensures unstable == CountDue(rows, now)
      ensures safe + unstable == |rows|
    {
      var all := rows;
      safe, unstable := 0, 0;
      var k := 0;
      while k < |all|
        invariant 0 <= k <= |all|
        invariant unstable == CountDue(all[..k], now)
        invariant safe + unstable == k
      {
        assert all[..k + 1][..k] == all[..k];
        if all[k].nextReviewDate <= now {
          unstable := unstable + 1;
        } else {
          safe := safe + 1;
        }
        k := k + 1;
      }
      assert all[..k] == all;
    }
  }

  // ---------------------------------------------------------------------------
  // Properties of the queries and updates
  // ---------------------------------------------------------------------------

  /** An update touches only the rows with that id, and only their scheduling columns. */
  lemma RescheduledFrame(rows: seq<Question>, id: int, s: Schedule)
    ensures var r := Rescheduled(rows, id, s);
      forall k :: 0 <= k < |rows| ==>
        && (rows[k].id != id ==> r[k] == rows[k])
        && (rows[k].id == id ==> r[k].State() == s)
        && r[k].id == rows[k].id && r[k].userId == rows[k].userId && r[k].noteId == rows[k].noteId
        && r[k].questionText == rows[k].questionText && r[k].answerText == rows[k].answerText
  {
  }

  /** In a table with distinct ids, the row a lookup finds is the only one with that id. */
  lemma FindUniqueId(rows: seq<Question>, id: int, q: Question)
    requires IdsIncreasing(rows) && FindById(rows, id) == Some(q)
    ensures forall k :: 0 <= k < |rows| && rows[k].id == id ==> rows[k] == q
  {
  }

  /** Inserting rows with ids from `nextId` on keeps the ids growing and below the new serial. */
  lemma NewRowsFresh(rows: seq<Question>, nextId: int, items: seq<NewQuestion>, defaults: RowDefaults)
    requires IdsFresh(rows, nextId)
    ensures IdsFresh(rows + NewRows(items, nextId, defaults), nextId + |items|)
  {
  }

  /**
   * Among due questions with the same, earliest date, the daily question is the one with the
   * lowest id.
   */
  lemma {:induction false} EarliestDueLowestId(rows: seq<Question>, now: int)
    requires IdsIncreasing(rows)
    ensures var r := EarliestDue(rows, now);
      forall k :: 0 <= k < |rows| && r.Some? && rows[k].IsDue(now) && rows[k].nextReviewDate == r.value.nextReviewDate ==>
        r.value.id <= rows[k].id
    decreases |rows|
  {
    if rows != [] {
      var tail := rows[1..];
      assert forall k :: 1 <= k < |rows| ==> rows[k] == tail[k - 1];
      EarliestDueLowestId(tail, now);
      var r := EarliestDue(rows, now);
      if r.Some? && r != EarliestDue(tail, now) {
        assert r.value == rows[0];
      }
    }
  }

  /** `CountDue` counts exactly the rows that are due. */
  lemma {:induction false} CountDueZero(rows: seq<Question>, now: int)
    ensures CountDue(rows, now) == 0 <==> forall k :: 0 <= k < |rows| ==> !rows[k].IsDue(now)
    decreases |rows|
  {
    if rows != [] {
      var prefix := rows[..|rows| - 1];
      CountDueZero(prefix, now);
      assert forall k :: 0 <= k < |prefix| ==> prefix[k] == rows[k];
    }
  }

  /** Some question is unstable exactly when the daily question query finds one. */
  lemma UnstableIffDailyQuestion(rows: seq<Question>, now: int)
    ensures CountDue(rows, now) > 0 <==> EarliestDue(rows, now).Some?
  {
    CountDueZero(rows, now);
  }

  /** A question due exactly today counts as unstable. */
  lemma {:induction false} DueTodayIsUnstable(rows: seq<Question>, now: int, k: int)
    requires 0 <= k < |rows| && rows[k].nextReviewDate == now
    ensures CountDue(rows, now) >= 1
  {
    CountDueZero(rows, now);
  }

  /** The unstable count of a concatenation is the sum of the parts' counts. */
  lemma {:induction false} CountDueAppend(a: seq<Question>, b: seq<Question>, now: int)
    ensures CountDue(a + b, now) == CountDue(a, now) + CountDue(b, now)
    decreases |b|
  {
    if b == [] {
      assert a + b == a;
    } else {
      var b' := b[..|b| - 1];
      CountDueAppend(a, b', now);
      assert (a + b)[..|a + b| - 1] == a + b';
    }
  }

  /** Rows that all share one date are either all unstable or all safe. */
  lemma {:induction false} CountDueSameDate(rows: seq<Question>, now: int, date: int)
    requires forall k :: 0 <= k < |rows| ==> rows[k].nextReviewDate == date
    ensures CountDue(rows, now) == if date <= now then |rows| else 0
    decreases |rows|
  {
    if rows != [] {
      CountDueSameDate(rows[..|rows| - 1], now, date);
    }
  }

  /**
   * An insert raises the unstable count by the number of new rows when their initial date is
   * already reached, and leaves it as it was otherwise.
   */
  lemma CreatedQuestionsStatus(rows: seq<Question>, items: seq<NewQuestion>, firstId: int,
                               defaults: RowDefaults, now: int)
    ensures CountDue(rows + NewRows(items, firstId, defaults), now) ==
      CountDue(rows, now) + (if defaults.initial.nextReviewDate <= now then |items| else 0)
  {
    var added := NewRows(items, firstId, defaults);
    CountDueAppend(rows, added, now);
    CountDueSameDate(added, now, defaults.initial.nextReviewDate);
  }
}
