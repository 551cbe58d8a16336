/**
 * The SM-2 scheduling step of the review handler, lifted out as a pure function of the
 * question's scheduling columns, the review's quality and the day the review is submitted.
 * Ease factors are exact reals; dates are day numbers.
 */
module Sm2 {
  import opened Schema

  /** The floor the handler clamps the ease factor to. */
  const MinEase: real := 1.3

  /** `Math.round`: the nearest integer, a half rounded towards positive infinity. */
  function JsRound(x: real): (r: int)
    ensures r as real - 0.5 <= x < r as real + 0.5
  {
    (x + 0.5).Floor
  }

  /** The amount one review of the given quality adds to the ease factor before the clamp. */
  function EaseDelta(quality: int): (d: real)
    ensures 0 <= quality <= 5 ==> -0.80 <= d <= 0.10
  {
    assert 0 <= quality <= 5 ==> quality in {0, 1, 2, 3, 4, 5};
    0.1 - (5 - quality) as real * (0.08 + (5 - quality) as real * 0.02)
  }

  /** The new scheduling columns after one review of quality `quality` submitted on day `today`. */
  function NextState(s: Schedule, quality: int, today: int): (r: Schedule)
    ensures r.easeFactor >= MinEase
    ensures r.nextReviewDate == today + r.interval
  {
    var interval :=
      if quality >= 3 then
        if s.repetitions == 0 then 1
        else if s.repetitions == 1 then 6
        else JsRound(s.interval as real * s.easeFactor)
      else 1;
    var repetitions := if quality >= 3 then s.repetitions + 1 else 0;
    var ease := s.easeFactor + EaseDelta(quality);
    Schedule(interval, if ease < MinEase then MinEase else ease, repetitions, today + interval)
  }

  // ---------------------------------------------------------------------------
  // One review
  // ---------------------------------------------------------------------------

  lemma FirstSuccess(s: Schedule, quality: int, today: int)
    requires quality >= 3 && s.repetitions == 0
    ensures NextState(s, quality, today).interval == 1
    ensures NextState(s, quality, today).repetitions == 1
  {
  }

  lemma SecondSuccess(s: Schedule, quality: int, today: int)
    requires quality >= 3 && s.repetitions == 1
    ensures NextState(s, quality, today).interval == 6
    ensures NextState(s, quality, today).repetitions == 2
  {
  }

  /** From the third success on, the old interval is scaled by the OLD ease factor and rounded. */
  lemma LaterSuccess(s: Schedule, quality: int, today: int)
    requires quality >= 3 && s.repetitions != 0 && s.repetitions != 1
    ensures NextState(s, quality, today).interval == JsRound(s.interval as real * s.easeFactor)
    ensures NextState(s, quality, today).repetitions == s.repetitions + 1
  {
  }

  /** A lapse restarts the streak and the interval, whatever the prior state. */
  lemma Lapse(s: Schedule, quality: int, today: int)
    requires quality < 3
    ensures NextState(s, quality, today).interval == 1
    ensures NextState(s, quality, today).repetitions == 0
  {
  }

  /** The new ease factor is the larger of the floor and the old ease factor plus the delta. */
  lemma EaseUpdate(s: Schedule, quality: int, today: int)
    ensures var e := NextState(s, quality, today).easeFactor;
      e >= MinEase && e >= s.easeFactor + EaseDelta(quality) &&
      (e == MinEase || e == s.easeFactor + EaseDelta(quality))
  {
  }

  /** The ease factor after a review depends on the old ease factor and the quality only. */
  lemma EaseIgnoresStreak(s1: Schedule, s2: Schedule, quality: int, day1: int, day2: int)
    requires s1.easeFactor == s2.easeFactor
    ensures NextState(s1, quality, day1).easeFactor == NextState(s2, quality, day2).easeFactor
  {
  }

  /** The exact deltas of the formula over the accepted qualities. */
  lemma EaseDeltaTable()
    ensures EaseDelta(0) == -0.80 && EaseDelta(1) == -0.54 && EaseDelta(2) == -0.32
    ensures EaseDelta(3) == -0.14 && EaseDelta(4) == 0.0 && EaseDelta(5) == 0.10
  {
  }

  /** Raising the quality never lowers the ease delta; only a 5 raises the ease factor. */
  lemma EaseDeltaOrder(q1: int, q2: int)
    requires 0 <= q1 <= q2 <= 5
    ensures EaseDelta(q1) <= EaseDelta(q2)
    ensures EaseDelta(q2) > 0.0 <==> q2 == 5
    ensures EaseDelta(q1) < 0.0 <==> q1 <= 3
  {
    EaseDeltaTable();
  }

  /** The row a review dated `today` writes back is due again exactly `interval` days later. */
  lemma DueAgainAfterInterval(q: Question, quality: int, today: int, now: int)
    ensures var r := NextState(q.State(), quality, today);
      q.WithState(r).IsDue(now) <==> today + r.interval <= now
  {
  }

  /** With a positive interval and an ease factor at the floor or above, the interval stays positive. */
  lemma IntervalStaysPositive(s: Schedule, quality: int, today: int)
    requires s.interval >= 1 && s.easeFactor >= MinEase
    ensures NextState(s, quality, today).interval >= 1
  {
    ScaledIntervalBound(s.interval, s.easeFactor);
  }

  /** Rounding a non-negative interval scaled by a factor of at least one never shortens it. */
  lemma ScaledIntervalBound(interval: int, ease: real)
    requires interval >= 0 && ease >= 1.0
    ensures JsRound(interval as real * ease) >= interval
  {
    assert interval as real * ease >= interval as real * 1.0;
  }

  /** Past the second success, a success never shortens the interval. */
  lemma SuccessNeverShortens(s: Schedule, quality: int, today: int)
    requires quality >= 3 && s.repetitions >= 2
    requires s.interval >= 0 && s.easeFactor >= MinEase
    ensures NextState(s, quality, today).interval >= s.interval
  {
    ScaledIntervalBound(s.interval, s.easeFactor);
  }

  // ---------------------------------------------------------------------------
  // Sequences of reviews
  // ---------------------------------------------------------------------------

  /** The state-space invariant of the scheduling columns. */
  predicate Consistent(s: Schedule) {
    && s.easeFactor >= MinEase
    && s.repetitions >= 0
    && s.interval >= 0
    && (s.repetitions >= 1 ==> s.interval >= 1)
  }

  /** Every review keeps the invariant, and leaves a positive interval. */
  lemma ReviewKeepsConsistent(s: Schedule, quality: int, today: int)
    requires Consistent(s)
    ensures Consistent(NextState(s, quality, today))
    ensures NextState(s, quality, today).interval >= 1
  {
    if quality >= 3 && s.repetitions >= 2 {
      ScaledIntervalBound(s.interval, s.easeFactor);
    }
  }

  /** One submitted review: its quality score and the day it was submitted. */
  datatype Review = Review(quality: int, day: int)

  /** The scheduling columns after a sequence of reviews, applied in order. */
  function Replay(s: Schedule, reviews: seq<Review>): (r: Schedule)
    ensures reviews == [] ==> r == s
    ensures reviews != [] ==> r.nextReviewDate == reviews[|reviews| - 1].day + r.interval
    decreases |reviews|
  {
    if reviews == [] then s
    else
      var last := reviews[|reviews| - 1];
      NextState(Replay(s, reviews[..|reviews| - 1]), last.quality, last.day)
  }

  /** The number of successful reviews (quality 3 or more) since the last lapse. */
  function SuccessStreak(reviews: seq<Review>): (n: nat)
    ensures n <= |reviews|
    decreases |reviews|
  {
    if reviews == [] then 0
    else if reviews[|reviews| - 1].quality >= 3 then 1 + SuccessStreak(reviews[..|reviews| - 1])
    else 0
  }

  /** Any sequence of reviews keeps the invariant of a consistent starting state. */
  lemma {:induction false} ReplayKeepsConsistent(s: Schedule, reviews: seq<Review>)
    requires Consistent(s)
    ensures Consistent(Replay(s, reviews))
    ensures reviews != [] ==> Replay(s, reviews).interval >= 1
    decreases |reviews|
  {
    if reviews != [] {
      var prefix, last := reviews[..|reviews| - 1], reviews[|reviews| - 1];
      ReplayKeepsConsistent(s, prefix);
      ReviewKeepsConsistent(Replay(s, prefix), last.quality, last.day);
    }
  }

  /**
   * `repetitions` counts the consecutive successes since the last lapse; with no lapse in the
   * sequence at all, the successes add to the starting count.
   */
  lemma {:induction false} ReplayRepetitions(s: Schedule, reviews: seq<Review>)
    ensures Replay(s, reviews).repetitions ==
      if SuccessStreak(reviews) == |reviews| then s.repetitions + |reviews| else SuccessStreak(reviews)
    decreases |reviews|
  {
    if reviews != [] {
      ReplayRepetitions(s, reviews[..|reviews| - 1]);
    }
  }

  /** After any non-empty sequence of reviews the ease factor is at the floor or above. */
  lemma ReplayEaseFloor(s: Schedule, reviews: seq<Review>)
    requires reviews != []
    ensures Replay(s, reviews).easeFactor >= MinEase
  {
  }

  // ---------------------------------------------------------------------------
  // Worked examples
  // ---------------------------------------------------------------------------

  lemma ExampleSecondSuccess()
    ensures NextState(Schedule(1, 2.5, 1, 0), 4, 10) == Schedule(6, 2.5, 2, 16)
  {
  }

  lemma ExamplePerfectThirdReview()
    ensures NextState(Schedule(6, 2.5, 2, 0), 5, 10) == Schedule(15, 2.6, 3, 25)
  {
  }

  lemma ExampleBlackoutAtFloor()
    ensures NextState(Schedule(15, 1.3, 3, 0), 0, 10) == Schedule(1, 1.3, 0, 11)
  {
  }
}
