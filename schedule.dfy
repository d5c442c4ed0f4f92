/** Which medicines make up "today's" schedule, and how they are grouped into
    the Morning, Afternoon and Night buckets (the `dashboard` and
    `generate_pdf` views). */
module Schedule {
  import opened Records
  import opened Sequences
  import opened TextOrder

  const MORNING := "Morning"
  const AFTERNOON := "Afternoon"
  const NIGHT := "Night"

  /** The WHERE clause both views send to the store:
      `user_id=? AND start_date<=? AND end_date>=?` with (user, today, today). */
  predicate IsActive(m: Medicine, userId: int, today: string)
  {
    m.userId == userId && LexLe(m.startDate, today) && LexLe(today, m.endDate)
  }

  function ActiveFor(userId: int, today: string): Medicine -> bool
  {
    (m: Medicine) => IsActive(m, userId, today)
  }

  /** The rows the query returns, in table order. */
  function TodaysMedicines(meds: seq<Medicine>, userId: int, today: string): (r: seq<Medicine>)
    ensures forall m :: m in r <==>
      m in meds && m.userId == userId && LexLe(m.startDate, today) && LexLe(today, m.endDate)
  {
    Filter(meds, ActiveFor(userId, today))
  }

  /** The query keeps table order: the active rows of a concatenation are the
      active rows of each part, one after the other. */
  lemma TodaysMedicinesStable(a: seq<Medicine>, b: seq<Medicine>, userId: int, today: string)
    ensures TodaysMedicines(a + b, userId, today)
         == TodaysMedicines(a, userId, today) + TodaysMedicines(b, userId, today)
  {
    FilterAppend(a, b, ActiveFor(userId, today));
  }

  /** A row whose range is inverted (end before start) is never shown. */
  lemma InvertedRangeNeverActive(m: Medicine, userId: int, today: string)
    requires !LexLe(m.startDate, m.endDate)
    ensures !IsActive(m, userId, today)
  {
    if IsActive(m, userId, today) {
      LexLeTransitive(m.startDate, today, m.endDate);
    }
  }

  /** For well-formed dates the text comparisons select exactly the rows whose
      inclusive calendar range covers today. */
  lemma ActiveMeansCalendarRange(m: Medicine, userId: int, today: string)
    requires IsIsoDate(m.startDate) && IsIsoDate(m.endDate) && IsIsoDate(today)
    ensures IsActive(m, userId, today) <==>
      m.userId == userId && CalendarLe(m.startDate, today) && CalendarLe(today, m.endDate)
  {
    IsoDateOrderIsCalendarOrder(m.startDate, today);
    IsoDateOrderIsCalendarOrder(today, m.endDate);
  }

  function HasTime(bucket: string): Medicine -> bool
  {
    (m: Medicine) => m.time == bucket
  }

  /** The bucket a classification loop builds for `bucket`: the rows whose
      `time` column equals it, in input order. */
  function InBucket(meds: seq<Medicine>, bucket: string): seq<Medicine>
  {
    Filter(meds, HasTime(bucket))
  }

  predicate IsRecognized(m: Medicine)
  {
    m.time == MORNING || m.time == AFTERNOON || m.time == NIGHT
  }

  /** The rows that land in some bucket. */
  function Recognized(meds: seq<Medicine>): seq<Medicine>
  {
    Filter(meds, IsRecognized)
  }

  /** The `for med in medicines` loop with its if/elif chain on `med[4]`. */
  method Classify(meds: seq<Medicine>) returns (morning: seq<Medicine>, afternoon: seq<Medicine>, night: seq<Medicine>)
    ensures morning == InBucket(meds, MORNING)
    ensures afternoon == InBucket(meds, AFTERNOON)
    ensures night == InBucket(meds, NIGHT)
  {
    morning, afternoon, night := [], [], [];
    for i := 0 to |meds|
      invariant morning == InBucket(meds[..i], MORNING)
      invariant afternoon == InBucket(meds[..i], AFTERNOON)
      invariant night == InBucket(meds[..i], NIGHT)
    {
      var med := meds[i];
      assert meds[..i + 1] == meds[..i] + [med];
      FilterAppend(meds[..i], [med], HasTime(MORNING));
      FilterAppend(meds[..i], [med], HasTime(AFTERNOON));
      FilterAppend(meds[..i], [med], HasTime(NIGHT));
      if med.time == MORNING {
        morning := morning + [med];
      } else if med.time == AFTERNOON {
        afternoon := afternoon + [med];
      } else if med.time == NIGHT {
        night := night + [med];
      }
    }
    assert meds[..|meds|] == meds;
  }

  /** Every row is in the bucket its `time` names and in no other; a row with
      any other `time` is in no bucket. */
  lemma BucketMembership(meds: seq<Medicine>, m: Medicine)
    requires m in meds
    ensures m in InBucket(meds, MORNING) <==> m.time == MORNING
    ensures m in InBucket(meds, AFTERNOON) <==> m.time == AFTERNOON
    ensures m in InBucket(meds, NIGHT) <==> m.time == NIGHT
    ensures !IsRecognized(m) ==>
      m !in InBucket(meds, MORNING) && m !in InBucket(meds, AFTERNOON) && m !in InBucket(meds, NIGHT)
  {
  }

  /** The three buckets split the recognised rows: together they hold each
      recognised row exactly as often as the input does, so their lengths add
      up to the number of recognised rows. */
  lemma {:induction false} BucketsPartition(meds: seq<Medicine>)
    ensures multiset(InBucket(meds, MORNING)) + multiset(InBucket(meds, AFTERNOON)) + multiset(InBucket(meds, NIGHT))
         == multiset(Recognized(meds))
    ensures |InBucket(meds, MORNING)| + |InBucket(meds, AFTERNOON)| + |InBucket(meds, NIGHT)|
         == |Recognized(meds)|
  {
    if |meds| > 0 {
      BucketsPartition(meds[1..]);
    }
    assert |multiset(InBucket(meds, MORNING)) + multiset(InBucket(meds, AFTERNOON)) + multiset(InBucket(meds, NIGHT))|
        == |InBucket(meds, MORNING)| + |InBucket(meds, AFTERNOON)| + |InBucket(meds, NIGHT)|;
  }

  /** Rows in one bucket keep the order in which they were inserted. */
  lemma SameBucketKeepsInsertionOrder(r1: Medicine, r2: Medicine)
    requires r1.time == AFTERNOON && r2.time == AFTERNOON
    ensures InBucket([r1, r2], AFTERNOON) == [r1, r2]
    ensures InBucket([r1, r2], MORNING) == [] && InBucket([r1, r2], NIGHT) == []
  {
    FilterAll([r1, r2], HasTime(AFTERNOON));
    FilterNone([r1, r2], HasTime(MORNING));
    FilterNone([r1, r2], HasTime(NIGHT));
  }
}
