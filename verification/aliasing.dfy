/**
 * The dictionary as `schedule_classes` leaves it when read literally.
 *
 * When the rest of a class fits into today's time, the branch appends the
 * class's own list to today's blocks and then sets that same list's
 * duration to 0. The entry in the dictionary is that list, so after the
 * run it reads 0 minutes. Split fragments are copies and keep their
 * amounts. The rest of the model records the amount actually placed.
 */
module Aliasing {
  import opened Items
  import opened Allocation
  import opened Pieces

  /** `PlaceItem` with the last fragment read back as the source leaves it: at 0 minutes. */
  function PlaceItemAsWritten(k: nat, it: Item, rest: int, c: Cursor, cfg: Config): (r: (seq<Placement>, Cursor))
    requires cfg.Valid() && 0 < c.timeLeft <= cfg.limit
    decreases Measure(rest, c.date, cfg)
  {
    if rest <= 0 then
      ([], c)
    else if !IsStudyDay(c.date, cfg.studyDays) then
      SkipDayShrinks(rest, c.date, cfg);
      PlaceItemAsWritten(k, it, rest, Cursor(c.date + 1, cfg.limit), cfg)
    else if c.timeLeft >= rest then
      var left := c.timeLeft - rest;
      ([Placement(k, c.date, it.(duration := 0))],
       if left == 0 then Cursor(c.date + 1, cfg.limit) else Cursor(c.date, left))
    else
      var tail := PlaceItemAsWritten(k, it, rest - c.timeLeft, Cursor(c.date + 1, cfg.limit), cfg);
      ([Placement(k, c.date, it.(duration := c.timeLeft))] + tail.0, tail.1)
  }

  /**
   * Read literally, a class with positive duration ends with a fragment of
   * 0 minutes, and its fragments add up to less than its duration; the
   * walk over the calendar is the same as in the corrected model.
   */
  lemma {:induction false} AsWrittenLosesMinutes(k: nat, it: Item, rest: int, c: Cursor, cfg: Config)
    requires cfg.Valid() && 0 < c.timeLeft <= cfg.limit && rest > 0
    ensures var r := PlaceItemAsWritten(k, it, rest, c, cfg);
      && r.1 == PlaceItem(k, it, rest, c, cfg).1
      && |r.0| > 0 && r.0[|r.0| - 1].fragment.duration == 0
      && Placed(r.0, k) < rest
    decreases Measure(rest, c.date, cfg)
  {
    if !IsStudyDay(c.date, cfg.studyDays) {
      SkipDayShrinks(rest, c.date, cfg);
      SkipUnfold(k, it, rest, c, cfg);
      AsWrittenLosesMinutes(k, it, rest, Cursor(c.date + 1, cfg.limit), cfg);
    } else if c.timeLeft >= rest {
      var p := Placement(k, c.date, it.(duration := 0));
      FitUnfold(k, it, rest, c, cfg);
      PlacedSnoc([], p, k);
      assert [] + [p] == [p];
    } else {
      var p := Placement(k, c.date, it.(duration := c.timeLeft));
      var next := Cursor(c.date + 1, cfg.limit);
      var tail := PlaceItemAsWritten(k, it, rest - c.timeLeft, next, cfg);
      SplitUnfold(k, it, rest, c, cfg);
      AsWrittenLosesMinutes(k, it, rest - c.timeLeft, next, cfg);
      PlacedSnoc([], p, k);
      assert [] + [p] == [p];
      PlacedConcat([p], tail.0, k);
      assert ([p] + tail.0)[|[p] + tail.0| - 1] == tail.0[|tail.0| - 1];
    }
  }

  /**
   * The smallest case: one class of 30 minutes on a study day with an hour
   * to spare is recorded as one fragment of 0 minutes, where the corrected
   * model records 30.
   */
  lemma ThirtyMinutesReadAsZero(it: Item, cfg: Config, date: Date)
    requires cfg.Valid() && cfg.limit == 60 && it.duration == 30 && IsStudyDay(date, cfg.studyDays)
    ensures PlaceItemAsWritten(0, it, 30, Cursor(date, 60), cfg).0 == [Placement(0, date, it.(duration := 0))]
    ensures PlaceItem(0, it, 30, Cursor(date, 60), cfg).0 == [Placement(0, date, it)]
  {
    FitUnfold(0, it, 30, Cursor(date, 60), cfg);
    assert it.(duration := 30) == it;
  }
}
