/**
 * `schedule_classes`: the loops that walk the calendar from the start date
 * and fill the dictionary of study blocks in place.
 */
module Scheduler {
  import opened Items
  import opened Allocation
  import opened Grouping

  /**
   * Places every class, in list order, into daily blocks of at most
   * `dailyStudyLimitHours * 60` minutes on the study weekdays, splitting a
   * class across days when today's time runs out.
   *
   * The loops end only for a positive limit and a listed weekday in 0..6;
   * those are required. The schedule is the grouping of the placements of
   * the reference run, hence sound.
   */
  method ScheduleClasses(classes: seq<Item>, startDate: Date, studyDays: seq<int>, dailyStudyLimitHours: int)
    returns (schedule: Schedule)
    requires dailyStudyLimitHours > 0
    requires exists i :: 0 <= i < |studyDays| && 0 <= studyDays[i] < 7
    ensures schedule == Group(Placements(classes, startDate, Config(studyDays, dailyStudyLimitHours * 60)))
    ensures Sound(schedule, startDate, Config(studyDays, dailyStudyLimitHours * 60))
  {
    var limit := dailyStudyLimitHours * 60;
    ghost var cfg := Config(studyDays, limit);
    ghost var full := Placements(classes, startDate, cfg);
    var blocks: map<Date, seq<Item>> := map[];
    var order: seq<Date> := [];
    var date := startDate;
    var timeLeft := limit;
    ghost var trace: seq<Placement> := [];
    assert [] + full == full;

    for k := 0 to |classes|
      invariant 0 < timeLeft <= limit
      invariant trace + PackFrom(classes, k, Cursor(date, timeLeft), cfg).0 == full
      invariant Schedule(blocks, order) == Group(trace)
    {
      var cls := classes[k];
      var rest := cls.duration;
      EnterClass(trace, classes, k, Cursor(date, timeLeft), cfg, full);
      while rest > 0
        invariant 0 < timeLeft <= limit
        invariant Remaining(trace, classes, k, rest, Cursor(date, timeLeft), cfg, full)
        invariant Schedule(blocks, order) == Group(trace)
        decreases Measure(rest, date, cfg)
      {
        if IsStudyDay(date, studyDays) {
          if timeLeft >= rest {
            var fragment := cls.(duration := rest);
            FitStep(trace, classes, k, rest, Cursor(date, timeLeft), cfg, full);
            blocks, order := Append(blocks, order, date, fragment, trace, k);
            trace := trace + [Placement(k, date, fragment)];
            timeLeft := timeLeft - rest;
            rest := 0;
          } else {
            var splitClass := cls.(duration := timeLeft);
            SplitStep(trace, classes, k, rest, Cursor(date, timeLeft), cfg, full);
            blocks, order := Append(blocks, order, date, splitClass, trace, k);
            trace := trace + [Placement(k, date, splitClass)];
            rest := rest - timeLeft;
            timeLeft := 0;
          }
        } else {
          SkipStep(trace, classes, k, rest, Cursor(date, timeLeft), cfg, full);
        }
        if timeLeft == 0 || !IsStudyDay(date, studyDays) {
          date := date + 1;
          timeLeft := limit;
        }
      }
      LeaveClass(trace, classes, k, rest, Cursor(date, timeLeft), cfg, full);
    }
    schedule := Schedule(blocks, order);
    assert trace + [] == trace;
    RunSound(classes, startDate, cfg);
  }

  /**
   * `study_schedule[current_date].append(...)`, creating the date's list
   * first when the date is new: the dictionary of `ps` becomes that of `ps`
   * followed by the new placement.
   */
  method Append(blocks: map<Date, seq<Item>>, order: seq<Date>, date: Date, fragment: Item,
                ghost ps: seq<Placement>, ghost k: nat)
    returns (blocks': map<Date, seq<Item>>, order': seq<Date>)
    requires Schedule(blocks, order) == Group(ps)
    ensures Schedule(blocks', order') == Group(ps + [Placement(k, date, fragment)])
  {
    GroupSnoc(ps, Placement(k, date, fragment));
    blocks', order' := blocks, order;
    if date !in blocks' {
      blocks' := blocks'[date := []];
      order' := order' + [date];
    }
    blocks' := blocks'[date := blocks'[date] + [fragment]];
  }

  /** The inner loop's invariant: what is placed so far, then the rest of class `k`, then the later classes, is the whole run. */
  ghost predicate Remaining(trace: seq<Placement>, classes: seq<Item>, k: nat, rest: int, c: Cursor, cfg: Config, full: seq<Placement>)
    requires cfg.Valid() && 0 < c.timeLeft <= cfg.limit && k < |classes|
  {
    var r := PlaceItem(k, classes[k], rest, c, cfg);
    (trace + r.0) + PackFrom(classes, k + 1, r.1, cfg).0 == full
  }

  lemma EnterClass(trace: seq<Placement>, classes: seq<Item>, k: nat, c: Cursor, cfg: Config, full: seq<Placement>)
    requires cfg.Valid() && 0 < c.timeLeft <= cfg.limit && k < |classes|
    requires trace + PackFrom(classes, k, c, cfg).0 == full
    ensures Remaining(trace, classes, k, classes[k].duration, c, cfg, full)
  {
    PackUnfold(classes, k, c, cfg);
    var r := PlaceItem(k, classes[k], classes[k].duration, c, cfg);
    assert trace + (r.0 + PackFrom(classes, k + 1, r.1, cfg).0) == (trace + r.0) + PackFrom(classes, k + 1, r.1, cfg).0;
  }

  lemma LeaveClass(trace: seq<Placement>, classes: seq<Item>, k: nat, rest: int, c: Cursor, cfg: Config, full: seq<Placement>)
    requires cfg.Valid() && 0 < c.timeLeft <= cfg.limit && k < |classes| && rest <= 0
    requires Remaining(trace, classes, k, rest, c, cfg, full)
    ensures trace + PackFrom(classes, k + 1, c, cfg).0 == full
  {
    assert PlaceItem(k, classes[k], rest, c, cfg) == ([], c);
    assert trace + [] == trace;
  }

  lemma FitStep(trace: seq<Placement>, classes: seq<Item>, k: nat, rest: int, c: Cursor, cfg: Config, full: seq<Placement>)
    requires cfg.Valid() && 0 < c.timeLeft <= cfg.limit && k < |classes|
    requires 0 < rest <= c.timeLeft && IsStudyDay(c.date, cfg.studyDays)
    requires Remaining(trace, classes, k, rest, c, cfg, full)
    ensures var left := c.timeLeft - rest;
      var next := if left == 0 then Cursor(c.date + 1, cfg.limit) else Cursor(c.date, left);
      Remaining(trace + [Placement(k, c.date, classes[k].(duration := rest))], classes, k, 0, next, cfg, full)
  {
    FitUnfold(k, classes[k], rest, c, cfg);
  }

  lemma SplitStep(trace: seq<Placement>, classes: seq<Item>, k: nat, rest: int, c: Cursor, cfg: Config, full: seq<Placement>)
    requires cfg.Valid() && 0 < c.timeLeft <= cfg.limit && k < |classes|
    requires c.timeLeft < rest && IsStudyDay(c.date, cfg.studyDays)
    requires Remaining(trace, classes, k, rest, c, cfg, full)
    ensures Remaining(trace + [Placement(k, c.date, classes[k].(duration := c.timeLeft))], classes, k,
                      rest - c.timeLeft, Cursor(c.date + 1, cfg.limit), cfg, full)
    ensures Measure(rest - c.timeLeft, c.date + 1, cfg) < Measure(rest, c.date, cfg)
  {
    var p := Placement(k, c.date, classes[k].(duration := c.timeLeft));
    var tail := PlaceItem(k, classes[k], rest - c.timeLeft, Cursor(c.date + 1, cfg.limit), cfg);
    SplitUnfold(k, classes[k], rest, c, cfg);
    assert trace + ([p] + tail.0) == (trace + [p]) + tail.0;
  }

  lemma SkipStep(trace: seq<Placement>, classes: seq<Item>, k: nat, rest: int, c: Cursor, cfg: Config, full: seq<Placement>)
    requires cfg.Valid() && 0 < c.timeLeft <= cfg.limit && k < |classes|
    requires rest > 0 && !IsStudyDay(c.date, cfg.studyDays)
    requires Remaining(trace, classes, k, rest, c, cfg, full)
    ensures Remaining(trace, classes, k, rest, Cursor(c.date + 1, cfg.limit), cfg, full)
    ensures Measure(rest, c.date + 1, cfg) < Measure(rest, c.date, cfg)
  {
    SkipUnfold(k, classes[k], rest, c, cfg);
    SkipDayShrinks(rest, c.date, cfg);
  }
}
