/**
 * The reference definition of `schedule_classes` and what it guarantees.
 *
 * A run is described by the sequence of placements it makes, in the order
 * it makes them: every placement puts one fragment of one class on one
 * date. The dictionary the source returns is that sequence grouped by date
 * (`Group`), with its keys in insertion order.
 */
module Allocation {
  import opened Items

  /** A calendar date as a day number; day 0 is a Monday, so this is Python's `date.toordinal() - 1`. */
  type Date = int

  /** Python's `date.weekday()`: 0 is Monday, 6 is Sunday. */
  function Weekday(d: Date): int
  {
    d % 7
  }

  /** `current_date.weekday() in study_days`; the list is compared as given, with no 1-based conversion. */
  predicate IsStudyDay(d: Date, studyDays: seq<int>)
  {
    Weekday(d) in studyDays
  }

  /** The study days and the daily limit in minutes (`daily_study_limit_hours * 60`). */
  datatype Config = Config(studyDays: seq<int>, limit: int)
  {
    /** What the loop needs to terminate: a positive limit and a listed weekday that can occur. */
    predicate Valid()
    {
      limit > 0 && exists i :: 0 <= i < |studyDays| && 0 <= studyDays[i] < 7
    }
  }

  /** `current_date` and `time_left`. */
  datatype Cursor = Cursor(date: Date, timeLeft: int)

  /** The fragment of class `index` placed on `date`; its duration is the number of minutes placed. */
  datatype Placement = Placement(index: nat, date: Date, fragment: Item)

  /** The dictionary `study_schedule`: fragments per date, and its keys in insertion order. */
  datatype Schedule = Schedule(blocks: map<Date, seq<Item>>, order: seq<Date>)

  ghost function StudyWeekday(cfg: Config): (w: int)
    requires cfg.Valid()
    ensures 0 <= w < 7 && w in cfg.studyDays
  {
    var i :| 0 <= i < |cfg.studyDays| && 0 <= cfg.studyDays[i] < 7;
    cfg.studyDays[i]
  }

  /** Termination measure of the inner loop: minutes still to place, then days until the weekday `StudyWeekday`. */
  ghost function Measure(rest: int, date: Date, cfg: Config): nat
    requires cfg.Valid()
  {
    if rest <= 0 then 0 else rest * 7 + (StudyWeekday(cfg) - date) % 7
  }

  /** Skipping a day that is not a study day brings the next listed weekday one day closer. */
  lemma SkipDayShrinks(rest: int, date: Date, cfg: Config)
    requires cfg.Valid() && rest > 0 && !IsStudyDay(date, cfg.studyDays)
    ensures Measure(rest, date + 1, cfg) < Measure(rest, date, cfg)
  {
    var w := StudyWeekday(cfg);
    assert date % 7 != w;
  }

  /**
   * One pass of the inner `while cls[2] > 0` loop for class `k`, with `rest`
   * minutes of it left: the placements made and the cursor afterwards.
   */
  function PlaceItem(k: nat, it: Item, rest: int, c: Cursor, cfg: Config): (r: (seq<Placement>, Cursor))
    requires cfg.Valid() && 0 < c.timeLeft <= cfg.limit
    ensures 0 < r.1.timeLeft <= cfg.limit
    decreases Measure(rest, c.date, cfg)
  {
    if rest <= 0 then
      ([], c)
    else if !IsStudyDay(c.date, cfg.studyDays) then
      SkipDayShrinks(rest, c.date, cfg);
      PlaceItem(k, it, rest, Cursor(c.date + 1, cfg.limit), cfg)
    else if c.timeLeft >= rest then
      var left := c.timeLeft - rest;
      ([Placement(k, c.date, it.(duration := rest))],
       if left == 0 then Cursor(c.date + 1, cfg.limit) else Cursor(c.date, left))
    else
      var tail := PlaceItem(k, it, rest - c.timeLeft, Cursor(c.date + 1, cfg.limit), cfg);
      ([Placement(k, c.date, it.(duration := c.timeLeft))] + tail.0, tail.1)
  }

  /** The outer `for cls in classes` loop from class `k` on. */
  function PackFrom(items: seq<Item>, k: nat, c: Cursor, cfg: Config): (r: (seq<Placement>, Cursor))
    requires k <= |items| && cfg.Valid() && 0 < c.timeLeft <= cfg.limit
    ensures 0 < r.1.timeLeft <= cfg.limit
    decreases |items| - k
  {
    if k == |items| then
      ([], c)
    else
      var head := PlaceItem(k, items[k], items[k].duration, c, cfg);
      var tail := PackFrom(items, k + 1, head.1, cfg);
      (head.0 + tail.0, tail.1)
  }

  /** Every placement a whole run makes, starting on `start` with a full day. */
  function Placements(items: seq<Item>, start: Date, cfg: Config): seq<Placement>
    requires cfg.Valid()
  {
    PackFrom(items, 0, Cursor(start, cfg.limit), cfg).0
  }

  /** The dictionary built by appending each fragment under its date, creating the key on first use. */
  function Group(ps: seq<Placement>): Schedule
  {
    if ps == [] then
      Schedule(map[], [])
    else
      var s := Group(ps[..|ps| - 1]);
      var p := ps[|ps| - 1];
      if p.date in s.blocks then Schedule(s.blocks[p.date := s.blocks[p.date] + [p.fragment]], s.order)
      else Schedule(s.blocks[p.date := [p.fragment]], s.order + [p.date])
  }

  // ---------------------------------------------------------------------
  // Sums over placements

  /** The fragments placed on `d`, in placement order. */
  function FragmentsOn(ps: seq<Placement>, d: Date): seq<Item>
  {
    if ps == [] then []
    else FragmentsOn(ps[..|ps| - 1], d) + (if ps[|ps| - 1].date == d then [ps[|ps| - 1].fragment] else [])
  }

  /** The minutes a list of fragments takes. */
  function Total(fs: seq<Item>): int
  {
    if fs == [] then 0 else Total(fs[..|fs| - 1]) + fs[|fs| - 1].duration
  }

  /** The minutes placed on `d`. */
  function Used(ps: seq<Placement>, d: Date): int
  {
    Total(FragmentsOn(ps, d))
  }

  /** The minutes placed for class `k`. */
  function Placed(ps: seq<Placement>, k: nat): int
  {
    if ps == [] then 0
    else Placed(ps[..|ps| - 1], k) + (if ps[|ps| - 1].index == k then ps[|ps| - 1].fragment.duration else 0)
  }

  predicate Occurs(ps: seq<Placement>, d: Date)
  {
    exists i :: 0 <= i < |ps| && ps[i].date == d
  }

  lemma FragmentsOnSnoc(ps: seq<Placement>, p: Placement, d: Date)
    ensures FragmentsOn(ps + [p], d) == FragmentsOn(ps, d) + (if p.date == d then [p.fragment] else [])
  {
    assert (ps + [p])[..|ps|] == ps;
  }

  lemma TotalSnoc(fs: seq<Item>, f: Item)
    ensures Total(fs + [f]) == Total(fs) + f.duration
  {
    assert (fs + [f])[..|fs|] == fs;
  }

  /** Placing `p` adds its minutes to its own date and to no other. */
  lemma UsedSnoc(ps: seq<Placement>, p: Placement, ps': seq<Placement>)
    requires ps' == ps + [p]
    ensures forall d :: Used(ps', d) == Used(ps, d) + (if p.date == d then p.fragment.duration else 0)
  {
    forall d ensures Used(ps', d) == Used(ps, d) + (if p.date == d then p.fragment.duration else 0) {
      FragmentsOnSnoc(ps, p, d);
      if p.date == d {
        TotalSnoc(FragmentsOn(ps, d), p.fragment);
      } else {
        assert FragmentsOn(ps', d) == FragmentsOn(ps, d);
      }
    }
  }

  /** A date with no placement has no fragments. */
  lemma {:induction false} FragmentsOnAbsent(ps: seq<Placement>, d: Date)
    requires !Occurs(ps, d)
    ensures FragmentsOn(ps, d) == []
  {
    if ps != [] {
      var init := ps[..|ps| - 1];
      FragmentsOnAbsent(init, d);
    }
  }

  /** With positive fragments, a date has minutes exactly when it has a placement. */
  lemma {:induction false} UsedPositive(ps: seq<Placement>, d: Date)
    requires forall i :: 0 <= i < |ps| ==> ps[i].fragment.duration > 0
    ensures Used(ps, d) >= 0
    ensures Used(ps, d) > 0 <==> Occurs(ps, d)
  {
    if ps != [] {
      var init := ps[..|ps| - 1];
      var p := ps[|ps| - 1];
      assert ps == init + [p];
      UsedPositive(init, d);
      UsedSnoc(init, p, ps);
      if Occurs(ps, d) && !Occurs(init, d) {
        var i :| 0 <= i < |ps| && ps[i].date == d;
        assert i == |ps| - 1;
      }
      if Occurs(init, d) {
        var i :| 0 <= i < |init| && init[i].date == d;
        assert ps[i].date == d;
      }
    }
  }

  lemma PlacedSnoc(ps: seq<Placement>, p: Placement, k: nat)
    ensures Placed(ps + [p], k) == Placed(ps, k) + (if p.index == k then p.fragment.duration else 0)
  {
    assert (ps + [p])[..|ps|] == ps;
  }

  lemma {:induction false} PlacedConcat(a: seq<Placement>, b: seq<Placement>, k: nat)
    ensures Placed(a + b, k) == Placed(a, k) + Placed(b, k)
  {
    if b == [] {
      assert a + b == a;
    } else {
      var init := b[..|b| - 1];
      assert a + b == (a + init) + [b[|b| - 1]];
      PlacedConcat(a, init, k);
      PlacedSnoc(a + init, b[|b| - 1], k);
    }
  }

  lemma {:induction false} PlacedAbsent(ps: seq<Placement>, k: nat)
    requires forall i :: 0 <= i < |ps| ==> ps[i].index != k
    ensures Placed(ps, k) == 0
  {
    if ps != [] {
      PlacedAbsent(ps[..|ps| - 1], k);
    }
  }

  // ---------------------------------------------------------------------
  // The invariant of the loops

  /**
   * What holds of the placements `ps` made so far when the cursor stands on
   * `date` with `left` minutes left: every fragment is positive, on a study
   * day, between `start` and `date`, in date order; the current day's used
   * and left minutes add up to the limit; every earlier day with a fragment
   * is full; and no study day since `start` was passed over empty.
   */
  ghost predicate Consistent(ps: seq<Placement>, date: Date, left: int, start: Date, cfg: Config)
  {
    && 0 <= left <= cfg.limit
    && start <= date
    && (forall i :: 0 <= i < |ps| ==>
          start <= ps[i].date <= date && IsStudyDay(ps[i].date, cfg.studyDays) && ps[i].fragment.duration > 0)
    && (forall i, j :: 0 <= i < j < |ps| ==> ps[i].date <= ps[j].date)
    && Used(ps, date) + left == cfg.limit
    && (forall d :: d < date && Used(ps, d) != 0 ==> Used(ps, d) == cfg.limit)
    && (forall d :: start <= d < date && IsStudyDay(d, cfg.studyDays) ==> Used(ps, d) != 0)
  }

  /** `current_date += timedelta(days=1)` with `time_left` refilled, taken when the day is full or not a study day. */
  lemma Advance(ps: seq<Placement>, date: Date, left: int, start: Date, cfg: Config)
    requires cfg.Valid() && Consistent(ps, date, left, start, cfg)
    requires left == 0 || !IsStudyDay(date, cfg.studyDays)
    ensures Consistent(ps, date + 1, cfg.limit, start, cfg)
  {
    FragmentsOnAbsent(ps, date + 1);
    if !IsStudyDay(date, cfg.studyDays) {
      FragmentsOnAbsent(ps, date);
    }
  }

  /** Appending a fragment of `amount <= time_left` minutes on today's date. */
  lemma Place(ps: seq<Placement>, p: Placement, left: int, left': int, start: Date, cfg: Config)
    requires Consistent(ps, p.date, left, start, cfg)
    requires IsStudyDay(p.date, cfg.studyDays) && 0 < p.fragment.duration <= left && left' == left - p.fragment.duration
    ensures Consistent(ps + [p], p.date, left', start, cfg)
  {
    UsedSnoc(ps, p, ps + [p]);
  }

  /** A fragment that takes all of today's time left, followed by the move to the next day. */
  lemma FillDay(ps: seq<Placement>, p: Placement, start: Date, cfg: Config)
    requires cfg.Valid() && Consistent(ps, p.date, p.fragment.duration, start, cfg)
    requires IsStudyDay(p.date, cfg.studyDays) && p.fragment.duration > 0
    ensures Consistent(ps + [p], p.date + 1, cfg.limit, start, cfg)
  {
    Place(ps, p, p.fragment.duration, 0, start, cfg);
    Advance(ps + [p], p.date, 0, start, cfg);
  }

  lemma Reassociate(ps: seq<Placement>, a: seq<Placement>, b: seq<Placement>, date: Date, left: int, start: Date, cfg: Config)
    requires Consistent((ps + a) + b, date, left, start, cfg)
    ensures Consistent(ps + (a + b), date, left, start, cfg)
  {
    assert (ps + a) + b == ps + (a + b);
  }

  lemma SkipUnfold(k: nat, it: Item, rest: int, c: Cursor, cfg: Config)
    requires cfg.Valid() && 0 < c.timeLeft <= cfg.limit && rest > 0 && !IsStudyDay(c.date, cfg.studyDays)
    ensures PlaceItem(k, it, rest, c, cfg) == PlaceItem(k, it, rest, Cursor(c.date + 1, cfg.limit), cfg)
  {
  }

  lemma FitUnfold(k: nat, it: Item, rest: int, c: Cursor, cfg: Config)
    requires cfg.Valid() && 0 < c.timeLeft <= cfg.limit && 0 < rest <= c.timeLeft && IsStudyDay(c.date, cfg.studyDays)
    ensures var left := c.timeLeft - rest;
      PlaceItem(k, it, rest, c, cfg) ==
        ([Placement(k, c.date, it.(duration := rest))],
         if left == 0 then Cursor(c.date + 1, cfg.limit) else Cursor(c.date, left))
  {
  }

  lemma SplitUnfold(k: nat, it: Item, rest: int, c: Cursor, cfg: Config)
    requires cfg.Valid() && 0 < c.timeLeft <= cfg.limit && c.timeLeft < rest && IsStudyDay(c.date, cfg.studyDays)
    ensures var tail := PlaceItem(k, it, rest - c.timeLeft, Cursor(c.date + 1, cfg.limit), cfg);
      PlaceItem(k, it, rest, c, cfg) == ([Placement(k, c.date, it.(duration := c.timeLeft))] + tail.0, tail.1)
  {
  }

  lemma PackUnfold(items: seq<Item>, k: nat, c: Cursor, cfg: Config)
    requires k < |items| && cfg.Valid() && 0 < c.timeLeft <= cfg.limit
    ensures var head := PlaceItem(k, items[k], items[k].duration, c, cfg);
      var tail := PackFrom(items, k + 1, head.1, cfg);
      PackFrom(items, k, c, cfg) == (head.0 + tail.0, tail.1)
  {
  }

  /** Moves the invariant between two equal run results without unfolding it. */
  lemma Transport(ps: seq<Placement>, r: (seq<Placement>, Cursor), r': (seq<Placement>, Cursor), start: Date, cfg: Config)
    requires r == r' && Consistent(ps + r.0, r.1.date, r.1.timeLeft, start, cfg)
    ensures Consistent(ps + r'.0, r'.1.date, r'.1.timeLeft, start, cfg)
  {
  }

  /** A day the student does not study is skipped without placing anything. */
  lemma {:induction false} SkipConsistent(ps: seq<Placement>, k: nat, it: Item, rest: int, c: Cursor, start: Date, cfg: Config)
    requires cfg.Valid() && 0 < c.timeLeft <= cfg.limit && rest > 0 && !IsStudyDay(c.date, cfg.studyDays)
    requires Consistent(ps, c.date, c.timeLeft, start, cfg)
    ensures var r := PlaceItem(k, it, rest, c, cfg); Consistent(ps + r.0, r.1.date, r.1.timeLeft, start, cfg)
    decreases Measure(rest, c.date, cfg), 0
  {
    var next := Cursor(c.date + 1, cfg.limit);
    SkipDayShrinks(rest, c.date, cfg);
    Advance(ps, c.date, c.timeLeft, start, cfg);
    PlaceItemConsistent(ps, k, it, rest, next, start, cfg);
    SkipUnfold(k, it, rest, c, cfg);
    Transport(ps, PlaceItem(k, it, rest, next, cfg), PlaceItem(k, it, rest, c, cfg), start, cfg);
  }

  /** The rest of a class takes exactly what is left of the day, which is then over. */
  lemma FitFillsConsistent(ps: seq<Placement>, k: nat, it: Item, rest: int, c: Cursor, start: Date, cfg: Config)
    requires cfg.Valid() && 0 < c.timeLeft <= cfg.limit && rest == c.timeLeft && IsStudyDay(c.date, cfg.studyDays)
    requires Consistent(ps, c.date, c.timeLeft, start, cfg)
    ensures var r := PlaceItem(k, it, rest, c, cfg); Consistent(ps + r.0, r.1.date, r.1.timeLeft, start, cfg)
  {
    var p := Placement(k, c.date, it.(duration := c.timeLeft));
    assert p.date == c.date && p.fragment.duration == c.timeLeft;
    FitUnfold(k, it, rest, c, cfg);
    FillDay(ps, p, start, cfg);
    Transport(ps, ([p], Cursor(c.date + 1, cfg.limit)), PlaceItem(k, it, rest, c, cfg), start, cfg);
  }

  /** The rest of a class fits into what is left of the day with time to spare. */
  lemma FitLeavesConsistent(ps: seq<Placement>, k: nat, it: Item, rest: int, c: Cursor, start: Date, cfg: Config)
    requires cfg.Valid() && 0 < c.timeLeft <= cfg.limit && 0 < rest < c.timeLeft && IsStudyDay(c.date, cfg.studyDays)
    requires Consistent(ps, c.date, c.timeLeft, start, cfg)
    ensures var r := PlaceItem(k, it, rest, c, cfg); Consistent(ps + r.0, r.1.date, r.1.timeLeft, start, cfg)
  {
    var p := Placement(k, c.date, it.(duration := rest));
    assert p.date == c.date && p.fragment.duration == rest;
    FitUnfold(k, it, rest, c, cfg);
    Place(ps, p, c.timeLeft, c.timeLeft - rest, start, cfg);
    Transport(ps, ([p], Cursor(c.date, c.timeLeft - rest)), PlaceItem(k, it, rest, c, cfg), start, cfg);
  }

  /** A class that overflows the day fills it and goes on the next day. */
  lemma {:induction false} SplitConsistent(ps: seq<Placement>, k: nat, it: Item, rest: int, c: Cursor, start: Date, cfg: Config)
    requires cfg.Valid() && 0 < c.timeLeft <= cfg.limit && c.timeLeft < rest && IsStudyDay(c.date, cfg.studyDays)
    requires Consistent(ps, c.date, c.timeLeft, start, cfg)
    ensures var r := PlaceItem(k, it, rest, c, cfg); Consistent(ps + r.0, r.1.date, r.1.timeLeft, start, cfg)
    decreases Measure(rest, c.date, cfg), 0
  {
    var p := Placement(k, c.date, it.(duration := c.timeLeft));
    var next := Cursor(c.date + 1, cfg.limit);
    var tail := PlaceItem(k, it, rest - c.timeLeft, next, cfg);
    assert p.date == c.date && p.fragment.duration == c.timeLeft;
    FillDay(ps, p, start, cfg);
    PlaceItemConsistent(ps + [p], k, it, rest - c.timeLeft, next, start, cfg);
    SplitUnfold(k, it, rest, c, cfg);
    Reassociate(ps, [p], tail.0, tail.1.date, tail.1.timeLeft, start, cfg);
    Transport(ps, ([p] + tail.0, tail.1), PlaceItem(k, it, rest, c, cfg), start, cfg);
  }

  /** One class's inner loop keeps the invariant. */
  lemma {:induction false} PlaceItemConsistent(ps: seq<Placement>, k: nat, it: Item, rest: int, c: Cursor, start: Date, cfg: Config)
    requires cfg.Valid() && 0 < c.timeLeft <= cfg.limit
    requires Consistent(ps, c.date, c.timeLeft, start, cfg)
    ensures var r := PlaceItem(k, it, rest, c, cfg); Consistent(ps + r.0, r.1.date, r.1.timeLeft, start, cfg)
    decreases Measure(rest, c.date, cfg), 1
  {
    if rest <= 0 {
      assert PlaceItem(k, it, rest, c, cfg) == ([], c);
      assert ps + [] == ps;
    } else if !IsStudyDay(c.date, cfg.studyDays) {
      SkipConsistent(ps, k, it, rest, c, start, cfg);
    } else if c.timeLeft == rest {
      FitFillsConsistent(ps, k, it, rest, c, start, cfg);
    } else if c.timeLeft > rest {
      FitLeavesConsistent(ps, k, it, rest, c, start, cfg);
    } else {
      SplitConsistent(ps, k, it, rest, c, start, cfg);
    }
  }

  /** The outer loop keeps the invariant. */
  lemma {:induction false} PackConsistent(ps: seq<Placement>, items: seq<Item>, k: nat, c: Cursor, start: Date, cfg: Config)
    requires k <= |items| && cfg.Valid() && 0 < c.timeLeft <= cfg.limit
    requires Consistent(ps, c.date, c.timeLeft, start, cfg)
    ensures var r := PackFrom(items, k, c, cfg); Consistent(ps + r.0, r.1.date, r.1.timeLeft, start, cfg)
    decreases |items| - k
  {
    if k == |items| {
      assert ps + [] == ps;
    } else {
      var head := PlaceItem(k, items[k], items[k].duration, c, cfg);
      PlaceItemConsistent(ps, k, items[k], items[k].duration, c, start, cfg);
      PackConsistent(ps + head.0, items, k + 1, head.1, start, cfg);
      var tail := PackFrom(items, k + 1, head.1, cfg);
      PackUnfold(items, k, c, cfg);
      Reassociate(ps, head.0, tail.0, tail.1.date, tail.1.timeLeft, start, cfg);
      Transport(ps, (head.0 + tail.0, tail.1), PackFrom(items, k, c, cfg), start, cfg);
    }
  }

  /** A whole run, started on `start` with a full day, ends in the invariant. */
  lemma RunConsistent(items: seq<Item>, start: Date, cfg: Config)
    requires cfg.Valid()
    ensures var r := PackFrom(items, 0, Cursor(start, cfg.limit), cfg);
      Consistent(r.0, r.1.date, r.1.timeLeft, start, cfg)
  {
    var r := PackFrom(items, 0, Cursor(start, cfg.limit), cfg);
    assert Consistent([], start, cfg.limit, start, cfg);
    PackConsistent([], items, 0, Cursor(start, cfg.limit), start, cfg);
    assert [] + r.0 == r.0;
  }

  /** Appending one placement to the dictionary: a new date is created with an empty list and added to the key order. */
  lemma GroupSnoc(ps: seq<Placement>, p: Placement)
    ensures var s := Group(ps);
      var blocks := if p.date in s.blocks then s.blocks else s.blocks[p.date := []];
      var order := if p.date in s.blocks then s.order else s.order + [p.date];
      Group(ps + [p]) == Schedule(blocks[p.date := blocks[p.date] + [p.fragment]], order)
  {
    var s := Group(ps);
    assert (ps + [p])[..|ps|] == ps;
    if p.date !in s.blocks {
      assert [] + [p.fragment] == [p.fragment];
      assert s.blocks[p.date := []][p.date := [p.fragment]] == s.blocks[p.date := [p.fragment]];
    }
  }
}
