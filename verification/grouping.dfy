/**
 * The dictionary `study_schedule` as built from the placements, and what a
 * whole run guarantees about it.
 */
module Grouping {
  import opened Items
  import opened Allocation

  lemma OccursSnoc(ps: seq<Placement>, p: Placement, d: Date)
    ensures Occurs(ps + [p], d) <==> Occurs(ps, d) || p.date == d
  {
    var ps' := ps + [p];
    if Occurs(ps, d) {
      var i :| 0 <= i < |ps| && ps[i].date == d;
      assert ps'[i].date == d;
    }
    if p.date == d {
      assert ps'[|ps|].date == d;
    }
    if Occurs(ps', d) {
      var i :| 0 <= i < |ps'| && ps'[i].date == d;
      if i < |ps| {
        assert ps[i].date == d;
      }
    }
  }

  /**
   * The keys of the dictionary are the dates that received a fragment; each
   * date's list is its fragments in placement order; the insertion order
   * lists every key once.
   */
  lemma {:induction false} GroupBlocks(ps: seq<Placement>)
    ensures var s := Group(ps);
      && (forall d :: d in s.blocks <==> Occurs(ps, d))
      && (forall d :: d in s.blocks ==> s.blocks[d] == FragmentsOn(ps, d))
      && (forall d :: d in s.order <==> d in s.blocks)
      && (forall i, j :: 0 <= i < j < |s.order| ==> s.order[i] != s.order[j])
  {
    if ps != [] {
      var init := ps[..|ps| - 1];
      var p := ps[|ps| - 1];
      assert ps == init + [p];
      GroupBlocks(init);
      var s := Group(ps);
      forall d ensures d in s.blocks <==> Occurs(ps, d) {
        OccursSnoc(init, p, d);
      }
      forall d | d in s.blocks ensures s.blocks[d] == FragmentsOn(ps, d) {
        FragmentsOnSnoc(init, p, d);
        if !Occurs(init, d) {
          FragmentsOnAbsent(init, d);
        }
      }
    }
  }

  /** In date-ordered placements, every date used before the last placement is at most its date. */
  lemma SortedBefore(ps: seq<Placement>, d: Date)
    requires forall i, j :: 0 <= i < j < |ps| ==> ps[i].date <= ps[j].date
    requires ps != [] && Occurs(ps[..|ps| - 1], d)
    ensures d <= ps[|ps| - 1].date
  {
    var init := ps[..|ps| - 1];
    var m :| 0 <= m < |init| && init[m].date == d;
    assert ps[m] == init[m];
  }

  /** Placements made in date order give an insertion order that is strictly increasing, ending on the last date used. */
  lemma {:induction false} GroupOrderSorted(ps: seq<Placement>)
    requires forall i, j :: 0 <= i < j < |ps| ==> ps[i].date <= ps[j].date
    ensures var s := Group(ps);
      && (forall i, j :: 0 <= i < j < |s.order| ==> s.order[i] < s.order[j])
      && (ps != [] ==> |s.order| > 0 && s.order[|s.order| - 1] == ps[|ps| - 1].date)
  {
    if ps != [] {
      var init := ps[..|ps| - 1];
      var p := ps[|ps| - 1];
      assert forall i, j :: 0 <= i < j < |init| ==> init[i].date <= init[j].date by {
        forall i, j | 0 <= i < j < |init| ensures init[i].date <= init[j].date {
          assert init[i] == ps[i] && init[j] == ps[j];
        }
      }
      GroupOrderSorted(init);
      GroupBlocks(init);
      var s0 := Group(init);
      if p.date !in s0.blocks {
        forall i | 0 <= i < |s0.order| ensures s0.order[i] < p.date {
          SortedBefore(ps, s0.order[i]);
        }
      } else {
        SortedBefore(ps, p.date);
        SortedBefore(ps, init[|init| - 1].date) by {
          assert Occurs(init, init[|init| - 1].date);
        }
        assert s0.order[|s0.order| - 1] == init[|init| - 1].date;
      }
    }
  }

  /**
   * What `study_schedule` promises: its keys are the dates in insertion
   * order, increasing; every date is a study day on or after the start; every
   * date holds positive fragments adding up to at most the daily limit; every
   * date before another date of the schedule is filled to the limit; and no
   * study day between the start and a scheduled date is left out.
   */
  ghost predicate Sound(s: Schedule, start: Date, cfg: Config)
  {
    && (forall d :: d in s.order <==> d in s.blocks)
    && (forall i, j :: 0 <= i < j < |s.order| ==> s.order[i] < s.order[j])
    && (forall d :: d in s.blocks ==>
          start <= d && IsStudyDay(d, cfg.studyDays) && 0 < Total(s.blocks[d]) <= cfg.limit)
    && (forall d, f :: d in s.blocks && f in s.blocks[d] ==> f.duration > 0)
    && (forall d, e :: d in s.blocks && e in s.blocks && d < e ==> Total(s.blocks[d]) == cfg.limit)
    && (forall d, e :: e in s.blocks && start <= d <= e && IsStudyDay(d, cfg.studyDays) ==> d in s.blocks)
  }

  lemma FragmentsOnPositive(ps: seq<Placement>, d: Date, f: Item)
    requires forall i :: 0 <= i < |ps| ==> ps[i].fragment.duration > 0
    requires f in FragmentsOn(ps, d)
    ensures f.duration > 0
  {
    if ps != [] {
      var init := ps[..|ps| - 1];
      if f in FragmentsOn(init, d) {
        FragmentsOnPositive(init, d, f);
      }
    }
  }

  /** Placements in the invariant, grouped, make a sound schedule. */
  lemma ConsistentSound(ps: seq<Placement>, date: Date, left: int, start: Date, cfg: Config)
    requires cfg.Valid() && 0 < left && Consistent(ps, date, left, start, cfg)
    ensures Sound(Group(ps), start, cfg)
  {
    var s := Group(ps);
    GroupBlocks(ps);
    GroupOrderSorted(ps);
    forall d | d in s.blocks
      ensures start <= d && IsStudyDay(d, cfg.studyDays) && 0 < Total(s.blocks[d]) <= cfg.limit
    {
      var i :| 0 <= i < |ps| && ps[i].date == d;
      UsedPositive(ps, d);
      assert Total(s.blocks[d]) == Used(ps, d);
    }
    forall d, f | d in s.blocks && f in s.blocks[d]
      ensures f.duration > 0
    {
      FragmentsOnPositive(ps, d, f);
    }
    forall d, e | d in s.blocks && e in s.blocks && d < e
      ensures Total(s.blocks[d]) == cfg.limit
    {
      var i :| 0 <= i < |ps| && ps[i].date == e;
      UsedPositive(ps, d);
      assert Total(s.blocks[d]) == Used(ps, d);
    }
    forall d, e | e in s.blocks && start <= d <= e && IsStudyDay(d, cfg.studyDays)
      ensures d in s.blocks
    {
      var i :| 0 <= i < |ps| && ps[i].date == e;
      UsedPositive(ps, d);
    }
  }

  /** The schedule of a whole run is sound. */
  lemma RunSound(items: seq<Item>, start: Date, cfg: Config)
    requires cfg.Valid()
    ensures Sound(Group(Placements(items, start, cfg)), start, cfg)
  {
    var r := PackFrom(items, 0, Cursor(start, cfg.limit), cfg);
    RunConsistent(items, start, cfg);
    ConsistentSound(r.0, r.1.date, r.1.timeLeft, start, cfg);
  }
}
