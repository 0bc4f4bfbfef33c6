/**
 * What the placements say about the classes: every fragment carries its
 * class's labels and a positive amount, classes come in list order, and the
 * amounts placed for a class add up to its duration.
 */
module Pieces {
  import opened Items
  import opened Allocation

  /** Every fragment of one pass belongs to class `k`, keeps its labels, is positive and is not before the cursor. */
  lemma {:induction false} PlaceItemFields(k: nat, it: Item, rest: int, c: Cursor, cfg: Config)
    requires cfg.Valid() && 0 < c.timeLeft <= cfg.limit
    ensures var r := PlaceItem(k, it, rest, c, cfg);
      && c.date <= r.1.date
      && forall i :: 0 <= i < |r.0| ==>
           && r.0[i].index == k
           && r.0[i].fragment.status == it.status
           && r.0[i].fragment.subject == it.subject
           && r.0[i].fragment.duration > 0
           && c.date <= r.0[i].date
    decreases Measure(rest, c.date, cfg)
  {
    if rest <= 0 {
    } else if !IsStudyDay(c.date, cfg.studyDays) {
      SkipDayShrinks(rest, c.date, cfg);
      SkipUnfold(k, it, rest, c, cfg);
      PlaceItemFields(k, it, rest, Cursor(c.date + 1, cfg.limit), cfg);
    } else if c.timeLeft >= rest {
    } else {
      SplitUnfold(k, it, rest, c, cfg);
      PlaceItemFields(k, it, rest - c.timeLeft, Cursor(c.date + 1, cfg.limit), cfg);
    }
  }

  /** One pass places exactly the `rest` minutes it was asked for, none when `rest` is not positive. */
  lemma {:induction false} PlaceItemPlaced(k: nat, it: Item, rest: int, c: Cursor, cfg: Config)
    requires cfg.Valid() && 0 < c.timeLeft <= cfg.limit
    ensures Placed(PlaceItem(k, it, rest, c, cfg).0, k) == if rest > 0 then rest else 0
    decreases Measure(rest, c.date, cfg)
  {
    if rest <= 0 {
    } else if !IsStudyDay(c.date, cfg.studyDays) {
      SkipDayShrinks(rest, c.date, cfg);
      SkipUnfold(k, it, rest, c, cfg);
      PlaceItemPlaced(k, it, rest, Cursor(c.date + 1, cfg.limit), cfg);
    } else if c.timeLeft >= rest {
      var p := Placement(k, c.date, it.(duration := rest));
      PlacedSnoc([], p, k);
      assert [] + [p] == [p];
    } else {
      var p := Placement(k, c.date, it.(duration := c.timeLeft));
      var tail := PlaceItem(k, it, rest - c.timeLeft, Cursor(c.date + 1, cfg.limit), cfg);
      SplitUnfold(k, it, rest, c, cfg);
      PlaceItemPlaced(k, it, rest - c.timeLeft, Cursor(c.date + 1, cfg.limit), cfg);
      PlacedSnoc([], p, k);
      assert [] + [p] == [p];
      PlacedConcat([p], tail.0, k);
    }
  }

  /** The labels of the class a placement belongs to. */
  predicate Labelled(p: Placement, items: seq<Item>)
  {
    p.index < |items| && p.fragment.status == items[p.index].status && p.fragment.subject == items[p.index].subject
  }

  /**
   * The outer loop from class `k` on: fragments belong to classes `k` and
   * later, carry their labels, are positive, follow the class order, and
   * each class gets exactly its duration (nothing for a class of zero or
   * negative duration).
   */
  lemma {:induction false} PackFields(items: seq<Item>, k: nat, c: Cursor, cfg: Config)
    requires k <= |items| && cfg.Valid() && 0 < c.timeLeft <= cfg.limit
    ensures var ps := PackFrom(items, k, c, cfg).0;
      && (forall i :: 0 <= i < |ps| ==> k <= ps[i].index && Labelled(ps[i], items) && ps[i].fragment.duration > 0)
      && (forall i, j :: 0 <= i < j < |ps| ==> ps[i].index <= ps[j].index)
    decreases |items| - k
  {
    if k < |items| {
      var head := PlaceItem(k, items[k], items[k].duration, c, cfg);
      var tail := PackFrom(items, k + 1, head.1, cfg);
      PackUnfold(items, k, c, cfg);
      PlaceItemFields(k, items[k], items[k].duration, c, cfg);
      PackFields(items, k + 1, head.1, cfg);
      var ps := head.0 + tail.0;
      forall i | 0 <= i < |ps|
        ensures k <= ps[i].index && Labelled(ps[i], items) && ps[i].fragment.duration > 0
      {
        if i >= |head.0| {
          assert ps[i] == tail.0[i - |head.0|];
        }
      }
      forall i, j | 0 <= i < j < |ps|
        ensures ps[i].index <= ps[j].index
      {
        if j < |head.0| {
        } else if i < |head.0| {
          assert ps[j] == tail.0[j - |head.0|];
        } else {
          assert ps[i] == tail.0[i - |head.0|] && ps[j] == tail.0[j - |head.0|];
        }
      }
    }
  }

  /** Conservation: from class `k` on, the minutes placed for each class equal its `Work`, and nothing goes to an earlier index. */
  lemma {:induction false} PackPlaced(items: seq<Item>, k: nat, c: Cursor, cfg: Config, j: nat)
    requires k <= |items| && cfg.Valid() && 0 < c.timeLeft <= cfg.limit
    ensures Placed(PackFrom(items, k, c, cfg).0, j) == if k <= j < |items| then Work(items[j]) else 0
    decreases |items| - k
  {
    if k == |items| {
    } else {
      var head := PlaceItem(k, items[k], items[k].duration, c, cfg);
      var tail := PackFrom(items, k + 1, head.1, cfg);
      PackUnfold(items, k, c, cfg);
      PackPlaced(items, k + 1, head.1, cfg, j);
      PlacedConcat(head.0, tail.0, j);
      if j == k {
        PlaceItemPlaced(k, items[k], items[k].duration, c, cfg);
      } else {
        PlaceItemFields(k, items[k], items[k].duration, c, cfg);
        PlacedAbsent(head.0, j);
      }
    }
  }

  /** With positive fragments, a class has no fragment exactly when nothing was placed for it. */
  lemma {:induction false} PlacedZero(ps: seq<Placement>, j: nat)
    requires forall i :: 0 <= i < |ps| ==> ps[i].fragment.duration > 0
    ensures Placed(ps, j) >= 0
    ensures Placed(ps, j) == 0 <==> forall i :: 0 <= i < |ps| ==> ps[i].index != j
  {
    if ps != [] {
      var init := ps[..|ps| - 1];
      var p := ps[|ps| - 1];
      assert ps == init + [p];
      PlacedZero(init, j);
      PlacedSnoc(init, p, j);
      if Placed(ps, j) == 0 {
        forall i | 0 <= i < |ps| ensures ps[i].index != j {
          if i < |init| {
            assert ps[i] == init[i];
          }
        }
      }
    }
  }

  /**
   * A whole run: each class `j` receives exactly `Work(items[j])` minutes;
   * a class whose duration is zero or negative receives no fragment at all;
   * fragments carry their class's labels, are positive, and come in class order.
   */
  lemma RunPieces(items: seq<Item>, start: Date, cfg: Config)
    requires cfg.Valid()
    ensures var ps := Placements(items, start, cfg);
      && (forall i :: 0 <= i < |ps| ==> Labelled(ps[i], items) && ps[i].fragment.duration > 0)
      && (forall i, j :: 0 <= i < j < |ps| ==> ps[i].index <= ps[j].index)
      && (forall j :: 0 <= j < |items| ==> Placed(ps, j) == Work(items[j]))
      && (forall j :: 0 <= j < |items| && items[j].duration <= 0 ==> forall i :: 0 <= i < |ps| ==> ps[i].index != j)
  {
    var c := Cursor(start, cfg.limit);
    var ps := Placements(items, start, cfg);
    PackFields(items, 0, c, cfg);
    forall j | 0 <= j < |items|
      ensures Placed(ps, j) == Work(items[j])
    {
      PackPlaced(items, 0, c, cfg, j);
    }
    forall j | 0 <= j < |items| && items[j].duration <= 0
      ensures forall i :: 0 <= i < |ps| ==> ps[i].index != j
    {
      PackPlaced(items, 0, c, cfg, j);
      PlacedZero(ps, j);
    }
  }
}
