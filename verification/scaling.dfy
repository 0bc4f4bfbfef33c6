/**
 * `apply_multiplier`: every duration scaled by the same factor; the
 * records are otherwise copied unchanged and in order.
 */
module Scaling {
  import opened Items

  function ApplyMultiplier(classes: seq<Item>, multiplier: int): (r: seq<Item>)
    ensures |r| == |classes|
    ensures forall i :: 0 <= i < |classes| ==>
      && r[i].status == classes[i].status
      && r[i].subject == classes[i].subject
      && r[i].duration == classes[i].duration * multiplier
  {
    if classes == [] then []
    else
      var c := classes[0];
      [Item(c.status, c.subject, c.duration * multiplier)] + ApplyMultiplier(classes[1..], multiplier)
  }

  /** A multiplier of 1 changes nothing. */
  lemma ScaleByOne(classes: seq<Item>)
    ensures ApplyMultiplier(classes, 1) == classes
  {
  }

  /** Scaling twice is scaling once by the product. */
  lemma ScaleTwice(classes: seq<Item>, a: int, b: int)
    ensures ApplyMultiplier(ApplyMultiplier(classes, a), b) == ApplyMultiplier(classes, a * b)
  {
    var once := ApplyMultiplier(classes, a);
    forall i | 0 <= i < |classes|
      ensures ApplyMultiplier(once, b)[i] == ApplyMultiplier(classes, a * b)[i]
    {
      MulAssoc(classes[i].duration, a, b);
    }
  }

  lemma MulAssoc(d: int, a: int, b: int)
    ensures d * a * b == d * (a * b)
  {
  }

  /** A multiplier of 0 leaves no minutes to schedule. */
  lemma ScaleByZero(classes: seq<Item>)
    ensures forall i :: 0 <= i < |classes| ==> Work(ApplyMultiplier(classes, 0)[i]) == 0
  {
  }
}
