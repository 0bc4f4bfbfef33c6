/**
 * A class record as the application passes it around: the three-element
 * list `[status, subject, duration]` built by `parse_class_input`.
 * Durations are whole minutes.
 */
module Items {
  datatype Item = Item(status: string, subject: string, duration: int)

  /** The minutes an item contributes to a schedule: non-positive durations are never placed. */
  function Work(it: Item): nat
  {
    if it.duration > 0 then it.duration else 0
  }
}
