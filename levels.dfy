/** The two severity levels of `Level.java` and the filter they drive. */
module Levels {

  /** `LOW(1)` and `HIGH(2)`: each constant carries a fixed priority, higher meaning more important. */
  datatype Level = LOW | HIGH {

    /** `getPriority()`. A datatype value is immutable, so the priority cannot change after construction. */
    function Priority(): (p: int)
      ensures 1 <= p <= 2
    {
      match this
      case LOW => 1
      case HIGH => 2
    }
  }

  /** The filter of the printer: a message at `level` is shown under the threshold `current`. */
  predicate Shown(level: Level, current: Level) {
    level.Priority() >= current.Priority()
  }

  lemma {:induction false} PriorityValues()
    ensures LOW.Priority() == 1 && HIGH.Priority() == 2
    ensures HIGH.Priority() > LOW.Priority()
  {
  }

  /** With the threshold at LOW every level is shown; with HIGH only HIGH is. */
  lemma {:induction false} ThresholdBehaviour(level: Level)
    ensures Shown(level, LOW)
    ensures Shown(level, HIGH) <==> level == HIGH
  {
  }
}
