/**
 * Millisecond clock values of the event timers: unsigned machine words that
 * wrap around, compared through the sign of their difference.
 */
module Msec {
  import opened Words

  /** ngx_msec_t: an unsigned 64-bit word. */
  type Msec = x: int | 0 <= x < TWO64

  /** Unsigned addition, with wrap-around. */
  function Plus(a: Msec, b: Msec): Msec {
    (a + b) % TWO64
  }

  /** Unsigned subtraction followed by the cast to the signed type. */
  function Diff(a: Msec, b: Msec): int {
    var d := (a - b) % TWO64;
    if d < TWO63 then d else d - TWO64
  }

  /** How far a lies after the start of a window that begins at base. */
  function Offset(base: Msec, a: Msec): Msec {
    (a - base) % TWO64
  }

  /** a lies in the half-circle that starts at base. */
  predicate InWindow(base: Msec, a: Msec) {
    Offset(base, a) < TWO63
  }

  /** Inside one half-circle the signed difference is the difference of the offsets. */
  lemma DiffIsOffsetDifference(base: Msec, a: Msec, b: Msec)
    requires InWindow(base, a) && InWindow(base, b)
    ensures Diff(a, b) == Offset(base, a) - Offset(base, b)
  {
  }
}
