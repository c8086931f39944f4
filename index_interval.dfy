/**
 * `index_interval`: a symbolic range whose bounds may count from the start
 * (index >= 0) or from the end (index < 0, -1 being the last element), and
 * its resolution against a concrete length.
 */
module IndexInterval {
  import opened Common

  /** One end of an interval: `[` / `]` inclusive, `(` / `)` exclusive, `~` open. */
  datatype Bound = Inclusive(index: int) | Exclusive(index: int) | Unbounded

  datatype Interval = Interval(lower: Bound, upper: Bound)

  /** A resolved, concrete half-open range [min, max); empty when min >= max. */
  datatype Selection = Selection(min: nat, max: nat) {
    predicate IsEmpty() { min >= max }

    function Size(): nat { if min < max then max - min else 0 }
  }

  /** `index_interval::from_universal(n)`: the whole of a length-`n` sequence. */
  function FromUniversal(n: nat): Selection { Selection(0, n) }

  /** A negative index counts from the end; a non-negative one (zero included) from the start. */
  function Resolve(i: int, n: nat): int { if i < 0 then i + n else i }

  function Clamp(x: int, n: nat): (r: nat)
    ensures r <= n
    ensures 0 <= x <= n ==> r == x
  {
    if x < 0 then 0 else if x > n then n else x
  }

  /** `select(n)`: resolve both bounds against length `n` and clamp them into [0, n]. */
  function Select(range: Interval, n: nat): (sel: Selection)
    ensures sel.min <= n && sel.max <= n
    ensures range.lower == Unbounded ==> sel.min == 0
    ensures range.upper == Unbounded ==> sel.max == n
  {
    var lo := match range.lower
      case Inclusive(i) => Resolve(i, n)
      case Exclusive(i) => Resolve(i, n) + 1
      case Unbounded => 0;
    var hi := match range.upper
      case Inclusive(i) => Resolve(i, n) + 1
      case Exclusive(i) => Resolve(i, n)
      case Unbounded => n;
    Selection(Clamp(lo, n), Clamp(hi, n))
  }

  /** `selection.intersect({'[', k, '~'})`. */
  function IntersectFrom(sel: Selection, k: nat): Selection {
    Selection(Max(sel.min, k), sel.max)
  }

  /** `selection.intersect({'[', 0, k, ']'})`, for k >= -1. */
  function IntersectThrough(sel: Selection, k: int): Selection
    requires k >= -1
  {
    Selection(sel.min, Min(sel.max, k + 1))
  }

  /** A half-open range given by start indices selects exactly itself. */
  lemma SelectClosedOpen(lo: nat, hi: nat, n: nat)
    requires lo <= hi <= n
    ensures Select(Interval(Inclusive(lo), Exclusive(hi)), n) == Selection(lo, hi)
  {
  }

  /** `{'[', k, '~'}` selects [k, n). */
  lemma SelectFrom(k: nat, n: nat)
    requires k <= n
    ensures Select(Interval(Inclusive(k), Unbounded), n) == Selection(k, n)
  {
  }

  /** `{'[', lo, hi, ']'}` with both ends inside selects [lo, hi + 1). */
  lemma SelectClosed(lo: nat, hi: nat, n: nat)
    requires lo <= hi < n
    ensures Select(Interval(Inclusive(lo), Inclusive(hi)), n) == Selection(lo, hi + 1)
  {
  }

  /** `{'[', 0, -k, ')'}` with 0 < k <= n drops the last k elements. */
  lemma SelectDropLast(k: nat, n: nat)
    requires 0 < k <= n
    ensures Select(Interval(Inclusive(0), Exclusive(0 - k as int)), n) == Selection(0, n - k)
  {
  }

  /** An exclusive upper bound of 0 is a from-start index: `{'[', 0, 0, ')'}` selects nothing. */
  lemma SelectZeroExclusiveEnd(n: nat)
    ensures Select(Interval(Inclusive(0), Exclusive(0)), n).IsEmpty()
  {
  }
}
