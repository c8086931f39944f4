/**
 * The capacity policy of the byte buffer: `details::get_capacity` rounds a
 * requested memory size up to a power of two; heap buffers hold
 * `get_capacity(n + 1)` bytes, one of which is kept for the terminator.
 */
module Capacity {

  /** Largest byte length kept inline, without a heap buffer. */
  const SSO_SIZE_MAX: nat := 15

  function Pow2(k: nat): (r: nat)
    ensures r >= 1
  {
    if k == 0 then 1 else 2 * Pow2(k - 1)
  }

  predicate IsPow2(x: int)
    decreases x
  {
    x == 1 || (x > 1 && x % 2 == 0 && IsPow2(x / 2))
  }

  lemma {:induction false} Pow2IsPow2(k: nat)
    ensures IsPow2(Pow2(k))
  {
    if k > 0 {
      Pow2IsPow2(k - 1);
      assert Pow2(k) / 2 == Pow2(k - 1);
    }
  }

  /** The smallest power of two that is at least `v` (1 for v = 0). */
  function NextPow2(v: nat): (r: nat)
    ensures IsPow2(r) && r >= v && r >= 1
    ensures v >= 1 ==> r / 2 < v
    decreases v
  {
    if v <= 1 then 1
    else
      var h := NextPow2((v + 1) / 2);
      assert h == 1 || h % 2 == 0;
      assert (2 * h) / 2 == h;
      2 * h
  }

  /** Between two distinct powers of two the larger is at least twice the smaller. */
  lemma {:induction false} Pow2Below(q: int, r: int)
    requires IsPow2(q) && IsPow2(r) && q < r
    ensures q <= r / 2
    decreases r
  {
    if q != 1 {
      assert r != 1;
      Pow2Below(q / 2, r / 2);
      assert r / 2 != 1;
    }
  }

  /** A power of two q with v <= q and q / 2 < v is NextPow2(v): no smaller power of two reaches v. */
  lemma NextPow2Unique(v: nat, q: int)
    requires v >= 1 && IsPow2(q) && q >= v && q / 2 < v
    ensures q == NextPow2(v)
  {
    var r := NextPow2(v);
    if q < r {
      Pow2Below(q, r);
    } else if r < q {
      Pow2Below(r, q);
    }
  }

  /** NextPow2(v) is below every power of two that is at least v. */
  lemma NextPow2IsLeast(v: nat, q: int)
    requires IsPow2(q) && q >= v
    ensures NextPow2(v) <= q
  {
    var r := NextPow2(v);
    if q < r {
      Pow2Below(q, r);
    }
  }

  /** One round of the bit-counting loop keeps value * 2^bitPos <= v < (value + 1) * 2^bitPos. */
  lemma HalvingStep(v: nat, value: nat, p: nat)
    requires p >= 1 && value >= 1
    requires value * p <= v < (value + 1) * p
    ensures (value / 2) * (2 * p) <= v < (value / 2 + 1) * (2 * p)
    ensures p <= v
  {
    var half, m := value / 2, value % 2;
    assert value == 2 * half + m;
    calc {
      (value / 2) * (2 * p);
      == 2 * half * p;
      <= (2 * half + m) * p;
      == value * p;
    }
    calc {
      (value + 1) * p;
      == (2 * half + m + 1) * p;
      <= (2 * half + 2) * p;
      == (half + 1) * (2 * p);
    }
    assert 1 * p <= value * p;
  }

  /**
   * `details::get_capacity(v)`: count the bits of v, take the power of two
   * just above v, and halve it when v itself is a power of two.
   */
  method GetCapacity(v: nat) returns (ans: nat)
    ensures ans == NextPow2(v)
  {
    var bitPos: nat := 0;
    var value: nat := v;
    while value != 0
      invariant value * Pow2(bitPos) <= v < (value + 1) * Pow2(bitPos)
      invariant bitPos > 0 ==> Pow2(bitPos - 1) <= v
      decreases value
    {
      HalvingStep(v, value, Pow2(bitPos));
      var half := value / 2;
      value := half;
      bitPos := bitPos + 1;
    }
    ans := Pow2(bitPos);
    Pow2IsPow2(bitPos);
    if ans == 2 * v {
      ans := ans / 2;
    }
    if v >= 1 {
      assert bitPos > 0;
      assert Pow2(bitPos) / 2 == Pow2(bitPos - 1);
      NextPow2Unique(v, ans);
    }
  }

  /** The capacity of a buffer made for `n` bytes: inline up to SSO_SIZE_MAX, else get_capacity(n + 1) - 1. */
  function CapacityFor(n: nat): nat {
    if n <= SSO_SIZE_MAX then SSO_SIZE_MAX else NextPow2(n + 1) - 1
  }

  /** A heap buffer sized for `n` bytes has room for them: get_capacity(n + 1) - 1 >= n. */
  lemma HeapCapacityFits(n: nat)
    ensures NextPow2(n + 1) - 1 >= n
    ensures n > SSO_SIZE_MAX ==> NextPow2(n + 1) > SSO_SIZE_MAX + 1
  {
  }
}
