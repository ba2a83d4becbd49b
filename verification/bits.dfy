/** The bit arithmetic behind ADJUST_HASH (cutils/bhash.c) and the rounding of
    cutils/util.h. */
module Bits {

  /** Bitwise and. */
  function And(a: nat, b: nat): (r: nat)
    ensures r <= b
  {
    if a == 0 || b == 0 then 0 else 2 * And(a / 2, b / 2) + (a % 2) * (b % 2)
  }

  function Pow2(k: nat): (n: nat)
    ensures n > 0
  {
    if k == 0 then 1 else 2 * Pow2(k - 1)
  }

  ghost predicate IsPow2(n: nat) {
    exists k: nat :: n == Pow2(k)
  }

  /** Masking with a power of two less one is the remainder. */
  lemma {:induction false} MaskIsMod(h: nat, k: nat)
    ensures And(h, Pow2(k) - 1) == h % Pow2(k)
  {
    hide And;
    if k == 0 {
      NoMask(h);
    } else {
      var m := Pow2(k - 1);
      MaskIsMod(h / 2, k - 1);
      ModDouble(h, m);
      AndDouble(h, m);
    }
  }

  lemma NoMask(h: nat)
    ensures And(h, 0) == 0 == h % 1
  {
  }

  /** One bit more in the mask. */
  lemma AndDouble(h: nat, m: nat)
    requires m > 0
    ensures And(h, 2 * m - 1) == 2 * And(h / 2, m - 1) + h % 2
  {
    assert (2 * m - 1) / 2 == m - 1 && (2 * m - 1) % 2 == 1;
    assert h == 0 ==> And(h / 2, m - 1) == 0;
  }

  lemma ModDouble(h: nat, m: nat)
    requires m > 0
    ensures h % (2 * m) == 2 * (h / 2 % m) + h % 2
  {
    var q, r := h / 2 / m, h / 2 % m;
    assert h / 2 == q * m + r;
    assert h == q * (2 * m) + (2 * r + h % 2) by {
      assert h == 2 * (h / 2) + h % 2;
      assert 2 * (q * m) == q * (2 * m);
    }
    ModUnique(h, 2 * m, q, 2 * r + h % 2);
  }

  lemma ModUnique(h: int, m: int, q: int, r: int)
    requires m > 0 && h == q * m + r && 0 <= r < m
    ensures h % m == r
  {
    var d := h / m - q;
    assert h == (h / m) * m + h % m;
    assert d * m == r - h % m;
    MulBound(d, m);
  }

  lemma MulBound(d: int, m: int)
    requires m > 0
    ensures d >= 1 ==> d * m >= m
    ensures d <= -1 ==> d * m <= -m
  {
  }

  /** The first of the powers p, 2 p, 4 p, ... that is not below num. */
  function RoundUp(p: nat, num: nat): nat
    requires p > 0
    decreases num - p
  {
    if num <= p then p else RoundUp(2 * p, num)
  }

  /** UTIL_round_to_power_of_n: the least power of two that is not below num. */
  method RoundToPowerOfTwo(num: nat) returns (n: nat)
    ensures IsPow2(n) && num <= n == RoundUp(1, num)
    ensures forall k: nat :: num <= Pow2(k) ==> n <= Pow2(k)
  {
    n := 1;
    ghost var e := 0;
    while n < num
      invariant n == Pow2(e) && RoundUp(n, num) == RoundUp(1, num)
      invariant forall k: nat :: k < e ==> Pow2(k) < num
      decreases num - n
    {
      assert Pow2(e + 1) == 2 * Pow2(e);
      n := n * 2;
      e := e + 1;
    }
    forall k: nat | num <= Pow2(k)
      ensures n <= Pow2(k)
    {
      Pow2Monotone(e, k);
    }
  }

  lemma {:induction false} Pow2Monotone(a: nat, b: nat)
    ensures a <= b ==> Pow2(a) <= Pow2(b)
  {
    if a < b {
      Pow2Monotone(a, b - 1);
    }
  }
}
