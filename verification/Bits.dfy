/** The bit tricks of byte.h and byte.c, on non-negative integers. */
module Bits {

  function Pow2(k: nat): (r: nat)
    ensures r >= 1
  {
    if k == 0 then 1 else 2 * Pow2(k - 1)
  }

  ghost predicate IsPow2(x: int) {
    exists k: nat :: x == Pow2(k)
  }

  /** Bitwise and, bit by bit. */
  function And(x: nat, y: nat): (r: nat)
    ensures r <= y
  {
    if x == 0 || y == 0 then 0 else 2 * And(x / 2, y / 2) + if x % 2 == 1 && y % 2 == 1 then 1 else 0
  }

  /** Bitwise or, bit by bit. */
  function Or(x: nat, y: nat): nat {
    if x == 0 then y else if y == 0 then x
    else 2 * Or(x / 2, y / 2) + if x % 2 == 1 || y % 2 == 1 then 1 else 0
  }

  /** `MOD(x, y)` */
  function Mod(x: nat, y: nat): nat
    requires y > 0
  {
    And(x, y - 1)
  }

  /** `ROUND_UP(l, d)` */
  function RoundUp(l: nat, d: nat): nat
    requires d > 0
  {
    Or(l, d - 1) + 1
  }

  lemma MultipleGrows(d: int, m: nat)
    requires m > 0
    ensures d >= 1 ==> d * m >= m
    ensures d <= -1 ==> d * m + m <= 0
  {
  }

  lemma Quotient(x: nat, m: nat, q: nat, r: nat)
    requires m > 0 && x == q * m + r && r < m
    ensures x / m == q && x % m == r
  {
    var d: int := x / m - q;
    assert x == (x / m) * m + x % m;
    assert d * m == r - x % m;
    MultipleGrows(d, m);
  }

  lemma Halving(x: nat, m: nat)
    requires m > 0
    ensures x / (2 * m) == (x / 2) / m
    ensures x % (2 * m) == 2 * ((x / 2) % m) + x % 2
  {
    var q, r := (x / 2) / m, (x / 2) % m;
    assert x / 2 == q * m + r;
    assert x == q * (2 * m) + (2 * r + x % 2);
    Quotient(x, 2 * m, q, 2 * r + x % 2);
  }

  lemma LowMask(x: nat, m: nat)
    requires m > 0
    ensures And(x, 2 * m - 1) == 2 * And(x / 2, m - 1) + x % 2
    ensures Or(x, 2 * m - 1) == 2 * Or(x / 2, m - 1) + 1
  {
    assert (2 * m - 1) / 2 == m - 1 && (2 * m - 1) % 2 == 1;
  }

  /** Masking with a power of two less one is the remainder. */
  lemma {:induction false} ModIsRemainder(x: nat, k: nat)
    ensures Mod(x, Pow2(k)) == x % Pow2(k)
  {
    if k > 0 {
      var m := Pow2(k - 1);
      calc {
        Mod(x, Pow2(k));
        And(x, 2 * m - 1);
        { LowMask(x, m); }
        2 * Mod(x / 2, m) + x % 2;
        { ModIsRemainder(x / 2, k - 1); }
        2 * ((x / 2) % m) + x % 2;
        { Halving(x, m); }
        x % (2 * m);
      }
    }
  }

  /** `IS_POW_OF_TWO(x)` is zero exactly for zero and the powers of two. */
  lemma {:induction false} PowerTest(x: nat)
    requires x > 0
    ensures And(x, x - 1) == 0 <==> IsPow2(x)
  {
    if x == 1 {
      assert Pow2(0) == 1;
    } else if x % 2 == 0 {
      var h := x / 2;
      PowerTest(h);
      assert (x - 1) / 2 == h - 1;
      if IsPow2(h) {
        var k: nat :| h == Pow2(k);
        assert x == Pow2(k + 1);
      }
      if IsPow2(x) {
        var k: nat :| x == Pow2(k);
        assert h == Pow2(k - 1);
      }
    } else {
      assert (x - 1) / 2 == x / 2;
      AndSelf(x / 2);
      assert forall k: nat :: Pow2(k) == 1 || Pow2(k) == 2 * Pow2(k - 1);
    }
  }

  lemma {:induction false} AndSelf(x: nat)
    ensures And(x, x) == x
  {
    if x > 0 {
      AndSelf(x / 2);
    }
  }

  /** Setting the low k bits and adding one gives the next multiple of 2^k, strictly above. */
  lemma {:induction false} RoundUpIsNextMultiple(l: nat, k: nat)
    ensures RoundUp(l, Pow2(k)) == l - l % Pow2(k) + Pow2(k)
  {
    if k == 0 {
      assert l % 1 == 0;
    } else {
      hide Or;
      var m := Pow2(k - 1);
      calc {
        RoundUp(l, Pow2(k));
        Or(l, 2 * m - 1) + 1;
        { LowMask(l, m); }
        2 * RoundUp(l / 2, m);
        { RoundUpIsNextMultiple(l / 2, k - 1); }
        2 * (l / 2 - l / 2 % m + m);
        { Halving(l, m); }
        l - l % (2 * m) + 2 * m;
      }
    }
  }

  lemma {:induction false} Pow2Grows(j: nat, k: nat)
    requires j < k
    ensures 2 * Pow2(j) <= Pow2(k)
  {
    if j + 1 < k {
      Pow2Grows(j, k - 1);
    }
  }

  /** If 2^(k-1) <= x < 2^k then 2^k is the least power of two above x. */
  lemma LeastPower(x: nat, k: nat)
    requires x < Pow2(k) && (k > 0 ==> Pow2(k - 1) <= x)
    ensures forall p :: IsPow2(p) && p > x ==> Pow2(k) <= p
  {
    forall p | IsPow2(p) && p > x ensures Pow2(k) <= p {
      var j: nat :| p == Pow2(j);
      if j < k {
        if j < k - 1 {
          Pow2Grows(j, k - 1);
        }
      } else if k < j {
        Pow2Grows(k, j);
      }
    }
  }

  lemma HalveAndDouble(x: int, y: nat, r: nat)
    requires y > 0 && y * r <= x < (y + 1) * r
    ensures r <= x && (y / 2) * (2 * r) <= x < (y / 2 + 1) * (2 * r)
  {
    var h := y / 2;
    assert h * (2 * r) == (2 * h) * r;
    assert (h + 1) * (2 * r) == (2 * h + 2) * r;
    Monotone(2 * h, y, r);
    Monotone(y + 1, 2 * h + 2, r);
    Monotone(1, y, r);
  }

  lemma Monotone(a: int, b: int, r: nat)
    requires a <= b
    ensures a * r <= b * r
  {
  }

  lemma {:induction false} Pow2Sum(j: nat, k: nat)
    ensures Pow2(j + k) == Pow2(j) * Pow2(k)
  {
    if k > 0 {
      Pow2Sum(j, k - 1);
    }
  }

  lemma LargestPower()
    ensures IsPow2(0x4000_0000)
  {
    assert Pow2(5) == 32;
    hide Pow2;
    Pow2Sum(5, 5);
    Pow2Sum(10, 10);
    Pow2Sum(20, 10);
    assert 0x4000_0000 == Pow2(30);
  }

  /** `roundup_pow_of_two`: the least power of two strictly above x. Above 2^30 the
      shift leaves the 32-bit range, which C does not define. */
  method RoundUpPowOfTwo(x: int) returns (r: int)
    requires 0 <= x < 0x4000_0000
    ensures IsPow2(r) && x < r <= 0x4000_0000
    ensures forall p :: IsPow2(p) && p > x ==> r <= p
  {
    r := 1;
    var y := x;
    ghost var k := 0;
    LargestPower();
    while y != 0
      invariant 0 <= y && 0 <= k && r == Pow2(k) && (k > 0 ==> Pow2(k - 1) <= x)
      invariant y * r <= x < (y + 1) * r
      decreases y
    {
      HalveAndDouble(x, y, r);
      y := y / 2;
      r := 2 * r;
      k := k + 1;
    }
    LeastPower(x, k);
  }
}
