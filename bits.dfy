/** Python's shifts and `|` on non-negative integers.
    For n >= 0, `n >> k` is `n / Pow2(k)`, `n << k` is `n * Pow2(k)` and `n & (2**k - 1)` is
    `n % Pow2(k)`; `|` has no arithmetic counterpart and is defined bit by bit as `Or`. */
module Bits {

  function Pow2(k: nat): (r: nat)
    ensures r >= 1
  {
    if k == 0 then 1 else 2 * Pow2(k - 1)
  }

  lemma {:induction false} Pow2Add(a: nat, b: nat)
    ensures Pow2(a + b) == Pow2(a) * Pow2(b)
    decreases a
  {
    if a > 0 {
      Pow2Add(a - 1, b);
      assert Pow2(a + b) == 2 * Pow2(a - 1 + b);
    }
  }

  /** Bitwise OR of two non-negative integers (Python `a | b`). */
  function Or(a: nat, b: nat): nat
    decreases a + b
  {
    if a == 0 then b
    else if b == 0 then a
    else 2 * Or(a / 2, b / 2) + (if a % 2 == 1 || b % 2 == 1 then 1 else 0)
  }

  /** The defining recursion of `Or` holds for zero operands too. */
  lemma OrStep(a: nat, b: nat)
    ensures Or(a, b) == 2 * Or(a / 2, b / 2) + (if a % 2 == 1 || b % 2 == 1 then 1 else 0)
  {
    if a == 0 {
      assert Or(0, b / 2) == b / 2;
    } else if b == 0 {
      assert Or(a / 2, 0) == a / 2;
    }
  }

  lemma {:induction false} OrSelf(a: nat)
    ensures Or(a, a) == a
    decreases a
  {
    if a > 0 {
      OrSelf(a / 2);
    }
  }

  lemma MulPow2(a: nat, k: nat)
    requires k > 0
    ensures a * Pow2(k) == 2 * (a * Pow2(k - 1))
  {
  }

  /** Dropping the lowest bit of a * 2^k + b. */
  lemma Halve(a: nat, b: nat, k: nat)
    requires k > 0
    ensures (a * Pow2(k) + b) / 2 == a * Pow2(k - 1) + b / 2
    ensures (a * Pow2(k) + b) % 2 == b % 2
  {
    var m := a * Pow2(k - 1);
    assert a * Pow2(k) == 2 * m;
  }

  function LowBit(b: nat, d: nat): nat {
    if b % 2 == 1 || d % 2 == 1 then 1 else 0
  }

  /** One step of `Or` on numbers written as a * 2^k + b. */
  lemma OrSplitHead(a: nat, b: nat, c: nat, d: nat, k: nat)
    requires k > 0
    ensures Or(a * Pow2(k) + b, c * Pow2(k) + d)
         == 2 * Or(a * Pow2(k - 1) + b / 2, c * Pow2(k - 1) + d / 2) + LowBit(b, d)
  {
    OrStep(a * Pow2(k) + b, c * Pow2(k) + d);
    Halve(a, b, k);
    Halve(c, d, k);
  }

  lemma OrSplitTail(o: nat, b: nat, d: nat, k: nat)
    requires k > 0
    ensures 2 * (o * Pow2(k - 1) + Or(b / 2, d / 2)) + LowBit(b, d) == o * Pow2(k) + Or(b, d)
  {
    MulPow2(o, k);
    OrStep(b, d);
  }

  /** OR works independently above and below bit k. */
  lemma {:induction false} OrSplit(a: nat, b: nat, c: nat, d: nat, k: nat)
    requires b < Pow2(k) && d < Pow2(k)
    ensures Or(a * Pow2(k) + b, c * Pow2(k) + d) == Or(a, c) * Pow2(k) + Or(b, d)
    decreases k
  {
    if k > 0 {
      OrSplitHead(a, b, c, d, k);
      OrSplit(a, b / 2, c, d / 2, k - 1);
      OrSplitTail(Or(a, c), b, d, k);
    }
  }

  /** OR of operands with no bit in common is their sum. */
  lemma OrDisjoint(hi: nat, lo: nat, k: nat)
    requires lo < Pow2(k)
    ensures Or(hi * Pow2(k), lo) == hi * Pow2(k) + lo
  {
    OrSplit(hi, 0, 0, lo, k);
  }

  /** `|` is symmetric. */
  lemma {:induction false} OrComm(a: nat, b: nat)
    ensures Or(a, b) == Or(b, a)
    decreases a + b
  {
    if a != 0 && b != 0 {
      OrComm(a / 2, b / 2);
    }
  }
}
