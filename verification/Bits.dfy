/** Bitwise operations on natural numbers, as far as address interleaving needs them. */
module Bits {

  function Pow2(n: nat): (r: nat)
    ensures r >= 1
  {
    if n == 0 then 1 else 2 * Pow2(n - 1)
  }

  function And(a: nat, b: nat): nat {
    if a == 0 || b == 0 then 0
    else (if a % 2 == 1 && b % 2 == 1 then 1 else 0) + 2 * And(a / 2, b / 2)
  }

  function Or(a: nat, b: nat): nat {
    if a == 0 then b
    else if b == 0 then a
    else (if a % 2 == 1 || b % 2 == 1 then 1 else 0) + 2 * Or(a / 2, b / 2)
  }

  function PopCount(a: nat): nat {
    if a == 0 then 0 else a % 2 + PopCount(a / 2)
  }

  /** The exclusive or of the bits of a under the mask m. */
  function Parity(a: nat, m: nat): (r: nat)
    ensures r < 2
  {
    PopCount(And(a, m)) % 2
  }

  function Xor1(a: nat, b: nat): (r: nat)
    ensures r < 2
  {
    (a + b) % 2
  }

  lemma {:induction false} AndStep(a: nat, m: nat)
    ensures And(a, m) == (if a % 2 == 1 && m % 2 == 1 then 1 else 0) + 2 * And(a / 2, m / 2)
  {
    if a == 0 || m == 0 {
      assert And(a / 2, m / 2) == 0;
    }
  }

  lemma {:induction false} PopCountStep(low: nat, high: nat)
    requires low < 2
    ensures PopCount(low + 2 * high) == low + PopCount(high)
  {
    var n := low + 2 * high;
    assert n % 2 == low && n / 2 == high;
  }

  /** One bit at a time. */
  lemma {:induction false} ParityStep(a: nat, m: nat)
    ensures Parity(a, m) == Xor1(if a % 2 == 1 && m % 2 == 1 then 1 else 0, Parity(a / 2, m / 2))
  {
    var low, high := if a % 2 == 1 && m % 2 == 1 then 1 else 0, And(a / 2, m / 2);
    assert And(a, m) == low + 2 * high by {
      AndStep(a, m);
    }
    assert PopCount(low + 2 * high) == low + PopCount(high) by {
      PopCountStep(low, high);
    }
    OddSum(low, PopCount(high));
  }

  lemma {:induction false} OddSum(low: nat, n: nat)
    ensures (low + n) % 2 == Xor1(low, n % 2)
  {
  }

  lemma {:induction false} ParityZero(m: nat)
    ensures Parity(0, m) == 0 && Parity(m, 0) == 0
  {
  }

  lemma {:induction false} OrStep(a: nat, b: nat)
    ensures Or(a, b) % 2 == (if a % 2 == 1 || b % 2 == 1 then 1 else 0)
    ensures Or(a, b) / 2 == Or(a / 2, b / 2)
  {
  }

  /** m is a multiple of 2^k. */
  predicate Clear(m: nat, k: nat) {
    k == 0 || (m % 2 == 0 && Clear(m / 2, k - 1))
  }

  /** The lowest bit set in m is bit k. */
  predicate LowestBit(m: nat, k: nat) {
    if k == 0 then m % 2 == 1 else m % 2 == 0 && LowestBit(m / 2, k - 1)
  }

  /** Bit k of m. */
  function Bit(m: nat, k: nat): (r: nat)
    ensures r < 2
  {
    if k == 0 then m % 2 else Bit(m / 2, k - 1)
  }

  lemma {:induction false} ClearFewer(m: nat, k: nat, j: nat)
    requires Clear(m, k) && j <= k
    ensures Clear(m, j)
  {
    if j > 0 {
      ClearFewer(m / 2, k - 1, j - 1);
    }
  }

  lemma {:induction false} LowestIsClear(m: nat, k: nat)
    requires LowestBit(m, k)
    ensures Clear(m, k)
  {
    if k > 0 {
      LowestIsClear(m / 2, k - 1);
    }
  }

  lemma {:induction false} OrLowest(a: nat, b: nat, k: nat)
    requires LowestBit(a, k) && Clear(b, k + 1)
    ensures LowestBit(Or(a, b), k)
  {
    OrStep(a, b);
    if k > 0 {
      OrLowest(a / 2, b / 2, k - 1);
    }
  }

  lemma {:induction false} LowestOfPow2(k: nat)
    ensures LowestBit(Pow2(k), k)
  {
    if k > 0 {
      LowestOfPow2(k - 1);
    }
  }

  lemma {:induction false} ClearPow2(j: nat, k: nat)
    requires k <= j
    ensures Clear(Pow2(j), k)
  {
    if k > 0 {
      var p := Pow2(j - 1);
      assert (2 * p) % 2 == 0 && (2 * p) / 2 == p;
      ClearPow2(j - 1, k - 1);
    }
  }

  lemma {:induction false} Pow2Sum(a: nat, b: nat)
    ensures Pow2(a + b) == Pow2(a) * Pow2(b)
    decreases b
  {
    if b > 0 {
      Pow2Sum(a, b - 1);
    }
  }

  lemma {:induction false} OrSelf(a: nat)
    ensures Or(a, a) == a
  {
    OrStep(a, a);
    if a > 0 {
      OrSelf(a / 2);
    }
  }

  lemma {:induction false} ClearDouble(m: nat, k: nat)
    requires Clear(m, k)
    ensures Clear(2 * m, k + 1)
  {
    assert (2 * m) / 2 == m;
  }

  /** A single bit under a mask is that bit of the mask. */
  lemma {:induction false} ParityOfPow2(k: nat, m: nat)
    ensures Parity(Pow2(k), m) == Bit(m, k)
  {
    ParityStep(Pow2(k), m);
    if k > 0 {
      assert Pow2(k) / 2 == Pow2(k - 1);
      ParityOfPow2(k - 1, m / 2);
    } else {
      ParityZero(m / 2);
    }
  }

  lemma {:induction false} BitOfOr(a: nat, b: nat, k: nat)
    ensures Bit(Or(a, b), k) == if Bit(a, k) == 1 || Bit(b, k) == 1 then 1 else 0
  {
    OrStep(a, b);
    if k > 0 {
      BitOfOr(a / 2, b / 2, k - 1);
    }
  }

  lemma {:induction false} BitOfPow2(j: nat, k: nat)
    ensures Bit(Pow2(j), k) == if j == k then 1 else 0
  {
    if k > 0 {
      if j > 0 {
        assert Pow2(j) / 2 == Pow2(j - 1);
        BitOfPow2(j - 1, k - 1);
      } else {
        BitOfZero(k - 1);
      }
    }
  }

  lemma {:induction false} BitOfZero(k: nat)
    ensures Bit(0, k) == 0
  {
    if k > 0 {
      BitOfZero(k - 1);
    }
  }

  lemma {:induction false} ClearBits(m: nat, k: nat, j: nat)
    requires Clear(m, k) && j < k
    ensures Bit(m, j) == 0
  {
    if j > 0 {
      ClearBits(m / 2, k - 1, j - 1);
    }
  }

  lemma {:induction false} LowestBitSet(m: nat, k: nat)
    requires LowestBit(m, k)
    ensures Bit(m, k) == 1
  {
    if k > 0 {
      LowestBitSet(m / 2, k - 1);
    }
  }
}
