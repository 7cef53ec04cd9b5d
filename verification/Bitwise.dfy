/** Bitwise "or" and "and" of natural numbers, bit by bit, and when they are plain arithmetic. */
module Bitwise {
  import opened Arith

  function Or(x: nat, y: nat): nat
    decreases x + y
  {
    if x == 0 && y == 0 then 0
    else 2 * Or(x / 2, y / 2) + (if x % 2 == 1 || y % 2 == 1 then 1 else 0)
  }

  function And(x: nat, y: nat): nat
    decreases x + y
  {
    if x == 0 || y == 0 then 0
    else 2 * And(x / 2, y / 2) + (if x % 2 == 1 && y % 2 == 1 then 1 else 0)
  }

  lemma OrZero(x: nat)
    ensures Or(x, 0) == x && Or(0, x) == x
  {
    if x > 0 {
      OrZero(x / 2);
    }
  }

  lemma OrIsZero(x: nat, y: nat)
    ensures Or(x, y) == 0 <==> x == 0 && y == 0
    decreases x + y
  {
    if x != 0 || y != 0 {
      OrIsZero(x / 2, y / 2);
    }
  }

  /** Bits that do not overlap: "or" adds. */
  lemma {:induction false} OrDisjoint(a: nat, k: nat, b: nat)
    requires b < Pow2(k)
    ensures Or(a * Pow2(k), b) == a * Pow2(k) + b
    decreases k
  {
    if k == 0 {
      OrZero(a);
    } else {
      var h := a * Pow2(k - 1);
      assert a * Pow2(k) == 2 * h by {
        assert Pow2(k) == 2 * Pow2(k - 1);
      }
      OrDisjoint(a, k - 1, b / 2);
      assert (2 * h) / 2 == h && (2 * h) % 2 == 0;
    }
  }

  lemma OrComm(x: nat, y: nat)
    ensures Or(x, y) == Or(y, x)
    decreases x + y
  {
    if x != 0 || y != 0 {
      OrComm(x / 2, y / 2);
    }
  }

  /** "Or" acts on the high and the low part separately. */
  lemma {:induction false} OrSplit(x: nat, y: nat, k: nat)
    ensures Or(x, y) / Pow2(k) == Or(x / Pow2(k), y / Pow2(k))
    ensures Or(x, y) % Pow2(k) == Or(x % Pow2(k), y % Pow2(k))
    decreases k
  {
    if k > 0 {
      var p := Pow2(k - 1);
      assert Pow2(k) == 2 * p;
      OrSplit(x / 2, y / 2, k - 1);
      DivDiv(x, 2, p);
      DivDiv(y, 2, p);
      DivDiv(Or(x, y), 2, p);
      OrHalf(x, y);
      OrHalf(x % (2 * p), y % (2 * p));
    }
  }

  lemma OrHalf(x: nat, y: nat)
    ensures Or(x, y) / 2 == Or(x / 2, y / 2)
    ensures Or(x, y) % 2 == if x % 2 == 1 || y % 2 == 1 then 1 else 0
    ensures Or(x, y) == 2 * Or(x / 2, y / 2) + (if x % 2 == 1 || y % 2 == 1 then 1 else 0)
  {
  }

  /** Masking with k ones keeps the remainder modulo 2^k. */
  lemma {:induction false} AndMask(x: nat, k: nat)
    ensures And(x, Pow2(k) - 1) == x % Pow2(k)
    decreases k
  {
    if k > 0 {
      var p := Pow2(k - 1);
      assert Pow2(k) == 2 * p;
      AndMask(x / 2, k - 1);
      DivDiv(x, 2, p);
      assert (2 * p - 1) / 2 == p - 1 && (2 * p - 1) % 2 == 1;
      if x == 0 {
        SmallMod(0, 2 * p);
      }
    }
  }

  lemma DoubleBit(b: int, p: int, a: int)
    requires a == b * p
    ensures 2 * a == b * (2 * p)
  {
  }

  /** Masking with the single bit k reads that bit. */
  lemma {:induction false} AndBit(x: nat, k: nat)
    ensures And(x, Pow2(k)) == (x / Pow2(k) % 2) * Pow2(k)
    decreases k
  {
    if x == 0 {
      SmallMod(0, Pow2(k));
    } else if k == 0 {
      assert And(x / 2, 0) == 0;
    } else {
      var p := Pow2(k - 1);
      assert Pow2(k) == 2 * p;
      hide Pow2;
      AndBit(x / 2, k - 1);
      DivDiv(x, 2, p);
      DoubleBit(x / 2 / p % 2, p, And(x / 2, p));
    }
  }
}
