/** Powers of two, and divisibility by them. */
module Powers {

  function Pow2(k: nat): (r: nat)
    ensures r >= 1
  {
    if k == 0 then 1 else 2 * Pow2(k - 1)
  }

  lemma {:induction false} Pow2Sum(a: nat, b: nat)
    ensures Pow2(a + b) == Pow2(a) * Pow2(b)
  {
    if a > 0 {
      Pow2Sum(a - 1, b);
      assert a + b - 1 == (a - 1) + b;
    }
  }

  lemma {:induction false} Pow2Monotonic(a: nat, b: nat)
    requires a <= b
    ensures Pow2(a) <= Pow2(b)
    ensures a < b ==> 2 * Pow2(a) <= Pow2(b)
  {
    if a < b {
      Pow2Monotonic(a, b - 1);
    }
  }

  /** x is a multiple of 2^k: its k lowest bits are clear. */
  predicate Divides(k: nat, x: int) {
    k == 0 || (x % 2 == 0 && Divides(k - 1, x / 2))
  }

  lemma {:induction false} DividesIs(k: nat, x: int)
    ensures Divides(k, x) <==> x % Pow2(k) == 0
  {
    if k > 0 {
      DividesIs(k - 1, x / 2);
      HalfRest(x, Pow2(k - 1));
    }
  }

  lemma HalfRest(x: int, d: nat)
    requires d > 0
    ensures x % (2 * d) == 0 <==> x % 2 == 0 && (x / 2) % d == 0
  {
    var h, r := x / 2, x % 2;
    var q, t := h / d, h % d;
    assert x == q * (2 * d) + (2 * t + r) by {
      assert h == q * d + t;
      assert q * (2 * d) == 2 * (q * d);
    }
    DivUnique(x, 2 * d, q, 2 * t + r);
  }

  lemma DividesMultiple(k: nat, x: int, q: int)
    requires x == q * Pow2(k)
    ensures Divides(k, x)
  {
    ModMultiple(q, Pow2(k));
    DividesIs(k, x);
  }

  lemma ModMultiple(q: int, d: int)
    requires d > 0
    ensures (q * d) % d == 0
  {
    DivUnique(q * d, d, q, 0);
  }

  lemma DivUnique(x: int, d: int, q: int, r: int)
    requires d > 0 && x == q * d + r && 0 <= r < d
    ensures x / d == q && x % d == r
  {
    var q', r' := x / d, x % d;
    assert x == d * q' + r';
    assert (q - q') * d == r' - r;
    if q - q' >= 1 {
      assert (q - q') * d >= d by { MulGrows(q - q', d); }
    } else if q - q' <= -1 {
      assert (q' - q) * d >= d by { MulGrows(q' - q, d); }
    }
  }

  lemma MulGrows(a: int, d: int)
    requires a >= 1 && d > 0
    ensures a * d >= d
  {
  }

  lemma DividesQuotient(k: nat, x: int)
    requires Divides(k, x)
    ensures x == (x / Pow2(k)) * Pow2(k)
  {
    DividesIs(k, x);
  }

  lemma {:induction false} DividesSum(k: nat, x: int, y: int)
    requires Divides(k, x)
    ensures Divides(k, x + y) <==> Divides(k, y)
    ensures Divides(k, y - x) <==> Divides(k, y)
    ensures Divides(k, y + x) <==> Divides(k, y)
  {
    if k > 0 {
      DividesSum(k - 1, x / 2, y / 2);
      if y % 2 == 0 {
        assert (x + y) / 2 == x / 2 + y / 2 && (y - x) / 2 == y / 2 - x / 2;
      }
    }
  }

  /** A multiple of a higher power is a multiple of a lower one. */
  lemma {:induction false} DividesLower(k: nat, h: nat, x: int)
    requires k <= h && Divides(h, x)
    ensures Divides(k, x)
  {
    if k > 0 {
      DividesLower(k - 1, h - 1, x / 2);
    }
  }

  /** A positive multiple is at least as large. */
  lemma {:induction false} DividesAtLeast(k: nat, x: int)
    requires Divides(k, x) && x > 0
    ensures x >= Pow2(k)
  {
    if k > 0 {
      DividesAtLeast(k - 1, x / 2);
    }
  }

  lemma MulAssoc(a: int, b: int, c: int)
    ensures a * (c * b) == (a * b) * c
  {
  }

  /** Bit k of n. */
  predicate BitSet(n: nat, k: nat) {
    if k == 0 then n % 2 == 1 else BitSet(n / 2, k - 1)
  }

  lemma {:induction false} BitSetIs(n: nat, k: nat)
    ensures BitSet(n, k) <==> (n / Pow2(k)) % 2 == 1
  {
    if k > 0 {
      BitSetIs(n / 2, k - 1);
      HalfQuotient(n, Pow2(k - 1));
    }
  }

  lemma {:induction false} BitSetGrows(n: nat, k: nat)
    ensures BitSet(n, k) ==> n >= Pow2(k)
  {
    if k > 0 {
      BitSetGrows(n / 2, k - 1);
    }
  }

  lemma HalfQuotient(n: nat, d: nat)
    requires d > 0
    ensures n / 2 / d == n / (2 * d)
  {
    var q, r := n / 2 / d, n / 2 % d;
    assert n / 2 == q * d + r;
    assert n == q * (2 * d) + (2 * r + n % 2) by { assert q * (2 * d) == 2 * (q * d); }
    DivUnique(n, 2 * d, q, 2 * r + n % 2);
  }

  lemma BitOfMultiple(m: nat, k: nat, x: nat)
    requires x == m * Pow2(k)
    ensures BitSet(x, k) <==> m % 2 == 1
  {
  }

  /** A multiple of 2^k without bit k is a multiple of 2^(k+1). */
  lemma {:induction false} EvenMultiple(x: nat, k: nat)
    requires Divides(k, x) && !BitSet(x, k)
    ensures Divides(k + 1, x)
  {
    if k > 0 {
      EvenMultiple(x / 2, k - 1);
    } else {
      assert Divides(0, x / 2);
    }
  }

  // ---------- bitwise or ----------

  function Or(a: nat, b: nat): nat
    decreases a + b
  {
    if a == 0 then b
    else if b == 0 then a
    else 2 * Or(a / 2, b / 2) + if a % 2 == 1 || b % 2 == 1 then 1 else 0
  }

  /** Or halves bit by bit. */
  lemma OrHalves(a: nat, b: nat)
    ensures Or(a, b) / 2 == Or(a / 2, b / 2) && (Or(a, b) % 2 == 1 <==> a % 2 == 1 || b % 2 == 1)
  {
  }

  /** Bit k of the result is set exactly if it is set in one of the two. */
  lemma {:induction false} OrBits(a: nat, b: nat, k: nat)
    ensures BitSet(Or(a, b), k) <==> BitSet(a, k) || BitSet(b, k)
  {
    OrHalves(a, b);
    if k > 0 {
      OrBits(a / 2, b / 2, k - 1);
    }
  }

  /** Where the bits do not meet, or is addition. */
  lemma {:induction false} OrIsSum(a: nat, b: nat, k: nat)
    requires Divides(k, a) && b < Pow2(k)
    ensures Or(a, b) == a + b
  {
    OrHalves(a, b);
    if k > 0 {
      OrIsSum(a / 2, b / 2, k - 1);
    }
  }

  /** x without its k lowest bits. */
  function Shifted(x: nat, k: nat): nat {
    if k == 0 then x else Shifted(x / 2, k - 1)
  }

  lemma {:induction false} ShiftedIs(x: nat, k: nat)
    ensures Shifted(x, k) == x / Pow2(k)
  {
    if k > 0 {
      ShiftedIs(x / 2, k - 1);
      HalfQuotient(x, Pow2(k - 1));
    }
  }

  /** Shifting right distributes over or. */
  lemma {:induction false} OrShifted(a: nat, b: nat, k: nat)
    ensures Shifted(Or(a, b), k) == Or(Shifted(a, k), Shifted(b, k))
  {
    if k > 0 {
      OrHalves(a, b);
      OrShifted(a / 2, b / 2, k - 1);
    }
  }

  lemma {:induction false} ShiftedBit(x: nat, h: nat, k: nat)
    ensures BitSet(Shifted(x, h), k) <==> BitSet(x, h + k)
  {
    if h > 0 {
      ShiftedBit(x / 2, h - 1, k);
    }
  }

  ghost predicate BitsWithin(b: nat, a: nat) { forall k: nat | BitSet(b, k) :: BitSet(a, k) }

  /** Or adds nothing to a exactly if every bit of b is set in a. */
  lemma OrAbsorbs(a: nat, b: nat)
    ensures Or(a, b) == a <==> BitsWithin(b, a)
  {
    if BitsWithin(b, a) {
      OrOfSubset(a, b);
    }
    if Or(a, b) == a {
      forall k: nat | BitSet(b, k) ensures BitSet(a, k) {
        OrBits(a, b, k);
      }
    }
  }

  lemma {:induction false} OrOfSubset(a: nat, b: nat)
    requires BitsWithin(b, a)
    ensures Or(a, b) == a
  {
    if a == 0 && b > 0 {
      var k := SomeBit(b);
      NoBits(k);
    } else if b > 0 {
      OrHalves(a, b);
      assert b % 2 == 1 ==> BitSet(b, 0) && BitSet(a, 0);
      forall k: nat | BitSet(b / 2, k) ensures BitSet(a / 2, k) {
        assert BitSet(b, k + 1) && BitSet(a, k + 1);
      }
      OrOfSubset(a / 2, b / 2);
    }
  }

  lemma {:induction false} NoBits(k: nat)
    ensures !BitSet(0, k)
  {
    if k > 0 {
      NoBits(k - 1);
    }
  }

  lemma {:induction false} SomeBit(b: nat) returns (k: nat)
    requires b > 0
    ensures BitSet(b, k)
  {
    if b % 2 == 1 {
      k := 0;
    } else {
      k := SomeBit(b / 2);
      k := k + 1;
    }
  }
}
