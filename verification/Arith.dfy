/** Small facts about products and quotients, kept apart so that no other proof has to multiply. */
module Arith {

  // Product, quotient and remainder by repeated addition and subtraction. Programs that
  // would multiply or divide by a variable use these, so that their proofs stay linear;
  // TimesIsProduct and DivModAreQuotient tie them to the operators of the language.
  function Times(a: nat, b: nat): (r: nat)
    ensures a > 0 && b > 0 ==> r > 0
  {
    if a == 0 then 0 else Times(a - 1, b) + b
  }

  function Div(x: nat, n: nat): nat
    requires n > 0
  {
    if x < n then 0 else Div(x - n, n) + 1
  }

  function Mod(x: nat, n: nat): (r: nat)
    requires n > 0
    ensures r < n
  {
    if x < n then x else Mod(x - n, n)
  }

  lemma {:induction false} TimesIsProduct(a: nat, b: nat)
    ensures Times(a, b) == a * b
  {
    if a > 0 {
      TimesIsProduct(a - 1, b);
      Distribute(a - 1, 1, b);
    }
  }

  lemma {:induction false} DivMod(x: nat, n: nat)
    requires n > 0
    ensures x == Div(x, n) * n + Mod(x, n)
  {
    if x >= n {
      DivMod(x - n, n);
      Distribute(Div(x - n, n), 1, n);
    }
  }

  lemma DivModAreQuotient(x: nat, n: nat)
    requires n > 0
    ensures Div(x, n) == x / n && Mod(x, n) == x % n
  {
    DivMod(x, n);
    DivUnique(x, n, Div(x, n), Mod(x, n));
  }

  // The same in terms of Times.
  lemma DivTimes(x: nat, n: nat)
    requires n > 0
    ensures x == Times(Div(x, n), n) + Mod(x, n)
  {
    DivMod(x, n);
    TimesIsProduct(Div(x, n), n);
  }

  lemma {:induction false} TimesAdd(a: nat, b: nat, n: nat)
    ensures Times(a + b, n) == Times(a, n) + Times(b, n)
  {
    if b > 0 {
      TimesAdd(a, b - 1, n);
    }
  }

  lemma TimesCommutes(a: nat, b: nat)
    ensures Times(a, b) == Times(b, a)
  {
    TimesIsProduct(a, b);
    TimesIsProduct(b, a);
  }

  lemma TimesMono(a: nat, b: nat, n: nat)
    requires a <= b
    ensures Times(a, n) <= Times(b, n)
  {
    TimesAdd(a, b - a, n);
  }

  lemma {:induction false} DivShift(q: nat, x: nat, n: nat)
    requires n > 0
    ensures Div(Times(q, n) + x, n) == q + Div(x, n) && Mod(Times(q, n) + x, n) == Mod(x, n)
  {
    if q > 0 {
      DivShift(q - 1, x, n);
    }
  }

  lemma DivBound(x: nat, q: nat, n: nat)
    requires n > 0
    ensures x <= Times(q, n) ==> Div(x, n) <= q
    ensures x < Times(q, n) ==> Div(x, n) < q
  {
    DivTimes(x, n);
    if Div(x, n) > q {
      TimesMono(q + 1, Div(x, n), n);
    }
  }

  lemma Distribute(a: int, b: int, n: int)
    ensures (a + b) * n == a * n + b * n
  {
  }

  lemma MulNonneg(a: int, b: int)
    requires a >= 0 && b >= 0
    ensures a * b >= 0
  {
  }

  lemma MulMono(a: int, b: int, n: int)
    requires a <= b && n >= 0
    ensures a * n <= b * n
  {
    MulNonneg(b - a, n);
    Distribute(a, b - a, n);
  }

  // A multiple of n strictly between -n and n is 0.
  lemma SmallMultiple(d: int, n: int)
    requires n > 0 && d * n < n && d * n + n > 0
    ensures d == 0
  {
    if d > 0 {
      MulMono(1, d, n);
    } else if d < 0 {
      MulMono(d, -1, n);
    }
  }

  // Quotient and remainder are determined by x == q * n + r with 0 <= r < n.
  lemma DivUnique(x: int, n: int, q: int, r: int)
    requires 0 <= r < n && x == q * n + r
    ensures x / n == q && x % n == r
  {
    assert x == n * (x / n) + x % n;
    assert n * (x / n) == (x / n) * n;
    Distribute(q, -(x / n), n);
    assert -(x / n) * n == -((x / n) * n);
    SmallMultiple(q - x / n, n);
  }

  lemma DivEuclid(x: int, n: int)
    requires n > 0
    ensures x == (x / n) * n + x % n && 0 <= x % n < n
  {
    assert x == n * (x / n) + x % n;
  }

  function Least(a: nat, b: nat): nat {
    if a < b then a else b
  }

  // The value kept by an unsigned variable of 32 or 16 bits.
  function U32(x: int): (r: nat)
    ensures r < 0x1_0000_0000
    ensures 0 <= x < 0x1_0000_0000 ==> r == x
  {
    x % 0x1_0000_0000
  }

  function U16(x: int): (r: nat)
    ensures r < 0x1_0000
    ensures 0 <= x < 0x1_0000 ==> r == x
  {
    x % 0x1_0000
  }

  predicate Aligned(x: nat, n: nat)
    requires n > 0
  {
    Mod(x, n) == 0
  }

  // Sums and differences of multiples are multiples.
  lemma AlignedSum(a: nat, b: nat, n: nat)
    requires n > 0 && Aligned(a, n)
    ensures Mod(a + b, n) == Mod(b, n)
    ensures a >= b ==> (Aligned(b, n) <==> Aligned(a - b, n))
  {
    DivTimes(a, n);
    DivShift(Div(a, n), b, n);
    if a >= b {
      if Aligned(b, n) {
        DivTimes(b, n);
        DivShift(Div(b, n), a - b, n);
      }
      if Aligned(a - b, n) {
        DivTimes(a - b, n);
        DivShift(Div(a - b, n), b, n);
      }
    }
  }

  lemma {:induction false} AlignedTransitive(a: nat, m: nat, n: nat)
    requires m > 0 && n > 0 && Aligned(a, m) && Aligned(m, n)
    ensures Aligned(a, n)
  {
    if a >= m {
      AlignedTransitive(a - m, m, n);
      AlignedSum(m, a - m, n);
    }
  }

  lemma AlignedGap(a: nat, b: nat, n: nat)
    requires n > 0 && Aligned(a, n) && Aligned(b, n) && a < b
    ensures a + n <= b
  {
    AlignedSum(b, a, n);
  }

  lemma {:induction false} TimesAligned(q: nat, n: nat, k: nat)
    requires k > 0 && Aligned(n, k)
    ensures Aligned(Times(q, n), k)
  {
    if q > 0 {
      TimesAligned(q - 1, n, k);
      AlignedSum(Times(q - 1, n), n, k);
    }
  }

  // An aligned group of k lies inside one block of n.
  lemma AlignedGroup(x: nat, k: nat, n: nat)
    requires n > 0 && k > 0 && Aligned(x, k) && Aligned(n, k)
    ensures Mod(x, n) + k <= n
  {
    var q := Div(x, n);
    DivTimes(x, n);
    TimesAligned(q, n, k);
    AlignedSum(Times(q, n), Mod(x, n), k);
    AlignedGap(Mod(x, n), n, k);
  }

  lemma SameBlock(x: nat, j: nat, n: nat)
    requires n > 0 && Mod(x, n) + j < n
    ensures Div(x + j, n) == Div(x, n) && Mod(x + j, n) == Mod(x, n) + j
  {
    DivTimes(x, n);
    DivShift(Div(x, n), Mod(x, n) + j, n);
  }

  function RoundDown(x: nat, n: nat): (r: nat)
    requires n > 0
    ensures r <= x < r + n
    ensures Aligned(r, n)
    ensures Aligned(x, n) ==> r == x
  {
    DivTimes(x, n);
    DivShift(Div(x, n), 0, n);
    assert Times(Div(x, n), n) + 0 == x - Mod(x, n);
    x - Mod(x, n)
  }

  lemma RoundDownIsRemainder(x: nat, n: nat)
    requires n > 0
    ensures x - RoundDown(x, n) == Mod(x, n)
  {
  }

  function RoundUp(x: nat, n: nat): (r: nat)
    requires n > 0
    ensures x <= r < x + n
    ensures Aligned(r, n)
  {
    RoundDown(x + n - 1, n)
  }

  lemma RoundUpExact(x: nat, n: nat)
    requires n > 0
    ensures Aligned(x, n) <==> RoundUp(x, n) == x
    ensures RoundUp(x, n) == Times(Div(x + n - 1, n), n)
  {
    if Aligned(x, n) && x < RoundUp(x, n) {
      AlignedGap(x, RoundUp(x, n), n);
    }
    DivTimes(x + n - 1, n);
  }

  lemma RoundingKeeps(x: nat, limit: nat, n: nat)
    requires n > 0 && Aligned(limit, n)
    ensures limit <= x ==> limit <= RoundDown(x, n)
    ensures x <= limit ==> RoundUp(x, n) <= limit
  {
    if RoundDown(x, n) < limit {
      AlignedGap(RoundDown(x, n), limit, n);
    }
    if limit < RoundUp(x, n) {
      AlignedGap(limit, RoundUp(x, n), n);
    }
  }

  // A set of n numbers below n has them all.
  lemma {:induction false} BoundedSetSize(s: set<nat>, n: nat)
    requires forall x :: x in s ==> x < n
    ensures |s| <= n
    ensures |s| == n ==> forall x :: 0 <= x < n ==> x in s
  {
    if n == 0 {
      assert s == {};
    } else {
      var t := s - {n - 1};
      BoundedSetSize(t, n - 1);
      if n - 1 !in s {
        assert t == s;
      }
    }
  }
}
