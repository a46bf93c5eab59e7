/**
 Number facts behind the probe sequence of hash.c: stepping by any non-zero amount
 modulo a prime visits every residue before it repeats.
 */
module Primes {
  import opened Arith

  ghost predicate IsPrime(n: nat) {
    n >= 2 && forall d :: 2 <= d < n ==> n % d != 0
  }

  // Position reached from start after k steps of the given width.
  function Probe(start: nat, step: nat, size: nat, k: nat): (pos: nat)
    requires size > 0
    ensures pos < size
  {
    if k == 0 then Mod(start, size) else Mod(Probe(start, step, size, k - 1) + step, size)
  }

  // A prime p that divides a * b, and not a, divides b. Divisibility is stated by its cofactor.
  lemma {:induction false} Euclid(p: nat, a: nat, b: nat, m: int) returns (n: int)
    requires IsPrime(p) && 0 < a < p
    requires a * b == m * p
    ensures b == n * p
    decreases a
  {
    if a == 1 {
      n := m;
    } else {
      var q, r := p / a, p % a;
      assert r != 0;
      calc {
        r * b;
        (p - q * a) * b;
        p * b - (q * a) * b;
        p * b - q * (a * b);
        p * b - q * (m * p);
        (b - q * m) * p;
      }
      n := Euclid(p, r, b, b - q * m);
    }
  }

  lemma {:induction false} ProbeClosedForm(start: nat, step: nat, size: nat, k: nat) returns (laps: int)
    requires size > 0
    ensures start + k * step == Probe(start, step, size, k) + laps * size
  {
    if k == 0 {
      DivMod(start, size);
      laps := Div(start, size);
    } else {
      var before := ProbeClosedForm(start, step, size, k - 1);
      var x := Probe(start, step, size, k - 1) + step;
      DivMod(x, size);
      var more := Div(x, size);
      laps := before + more;
      Distribute(k - 1, 1, step);
      Distribute(before, more, size);
    }
  }

  lemma ProbeInjective(start: nat, step: nat, size: nat, i: nat, j: nat)
    requires IsPrime(size) && 0 < step < size
    requires i < j < size
    ensures Probe(start, step, size, i) != Probe(start, step, size, j)
  {
    var a := ProbeClosedForm(start, step, size, i);
    var b := ProbeClosedForm(start, step, size, j);
    if Probe(start, step, size, i) == Probe(start, step, size, j) {
      assert step * (j - i) == j * step - i * step;
      assert (b - a) * size == b * size - a * size;
      var n := Euclid(size, step, j - i, b - a);
      SmallMultiple(n, size);
    }
  }

  ghost function Visited(start: nat, step: nat, size: nat, k: nat): set<nat>
    requires size > 0
  {
    set i: nat | i < k :: Probe(start, step, size, i)
  }

  lemma {:induction false} VisitedCount(start: nat, step: nat, size: nat, k: nat)
    requires IsPrime(size) && 0 < step < size && k <= size
    ensures |Visited(start, step, size, k)| == k
  {
    if k > 0 {
      VisitedCount(start, step, size, k - 1);
      forall i: nat | i < k - 1
        ensures Probe(start, step, size, i) != Probe(start, step, size, k - 1)
      {
        ProbeInjective(start, step, size, i, k - 1);
      }
      var last := Probe(start, step, size, k - 1);
      assert Visited(start, step, size, k) == Visited(start, step, size, k - 1) + {last};
    }
  }

  // A walk of size steps visits every slot.
  lemma ProbeVisitsEverySlot(start: nat, step: nat, size: nat, q: nat) returns (k: nat)
    requires IsPrime(size) && 0 < step < size && q < size
    ensures k < size && Probe(start, step, size, k) == q
  {
    var seen := Visited(start, step, size, size);
    VisitedCount(start, step, size, size);
    BoundedSetSize(seen, size);
    assert q in seen;
    k :| k < size && Probe(start, step, size, k) == q;
  }
}
