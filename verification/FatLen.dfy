/**
 The length of a file allocation table (calc_fat_len in mformat.c). A table of f sectors and
 n clusters of data fit together when each cluster has its entry; entries are counted in
 nybbles of 4 bits, so that 12-bit entries are whole numbers of them.
 */
module FatLen {
  import opened Arith
  import Codec = FatCodec

  const TWO32: int := 0x1_0000_0000

  // f is the quotient x / d rounded up.
  ghost predicate IsCeiling(f: int, x: int, d: int) {
    (f - 1) * d < x <= f * d
  }

  lemma CeilingByDivision(x: int, d: int)
    requires x > 0 && d > 0
    ensures IsCeiling((x - 1) / d + 1, x, d)
    ensures (x - 1) / d + 1 >= 1
  {
    DivEuclid(x - 1, d);
    Distribute((x - 1) / d, 1, d);
    if (x - 1) / d < 0 {
      MulMono((x - 1) / d, -1, d);
    }
  }

  lemma CeilingUnique(f: int, g: int, x: int, d: int)
    requires d > 0 && IsCeiling(f, x, d) && IsCeiling(g, x, d)
    ensures f == g
  {
    if f < g {
      MulMono(f, g - 1, d);
    } else if g < f {
      MulMono(g, f - 1, d);
    }
  }

  // Nybbles that one cluster costs, in its data and in all copies of the table.
  function PerCluster(clusterSize: nat, sectorSize: nat, numFat: nat, nybbles: nat): nat {
    2 * (clusterSize * sectorSize) + numFat * nybbles
  }

  // The exact length: what nybbles/4 * (rem + 2 * cluster) / (2 * cluster * sector + n * nybbles/4)
  // gives when rounded up, with everything counted in nybbles.
  ghost predicate IsFatLen(f: int, rem: int, clusterSize: nat, sectorSize: nat, numFat: nat, nybbles: nat) {
    IsCeiling(f, nybbles * (rem + 2 * clusterSize), PerCluster(clusterSize, sectorSize, numFat, nybbles))
  }

  // Multiplying the sides of a comparison by a common factor, and taking it away again.
  lemma CancelFactor(a: int, b: int, c: int)
    requires c > 0 && a * c <= b * c
    ensures a <= b
  {
    if a > b {
      MulMono(b + 1, a, c);
      Distribute(b, 1, c);
    }
  }

  // A table of f sectors for n clusters costs f * (2 * cluster * sector) nybbles of room.
  lemma SplitCost(f: int, clusterSize: nat, sectorSize: nat, numFat: nat, nybbles: nat)
    ensures f * PerCluster(clusterSize, sectorSize, numFat, nybbles)
         == (f * (2 * sectorSize)) * clusterSize + (numFat * f) * nybbles
  {
    calc {
      f * (2 * (clusterSize * sectorSize) + numFat * nybbles);
      f * (2 * (clusterSize * sectorSize)) + f * (numFat * nybbles);
      { assert f * (2 * (clusterSize * sectorSize)) == (f * (2 * sectorSize)) * clusterSize; }
      (f * (2 * sectorSize)) * clusterSize + f * (numFat * nybbles);
      { assert f * (numFat * nybbles) == (numFat * f) * nybbles; }
      (f * (2 * sectorSize)) * clusterSize + (numFat * f) * nybbles;
    }
  }

  // n clusters, and the two reserved entries, have their entries in a table of f sectors.
  predicate Fits(n: nat, f: nat, sectorSize: nat, nybbles: nat) {
    (n + 2) * nybbles <= f * (2 * sectorSize)
  }

  // The computed length holds an entry for every cluster that is left.
  lemma LengthHolds(f: nat, rem: nat, n: nat, clusterSize: nat, sectorSize: nat, numFat: nat, nybbles: nat)
    requires clusterSize > 0 && IsFatLen(f, rem, clusterSize, sectorSize, numFat, nybbles)
    requires n * clusterSize <= rem - numFat * f
    ensures Fits(n, f, sectorSize, nybbles)
  {
    SplitCost(f, clusterSize, sectorSize, numFat, nybbles);
    calc {
      ((n + 2) * nybbles) * clusterSize;
      { assert ((n + 2) * nybbles) * clusterSize == nybbles * ((n + 2) * clusterSize); Distribute(n, 2, clusterSize); }
      nybbles * (n * clusterSize + 2 * clusterSize);
      <= { MulMono(n * clusterSize + 2 * clusterSize, rem - numFat * f + 2 * clusterSize, nybbles); }
      nybbles * (rem - numFat * f + 2 * clusterSize);
      { Distribute(rem + 2 * clusterSize, -(numFat * f), nybbles); }
      nybbles * (rem + 2 * clusterSize) - (numFat * f) * nybbles;
      <=
      (f * (2 * sectorSize)) * clusterSize;
    }
    CancelFactor((n + 2) * nybbles, f * (2 * sectorSize), clusterSize);
  }

  // A length that works, whatever its size, costs nearly as much as the exact quotient asks for.
  lemma WorkingLengthCost(rem: nat, g: nat, n: nat, clusterSize: nat, sectorSize: nat, numFat: nat, nybbles: nat)
    requires n * clusterSize > rem - numFat * g - clusterSize
    requires Fits(n, g, sectorSize, nybbles)
    ensures g * PerCluster(clusterSize, sectorSize, numFat, nybbles) >= nybbles * (rem + clusterSize)
  {
    SplitCost(g, clusterSize, sectorSize, numFat, nybbles);
    calc {
      (g * (2 * sectorSize)) * clusterSize;
      >= { MulMono((n + 2) * nybbles, g * (2 * sectorSize), clusterSize); }
      ((n + 2) * nybbles) * clusterSize;
      { assert ((n + 2) * nybbles) * clusterSize == nybbles * ((n + 2) * clusterSize); Distribute(n, 2, clusterSize); }
      nybbles * (n * clusterSize + 2 * clusterSize);
      >= { MulMono(rem - numFat * g + clusterSize, n * clusterSize + 2 * clusterSize, nybbles); }
      nybbles * (rem - numFat * g + clusterSize);
      { Distribute(rem + clusterSize, -(numFat * g), nybbles); }
      nybbles * (rem + clusterSize) - (numFat * g) * nybbles;
    }
  }

  // One cluster more to share out asks for less than one more sector of table.
  lemma OneClusterMore(rem: nat, clusterSize: nat, sectorSize: nat, numFat: nat, nybbles: nat)
    requires clusterSize > 0 && sectorSize >= 16 && nybbles <= 8
    ensures nybbles * (rem + 2 * clusterSize)
         <= nybbles * (rem + clusterSize) + PerCluster(clusterSize, sectorSize, numFat, nybbles)
    ensures PerCluster(clusterSize, sectorSize, numFat, nybbles) > 0
  {
    MulMono(16, sectorSize, clusterSize);
    MulNonneg(numFat, nybbles);
    MulMono(nybbles, 8, clusterSize);
  }

  // No length that works is more than one sector shorter.
  lemma LengthNearlyLeast(f: nat, rem: nat, g: nat, n: nat, clusterSize: nat, sectorSize: nat, numFat: nat, nybbles: nat)
    requires clusterSize > 0 && sectorSize >= 16 && nybbles <= 8
    requires IsFatLen(f, rem, clusterSize, sectorSize, numFat, nybbles)
    requires n * clusterSize > rem - numFat * g - clusterSize  // as many clusters as the rest allows
    requires Fits(n, g, sectorSize, nybbles)
    ensures f <= g + 1
  {
    var d := PerCluster(clusterSize, sectorSize, numFat, nybbles);
    WorkingLengthCost(rem, g, n, clusterSize, sectorSize, numFat, nybbles);
    OneClusterMore(rem, clusterSize, sectorSize, numFat, nybbles);
    CeilingNearlyLeast(f, g, nybbles * (rem + 2 * clusterSize), d);
  }

  lemma CeilingNearlyLeast(f: int, g: int, x: int, d: int)
    requires IsCeiling(f, x, d) && g * d + d >= x && d > 0
    ensures f <= g + 1
  {
    if g + 1 < f {
      MulMono(g + 1, f - 1, d);
      Distribute(g, 1, d);
    }
  }

  // With whole sectors of a multiple of 4 bytes the divisor divides evenly by the entry size.
  lemma DivisorIsExact(clusterSize: nat, sectorSize: nat, numFat: nat, nybbles: nat)
    requires nybbles == 4 || nybbles == 8
    requires sectorSize % 4 == 0
    ensures PerCluster(clusterSize, sectorSize, numFat, nybbles) % nybbles == 0
  {
    var q := clusterSize * (sectorSize / 4);
    assert clusterSize * sectorSize == 4 * q by {
      assert sectorSize == 4 * (sectorSize / 4);
    }
    if nybbles == 4 {
      assert PerCluster(clusterSize, sectorSize, numFat, 4) == 4 * (2 * q + numFat);
    } else {
      assert PerCluster(clusterSize, sectorSize, numFat, 8) == 8 * (q + numFat);
    }
  }

  lemma CeilingScales(f: int, x: int, d: int, k: int)
    requires k > 0 && IsCeiling(f, x, d)
    ensures IsCeiling(f, k * x, d * k)
  {
    MulMono((f - 1) * d + 1, x, k);
    Distribute((f - 1) * d, 1, k);
    MulMono(x, f * d, k);
    assert ((f - 1) * d) * k == (f - 1) * (d * k);
    assert (f * d) * k == f * (d * k);
  }

  // The quotient as the source computes it, every step in 32-bit arithmetic; cost is the number
  // of nybbles per cluster.
  function WrappedLength(rem: nat, clusterSize: nat, cost: nat, nybbles: nat): int
    requires nybbles > 0
  {
    var numerator := U32(rem + 2 * clusterSize);
    var denominator := if nybbles == 3 then U32(cost) else U32(cost) / nybbles;
    Reduced(if nybbles == 3 then U32(numerator * 3) else numerator, denominator, rem > denominator)
  }

  function Reduced(numerator: nat, denominator: nat, reduce: bool): int {
    var n := if reduce then U32(numerator - denominator) else numerator;
    if denominator == 0 then 0 else (n - 1) / denominator + 1 + (if reduce then 1 else 0)
  }

  // In spite of the wrap-around the length is exact.
  lemma WrappedLengthIsExact(rem: nat, clusterSize: nat, cost: nat, nybbles: nat)
    requires 1 <= clusterSize <= 255 && 256 * clusterSize < cost < TWO32
    requires nybbles in {3, 4, 8} && rem < TWO32 && (nybbles == 3 ==> rem <= 0x10_0000)
    requires nybbles != 3 ==> cost % nybbles == 0
    ensures 1 <= WrappedLength(rem, clusterSize, cost, nybbles) < TWO32
    ensures IsCeiling(WrappedLength(rem, clusterSize, cost, nybbles), nybbles * (rem + 2 * clusterSize), cost)
  {
    if nybbles == 3 {
      var x := 3 * (rem + 2 * clusterSize);
      ReducedIsExact(x, cost, rem > cost);
      assert WrappedLength(rem, clusterSize, cost, 3) == Reduced(U32(x), cost, rem > cost);
      assert nybbles * (rem + 2 * clusterSize) == x;
    } else if nybbles == 4 {
      WideLengthIsExact(rem, clusterSize, cost, cost / 4, 4);
      assert WrappedLength(rem, clusterSize, cost, 4) == Reduced(U32(rem + 2 * clusterSize), cost / 4, rem > cost / 4);
    } else {
      WideLengthIsExact(rem, clusterSize, cost, cost / 8, 8);
      assert WrappedLength(rem, clusterSize, cost, 8) == Reduced(U32(rem + 2 * clusterSize), cost / 8, rem > cost / 8);
    }
  }

  lemma WideLengthIsExact(rem: nat, clusterSize: nat, cost: nat, d: nat, nybbles: nat)
    requires 1 <= clusterSize <= 255 && 256 * clusterSize < cost < TWO32 && rem < TWO32
    requires nybbles == 4 || nybbles == 8
    requires cost == d * nybbles
    ensures d == cost / nybbles
    ensures var f := Reduced(U32(rem + 2 * clusterSize), d, rem > d);
      1 <= f < TWO32 && IsCeiling(f, nybbles * (rem + 2 * clusterSize), cost)
  {
    ReducedIsExact(rem + 2 * clusterSize, d, rem > d);
    CeilingScales(Reduced(U32(rem + 2 * clusterSize), d, rem > d), rem + 2 * clusterSize, d, nybbles);
  }

  // Subtracting the divisor once, in 32-bit arithmetic, undoes an overflow of the numerator;
  // adding 1 to the quotient afterwards makes up for it.
  lemma ReducedIsExact(x: nat, d: nat, reduce: bool)
    requires d >= 2
    requires if reduce then 0 < x - d < TWO32 else 0 < x < TWO32
    ensures 1 <= Reduced(U32(x), d, reduce) < TWO32 && IsCeiling(Reduced(U32(x), d, reduce), x, d)
  {
    var n := if reduce then x - d else x;
    if reduce {
      WrapCancels(x, d);
    }
    HalfQuotient(n - 1, d);
    CeilingByDivision(n, d);
    if reduce {
      CeilingPlusOne((n - 1) / d + 1, n, d);
    }
  }

  // Wrapping round twice is wrapping round once.
  lemma WrapCancels(x: nat, d: nat)
    requires 0 <= x - d < TWO32
    ensures U32(U32(x) - d) == x - d
  {
    var k := x / 0x1_0000_0000;
    assert U32(x) == x - 0x1_0000_0000 * k;
    assert U32(x - d - 0x1_0000_0000 * k) == U32(x - d);
  }

  lemma HalfQuotient(x: nat, d: nat)
    requires d >= 2
    ensures 0 <= 2 * (x / d) <= x
  {
    DivEuclid(x, d);
    if x / d < 0 {
      MulMono(x / d, -1, d);
    }
    MulMono(2, d, x / d);
    assert d * (x / d) == (x / d) * d;
  }

  lemma CeilingPlusOne(f: int, x: int, d: int)
    requires IsCeiling(f, x, d)
    ensures IsCeiling(f + 1, x + d, d)
  {
    Distribute(f - 1, 1, d);
    Distribute(f, 1, d);
  }

  lemma ProductRange(a: nat, b: nat, most: nat, lo: nat, hi: nat)
    requires a <= most && lo <= b <= hi
    ensures lo * a <= a * b <= most * hi
  {
    MulMono(lo, b, a);
    MulMono(a, most, b);
    MulMono(b, hi, most);
    assert b * a == a * b && b * most == most * b && hi * most == most * hi;
  }

  lemma PerClusterRange(clusterSize: nat, sectorSize: nat, numFat: nat, nybbles: nat)
    requires 1 <= clusterSize <= 255 && 128 <= sectorSize <= 8192 && 1 <= numFat <= 255 && nybbles <= 8
    ensures 256 * clusterSize <= PerCluster(clusterSize, sectorSize, numFat, nybbles) < TWO32
    ensures nybbles > 0 ==> 256 * clusterSize < PerCluster(clusterSize, sectorSize, numFat, nybbles)
  {
    ProductRange(clusterSize, sectorSize, 255, 128, 8192);
    ProductRange(numFat, nybbles, 255, 0, 8);
    if nybbles > 0 {
      ProductRange(numFat, nybbles, 255, 1, 8);
    }
  }

  // Doubling the cluster size, with no more sectors to share out, never needs a longer table.
  lemma LengthShrinks(f: nat, rem: nat, g: nat, rem2: nat, clusterSize: nat, sectorSize: nat, numFat: nat, nybbles: nat)
    requires f >= 1 && clusterSize > 0 && sectorSize >= 16 && nybbles <= 8 && rem2 <= rem
    requires IsFatLen(f, rem, clusterSize, sectorSize, numFat, nybbles)
    requires IsFatLen(g, rem2, 2 * clusterSize, sectorSize, numFat, nybbles)
    ensures g <= f
  {
    var k := 2 * (clusterSize * sectorSize);
    var d := PerCluster(clusterSize, sectorSize, numFat, nybbles);
    assert PerCluster(2 * clusterSize, sectorSize, numFat, nybbles) == d + k;
    assert k >= nybbles * (2 * clusterSize) by {
      MulMono(nybbles, sectorSize, 2 * clusterSize);
    }
    MulMono(rem2 + 2 * (2 * clusterSize), rem + 4 * clusterSize, nybbles);
    Distribute(rem + 2 * clusterSize, 2 * clusterSize, nybbles);
    CostShrinks(f, nybbles * (rem + 2 * clusterSize), g, nybbles * (rem2 + 2 * (2 * clusterSize)), d, k);
  }

  lemma CostShrinks(f: int, x: int, g: int, y: int, d: int, k: int)
    requires f >= 1 && d + k > 0 && k >= 0 && y <= x + k
    requires IsCeiling(f, x, d) && IsCeiling(g, y, d + k)
    ensures g <= f
  {
    MulMono(1, f, k);
    assert f * (d + k) == f * d + f * k;
    if g > f {
      MulMono(f, g - 1, d + k);
    }
  }

  // The exact length leaves room for m clusters, unless there are few sectors altogether.
  lemma LengthLeavesRoom(f: nat, rem: nat, m: nat, clusterSize: nat, sectorSize: nat, numFat: nat, nybbles: nat)
    requires f >= 1 && clusterSize >= 1 && sectorSize >= 128 && numFat <= 255 && nybbles <= 8
    requires IsFatLen(f, rem, clusterSize, sectorSize, numFat, nybbles)
    requires rem >= clusterSize * m + nybbles * (m + 257) + 255
    ensures numFat * f + clusterSize * m <= rem
  {
    if numFat * f + clusterSize * m > rem {
      TightLength(f, rem, m, clusterSize, sectorSize, numFat, nybbles);
      MulMono(numFat, 255, f);
      MulNonneg(nybbles, m + 257);
    }
  }

  lemma TightLength(f: nat, rem: nat, m: nat, clusterSize: nat, sectorSize: nat, numFat: nat, nybbles: nat)
    requires f >= 1 && clusterSize >= 1 && sectorSize >= 128 && numFat <= 255 && nybbles <= 8
    requires IsFatLen(f, rem, clusterSize, sectorSize, numFat, nybbles)
    requires numFat * f + clusterSize * m > rem
    ensures 256 * (f - 1) <= nybbles * (m + 257)
  {
    var left := rem + 2 * clusterSize - numFat * (f - 1);
    LeftForTables(f - 1, rem, clusterSize, sectorSize, numFat, nybbles);
    LeftIsFew(f, rem, m, clusterSize, numFat);
    WideRoom(f - 1, m + 257, left, clusterSize, sectorSize, nybbles);
  }

  lemma Associate(a: int, b: int, c: int)
    ensures a * (b * c) == (a * b) * c
  {
  }

  lemma TwiceProduct(a: int, b: int)
    ensures a * (2 * b) == 2 * (b * a) && a * b == b * a
  {
  }

  lemma HalfOfThree(m: nat, len: nat)
    ensures m * 3 / 2 + 2 <= len <==> 3 * (m + 1) <= 2 * len
  {
    var k := m / 2;
    assert m == 2 * k || m == 2 * k + 1;
    assert m * 3 / 2 == if m == 2 * k then 3 * k else 3 * k + 1;
  }

  // Where there is room for m clusters of twice the size, there is for m of the size.
  lemma HalfTheSize(f: nat, g: nat, rem: nat, avail: nat, m: nat, clusterSize: nat, sectorSize: nat, numFat: nat, nybbles: nat)
    requires f >= 1 && clusterSize >= 1 && sectorSize >= 128 && numFat <= 255 && nybbles <= 4 && m >= 1020
    requires IsFatLen(f, rem, clusterSize, sectorSize, numFat, nybbles) && Fits(m, g, sectorSize, nybbles)
    requires numFat * g + 2 * (clusterSize * m) <= avail && rem <= avail
    ensures numFat * f + clusterSize * m <= avail
  {
    if numFat * f + clusterSize * m > avail {
      MulMono(1, clusterSize, m);
      TightTables(f, rem, m, clusterSize, sectorSize, numFat, nybbles);
      FewSectorsMore(f, g, m, sectorSize, nybbles);
      MulMono(f, g + 4, numFat);
      Distribute(g, 4, numFat);
      assert false;
    }
  }

  lemma FewSectorsMore(f: nat, g: nat, m: nat, sectorSize: nat, nybbles: nat)
    requires f >= 1 && sectorSize >= 128 && nybbles <= 4
    requires (f - 1) * (2 * sectorSize) <= nybbles * (m + 257) && Fits(m, g, sectorSize, nybbles)
    ensures f <= g + 4
  {
    var s := 2 * sectorSize;
    assert nybbles * (m + 257) == (m + 2) * nybbles + 255 * nybbles by {
      Distribute(m + 2, 255, nybbles);
    }
    if f > g + 4 {
      MulMono(g + 4, f - 1, s);
      Distribute(g, 4, s);
      assert false;
    }
  }

  lemma TightTables(f: nat, rem: nat, m: nat, clusterSize: nat, sectorSize: nat, numFat: nat, nybbles: nat)
    requires f >= 1 && clusterSize >= 1 && numFat <= 255
    requires IsFatLen(f, rem, clusterSize, sectorSize, numFat, nybbles)
    requires numFat * f + clusterSize * m > rem
    ensures (f - 1) * (2 * sectorSize) <= nybbles * (m + 257)
  {
    var left := rem + 2 * clusterSize - numFat * (f - 1);
    LeftForTables(f - 1, rem, clusterSize, sectorSize, numFat, nybbles);
    LeftIsFew(f, rem, m, clusterSize, numFat);
    MulMono(left, (m + 257) * clusterSize, nybbles);
    Associate(nybbles, m + 257, clusterSize);
    CancelFactor((f - 1) * (2 * sectorSize), nybbles * (m + 257), clusterSize);
  }

  lemma LeftForTables(f: nat, rem: nat, clusterSize: nat, sectorSize: nat, numFat: nat, nybbles: nat)
    requires f * PerCluster(clusterSize, sectorSize, numFat, nybbles) < nybbles * (rem + 2 * clusterSize)
    ensures (f * (2 * sectorSize)) * clusterSize < nybbles * (rem + 2 * clusterSize - numFat * f)
  {
    SplitCost(f, clusterSize, sectorSize, numFat, nybbles);
    Distribute(rem + 2 * clusterSize, -(numFat * f), nybbles);
  }

  lemma LeftIsFew(f: nat, rem: nat, m: nat, clusterSize: nat, numFat: nat)
    requires f >= 1 && clusterSize >= 1 && numFat <= 255
    requires numFat * f + clusterSize * m > rem
    ensures rem + 2 * clusterSize - numFat * (f - 1) <= (m + 257) * clusterSize
  {
    Distribute(m, 257, clusterSize);
    Distribute(f, -1, numFat);
    assert (f - 1) * numFat == numFat * (f - 1) && f * numFat == numFat * f;
  }

  lemma WideRoom(f: nat, m: nat, left: int, clusterSize: nat, sectorSize: nat, nybbles: nat)
    requires clusterSize >= 1 && sectorSize >= 128 && nybbles <= 8
    requires (f * (2 * sectorSize)) * clusterSize < nybbles * left && left <= m * clusterSize
    ensures 256 * f <= nybbles * m
  {
    MulMono(left, m * clusterSize, nybbles);
    MulMono(256, 2 * sectorSize, f);
    MulMono(f * 256, f * (2 * sectorSize), clusterSize);
    assert nybbles * (m * clusterSize) == (nybbles * m) * clusterSize;
    CancelFactor(f * 256, nybbles * m, clusterSize);
  }

  // The same facts with products spelled out as Times, for the programs.

  datatype Geometry = Geometry(clusterSize: nat, sectorSize: nat, numFat: nat, nybbles: nat) {
    // What the field types, power-of-two sectors and the three FAT widths allow.
    ghost predicate Valid() {
      match this
      case Geometry(c, s, n, y) =>
        1 <= c <= 255 && 1 <= n <= 255 && 128 <= s <= 8192 && s % 4 == 0 && y in {3, 4, 8}
    }

    // A table of f sectors is the exact length for rem sectors to share out.
    ghost predicate Exact(f: nat, rem: nat) {
      var cost := 2 * Times(clusterSize, sectorSize) + Times(numFat, nybbles);
      f >= 1 && Times(f - 1, cost) < Times(nybbles, rem + 2 * clusterSize) <= Times(f, cost)
    }

    lemma ExactUnique(f: nat, g: nat, rem: nat)
      requires Exact(f, rem) && Exact(g, rem)
      ensures f == g
    {
      var cost := 2 * Times(clusterSize, sectorSize) + Times(numFat, nybbles);
      if f < g {
        TimesMono(f, g - 1, cost);
      } else if g < f {
        TimesMono(g, f - 1, cost);
      }
    }

    // n clusters and the two reserved entries fit into f sectors.
    ghost predicate Holds(n: nat, f: nat) {
      Times(n + 2, nybbles) <= Times(f, 2 * sectorSize)
    }

    lemma ExactIsFatLen(f: nat, rem: nat)
      ensures Exact(f, rem) <==> f >= 1 && IsFatLen(f, rem, clusterSize, sectorSize, numFat, nybbles)
    {
      TimesIsProduct(clusterSize, sectorSize);
      TimesIsProduct(numFat, nybbles);
      var cost := 2 * Times(clusterSize, sectorSize) + Times(numFat, nybbles);
      TimesIsProduct(f, cost);
      TimesIsProduct(nybbles, rem + 2 * clusterSize);
      if f >= 1 {
        TimesIsProduct(f - 1, cost);
      }
    }

    lemma HoldsIsFits(n: nat, f: nat)
      ensures Holds(n, f) <==> Fits(n, f, sectorSize, nybbles)
    {
      TimesIsProduct(n + 2, nybbles);
      TimesIsProduct(f, 2 * sectorSize);
    }

    // They do exactly if the last entry, as it is packed, lies inside the table.
    lemma HoldsIsInside(w: Codec.Width, v: Codec.Bytes, n: nat, f: nat)
      requires nybbles == (match w case Fat12 => 3 case Fat16 => 4 case Fat32 => 8) && |v| == Times(f, sectorSize)
      ensures Holds(n, f) <==> Codec.Inside(w, v, n + 1)
    {
      TimesIsProduct(f, 2 * sectorSize);
      TimesIsProduct(f, sectorSize);
      TwiceProduct(f, sectorSize);
      TwiceProduct(sectorSize, f);
      assert Times(f, 2 * sectorSize) == 2 * |v|;
      TimesIsProduct(n + 2, nybbles);
      match w
      case Fat12 => HalfOfThree(n + 1, |v|);
      case Fat16 =>
      case Fat32 =>
    }

    // Every cluster left has its entry.
    lemma ExactHolds(f: nat, rem: nat, n: nat)
      requires Valid() && Exact(f, rem)
      requires Times(n, clusterSize) <= rem - Times(numFat, f)
      ensures Holds(n, f)
    {
      ExactIsFatLen(f, rem);
      HoldsIsFits(n, f);
      TimesIsProduct(n, clusterSize);
      TimesIsProduct(numFat, f);
      LengthHolds(f, rem, n, clusterSize, sectorSize, numFat, nybbles);
    }

    // A length that works is at most one sector shorter.
    lemma ExactNearlyLeast(f: nat, rem: nat, g: nat, n: nat)
      requires Valid() && Exact(f, rem) && Holds(n, g)
      requires Times(n, clusterSize) > rem - Times(numFat, g) - clusterSize
      ensures f <= g + 1
    {
      ExactIsFatLen(f, rem);
      HoldsIsFits(n, g);
      TimesIsProduct(n, clusterSize);
      TimesIsProduct(numFat, g);
      LengthNearlyLeast(f, rem, g, n, clusterSize, sectorSize, numFat, nybbles);
    }

    lemma ExactShrinks(f: nat, rem: nat, g: nat, rem2: nat)
      requires Valid() && Exact(f, rem) && this.(clusterSize := 2 * clusterSize).Exact(g, rem2) && rem2 <= rem
      ensures g <= f
    {
      ExactIsFatLen(f, rem);
      this.(clusterSize := 2 * clusterSize).ExactIsFatLen(g, rem2);
      LengthShrinks(f, rem, g, rem2, clusterSize, sectorSize, numFat, nybbles);
    }

    lemma ExactLeavesRoom(f: nat, rem: nat, m: nat)
      requires Valid() && Exact(f, rem)
      requires rem >= Times(clusterSize, m) + Times(nybbles, m + 257) + 255
      ensures Times(numFat, f) + Times(clusterSize, m) <= rem
    {
      ExactIsFatLen(f, rem);
      TimesIsProduct(clusterSize, m);
      TimesIsProduct(nybbles, m + 257);
      TimesIsProduct(numFat, f);
      LengthLeavesRoom(f, rem, m, clusterSize, sectorSize, numFat, nybbles);
    }

    // With a table of the exact length at least so many clusters are left.
    ghost predicate LeavesAtLeast(avail: int, limit: nat) {
      forall f: nat {:trigger Exact(f, Evened(avail))} :: avail >= 0 && Exact(f, Evened(avail)) ==> Times(limit, clusterSize) <= avail - Times(numFat, f)
    }

    // So they are for half the cluster size.
    lemma LeavesAtHalf(avail: nat, limit: nat)
      requires Valid() && this.(clusterSize := 2 * clusterSize).Valid() && this.(clusterSize := 2 * clusterSize).LeavesAtLeast(avail, limit)
      requires nybbles in {3, 4} && 1020 <= limit <= 0x1_0000 && avail < TWO32 && (nybbles == 3 ==> limit == 4085)
      ensures LeavesAtLeast(avail, limit)
    {
      var twice := this.(clusterSize := 2 * clusterSize);
      forall f: nat | Exact(f, Evened(avail))
        ensures Times(limit, clusterSize) <= avail - Times(numFat, f)
      {
        if nybbles == 3 && avail > 0x10_0000 {
          TimesIsProduct(clusterSize, limit);
          TimesIsProduct(3, 4342);
          ExactLeavesRoom(f, Evened(avail), limit);
          TimesCommutes(clusterSize, limit);
        } else {
          twice.WrappedIsExact(twice.Evened(avail));
          var g := WrappedLength(twice.Evened(avail), twice.clusterSize, 2 * Times(twice.clusterSize, sectorSize) + Times(numFat, nybbles), nybbles);
          assert twice.Exact(g, twice.Evened(avail));
          HalfLeaves(f, g, avail, limit);
        }
      }
    }

    lemma HalfLeaves(f: nat, g: nat, avail: nat, limit: nat)
      requires Valid() && this.(clusterSize := 2 * clusterSize).Valid() && nybbles in {3, 4} && 1020 <= limit
      requires Exact(f, Evened(avail)) && this.(clusterSize := 2 * clusterSize).Exact(g, this.(clusterSize := 2 * clusterSize).Evened(avail))
      requires Times(limit, 2 * clusterSize) <= avail - Times(numFat, g)
      ensures Times(limit, clusterSize) <= avail - Times(numFat, f)
    {
      var twice := this.(clusterSize := 2 * clusterSize);
      twice.OddSectorIsSpare(avail, limit, g);
      twice.ExactHolds(g, twice.Evened(avail), limit);
      HoldsIsFits(limit, g);
      ExactIsFatLen(f, Evened(avail));
      TimesIsProduct(limit, 2 * clusterSize);
      TimesIsProduct(limit, clusterSize);
      TimesIsProduct(numFat, g);
      TimesIsProduct(numFat, f);
      TwiceProduct(limit, clusterSize);
      HalfTheSize(f, g, Evened(avail), avail, limit, clusterSize, sectorSize, numFat, nybbles);
    }

    // A table never takes more than the sectors to share out, unless they are very few.
    lemma ExactIsBounded(f: nat, rem: nat)
      requires Valid() && Exact(f, rem)
      ensures Times(numFat, f) <= rem || Times(numFat, f) <= 2295
    {
      ExactIsFatLen(f, rem);
      TimesIsProduct(numFat, f);
      if numFat * f > rem {
        TightLength(f, rem, 0, clusterSize, sectorSize, numFat, nybbles);
        MulMono(numFat, 255, f);
      }
    }

    // The whole computation of the source.
    lemma WrappedIsExact(rem: nat)
      requires Valid() && rem < TWO32 && (nybbles == 3 ==> rem <= 0x10_0000)
      ensures var f := WrappedLength(rem, clusterSize, 2 * Times(clusterSize, sectorSize) + Times(numFat, nybbles), nybbles);
        1 <= f < TWO32 && Exact(f, rem)
    {
      TimesIsProduct(clusterSize, sectorSize);
      TimesIsProduct(numFat, nybbles);
      PerClusterRange(clusterSize, sectorSize, numFat, nybbles);
      if nybbles != 3 {
        DivisorIsExact(clusterSize, sectorSize, numFat, nybbles);
      }
      WrappedLengthIsExact(rem, clusterSize, PerCluster(clusterSize, sectorSize, numFat, nybbles), nybbles);
      ExactIsFatLen(WrappedLength(rem, clusterSize, PerCluster(clusterSize, sectorSize, numFat, nybbles), nybbles), rem);
    }

    // The source drops an odd sector when neither tables nor clusters can use it.
    function Evened(rem: int): (r: int)
      ensures rem - 1 <= r <= rem
      ensures rem >= 0 ==> r >= 0
    {
      if rem % 2 == 1 && numFat % 2 == 0 && clusterSize % 2 == 0 then rem - 1 else rem
    }

    lemma OddSectorIsSpare(rem: int, n: nat, f: nat)
      requires Times(n, clusterSize) <= rem - Times(numFat, f)
      ensures Times(n, clusterSize) <= Evened(rem) - Times(numFat, f)
    {
      var c, m := clusterSize / 2, numFat / 2;
      TimesCommutes(n, clusterSize);
      TimesAdd(c, c, n);
      TimesAdd(m, m, f);
    }
  }
}
