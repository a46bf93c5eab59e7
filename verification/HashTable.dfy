/**
 The open-addressing hash table of hash.c: double hashing, tombstones, relocation of a
 found element into the first tombstone on its path, and rehashing into a larger table.
 The table is proved to be a multiset of its elements.
 */
module HashTable {
  import opened Arith
  import opened Primes

  // The two marker addresses of the source are the first two constructors.
  datatype Slot<T> = Unallocated | Deleted | Elem(e: T)

  const SIZES: seq<nat> := [5, 11, 23, 47, 97, 197, 397, 797, 1597, 3203, 6421, 12853,
    25717, 51437, 102877, 205759, 411527, 823117, 1646237,
    3292489, 6584983, 13169977, 26339969, 52679969, 105359939,
    210719881, 421439783, 842879579, 1685759167]

  const LARGEST: nat := 1685759167

  ghost predicate SizesArePrime() {
    forall i :: 0 <= i < |SIZES| ==> IsPrime(SIZES[i])
  }

  ghost predicate TableSize(n: nat) {
    IsPrime(n) && 5 <= n <= LARGEST
  }

  // The elements held by a slot array, with repetition.
  ghost function Live<T(!new)>(s: seq<Slot<T>>): multiset<Slot<T>> {
    multiset(s)[Unallocated := 0][Deleted := 0]
  }

  // The number of slots that are deleted or in use, and the number in use.
  ghost function Filled<T(!new)>(s: seq<Slot<T>>): int {
    |s| - multiset(s)[Unallocated]
  }

  ghost function InUse<T(!new)>(s: seq<Slot<T>>): int {
    Filled(s) - multiset(s)[Deleted]
  }

  lemma StoreSlot<T(!new)>(s: seq<Slot<T>>, i: nat, x: Slot<T>)
    requires i < |s|
    ensures multiset(s[i := x]) == multiset(s) - multiset{s[i]} + multiset{x}
  {
  }

  lemma {:induction false} PrefixInUse<T(!new)>(s: seq<Slot<T>>, i: nat)
    requires i <= |s|
    ensures 0 <= InUse(s[..i]) <= InUse(s)
    decreases |s|
  {
    var n := |s| - 1;
    if i < |s| {
      PrefixInUse(s[..n], i);
      assert s[..n][..i] == s[..i];
      assert s == s[..n] + [s[n]];
    } else if i > 0 {
      PrefixInUse(s[..n], n);
      assert s[..n][..n] == s[..n];
      assert s == s[..n] + [s[n]] == s[..i];
    }
  }

  // What one slot more adds.
  lemma OneSlotMore<T(!new)>(s: seq<Slot<T>>, i: nat)
    requires i < |s|
    ensures s[i].Elem? ==> Live(s[..i + 1]) == Live(s[..i]) + multiset{s[i]} && InUse(s[..i + 1]) == InUse(s[..i]) + 1 <= InUse(s)
    ensures !s[i].Elem? ==> Live(s[..i + 1]) == Live(s[..i]) && InUse(s[..i + 1]) == InUse(s[..i])
  {
    PrefixInUse(s, i + 1);
    assert s[..i + 1] == s[..i] + [s[i]];
  }

  lemma {:induction false} EmptyTable<T(!new)>(s: seq<Slot<T>>)
    requires forall q :: 0 <= q < |s| ==> s[q].Unallocated?
    ensures multiset(s)[Unallocated] == |s| && Live(s) == multiset{}
  {
    if s != [] {
      var n := |s| - 1;
      EmptyTable(s[..n]);
      assert s == s[..n] + [s[n]];
    }
    assert forall x :: x in multiset(s) ==> x in s;
  }

  // Slot q is the k-th stop of a walk that meets no unallocated slot on its way.
  ghost predicate Reached<T(!new)>(s: seq<Slot<T>>, start: nat, step: nat, k: nat, q: nat)
    requires |s| > 0
  {
    && k < |s|
    && Probe(start, step, |s|, k) == q
    && forall j :: 0 <= j < k ==> !s[Probe(start, step, |s|, j)].Unallocated?
  }

  ghost predicate Reachable<T(!new)>(s: seq<Slot<T>>, f1: T -> nat, f2: T -> nat, q: nat)
    requires |s| > 1 && q < |s| && s[q].Elem?
  {
    exists k :: Reached(s, f1(s[q].e), Step(f2, s[q].e, |s|), k, q)
  }

  ghost predicate AllReachable<T(!new)>(s: seq<Slot<T>>, f1: T -> nat, f2: T -> nat)
    requires |s| > 1
  {
    forall q {:trigger Reachable(s, f1, f2, q)} :: 0 <= q < |s| && s[q].Elem? ==> Reachable(s, f1, f2, q)
  }

  // Storing an element at the end of its own path, with no slot becoming unallocated,
  // keeps every element reachable.
  lemma StoreOnPath<T(!new)>(s: seq<Slot<T>>, f1: T -> nat, f2: T -> nat, e: T, k: nat, pos: nat)
    requires 1 < |s| && AllReachable(s, f1, f2)
    requires pos < |s| && Reached(s, f1(e), Step(f2, e, |s|), k, pos)
    ensures AllReachable(s[pos := Elem(e)], f1, f2)
  {
    var t := s[pos := Elem(e)];
    assert Reached(t, f1(e), Step(f2, e, |s|), k, pos);
    KeepReachable(s, t, f1, f2);
  }

  lemma DropElement<T(!new)>(s: seq<Slot<T>>, f1: T -> nat, f2: T -> nat, pos: nat)
    requires 1 < |s| && AllReachable(s, f1, f2) && pos < |s|
    ensures AllReachable(s[pos := Deleted], f1, f2)
  {
    KeepReachable(s, s[pos := Deleted], f1, f2);
  }

  lemma KeepReachable<T(!new)>(s: seq<Slot<T>>, t: seq<Slot<T>>, f1: T -> nat, f2: T -> nat)
    requires 1 < |s| == |t|
    requires forall q :: 0 <= q < |s| && t[q].Unallocated? ==> s[q].Unallocated?
    ensures forall q {:trigger Reachable(t, f1, f2, q)} ::
      0 <= q < |s| && s[q].Elem? && t[q] == s[q] && Reachable(s, f1, f2, q) ==> Reachable(t, f1, f2, q)
  {
    forall q | 0 <= q < |s| && s[q].Elem? && t[q] == s[q] && Reachable(s, f1, f2, q)
      ensures Reachable(t, f1, f2, q)
    {
      var k :| Reached(s, f1(s[q].e), Step(f2, s[q].e, |s|), k, q);
      assert Reached(t, f1(t[q].e), Step(f2, t[q].e, |t|), k, q);
    }
  }

  function Step<T>(f2: T -> nat, e: T, size: nat): (step: nat)
    requires size > 1
    ensures 0 < step < size
  {
    Mod(f2(e), size - 1) + 1
  }

  // The first of the given sizes above a bound, or 0, the source's end mark, if there is none.
  function FirstAbove(sizes: seq<nat>, bound: nat): (n: nat)
    ensures n != 0 ==> n in sizes && n > bound
    ensures n == 0 ==> forall i :: 0 <= i < |sizes| ==> sizes[i] <= bound
  {
    if sizes == [] then 0
    else if sizes[0] > bound then sizes[0]
    else FirstAbove(sizes[1..], bound)
  }

  ghost predicate GoodSizes(sizes: seq<nat>) {
    LARGEST in sizes && forall i {:trigger sizes[i]} :: 0 <= i < |sizes| ==> TableSize(sizes[i])
  }

  lemma SizesAreGood()
    requires SizesArePrime()
    ensures GoodSizes(SIZES)
  {
    assert SIZES[|SIZES| - 1] == LARGEST;
    assert forall i :: 0 <= i < |SIZES| ==> 5 <= SIZES[i] <= LARGEST;
  }

  lemma ChosenSize(sizes: seq<nat>, bound: nat)
    requires GoodSizes(sizes)
    ensures FirstAbove(sizes, bound) == 0 <==> bound >= LARGEST
    ensures FirstAbove(sizes, bound) != 0 ==> TableSize(FirstAbove(sizes, bound))
  {
    var n := FirstAbove(sizes, bound);
    if n != 0 {
      var i :| 0 <= i < |sizes| && sizes[i] == n;
    }
  }

  // Above half of the greatest size there is only that.
  lemma LesserSizes()
    ensures SIZES[|SIZES| - 1] == LARGEST && forall i :: 0 <= i < |SIZES| - 1 ==> 2 * SIZES[i] < LARGEST
  {
  }

  lemma OnlyLargest(sizes: seq<nat>, bound: nat)
    requires sizes != [] && sizes[|sizes| - 1] == LARGEST && LARGEST <= 2 * bound
    requires forall i :: 0 <= i < |sizes| - 1 ==> 2 * sizes[i] < LARGEST
    ensures FirstAbove(sizes, bound) == if bound < LARGEST then LARGEST else 0
  {
    if |sizes| > 1 {
      OnlyLargest(sizes[1..], bound);
    }
  }

  class HashTable<T(==, !new)> {
    const f1: T -> nat
    const f2: T -> nat
    const same: (T, T) -> bool  // the comparison function answers 0
    var size: nat
    var fill: nat
    var inuse: nat
    var max: nat
    var entries: array<Slot<T>>

    ghost predicate Valid()
      reads this, entries
    {
      && TableSize(size) && size == entries.Length
      && max == size * 4 / 5 - 2
      && fill == Filled(entries[..])
      && inuse == InUse(entries[..])
      && Consistent()
      && AllReachable(entries[..], f1, f2)
    }

    // Elements that compare equal hash alike.
    ghost predicate Consistent()
    {
      forall x, y :: same(x, y) ==> f1(x) == f1(y) && f2(x) == f2(y)
    }

    ghost function Contents(): multiset<Slot<T>>
      reads this, entries
    {
      Live(entries[..])
    }

    constructor (f1: T -> nat, f2: T -> nat, same: (T, T) -> bool)
      ensures this.f1 == f1 && this.f2 == f2 && this.same == same
      ensures size == 0
    {
      this.f1, this.f2, this.same := f1, f2, same;
      size, fill, inuse, max := 0, 0, 0, 0;
      entries := new Slot<T>[0];
    }

    static method SearchSize(sizes: seq<nat>, bound: nat) returns (n: nat)
      ensures n == FirstAbove(sizes, bound)
    {
      for i := 0 to |sizes|
        invariant FirstAbove(sizes, bound) == FirstAbove(sizes[i..], bound)
      {
        if sizes[i] > bound {
          return sizes[i];
        }
      }
      n := 0;
    }

    method AllocHt(request: nat) returns (ok: bool)
      requires SizesArePrime() && Consistent()
      requires size == 0 || TableSize(size)
      modifies this
      ensures ok <==> request < LARGEST
      ensures !ok ==> unchanged(this)
      ensures ok ==> Valid() && fresh(entries) && Contents() == multiset{} && fill == 0
      ensures ok ==> size > request && size >= old(size) && (size > 2 * request || size == LARGEST)
    {
      SizesAreGood();
      ChosenSize(SIZES, request * 4);
      ChosenSize(SIZES, request * 2);
      ChosenSize(SIZES, request);
      var n := SearchSize(SIZES, request * 4);
      if n == 0 {
        n := SearchSize(SIZES, request * 2);
      }
      if n == 0 {
        LesserSizes();
        OnlyLargest(SIZES, request);
        n := SearchSize(SIZES, request);
      }
      if n == 0 {
        return false;
      }
      if n < size {
        n := size;
      }
      Reset(n);
      ok := true;
    }

    // An empty table of n slots.
    method Reset(n: nat)
      requires TableSize(n) && Consistent()
      modifies this
      ensures Valid() && fresh(entries) && Contents() == multiset{}
      ensures size == n && fill == 0
    {
      max := n * 4 / 5 - 2;
      size, fill, inuse := n, 0, 0;
      entries := new Slot<T>[n](_ => Unallocated);
      EmptyTable(entries[..]);
    }

    // While every slot met so far is in use, the walk has not come full circle.
    lemma KeepLooking(s: seq<Slot<T>>, e: T, k: nat)
      requires TableSize(|s|) && InUse(s) < |s| && k < |s|
      requires forall j :: 0 <= j <= k ==> s[Probe(f1(e), Step(f2, e, |s|), |s|, j)].Elem?
      ensures k + 1 < |s|
    {
      if k + 1 == |s| {
        var q := FreeSlot(s);
        var j := ProbeVisitsEverySlot(f1(e), Step(f2, e, |s|), |s|, q);
      }
    }

    // The first slot on the walk that is not in use.
    method FindRoom(e: T) returns (pos: nat, ghost k: nat)
      requires TableSize(size) && size == entries.Length && InUse(entries[..]) < size
      ensures pos < size && !entries[pos].Elem?
      ensures Reached(entries[..], f1(e), Step(f2, e, size), k, pos)
    {
      ghost var s, step := entries[..], Step(f2, e, size);
      var h2: int := -1;
      pos, k := Mod(f1(e), size), 0;
      while entries[pos].Elem?
        invariant k < size && pos == Probe(f1(e), step, size, k)
        invariant forall j :: 0 <= j < k ==> s[Probe(f1(e), step, size, j)].Elem?
        invariant h2 == -1 || h2 + 1 == step
        decreases size - k
      {
        KeepLooking(s, e, k);
        if h2 == -1 {
          h2 := Mod(f2(e), size - 1);
        }
        pos, k := Mod(pos + h2 + 1, size), k + 1;
      }
    }

    // Add without checking for repeats.
    method MtHashAdd(e: T) returns (hint: nat)
      requires Valid() && inuse < size
      modifies this`fill, this`inuse, entries
      ensures Valid()
      ensures Contents() == old(Contents()) + multiset{Elem(e)}
      ensures fill <= old(fill) + 1 && inuse == old(inuse) + 1
      ensures old(fill) == old(inuse) ==> fill == inuse
      ensures hint < size && entries[hint] == Elem(e)
    {
      ghost var s := entries[..];
      var pos, k := FindRoom(e);
      StoreSlot(s, pos, Elem(e));
      StoreOnPath(s, f1, f2, e, k, pos);
      if entries[pos].Unallocated? {
        fill := fill + 1;
      }
      inuse := inuse + 1;
      entries[pos] := Elem(e);
      hint := pos;
      assert entries[..] == s[pos := Elem(e)];
    }

    method Rehash() returns (ok: bool)
      requires Valid() && SizesArePrime()
      modifies this
      ensures Valid() && Contents() == old(Contents()) && inuse == old(inuse)
      ensures ok <==> ((old(inuse) + 1) * 4 + old(fill)) / 5 < LARGEST
      ensures !ok ==> unchanged(this)
      ensures ok ==> fresh(entries) && fill == inuse < size && (fill + 1 < size || size == LARGEST)
    {
      var oldSize, oldEntries := size, entries;
      ghost var s := entries[..];
      ok := AllocHt(((inuse + 1) * 4 + fill) / 5);
      if !ok {
        return;
      }
      Refill(oldEntries);
      assert s[..oldSize] == s;
    }

    // The elements of the old slots go into the new, empty ones.
    method Refill(oldEntries: array<Slot<T>>)
      requires Valid() && Contents() == multiset{} && fill == inuse == 0
      requires oldEntries != entries && InUse(oldEntries[..]) < size
      modifies this`fill, this`inuse, entries
      ensures Valid() && Contents() == Live(oldEntries[..]) && fill == inuse == InUse(oldEntries[..])
    {
      ghost var s := oldEntries[..];
      for i := 0 to oldEntries.Length
        invariant Valid() && oldEntries[..] == s
        invariant Contents() == Live(s[..i]) && fill == inuse == InUse(s[..i])
      {
        OneSlotMore(s, i);
        if oldEntries[i].Elem? {
          var _ := MtHashAdd(oldEntries[i].e);
        }
      }
      assert s[..oldEntries.Length] == s;
    }

    lemma FreeSlot(s: seq<Slot<T>>) returns (q: nat)
      requires InUse(s) < |s|
      ensures q < |s| && !s[q].Elem?
    {
      assert Unallocated in multiset(s) || Deleted in multiset(s);
      assert Unallocated in s || Deleted in s;
      q :| 0 <= q < |s| && !s[q].Elem?;
    }

    // An unallocated slot always remains, unless the greatest table is in use throughout.
    method HashAdd(e: T) returns (ok: bool, hint: nat)
      requires Valid() && SizesArePrime()
      modifies this, entries
      ensures Valid() && (entries == old(entries) || fresh(entries))
      ensures Contents() == old(Contents()) + (if ok then multiset{Elem(e)} else multiset{})
      ensures ok <==> old(fill) < LARGEST || old(inuse) + 1 < LARGEST
      ensures ok ==> hint < size && entries[hint] == Elem(e)
      ensures ok ==> fill < size || size == inuse == LARGEST
      ensures !ok ==> size == fill == LARGEST
    {
      hint := 0;
      if fill >= max {
        var _ := Rehash();
      }
      if fill == size {
        return false, 0;
      }
      hint := MtHashAdd(e);
      ok := true;
    }

    // What one look at a slot decides: the walk ends there, or goes on.
    predicate Matches(x: Slot<T>, e: T, isIdentity: bool) {
      x.Elem? && if isIdentity then x.e == e else same(x.e, e)
    }

    // Walk to the first slot that is unallocated or matches, noting the first tombstone.
    // The walk is over when it has met every slot once.
    method Walk(e: T, isIdentity: bool) returns (pos: nat, ttl: nat, upos: int, ghost k: nat, ghost uk: nat)
      requires 1 < size == entries.Length
      ensures k <= size && ttl == size - k && pos == Probe(f1(e), Step(f2, e, size), size, k)
      ensures k == size || entries[pos].Unallocated? || Matches(entries[pos], e, isIdentity)
      ensures forall j :: 0 <= j < k ==> !entries[Probe(f1(e), Step(f2, e, size), size, j)].Unallocated?
      ensures forall j :: 0 <= j < k ==> !Matches(entries[Probe(f1(e), Step(f2, e, size), size, j)], e, isIdentity)
      ensures upos == -1 || (0 <= upos < size && entries[upos].Deleted? && Reached(entries[..], f1(e), Step(f2, e, size), uk, upos))
    {
      ghost var s, step := entries[..], Step(f2, e, size);
      var h2: int := -1;
      pos, ttl, upos, k, uk := Mod(f1(e), size), size, -1, 0, 0;
      while ttl > 0 && !entries[pos].Unallocated? &&
            (entries[pos].Deleted? || !Matches(entries[pos], e, isIdentity))
        invariant k <= size && ttl == size - k && pos == Probe(f1(e), step, size, k)
        invariant forall j :: 0 <= j < k ==> !s[Probe(f1(e), step, size, j)].Unallocated?
        invariant forall j :: 0 <= j < k ==> !Matches(s[Probe(f1(e), step, size, j)], e, isIdentity)
        invariant upos == -1 || (uk < k && upos == Probe(f1(e), step, size, uk) && s[upos].Deleted?)
        invariant h2 == -1 || h2 + 1 == step
      {
        if h2 == -1 {
          h2 := Mod(f2(e), size - 1);
        }
        if upos == -1 && entries[pos].Deleted? {
          upos, uk := pos, k;
        }
        pos := Mod(pos + h2 + 1, size);
        ttl, k := ttl - 1, k + 1;
      }
    }

    // Moving an element into a tombstone met earlier on its walk.
    lemma Relocation(s: seq<Slot<T>>, e: T, uk: nat, upos: nat, pos: nat)
      requires 1 < |s| && AllReachable(s, f1, f2)
      requires upos < |s| && pos < |s| && s[upos].Deleted? && s[pos] == Elem(e)
      requires Reached(s, f1(e), Step(f2, e, |s|), uk, upos)
      ensures var t := s[upos := s[pos]][pos := Deleted];
        multiset(t) == multiset(s) && AllReachable(t, f1, f2)
    {
      StoreSlot(s, upos, s[pos]);
      StoreSlot(s[upos := s[pos]], pos, Deleted);
      StoreOnPath(s, f1, f2, e, uk, upos);
      DropElement(s[upos := s[pos]], f1, f2, pos);
    }

    method MtHashLookup(e: T, isIdentity: bool) returns (found: bool, e2: T, hint: nat)
      requires Valid()
      modifies entries
      ensures Valid() && Contents() == old(Contents())
      ensures found <==> exists x :: Elem(x) in Contents() && (if isIdentity then x == e else same(x, e))
      ensures found ==> hint < size && entries[hint] == Elem(e2)
      ensures found ==> if isIdentity then e2 == e else same(e2, e)
    {
      ghost var s := entries[..];
      var pos, ttl, upos, k, uk := Walk(e, isIdentity);
      if entries[pos].Unallocated? || ttl == 0 {
        NotStored(s, e, isIdentity, k);
        return false, e, 0;
      }
      e2 := entries[pos].e;
      if upos != -1 {
        Relocation(s, e2, uk, upos, pos);
        entries[upos] := entries[pos];
        entries[pos] := Deleted;
        assert entries[..] == s[upos := s[pos]][pos := Deleted];
        pos := upos;
      }
      assert entries[pos] in entries[..];
      found, hint := true, pos;
    }

    // A stored match lies on the walk, behind no unallocated slot.
    lemma OnTheWalk(s: seq<Slot<T>>, e: T, isIdentity: bool, x: T) returns (n: nat)
      requires 1 < |s| && Consistent() && AllReachable(s, f1, f2)
      requires Elem(x) in s && if isIdentity then x == e else same(x, e)
      ensures n < |s| && Matches(s[Probe(f1(e), Step(f2, e, |s|), |s|, n)], e, isIdentity)
      ensures forall j :: 0 <= j <= n ==> !s[Probe(f1(e), Step(f2, e, |s|), |s|, j)].Unallocated?
    {
      var q :| 0 <= q < |s| && s[q] == Elem(x);
      assert Reachable(s, f1, f2, q);
      n :| Reached(s, f1(x), Step(f2, x, |s|), n, q);
    }

    // A walk that stopped without a match proves there is none to find.
    lemma NotStored(s: seq<Slot<T>>, e: T, isIdentity: bool, k: nat)
      requires 1 < |s| && k <= |s| && Consistent() && AllReachable(s, f1, f2)
      requires forall j :: 0 <= j < k ==> !Matches(s[Probe(f1(e), Step(f2, e, |s|), |s|, j)], e, isIdentity)
      requires k == |s| || s[Probe(f1(e), Step(f2, e, |s|), |s|, k)].Unallocated?
      ensures forall x :: Elem(x) in Live(s) ==> !(if isIdentity then x == e else same(x, e))
    {
      forall x | Elem(x) in Live(s) && (if isIdentity then x == e else same(x, e))
        ensures false
      {
        assert Elem(x) in s;
        var n := OnTheWalk(s, e, isIdentity, x);
      }
    }

    method HashLookup(e: T) returns (found: bool, e2: T, hint: nat)
      requires Valid()
      modifies entries
      ensures Valid() && Contents() == old(Contents())
      ensures found <==> exists x :: Elem(x) in Contents() && same(x, e)
      ensures found ==> hint < size && entries[hint] == Elem(e2) && same(e2, e)
    {
      found, e2, hint := MtHashLookup(e, false);
    }

    // The hint may be stale; ok is false where the source exits for a non-existent entry.
    method HashRemove(e: T, hint: nat) returns (ok: bool)
      requires Valid()
      modifies this`inuse, entries
      ensures Valid()
      ensures ok <==> Elem(e) in old(Contents())
      ensures Contents() == old(Contents()) - multiset{Elem(e)}
    {
      var pos := hint;
      if !(hint < size && entries[hint] == Elem(e)) {
        var found, e2, where := MtHashLookup(e, true);
        if !found {
          return false;
        }
        pos := where;
      }
      Bury(e, pos);
      ok := true;
    }

    // An element becomes a tombstone.
    method Bury(e: T, pos: nat)
      requires Valid() && pos < size && entries[pos] == Elem(e)
      modifies this`inuse, entries
      ensures Valid() && Elem(e) in old(Contents()) && Contents() == old(Contents()) - multiset{Elem(e)}
    {
      ghost var s := entries[..];
      assert s[pos] == Elem(e);
      OneSlotMore(s, pos);
      PrefixInUse(s, pos);
      inuse := inuse - 1;
      entries[pos] := Deleted;
      assert entries[..] == s[pos := Deleted];
      StoreSlot(s, pos, Deleted);
      DropElement(s, f1, f2, pos);
    }
  }
}
