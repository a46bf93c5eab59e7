/**
 The allocator of fat.c and the chain release loop of fat_free.c, over the decoded file
 allocation table: one number per cluster, 0 for a free cluster, the next cluster inside a
 chain, a value above lastFat at its end. FatCache.dfy proves that the packed entries on disk
 behave like this table.
 */
module FatTable {
  import opened DiskLayout

  const MAX32: nat := 0xffff_ffff

  type Table = seq<nat>

  // The number of free clusters among lo, ..., hi - 1.
  function FreeIn(t: Table, lo: nat, hi: nat): (n: nat)
    requires lo <= hi <= |t|
    ensures n <= hi - lo
    ensures n > 0 <==> exists i :: lo <= i < hi && t[i] == 0
  {
    if lo == hi then 0 else FreeIn(t, lo, hi - 1) + (if t[hi - 1] == 0 then 1 else 0)
  }

  function FreeCount(t: Table): nat
    requires |t| >= 2
  {
    FreeIn(t, 2, |t|)
  }

  lemma {:induction false} FreeSplit(t: Table, lo: nat, mid: nat, hi: nat)
    requires lo <= mid <= hi <= |t|
    ensures FreeIn(t, lo, hi) == FreeIn(t, lo, mid) + FreeIn(t, mid, hi)
  {
    if mid < hi {
      FreeSplit(t, lo, mid, hi - 1);
    }
  }

  lemma {:induction false} FreeUpdate(t: Table, lo: nat, hi: nat, i: nat, v: nat)
    requires lo <= hi <= |t| && i < |t|
    ensures FreeIn(t[i := v], lo, hi) + (if lo <= i < hi && t[i] == 0 then 1 else 0)
         == FreeIn(t, lo, hi) + (if lo <= i < hi && v == 0 then 1 else 0)
  {
    if lo < hi {
      FreeUpdate(t, lo, hi - 1, i, v);
    }
  }

  // The clusters of one file in order.
  ghost predicate IsChain(t: Table, lastFat: nat, c: seq<nat>) {
    && |c| > 0
    && (forall i :: 0 <= i < |c| ==> 2 <= c[i] < |t|)
    && (forall i, j :: 0 <= i < j < |c| ==> c[i] != c[j])
    && (forall i :: 0 <= i < |c| - 1 ==> t[c[i]] == c[i + 1])
    && t[c[|c| - 1]] > lastFat
  }

  ghost predicate Disjoint(c: seq<nat>, d: seq<nat>) {
    forall x :: x in c ==> x !in d
  }

  // The chains of all files, by first cluster.
  type Files = map<nat, seq<nat>>

  ghost predicate FileChain(t: Table, lastFat: nat, files: Files, h: nat)
    requires h in files
  {
    IsChain(t, lastFat, files[h]) && files[h][0] == h
  }

  // Every file has a chain of its own: acyclic, in range and sharing no cluster.
  ghost predicate ChainsOk(t: Table, lastFat: nat, files: Files) {
    && (forall h {:trigger FileChain(t, lastFat, files, h)} :: h in files ==> FileChain(t, lastFat, files, h))
    && (forall g, h {:trigger Disjoint(files[g], files[h])} :: g in files && h in files && g != h ==> Disjoint(files[g], files[h]))
  }

  // Chains see only their own clusters.
  lemma ChainFrame(t: Table, u: Table, lastFat: nat, c: seq<nat>)
    requires IsChain(t, lastFat, c) && |t| == |u|
    requires forall x :: x in c ==> x < |t| && u[x] == t[x]
    ensures IsChain(u, lastFat, c)
  {
    forall i | 0 <= i < |c|
      ensures c[i] < |t| && u[c[i]] == t[c[i]]
    {
      assert c[i] in c;
    }
  }

  lemma InChainIsNotFree(t: Table, lastFat: nat, c: seq<nat>, i: nat)
    requires IsChain(t, lastFat, c) && i < |c|
    ensures t[c[i]] != 0
  {
    if i < |c| - 1 {
      assert t[c[i]] == c[i + 1];
    }
  }

  lemma FreeIsInNoChain(t: Table, lastFat: nat, files: Files, x: nat)
    requires ChainsOk(t, lastFat, files) && x < |t| && t[x] == 0
    ensures forall h :: h in files ==> x !in files[h] && h != x
  {
    forall h | h in files
      ensures x !in files[h] && h != x
    {
      assert FileChain(t, lastFat, files, h);
      assert files[h][0] in files[h];
      if x in files[h] {
        var i :| 0 <= i < |files[h]| && files[h][i] == x;
        InChainIsNotFree(t, lastFat, files[h], i);
      }
    }
  }

  // A free cluster becomes a file of one cluster.
  lemma NewChain(t: Table, lastFat: nat, endFat: nat, files: Files, x: nat)
    requires ChainsOk(t, lastFat, files) && 2 <= x < |t| && t[x] == 0 && endFat > lastFat
    ensures x !in files && ChainsOk(t[x := endFat], lastFat, files[x := [x]])
  {
    var u, more := t[x := endFat], files[x := [x]];
    FreeIsInNoChain(t, lastFat, files, x);
    forall h | h in more
      ensures FileChain(u, lastFat, more, h)
    {
      if h != x {
        assert FileChain(t, lastFat, files, h);
        ChainFrame(t, u, lastFat, files[h]);
      }
    }
    forall g, h | g in more && h in more && g != h
      ensures Disjoint(more[g], more[h])
    {
      if g != x && h != x {
        assert Disjoint(files[g], files[h]);
      }
    }
  }

  // A free cluster extends a chain at its end.
  lemma ExtendChain(t: Table, lastFat: nat, endFat: nat, files: Files, h0: nat, x: nat)
    requires ChainsOk(t, lastFat, files) && h0 in files && FileChain(t, lastFat, files, h0)
    requires 2 <= x < |t| <= lastFat && t[x] == 0 && endFat > lastFat
    ensures ChainsOk(t[files[h0][|files[h0]| - 1] := x][x := endFat], lastFat, files[h0 := files[h0] + [x]])
  {
    var c := files[h0];
    var u, more := t[c[|c| - 1] := x][x := endFat], files[h0 := c + [x]];
    FreeIsInNoChain(t, lastFat, files, x);
    assert forall i :: 0 <= i < |c| ==> c[i] in c;
    LongerChain(t, lastFat, endFat, c, x);
    forall h | h in more && h != h0
      ensures FileChain(u, lastFat, more, h)
    {
      assert FileChain(t, lastFat, files, h);
      assert Disjoint(files[h], files[h0]);
      ChainFrame(t, u, lastFat, files[h]);
    }
    forall g, h | g in more && h in more && g != h
      ensures Disjoint(more[g], more[h])
    {
      assert Disjoint(files[g], files[h]);
    }
  }

  lemma LongerChain(t: Table, lastFat: nat, endFat: nat, c: seq<nat>, x: nat)
    requires IsChain(t, lastFat, c) && 2 <= x < |t| <= lastFat && x !in c && endFat > lastFat
    ensures IsChain(t[c[|c| - 1] := x][x := endFat], lastFat, c + [x])
  {
    assert forall i :: 0 <= i < |c| ==> c[i] in c;
  }

  // The table with the clusters of c marked free.
  function Released(t: Table, c: seq<nat>): (u: Table)
    requires forall i :: 0 <= i < |c| ==> c[i] < |t|
    ensures |u| == |t|
    ensures forall x :: 0 <= x < |t| ==> u[x] == if x in c then 0 else t[x]
  {
    if c == [] then t else Released(t, c[..|c| - 1])[c[|c| - 1] := 0]
  }

  lemma ReleaseStep(t: Table, lastFat: nat, c: seq<nat>, k: nat)
    requires IsChain(t, lastFat, c) && k < |c|
    ensures 2 <= c[k] < |t| && c[k] in c && t[c[k]] != 0
    ensures Released(t, c[..k])[c[k]] == t[c[k]]
    ensures Released(t, c[..k + 1]) == Released(t, c[..k])[c[k] := 0]
    ensures if k + 1 < |c| then t[c[k]] == c[k + 1] else t[c[k]] > lastFat
  {
    InChainIsNotFree(t, lastFat, c, k);
    assert c[k] !in c[..k];
    var d := c[..k + 1];
    assert d[..|d| - 1] == c[..k] && d[|d| - 1] == c[k];
    if k + 1 < |c| {
      assert t[c[k]] == c[k + 1];
    }
  }

  // Forgetting a file leaves the others in order, away from its clusters.
  lemma DropChain(t: Table, lastFat: nat, files: Files, h0: nat)
    requires ChainsOk(t, lastFat, files) && h0 in files
    ensures ChainsOk(t, lastFat, files - {h0})
    ensures forall h :: h in files - {h0} ==> Disjoint(files[h0], files[h])
  {
    var rest := files - {h0};
    forall h | h in rest
      ensures FileChain(t, lastFat, rest, h) && Disjoint(files[h0], files[h])
    {
      assert Disjoint(files[h0], files[h]);
      assert FileChain(t, lastFat, files, h);
    }
    forall g, h | g in rest && h in rest && g != h
      ensures Disjoint(rest[g], rest[h])
    {
      assert Disjoint(files[g], files[h]);
    }
  }

  // Writing an entry outside all chains leaves them in order.
  lemma OutsideWrite(t: Table, lastFat: nat, files: Files, pos: nat, v: nat)
    requires ChainsOk(t, lastFat, files) && pos < |t|
    requires forall h :: h in files ==> pos !in files[h]
    ensures ChainsOk(t[pos := v], lastFat, files)
  {
    forall h | h in files
      ensures FileChain(t[pos := v], lastFat, files, h)
    {
      assert FileChain(t, lastFat, files, h);
      ChainFrame(t, t[pos := v], lastFat, files[h]);
    }
  }

  // The k-th cluster looked at by a search that starts behind cluster start and wraps around.
  function WrapOrder(start: nat, numClus: nat, k: nat): (x: nat)
    requires 1 <= start < numClus + 2 && k < numClus
    ensures 2 <= x < numClus + 2
  {
    if start + 1 + k < numClus + 2 then start + 1 + k else start + 1 + k - numClus
  }

  // The search looks at each cluster exactly once.
  lemma WrapOrderIsPermutation(start: nat, numClus: nat, x: nat) returns (k: nat)
    requires 1 <= start < numClus + 2 && 2 <= x < numClus + 2
    ensures k < numClus && WrapOrder(start, numClus, k) == x
    ensures forall j :: 0 <= j < numClus && WrapOrder(start, numClus, j) == x ==> j == k
  {
    k := if x > start then x - start - 1 else x + numClus - start - 1;
  }

  function Sum(sizes: seq<nat>): nat {
    if sizes == [] then 0 else Sum(sizes[..|sizes| - 1]) + sizes[|sizes| - 1]
  }

  // A sum stays within a bound exactly if it did each time something was added.
  lemma {:induction false} SumBounded(sizes: seq<nat>, before: nat, bound: nat)
    requires before <= bound
    ensures (forall i :: 0 <= i < |sizes| ==> before + Sum(sizes[..i]) + sizes[i] <= bound) <==> before + Sum(sizes) <= bound
  {
    if sizes != [] {
      var n := |sizes| - 1;
      var shorter := sizes[..n];
      SumBounded(shorter, before, bound);
      assert forall i :: 0 <= i <= n ==> shorter[..i] == sizes[..i];
      if before + Sum(sizes) <= bound {
        forall i | 0 <= i < |sizes|
          ensures before + Sum(sizes[..i]) + sizes[i] <= bound
        {
          if i < n {
            assert before + Sum(shorter[..i]) + shorter[i] <= bound;
          }
        }
      } else if before + Sum(shorter) > bound {
        var i :| 0 <= i < n && before + Sum(shorter[..i]) + shorter[i] > bound;
        assert before + Sum(sizes[..i]) + sizes[i] > bound;
      } else {
        assert before + Sum(sizes[..n]) + sizes[n] > bound;
      }
    }
  }

  datatype Count = Enough | Short(total: nat) | Unreadable

  class Fs {
    const numClus: nat
    const lastFat: nat
    const endFat: nat
    const layout: Layout
    var table: Table
    var last: nat          // last cluster allocated, or MAX32 if unknown
    var freeSpace: nat     // number of free clusters, or MAX32 if unknown
    var fatError: nat
    var preallocatedClusters: int
    ghost var files: Files

    // The limits belong to one FAT width, as set by set_fat12, set_fat16 and set_fat32.
    ghost predicate Geometry() {
      && numClus + 1 < lastFat < endFat < MAX32
      && layout.Valid()
    }

    ghost predicate Valid()
      reads this
    {
      && Geometry()
      && |table| == numClus + 2
      && (freeSpace == MAX32 || freeSpace == FreeCount(table))
      && ChainsOk(table, lastFat, files)
    }

    // No entry reads as 1, the answer for an entry that is damaged or cannot be read.
    ghost predicate Readable()
      reads this
    {
      forall i :: 2 <= i < |table| ==> table[i] != 1
    }

    constructor (numClus: nat, lastFat: nat, endFat: nat, layout: Layout, table: Table)
      requires |table| == numClus + 2 && numClus + 1 < lastFat < endFat < MAX32 && layout.Valid()
      ensures Valid() && this.table == table && files == map[]
      ensures this.numClus == numClus && this.lastFat == lastFat && this.endFat == endFat
      ensures this.layout == layout
      ensures fatError == 0 && last == freeSpace == MAX32 && preallocatedClusters == 0
    {
      this.numClus, this.lastFat, this.endFat, this.table := numClus, lastFat, endFat, table;
      this.layout := layout;
      last, freeSpace, fatError, preallocatedClusters, files := MAX32, MAX32, 0, 0, map[];
    }

    method FatDecode(pos: nat) returns (ret: nat)
      requires pos < |table|
      modifies this`fatError
      ensures ret == table[pos] && (old(Valid()) ==> Valid())
      ensures fatError == old(fatError) + if ret == 0 || 2 <= ret <= numClus + 1 || ret >= lastFat then 0 else 1
    {
      ret := table[pos];
      if ret != 0 && (ret < 2 || ret > numClus + 1) && ret < lastFat {
        fatError := fatError + 1;
      }
    }

    method FatAppend(pos: nat, newpos: nat, ghost head: nat)
      requires Valid() && head in files && FileChain(table, lastFat, files, head)
      requires pos == files[head][|files[head]| - 1]
      requires 2 <= newpos < |table| && table[newpos] == 0
      modifies this`table, this`freeSpace, this`files
      ensures Valid()
      ensures table == old(table)[pos := newpos][newpos := endFat]
      ensures files == old(files)[head := old(files)[head] + [newpos]]
      ensures FreeCount(table) == old(FreeCount(table)) - 1
      ensures old(freeSpace) == MAX32 <==> freeSpace == MAX32
    {
      ExtendChain(table, lastFat, endFat, files, head, newpos);
      FreeUpdate(table, 2, |table|, pos, newpos);
      FreeUpdate(table[pos := newpos], 2, |table|, newpos, endFat);
      table := table[pos := newpos];
      table := table[newpos := endFat];
      files := files[head := files[head] + [newpos]];
      if freeSpace != MAX32 {
        freeSpace := freeSpace - 1;
      }
    }

    // With an end mark the cluster becomes a file; with another value it belongs to none yet.
    method FatAllocate(pos: nat, value: nat)
      requires Valid() && value != 0
      requires 2 <= pos < |table| && table[pos] == 0
      modifies this`table, this`freeSpace, this`files
      ensures Valid()
      ensures table == old(table)[pos := value]
      ensures pos !in old(files) && files == if value > lastFat then old(files)[pos := [pos]] else old(files)
      ensures FreeCount(table) == old(FreeCount(table)) - 1
      ensures old(freeSpace) == MAX32 <==> freeSpace == MAX32
    {
      FreeIsInNoChain(table, lastFat, files, pos);
      FreeUpdate(table, 2, |table|, pos, value);
      if value > lastFat {
        NewChain(table, lastFat, value, files, pos);
        files := files[pos := [pos]];
      } else {
        OutsideWrite(table, lastFat, files, pos, value);
      }
      table := table[pos := value];
      if freeSpace != MAX32 {
        freeSpace := freeSpace - 1;
      }
    }

    // One step of a release; the chain it belongs to is broken until the release is over,
    // so the caller sets the chains aside first.
    method FatDeallocate(pos: nat)
      requires Valid() && 2 <= pos < |table| && table[pos] != 0
      requires forall h :: h in files ==> pos !in files[h]
      modifies this`table, this`freeSpace
      ensures Valid()
      ensures table == old(table)[pos := 0]
      ensures FreeCount(table) == old(FreeCount(table)) + 1
      ensures old(freeSpace) == MAX32 <==> freeSpace == MAX32
    {
      FreeUpdate(table, 2, |table|, pos, 0);
      OutsideWrite(table, lastFat, files, pos, 0);
      table := table[pos := 0];
      if freeSpace != MAX32 {
        freeSpace := freeSpace + 1;
      }
    }

    method FatEncode(pos: nat, value: nat)
      requires Valid() && 2 <= pos < |table|
      requires forall h :: h in files ==> pos !in files[h]
      modifies this`table, this`freeSpace, this`fatError
      ensures Valid()
      ensures table == old(table)[pos := value]
      ensures old(freeSpace) == MAX32 <==> freeSpace == MAX32
    {
      var oldvalue := table[pos];
      FreeUpdate(table, 2, |table|, pos, value);
      OutsideWrite(table, lastFat, files, pos, value);
      table := table[pos := value];
      if freeSpace != MAX32 {
        if oldvalue != 0 {
          freeSpace := freeSpace + 1;
        }
        if value != 0 {
          freeSpace := freeSpace - 1;
        }
      }
    }

    // Where the search for a free cluster begins.
    function SearchStart(hint: nat): (s: nat)
      reads this
    {
      var s := if last != MAX32 then last else hint;
      if s < 2 || s >= numClus + 1 then 1 else s
    }

    // The cluster at step k of the search that starts behind the given one is free, and no
    // cluster looked at before it is free or unreadable.
    ghost predicate FirstFree(start: nat, k: nat)
      requires 1 <= start < numClus + 2 && |table| == numClus + 2 && k < numClus
      reads this
    {
      && table[WrapOrder(start, numClus, k)] == 0
      && forall j :: 0 <= j < k ==> table[WrapOrder(start, numClus, j)] > 1
    }

    // The first free cluster among lo, ..., hi - 1: 0 if there is none, 1 if an entry is
    // unreadable.
    method SearchRange(lo: nat, hi: nat) returns (r: nat)
      requires 2 <= lo <= hi <= |table|
      modifies this`fatError
      ensures r == 0 ==> forall x :: lo <= x < hi ==> table[x] > 1
      ensures r == 1 ==> !Readable()
      ensures r > 1 ==> lo <= r < hi && table[r] == 0 && forall x :: lo <= x < r ==> table[x] > 1
    {
      for i := lo to hi
        invariant forall x :: lo <= x < i ==> table[x] > 1
      {
        var e := FatDecode(i);
        if e == 1 {
          return 1;
        }
        if e == 0 {
          return i;
        }
      }
      r := 0;
    }

    // Answers the first free cluster in wrap-around order, or 1.
    method GetNextFreeCluster(hint: nat) returns (r: nat)
      requires Valid() && numClus > 0
      modifies this`last, this`fatError
      ensures Valid()
      ensures r == 1 ==> last == old(last) && (FreeCount(table) == 0 || !Readable())
      ensures r != 1 ==> 2 <= r < numClus + 2 && last == r
      ensures r != 1 ==> exists k :: 0 <= k < numClus && WrapOrder(old(SearchStart(hint)), numClus, k) == r && FirstFree(old(SearchStart(hint)), k)
      ensures r != 1 ==> table[r] == 0 && FreeCount(table) > 0
      ensures r != 1 ==> var from := if old(last) != 0xffff_ffff then old(last) else hint;
        && (r <= from <= numClus ==> forall x :: from < x < numClus + 2 ==> table[x] > 1)
        && (from < 2 || from > numClus || r <= from ==> forall x :: 2 <= x < r ==> table[x] > 1)
        && (2 <= from < r && from <= numClus ==> forall x :: from < x < r ==> table[x] > 1)
    {
      var start := SearchStart(hint);
      FreeSplit(table, 2, start + 1, numClus + 2);
      r := SearchRange(start + 1, numClus + 2);
      ghost var k := r - start - 1;
      if r == 0 {
        r := SearchRange(2, start + 1);
        if r == 0 {
          return 1;
        }
        k := r + numClus - start - 1;
      }
      if r != 1 {
        assert WrapOrder(start, numClus, k) == r && FirstFree(start, k);
        last := r;
      }
    }

    // The number of free clusters; the stored count is trusted unless unknown or 0.
    method GetFree() returns (ok: bool, free: nat)
      requires Valid()
      modifies this`freeSpace, this`fatError
      ensures Valid()
      ensures ok ==> free == freeSpace == FreeCount(table)
      ensures Readable() ==> ok
    {
      if freeSpace == MAX32 || freeSpace == 0 {
        var total := 0;
        for i := 2 to numClus + 2
          invariant total == FreeIn(table, 2, i) && freeSpace == old(freeSpace)
        {
          var e := FatDecode(i);
          if e == 1 {
            return false, 0;
          }
          if e == 0 {
            total := total + 1;
          }
        }
        freeSpace := total;
      }
      ok, free := true, freeSpace;
    }

    // Counts free clusters on top of total until there are size of them.
    method CountRange(lo: nat, hi: nat, before: nat, size: nat) returns (r: Count)
      requires 2 <= lo <= hi <= |table|
      modifies this`fatError
      ensures r.Enough? ==> before + FreeIn(table, lo, hi) >= size
      ensures r.Short? ==> r.total == before + FreeIn(table, lo, hi) && (lo < hi ==> r.total < size)
      ensures r.Unreadable? ==> !Readable()
    {
      var total := before;
      for i := lo to hi
        invariant total == before + FreeIn(table, lo, i)
        invariant lo < i ==> total < size
      {
        var e := FatDecode(i);
        if e == 1 {
          return Unreadable;
        }
        if e == 0 {
          total := total + 1;
        }
        if total >= size {
          FreeSplit(table, lo, i + 1, hi);
          return Enough;
        }
      }
      r := Short(total);
    }

    // Are there at least size free clusters?
    method GetFreeMinClusters(size: nat) returns (yes: bool)
      requires Valid() && numClus > 0
      modifies this`fatError
      ensures Valid()
      ensures yes ==> FreeCount(table) >= size
      ensures FreeCount(table) >= size && Readable() ==> yes
    {
      if freeSpace != MAX32 {
        return freeSpace >= size;
      }
      var start := if last < 2 || last >= numClus + 2 then 1 else last;
      FreeSplit(table, 2, start + 1, numClus + 2);
      var r := CountRange(start + 1, numClus + 2, 0, size);
      if r.Short? {
        r := CountRange(2, start + 1, r.total, size);
      }
      yes := r.Enough?;
    }

    // What n searches, each followed by an allocation, have taken: free clusters, one each.
    twostate predicate Took(got: seq<nat>)
      reads this
    {
      && |table| == |old(table)|
      && (forall x :: x in got ==> x < |table| && table[x] != 0 && old(table)[x] == 0)
      && (forall x :: 0 <= x < |table| && x !in got ==> table[x] == old(table)[x])
      && (forall j, k :: 0 <= j < k < |got| ==> got[j] != got[k])
    }

    // Up to n searches, each followed by an allocation: all succeed exactly if n clusters are
    // free.
    method Take(n: nat) returns (ok: bool, got: seq<nat>)
      requires Valid() && numClus > 0 && Readable()
      modifies this`table, this`freeSpace, this`files, this`last, this`fatError
      ensures Valid() && Readable() && Took(got)
      ensures ok <==> n <= old(FreeCount(table))
      ensures |got| == if ok then n else old(FreeCount(table))
      ensures FreeCount(table) == old(FreeCount(table)) - |got|
    {
      got, ok := [], true;
      while ok && |got| < n
        invariant Valid() && Readable() && Took(got) && |got| <= n
        invariant FreeCount(table) + |got| == old(FreeCount(table))
        invariant !ok ==> FreeCount(table) == 0 && |got| < n
        decreases ok, n - |got|
      {
        var c := GetNextFreeCluster(1);
        if c == 1 {
          ok := false;
        } else {
          FatAllocate(c, endFat);
          got := got + [c];
        }
      }
    }

    // A granted reservation of n clusters can be used up: the next n searches, each followed
    // by an allocation, all find a cluster of their own.
    method UseReservation(n: nat) returns (granted: bool, got: seq<nat>)
      requires Valid() && numClus > 0 && Readable()
      modifies this`table, this`freeSpace, this`files, this`last, this`fatError
      ensures Valid() && Took(got)
      ensures granted <==> old(FreeCount(table)) >= n
      ensures |got| == if granted then n else 0
    {
      got := [];
      granted := GetFreeMinClusters(n);
      if granted {
        var ok;
        ok, got := Take(n);
      }
    }

    // All that is reserved at present can be had.
    ghost predicate Backed()
      requires |table| >= 2
      reads this
    {
      preallocatedClusters <= FreeCount(table)
    }

    method FsPreallocateClusters(size: nat) returns (ok: bool)
      requires Valid() && numClus > 0
      modifies this`fatError, this`preallocatedClusters
      ensures Valid()
      ensures ok ==> size <= FreeCount(table)
      ensures size <= FreeCount(table) && Readable() ==> ok
      ensures preallocatedClusters == old(preallocatedClusters) + if ok then size else 0
    {
      ok := true;
      if size > 0 {
        ok := GetFreeMinClusters(size);
      }
      if ok {
        preallocatedClusters := preallocatedClusters + size;
      }
    }

    // Giving back never takes the backing from what is still reserved.
    method FsReleasePreallocateClusters(size: nat)
      modifies this`preallocatedClusters
      ensures preallocatedClusters == old(preallocatedClusters) - size
      ensures old(|table| >= 2 && Backed()) ==> Backed()
    {
      preallocatedClusters := preallocatedClusters - size;
    }

    // Reservations one after the other: each is compared with all free clusters, whatever has
    // been reserved before.
    method Reserve(sizes: seq<nat>) returns (granted: bool)
      requires Valid() && numClus > 0 && Readable()
      modifies this`fatError, this`preallocatedClusters
      ensures Valid()
      ensures granted <==> forall i :: 0 <= i < |sizes| ==> sizes[i] <= FreeCount(table)
      ensures granted ==> preallocatedClusters == old(preallocatedClusters) + Sum(sizes)
    {
      granted := true;
      var i := 0;
      while granted && i < |sizes|
        invariant Valid() && i <= |sizes|
        invariant granted ==> preallocatedClusters == old(preallocatedClusters) + Sum(sizes[..i])
        invariant granted <==> forall j :: 0 <= j < i ==> sizes[j] <= FreeCount(table)
      {
        granted := FsPreallocateClusters(sizes[i]);
        assert sizes[..i + 1][..i] == sizes[..i];
        i := i + 1;
      }
      assert sizes[..|sizes|] == sizes;
    }

    // Using up what is reserved, each cluster allocated being taken off the reservation: this
    // succeeds exactly if the reservations were backed.
    method UseUp() returns (ok: bool)
      requires Valid() && numClus > 0 && Readable() && preallocatedClusters >= 0
      modifies this
      ensures Valid() && (ok <==> old(Backed())) && (ok <==> Backed())
      ensures preallocatedClusters == if ok then 0 else old(preallocatedClusters - FreeCount(table))
      ensures FreeCount(table) == if ok then old(FreeCount(table) - preallocatedClusters) else 0
    {
      var got;
      ok, got := Take(preallocatedClusters);
      FsReleasePreallocateClusters(|got|);
    }

    // All that is granted can be used exactly if, at each grant, the free clusters sufficed for
    // it and for all reserved before it. The source does not check this.
    method ReserveAndUse(sizes: seq<nat>) returns (granted: bool, used: bool)
      requires Valid() && numClus > 0 && Readable() && preallocatedClusters >= 0 && Backed()
      modifies this
      ensures Valid()
      ensures granted <==> forall i :: 0 <= i < |sizes| ==> sizes[i] <= old(FreeCount(table))
      ensures granted ==> (used <==> old(preallocatedClusters) + Sum(sizes) <= old(FreeCount(table)))
      ensures granted ==>
        (used <==> forall i :: 0 <= i < |sizes| ==> old(preallocatedClusters) + Sum(sizes[..i]) + sizes[i] <= old(FreeCount(table)))
    {
      SumBounded(sizes, preallocatedClusters, FreeCount(table));
      granted := Reserve(sizes);
      used := false;
      if granted {
        used := UseUp();
      }
    }

    // The release loop, for a chain that belongs to no file any more.
    method Release(fat: nat, ghost c: seq<nat>)
      requires Valid() && fatError == 0
      requires IsChain(table, lastFat, c) && c[0] == fat
      requires forall h :: h in files ==> Disjoint(c, files[h])
      modifies this`table, this`freeSpace, this`fatError
      ensures Valid() && fatError == 0
      ensures table == Released(old(table), c)
      ensures FreeCount(table) == old(FreeCount(table)) + |c|
    {
      ghost var t, k := table, 0;
      var cur := fat;
      while fatError == 0
        invariant fatError == 0 && Valid() && k < |c| && cur == c[k]
        invariant table == Released(t, c[..k])
        invariant FreeCount(table) == FreeCount(t) + k
        decreases |c| - k
      {
        ReleaseStep(t, lastFat, c, k);
        var next := FatDecode(cur);
        FatDeallocate(cur);
        if next >= lastFat {
          assert c[..k + 1] == c;
          return;
        }
        cur, k := next, k + 1;
      }
    }

    // Releases the chain that begins at the given cluster.
    method FatFree(fat: nat)
      requires Valid()
      requires fat != 0 ==> fat in files
      modifies this`table, this`freeSpace, this`fatError, this`files
      ensures Valid()
      ensures fat == 0 || old(fatError) != 0 ==> unchanged(this)
      ensures fat != 0 && old(fatError) == 0 ==>
        && FileChain(old(table), lastFat, old(files), fat)
        && table == Released(old(table), old(files)[fat])
        && FreeCount(table) == old(FreeCount(table)) + |old(files)[fat]|
        && files == old(files) - {fat} && fatError == 0
    {
      if fat == 0 || fatError != 0 {
        return;
      }
      assert FileChain(table, lastFat, files, fat);
      DropChain(table, lastFat, files, fat);
      ghost var c := files[fat];
      files := files - {fat};
      Release(fat, c);
    }
  }

  // Three clusters are free; two reservations of two clusters each are granted, and the fourth
  // cluster is not to be had.
  method TwoGrantsTooMany(layout: Layout) returns (fs: Fs, granted: bool, used: bool)
    requires layout.Valid()
    ensures fs.Valid() && granted && !used && fs.preallocatedClusters == 1
  {
    fs := new Fs(3, 0xff6, 0xfff, layout, [0, 0, 0, 0, 0]);
    assert FreeCount([0, 0, 0, 0, 0]) == 3 by {
      assert FreeIn([0, 0, 0, 0, 0], 2, 3) == 1;
      assert FreeIn([0, 0, 0, 0, 0], 2, 4) == 2;
    }
    assert Sum([2, 2]) == 4 by {
      assert [2, 2][..1] == [2] && Sum([2]) == 2;
    }
    granted := fs.Reserve([2, 2]);
    used := fs.UseUp();
  }
}
