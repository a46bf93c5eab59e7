/**
 The allocator on top of the sector cache (fat.c): the table of numbers the allocator works on
 is what the packed bytes in the cached sectors decode to, through every change, and is found
 again by the next program if the first copy of the table is written.
 */
module FatStack {
  import opened FatCodec
  import opened FatTable
  import Cache = FatCache

  class FileSystem {
    const fs: Fs
    const cache: Cache.FatCache
    const width: Width

    // The bytes in the cache are those of a table. The copies that may answer are alike, and one
    // always answers.
    ghost predicate Backs(table: Table)
      reads cache, cache.data
    {
      && cache.Valid() && cache.Coherent() && cache.Answers()
      && Inside(width, cache.Flat(), fs.numClus + 1) && table == Decoded(width, cache.Flat(), fs.numClus)
    }

    // The end mark of the present width fits into an entry; allocator and cache count the same
    // errors.
    ghost predicate Valid()
      reads fs, cache, cache.data
    {
      fs.Valid() && fs.endFat < CodeLimit(width) && fs.fatError == cache.fatError && Backs(fs.table)
    }

    constructor (fs: Fs, cache: Cache.FatCache, width: Width)
      requires fs.Valid() && cache.Valid() && cache.Coherent() && cache.Answers() && fs.endFat < CodeLimit(width)
      requires Inside(width, cache.Flat(), fs.numClus + 1) && fs.table == Decoded(width, cache.Flat(), fs.numClus)
      requires fs.fatError == cache.fatError
      ensures Valid() && this.fs == fs && this.cache == cache && this.width == width
    {
      this.fs, this.cache, this.width := fs, cache, width;
    }

    // A number that is neither free, nor a cluster, nor an end mark.
    predicate Bad(code: nat) {
      code != 0 && (code < 2 || code > fs.numClus + 1) && code < fs.lastFat
    }

    // fatDecode. (A predicate compared with true is proved as a whole and not part by part, which
    // is cheaper here.) A number looked up in the bytes is the number of the table; a bad one is
    // counted as an error.
    method Lookup(num: nat) returns (code: nat)
      requires Valid() && num <= fs.numClus + 1
      modifies fs`fatError, cache, cache.data
      ensures Valid() == true && code == fs.table[num]
      ensures fs.fatError == old(fs.fatError) + if code == 0 || 2 <= code <= fs.numClus + 1 || code >= fs.lastFat then 0 else 1
    {
      ghost var table, before := cache.Flat(), cache.fatError;
      code := cache.FatDecode(width, num, fs.numClus);
      assert cache.Flat() == table;
      if Bad(code) {
        fs.fatError := fs.fatError + 1;
        cache.CountError();
      }
    }

    // A number stored in the bytes.
    method Store(num: nat, code: nat, ghost table: Table)
      requires Backs(table) && 2 <= num <= fs.numClus + 1 && code < CodeLimit(width)
      modifies cache, cache.data
      ensures Backs(table[num := code]) == true && cache.fatError == old(cache.fatError)
    {
      ghost var before := cache.view;
      var ok, found := cache.FatEncode(width, num, code, fs.numClus);
      assert found == before;
    }

    // A free cluster becomes a file of its own.
    method Allocate(pos: nat)
      requires Valid() && 2 <= pos < |fs.table| && fs.table[pos] == 0
      modifies fs, cache, cache.data
      ensures Valid() == true && fs.table == old(fs.table)[pos := fs.endFat]
      ensures fs.files == old(fs.files)[pos := [pos]]
    {
      Store(pos, fs.endFat, fs.table);
      fs.FatAllocate(pos, fs.endFat);
    }

    // A free cluster is put behind the last one of a chain.
    method Append(pos: nat, newpos: nat, ghost head: nat)
      requires Valid() && head in fs.files && FileChain(fs.table, fs.lastFat, fs.files, head)
      requires pos == fs.files[head][|fs.files[head]| - 1] && 2 <= newpos < |fs.table| && fs.table[newpos] == 0
      modifies fs, cache, cache.data
      ensures Valid() == true && fs.table == old(fs.table)[pos := newpos][newpos := fs.endFat]
      ensures fs.files == old(fs.files)[head := old(fs.files)[head] + [newpos]]
    {
      ghost var t := fs.table;
      Store(pos, newpos, t);
      Store(newpos, fs.endFat, t[pos := newpos]);
      fs.FatAppend(pos, newpos, head);
    }

    // A used cluster outside all chains becomes free.
    method Deallocate(pos: nat)
      requires Valid() && 2 <= pos < |fs.table| && fs.table[pos] != 0 && forall h :: h in fs.files ==> pos !in fs.files[h]
      modifies fs, cache, cache.data
      ensures Valid() == true && fs.table == old(fs.table)[pos := 0] && fs.files == old(fs.files) && fs.fatError == old(fs.fatError)
    {
      Store(pos, 0, fs.table);
      fs.FatDeallocate(pos);
    }

    // fat_free, on the bytes: exactly one chain is released, or nothing after an error.
    method Free(fat: nat)
      requires Valid() && fat in fs.files
      modifies fs, cache, cache.data
      ensures Valid() == true && FileChain(old(fs.table), fs.lastFat, old(fs.files), fat)
      ensures old(fs.fatError) != 0 ==> fs.table == old(fs.table) && fs.files == old(fs.files)
      ensures old(fs.fatError) == 0 ==> fs.table == Released(old(fs.table), old(fs.files)[fat]) && fs.files == old(fs.files) - {fat} && fs.fatError == 0
    {
      assert FileChain(fs.table, fs.lastFat, fs.files, fat);
      if fs.fatError == 0 {
        ghost var c := fs.files[fat];
        DropChain(fs.table, fs.lastFat, fs.files, fat);
        fs.files := fs.files - {fat};
        Release(fat, c);
      }
    }

    // The release loop, for a chain that belongs to no file any more.
    method Release(fat: nat, ghost c: seq<nat>)
      requires Valid() && fs.fatError == 0 && IsChain(fs.table, fs.lastFat, c) && c[0] == fat
      requires forall h :: h in fs.files ==> Disjoint(c, fs.files[h])
      modifies fs, cache, cache.data
      ensures Valid() == true && fs.fatError == 0 && fs.table == Released(old(fs.table), c) && fs.files == old(fs.files)
    {
      ghost var t, k := fs.table, 0;
      ghost var rest := fs.files;
      var cur, more := fat, true;
      while more && fs.fatError == 0
        invariant Valid() == true && fs.fatError == 0 && fs.files == rest && k <= |c| && fs.table == Released(t, c[..k])
        invariant if more then k < |c| && cur == c[k] else k == |c|
        decreases |c| - k, more
      {
        ReleaseStep(t, fs.lastFat, c, k);
        var next := Lookup(cur);
        Deallocate(cur);
        cur, k, more := next, k + 1, next < fs.lastFat;
      }
      assert c[..|c|] == c;
    }

    // After a write back, what the next program decodes is the table of the allocator, with all
    // its chains, if the first copy was written or had all changes anyway.
    method Save() returns (ok: bool, d: Cache.FatCache?)
      requires Valid() && cache.writable
      modifies cache`disk, cache`dirty, cache`fatDirty, cache`lastMode
      ensures ok && Valid() == true && d != null && fresh(d) && d.Valid() == true && Inside(width, d.Flat(), fs.numClus + 1)
      ensures old(cache.Written(cache.First()) || forall s :: s in cache.changed ==> cache.OnDisk(cache.First(), s) == cache.view[s]) ==>
        Decoded(width, d.Flat(), fs.numClus) == fs.table && ChainsOk(Decoded(width, d.Flat(), fs.numClus), fs.lastFat, fs.files)
    {
      ok, d := Cache.WriteBackAndReopen(cache);
    }
  }
}
