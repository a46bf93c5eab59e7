/**
 Looking for a clash and for room before a file is created (lookupForInsert in vfat.c). The
 directory is read into the cache as far as needed; entries whose names are all in the filter
 are skipped if the filter knows nothing of the new names.
 */
module InsertLookup {
  import opened Arith
  import opened DirCache
  import opened NameFilter
  import opened SlotRuns

  const VSE_NAMELEN: nat := 13

  function SizeNeeded(longName: Name, useLongName: bool): (n: nat)
    ensures n >= 1 && (!useLongName ==> n == 1)
    ensures useLongName && longName != [] ==> 13 * (n - 2) < |longName| <= 13 * (n - 1)
  {
    if useLongName then 1 + (|longName| + VSE_NAMELEN - 1) / VSE_NAMELEN else 1
  }

  predicate Candidate(s: Slot, q: Query) {
    s.UsedSlot? && !s.isLabel && s.endSlot - 1 != q.ignoreEntry
  }

  predicate LongHit(upper: Folding, s: Slot, q: Query) {
    Candidate(s, q) && ((s.longName.Some? && SameName(upper, s.longName.value, q.longName)) || SameName(upper, s.shortName, q.longName))
  }

  predicate ShortHit(upper: Folding, s: Slot, q: Query) {
    Candidate(s, q) && q.ignoreEntry != -2 && SameName(upper, q.shortName, s.shortName)
  }

  datatype Answer = Answer(code: int, longMatch: int, shortMatch: int, gotSlots: bool, slot: nat, maxEntry: nat)

  // The verdict a full scan has to give: the first entry with the long name; failing that the
  // last entry with the short name; failing that the place.
  ghost predicate Correct(upper: Folding, slots: seq<Slot>, isRootDir: bool, q: Query, look: nat, a: Answer) {
    && (a.longMatch >= 0 ==> IsFirstLong(upper, slots, q, a.longMatch) && a.code == 1)
    && (a.longMatch < 0 ==>
      && a.longMatch == -1
      && (forall i {:trigger slots[i]} :: 0 <= i < |slots| ==> !LongHit(upper, slots[i], q))
      && IsLastShort(upper, slots, q, a.shortMatch, |slots|)
      && (a.shortMatch >= 0 ==> a.code == 1)
      && (a.shortMatch < 0 ==>
        && a.maxEntry == |slots|
        && (a.gotSlots <==> Place(slots, q, look) < |slots|)
        && (a.gotSlots ==> a.slot == Place(slots, q, look))
        && a.code == if a.gotSlots then 6 else if isRootDir then -1 else 5))
  }

  ghost predicate IsFirstLong(upper: Folding, slots: seq<Slot>, q: Query, m: int) {
    && 0 <= m < |slots| && LongHit(upper, slots[m], q) && slots[m].endSlot == m + 1
    && forall i {:trigger slots[i]} :: 0 <= i < slots[m].beginSlot && i < |slots| ==> !LongHit(upper, slots[i], q)
  }

  // The last short match among the first n slots.
  ghost predicate IsLastShort(upper: Folding, slots: seq<Slot>, q: Query, m: int, n: nat) {
    && n <= |slots| && -1 <= m < n
    && (m >= 0 ==> ShortHit(upper, slots[m], q) && slots[m].endSlot == m + 1)
    && forall i {:trigger slots[i]} :: m < i < n ==> !ShortHit(upper, slots[i], q)
  }

  // scan_state: the run of slots that may be taken, and the place once found.
  class ScanState {
    const sizeNeeded: nat
    var freeStart: nat
    var freeEnd: nat
    var gotSlots: bool
    var slot: nat

    constructor (sizeNeeded: nat)
      ensures this.sizeNeeded == sizeNeeded && freeStart == freeEnd == 0 && !gotSlots
    {
      this.sizeNeeded := sizeNeeded;
      freeStart, freeEnd, gotSlots, slot := 0, 0, false, 0;
    }

    // The first n slots have been accounted for.
    ghost predicate Accounted(slots: seq<Slot>, q: Query, look: nat, n: nat)
      reads this
    {
      && sizeNeeded == q.sizeNeeded && n <= |slots|
      && if gotSlots then slot == Place(slots, q, look) < |slots| else Tracked(slots, q, look, n, freeStart, freeEnd)
    }

    // An entry whose slots may be taken. Where it does not start behind the slots known to be
    // free, a new run is begun; so it is, too, if part of
    // it has been met before.
    method AccountFreeSlots(beginSlot: nat, endSlot: nat, ghost slots: seq<Slot>, ghost q: Query, ghost look: nat, ghost n: nat)
      requires WellFormed(slots) && q.sizeNeeded >= 1
      requires Accounted(slots, q, look, n) && NextPiece(slots, q, look, n, beginSlot, endSlot)
      modifies this
      ensures Accounted(slots, q, look, endSlot)
    {
      if !gotSlots {
        TrackPiece(slots, q, look, n, beginSlot, endSlot, freeStart, freeEnd);
        if freeEnd != beginSlot {
          freeStart := beginSlot;
        }
        freeEnd := endSlot;
        if freeEnd - freeStart >= sizeNeeded {
          gotSlots := true;
          slot := freeStart + sizeNeeded - 1;
        }
      }
    }
  }

  // Two correct answers are one verdict: the same code, the same clash, the same place.
  lemma VerdictIsUnique(upper: Folding, slots: seq<Slot>, isRootDir: bool, q: Query, look: nat, a: Answer, b: Answer)
    requires WellFormed(slots)
    requires Correct(upper, slots, isRootDir, q, look, a) && Correct(upper, slots, isRootDir, q, look, b)
    ensures a.code == b.code && a.longMatch == b.longMatch
    ensures a.longMatch < 0 ==> a.shortMatch == b.shortMatch
    ensures a.longMatch < 0 && a.shortMatch < 0 ==> a.gotSlots == b.gotSlots && a.maxEntry == b.maxEntry
    ensures a.longMatch < 0 && a.shortMatch < 0 && a.gotSlots ==> a.slot == b.slot
  {
    if a.longMatch >= 0 && b.longMatch >= 0 {
      SameRun(slots, a.longMatch, b.longMatch);
    }
  }

  // What the verdict says about the names: a clash is an entry of a file, other than the ignored
  // one, one of whose names is one of those to be created; with a verdict of room, or of none,
  // there is no such entry. The long name clashes with either name, the short name with the
  // short name only.
  lemma VerdictOnNames(upper: Folding, slots: seq<Slot>, isRootDir: bool, q: Query, look: nat, a: Answer)
    requires Correct(upper, slots, isRootDir, q, look, a)
    ensures a.code in {1, 5, 6, -1} && (a.code == 1 <==> a.longMatch >= 0 || a.shortMatch >= 0)
    ensures a.longMatch >= 0 ==>
      && a.longMatch < |slots| && slots[a.longMatch].UsedSlot? && !slots[a.longMatch].isLabel
      && slots[a.longMatch].endSlot == a.longMatch + 1 && a.longMatch != q.ignoreEntry
      && (slots[a.longMatch].longName == None ==> SameName(upper, slots[a.longMatch].shortName, q.longName))
      && (slots[a.longMatch].longName.Some? && !SameName(upper, slots[a.longMatch].longName.value, q.longName) ==>
        SameName(upper, slots[a.longMatch].shortName, q.longName))
    ensures a.longMatch < 0 && a.shortMatch >= 0 ==>
      && a.shortMatch < |slots| && slots[a.shortMatch].UsedSlot? && !slots[a.shortMatch].isLabel
      && slots[a.shortMatch].endSlot == a.shortMatch + 1 && q.ignoreEntry !in {-2, a.shortMatch}
      && SameName(upper, q.shortName, slots[a.shortMatch].shortName)
    ensures a.longMatch < 0 ==> forall i {:trigger slots[i]} ::
      0 <= i < |slots| && slots[i].UsedSlot? && !slots[i].isLabel && slots[i].endSlot - 1 != q.ignoreEntry ==>
        && (slots[i].longName.Some? ==> !SameName(upper, slots[i].longName.value, q.longName))
        && !SameName(upper, slots[i].shortName, q.longName)
        && (a.shortMatch < i && q.ignoreEntry != -2 ==> !SameName(upper, q.shortName, slots[i].shortName))
  {
    forall i | 0 <= i < |slots| && slots[i].UsedSlot? && !slots[i].isLabel && slots[i].endSlot - 1 != q.ignoreEntry && a.longMatch < 0
      ensures slots[i].longName.Some? ==> !SameName(upper, slots[i].longName.value, q.longName)
      ensures !SameName(upper, slots[i].shortName, q.longName)
      ensures a.shortMatch < i && q.ignoreEntry != -2 ==> !SameName(upper, q.shortName, slots[i].shortName)
    {
      assert !LongHit(upper, slots[i], q) && (a.shortMatch < i ==> !ShortHit(upper, slots[i], q));
    }
  }

  // What it says about the place: its slots are free or those of the source entry. Without a
  // source entry every earlier place has a slot in use, and so has every place if none is found.
  lemma VerdictOnPlace(upper: Folding, slots: seq<Slot>, isRootDir: bool, q: Query, look: nat, a: Answer, last: nat)
    requires WellFormed(slots) && Correct(upper, slots, isRootDir, q, look, a) && q.sizeNeeded >= 1
    ensures a.code == 6 ==>
      && q.sizeNeeded <= a.slot + 1 <= |slots|
      && forall i {:trigger slots[i]} :: a.slot + 1 - q.sizeNeeded <= i <= a.slot ==>
        slots[i].FreeSlot? || (!slots[i].isLabel && slots[i].endSlot == q.sourceEntry + 1)
    ensures q.sourceEntry < 0 && a.code in {-1, 5, 6} && q.sizeNeeded <= last + 1 <= (if a.code == 6 then a.slot else |slots|) ==>
      exists i {:trigger slots[i]} :: last + 1 - q.sizeNeeded <= i <= last && slots[i].UsedSlot?
  {
    if q.sourceEntry < 0 && a.code in {-1, 5, 6} && q.sizeNeeded <= last + 1 <= (if a.code == 6 then a.slot else |slots|) {
      assert !Room(slots, q, last);
      var i :| last + 1 - q.sizeNeeded <= i <= last && !Available(slots[i], q);
      assert slots[i].UsedSlot?;
    }
  }

  // Last slots of runs, neither of which lies before the other run.
  lemma SameRun(slots: seq<Slot>, m: nat, n: nat)
    requires WellFormed(slots) && m < |slots| && n < |slots|
    requires slots[m].UsedSlot? && slots[n].UsedSlot? && slots[m].endSlot == m + 1 && slots[n].endSlot == n + 1
    requires slots[m].beginSlot <= n && slots[n].beginSlot <= m
    ensures m == n
  {
    assert RunAt(slots, m) && RunAt(slots, n);
  }

  // The place reported is the first room there is.
  ghost predicate FindsFirst(slots: seq<Slot>, q: Query, a: Answer) {
    if a.gotSlots then a.slot == FirstRoom(slots, q) else forall last: nat {:trigger Room(slots, q, last)} :: !Room(slots, q, last)
  }

  // Where there is no clash, the first room is found if and only if it is not lost.
  lemma FirstRoomFound(upper: Folding, slots: seq<Slot>, isRootDir: bool, q: Query, look: nat, a: Answer)
    requires Correct(upper, slots, isRootDir, q, look, a) && a.longMatch < 0 && a.shortMatch < 0 && q.sizeNeeded >= 1
    ensures FindsFirst(slots, q, a) <==> !Lost(slots, q, look)
  {
    FirstUnlessLost(slots, q, look);
    if FirstRoom(slots, q) < |slots| {
      assert Room(slots, q, FirstRoom(slots, q));
    }
  }

  // So it is whenever what is free behind the source entry had been read before the lookup, and
  // in particular in a directory that had been read to its end.
  lemma ReadDirectoryFindsFirst(upper: Folding, slots: seq<Slot>, isRootDir: bool, q: Query, frontier: nat, a: Answer)
    requires Correct(upper, slots, isRootDir, q, SourceLook(slots, q, frontier), a) && a.longMatch < 0 && a.shortMatch < 0
    requires WellFormed(slots) && q.sizeNeeded >= 1
    requires !HasSource(slots, q) || RunEnd(slots, q.sourceEntry + 1) <= frontier
    ensures FindsFirst(slots, q, a)
  {
    NotLost(slots, q, frontier);
    FirstRoomFound(upper, slots, isRootDir, q, SourceLook(slots, q, frontier), a);
  }

  // What is cached is what reading the directory would find.
  ghost predicate Matches(c: Cell, slots: seq<Slot>, i: nat) {
    match c
    case Unread => true
    case FreeCell => i < |slots| && slots[i].FreeSlot?
    case EndCell => i <= |slots| && forall j {:trigger slots[j]} :: i <= j < |slots| ==> slots[j].FreeSlot?
    case UsedCell(b, e, long, short, isLabel) => i < |slots| && slots[i] == UsedSlot(b, e, long, short, isLabel)
  }

  // What the cache tells of a slot that has been read.
  ghost function CellOf(s: Slot): Cell {
    if s.FreeSlot? then FreeCell else UsedCell(s.beginSlot, s.endSlot, s.longName, s.shortName, s.isLabel)
  }

  // The cache tells of every slot what the directory holds.
  ghost predicate Shows(cache: DirCache, slots: seq<Slot>)
    reads cache`entries, cache`owners, cache.owners
  {
    && (forall i: nat {:trigger cache.Look(i)} {:trigger slots[i]} :: i < |slots| ==> cache.Look(i) == CellOf(slots[i]))
    && (forall i: nat {:trigger cache.Look(i)} :: i >= |slots| ==> cache.Look(i) == Unread || (cache.Look(i) == EndCell && i == |slots|))
  }

  class Directory {
    const upper: Folding
    const isRootDir: bool
    const cache: DirCache
    const slots: seq<Slot>           // what the directory holds, in order
    const endMark: nat               // where the end mark is; the number of slots if there is none
    ghost var filled: nat            // the slots before it have been read, no others

    // Slots have been read in order; but the end of the directory may have been entered in the
    // cache behind free slots that have not, by a lookup that was not in search of free space.
    ghost predicate FilledSo(i: nat)
      reads this`filled, cache`entries, cache`owners, cache.owners
    {
      i < filled <==> cache.Look(i) != Unread && cache.Look(i) != EndCell
    }

    ghost predicate Valid()
      reads this, cache, cache.owners
    {
      && cache.Valid() && WellFormed(slots) && Respects(upper, cache.hash)
      && filled <= |cache.entries| && filled <= |slots|
      && endMark <= |slots| && (forall i {:trigger slots[i]} :: endMark <= i < |slots| ==> slots[i] == FreeSlot(false))
      && (forall i: nat {:trigger cache.Look(i)} :: Matches(cache.Look(i), slots, i))
      && (forall i: nat {:trigger cache.Look(i)} :: FilledSo(i))
    }

    constructor (upper: Folding, isRootDir: bool, slots: seq<Slot>, endMark: nat)
      requires WellFormed(slots) && endMark <= |slots| && forall i {:trigger slots[i]} :: endMark <= i < |slots| ==> slots[i] == FreeSlot(false)
      ensures Valid() && filled == 0 && fresh(cache) && cache.owners == {}
      ensures this.upper == upper && this.isRootDir == isRootDir && this.slots == slots && this.endMark == endMark
    {
      this.upper, this.isRootDir, this.slots, this.endMark, filled := upper, isRootDir, slots, endMark, 0;
      cache := new DirCache(name => CalcHash(upper, name), 1);
      CalcHashRespects(upper);
      new;
      forall i: nat
        ensures FilledSo(i)
      {
        assert cache.Look(i) == Unread;
      }
    }

    // The directory over a cache that shows the whole of it.
    constructor Over(upper: Folding, isRootDir: bool, cache: DirCache, slots: seq<Slot>, endMark: nat)
      requires cache.Valid() && WellFormed(slots) && Respects(upper, cache.hash) && Shows(cache, slots)
      requires endMark <= |slots| && forall i {:trigger slots[i]} :: endMark <= i < |slots| ==> slots[i] == FreeSlot(false)
      ensures Valid() && filled == |slots| && this.cache == cache
      ensures this.upper == upper && this.isRootDir == isRootDir && this.slots == slots && this.endMark == endMark
    {
      this.upper, this.isRootDir, this.slots, this.endMark, filled := upper, isRootDir, slots, endMark, |slots|;
      this.cache := cache;
      new;
      if slots != [] {
        assert cache.Look(|slots| - 1) == CellOf(slots[|slots| - 1]);
      }
      forall i: nat
        ensures FilledSo(i) && Matches(cache.Look(i), slots, i)
      {
        if i < |slots| {
          assert cache.Look(i) == CellOf(slots[i]);
        }
      }
    }

    // Where reading goes on.
    ghost predicate AtFrontier(pos: nat)
      reads this`filled, cache`entries, cache`owners, cache.owners
    {
      pos < |cache.entries| && pos == filled
    }

    // Reading has come to a place, or to the end of the entry that begins there.
    ghost predicate Ahead(pos: nat)
      reads this`filled, cache`entries, cache`owners, cache.owners
    {
      pos <= |slots| && (filled == pos || (pos < |slots| && slots[pos].UsedSlot? && filled == slots[pos].endSlot))
    }

    lemma FrontierIsClear(pos: nat, end: nat)
      requires Valid() && pos >= filled && (pos == filled || cache.Boundary(pos))
      ensures cache.Fits(pos, end)
      ensures forall i: nat {:trigger cache.Look(i)} :: i >= pos ==> !cache.Look(i).UsedCell?
    {
      forall e | e in cache.owners && e.endSlot > filled
        ensures e.beginSlot >= filled && e.kind == End
      {
        assert cache.EntryOwns(e);
        assert cache.entries[e.endSlot - 1] == e == cache.entries[e.beginSlot];
        assert cache.Look(e.endSlot - 1) != Unread && cache.Look(e.beginSlot) != Unread;
        assert FilledSo(e.endSlot - 1) && FilledSo(e.beginSlot);
      }
      if pos < |cache.entries| && cache.entries[pos] != null {
        assert cache.SlotOwned(pos);
      }
      forall i: nat | i >= pos
        ensures !cache.Look(i).UsedCell?
      {
        assert i < |cache.entries| ==> cache.SlotOwned(i);
      }
      HashedIsFilled();
    }

    // All hashed entries have been read.
    lemma HashedIsFilled()
      requires Valid()
      ensures cache.nrHashed <= filled
    {
      if cache.nrHashed > 0 {
        assert cache.NamesHashed(cache.nrHashed - 1) && cache.SlotOwned(cache.nrHashed - 1);
        assert FilledSo(cache.nrHashed - 1);
      }
    }

    // What vfat_lookup does when it meets the end mark: it is not in search of free space, and
    // enters the end of the directory only, even if there are free slots before it.
    method LookupEnd()
      requires Valid() && filled <= endMark < |slots| && cache.Boundary(endMark)
      modifies this`filled, cache, cache.owners
      ensures Valid() == true && filled == old(filled) && fresh(cache.owners - old(cache.owners))
      ensures cache.Look(endMark) == EndCell && cache.RestKept(endMark, endMark + 1)
    {
      FrontierIsClear(endMark, endMark + 1);
      var e := cache.AddEndEntry(endMark);
      assert cache.Look(endMark) == EndCell;
      forall i: nat
        ensures Matches(cache.Look(i), slots, i) && FilledSo(i)
      {
        if i != endMark {
          assert cache.Look(i) == old(cache.Look(i)) && old(FilledSo(i));
        }
      }
    }

    // Free slots up to end. (A predicate compared with true is proved as a whole and not part by
    // part, which is cheaper here.)
    method ReadFree(pos: nat, end: nat, isAtEnd: bool)
      requires Valid() && AtFrontier(pos) && pos < end <= |slots|
      requires forall i {:trigger slots[i]} :: pos <= i < end ==> slots[i].FreeSlot?
      modifies this`filled, cache, cache.owners
      ensures Valid() == true && filled == end && AtFrontier(end)
      ensures cache.RestKept(pos, end) && cache.Look(pos) == FreeCell && fresh(cache.owners - old(cache.owners))
    {
      FrontierIsClear(pos, end);
      var e := cache.AddFreeEndEntry(pos, end, isAtEnd);
      filled := end;
      assert cache.Look(pos) == FreeCell;
      forall i: nat
        ensures Matches(cache.Look(i), slots, i) && FilledSo(i)
      {
        if i < pos || i >= end {
          assert cache.Look(i) == old(cache.Look(i)) && old(FilledSo(i));
        }
      }
    }

    // Where an entry, or a free slot, begins.
    predicate EntryBorder(pos: nat) {
      pos == |slots| || (pos < |slots| && (slots[pos].UsedSlot? ==> slots[pos].beginSlot == pos))
    }

    method ReadUsed(pos: nat)
      requires Valid() && AtFrontier(pos) && pos < |slots| && slots[pos].UsedSlot? && slots[pos].beginSlot == pos
      modifies this`filled, cache, cache.owners
      ensures Valid() == true && filled == slots[pos].endSlot && AtFrontier(filled)
      ensures cache.RestKept(pos, filled) && cache.Look(pos).UsedCell? && fresh(cache.owners - old(cache.owners))
    {
      var u := slots[pos];
      assert RunAt(slots, pos);
      FrontierIsClear(pos, u.endSlot);
      var e := cache.AddUsedEntry(pos, u.endSlot, u.longName, u.shortName, u.isLabel);
      filled := u.endSlot;
      assert cache.Look(pos).UsedCell?;
      forall i: nat
        ensures Matches(cache.Look(i), slots, i) && FilledSo(i)
      {
        if i < pos || i >= u.endSlot {
          assert cache.Look(i) == old(cache.Look(i)) && old(FilledSo(i));
        }
      }
      assert cache.Look(u.endSlot - 1).UsedCell?;
    }

    method ReadEnd()
      requires Valid() && AtFrontier(|slots|)
      modifies this`filled, cache, cache.owners
      ensures Valid() == true && filled == |slots|
      ensures cache.RestKept(|slots|, |slots| + 1) && cache.Look(|slots|) == EndCell && fresh(cache.owners - old(cache.owners))
    {
      var pos := |slots|;
      FrontierIsClear(pos, pos + 1);
      var e := cache.AddEndEntry(pos);
      assert cache.Look(pos) == EndCell;
      forall i: nat
        ensures Matches(cache.Look(i), slots, i) && FilledSo(i)
      {
        if i < pos || i >= pos + 1 {
          assert cache.Look(i) == old(cache.Look(i)) && old(FilledSo(i));
        }
      }
    }

    // How far free slots are read from pos on, whether reading pauses there, and whether the end
    // mark is among them.
    method SkipFree(pos: nat) returns (end: nat, pause: bool, endmarkSeen: bool)
      requires pos <= |slots|
      ensures endmarkSeen <==> pos <= endMark < end
      ensures end == PieceEnd(slots, pos) && (pause ==> pos < end) && (!pause ==> end == |slots| || slots[end].UsedSlot?)
    {
      end, pause, endmarkSeen := pos, false, false;
      while !pause && end < |slots| && slots[end].FreeSlot?
        invariant pos <= end <= |slots| && (pause ==> pos < end) && (endmarkSeen <==> pos <= endMark < end)
        invariant PieceEnd(slots, pos) == if pause then end else PieceEnd(slots, end)
        decreases |slots| - end, !pause
      {
        endmarkSeen := endmarkSeen || end == endMark;
        pause := slots[end].pause;
        end := end + 1;
      }
    }

    lemma BorderBehindFree(end: nat)
      requires WellFormed(slots) && end <= |slots| && (end > 0 ==> slots[end - 1].FreeSlot?)
      ensures EntryBorder(end)
    {
      if end < |slots| && slots[end].UsedSlot? {
        assert RunAt(slots, end);
      }
    }

    // What follows free slots: an entry, or the end of the directory.
    method ReadNext(end: nat)
      requires Valid() && AtFrontier(end) && EntryBorder(end) && (end < |slots| ==> slots[end].UsedSlot?)
      modifies this`filled, cache, cache.owners
      ensures Valid() == true && fresh(cache.owners - old(cache.owners))
      ensures forall i: nat {:trigger cache.Look(i)} :: i < end ==> cache.Look(i) == old(cache.Look(i))
      ensures end == |slots| ==> cache.Look(end) == EndCell
      ensures end < |slots| ==> cache.Look(end).UsedCell?
      ensures Ahead(end)
    {
      if end == |slots| {
        ReadEnd();
      } else {
        ReadUsed(end);
      }
    }

    // What has been found at a slot and before it, after reading on from there.
    twostate predicate FoundAt(pos: nat)
      requires pos <= |slots|
      reads this`filled, cache`entries, cache`owners, cache.owners
    {
      && (forall i: nat {:trigger cache.Look(i)} :: i < pos ==> cache.Look(i) == old(cache.Look(i)))
      && cache.Look(pos) != Unread && (cache.Look(pos) == EndCell ==> pos == |slots|)
      && Ahead(PieceEnd(slots, pos))
    }

    method ReadPiece(pos: nat, end: nat, pause: bool, endmarkSeen: bool)
      requires Valid() && AtFrontier(pos) && pos < end == PieceEnd(slots, pos) && (!pause ==> end == |slots| || slots[end].UsedSlot?)
      modifies this`filled, cache, cache.owners
      ensures Valid() == true && fresh(cache.owners - old(cache.owners)) && FoundAt(pos) == true
    {
      BorderBehindFree(end);
      ReadFree(pos, end, end == |slots| && !pause && endmarkSeen);
      assert cache.Look(pos) == FreeCell && Ahead(end);
      if !pause {
        ReadNext(end);
      }
    }

    // vfat_lookup_loop_common in search of free space: free slots, and what follows them unless
    // they end with a deleted entry.
    method ReadMore(pos: nat)
      requires Valid() && AtFrontier(pos) && EntryBorder(pos)
      modifies this`filled, cache, cache.owners
      ensures Valid() == true && fresh(cache.owners - old(cache.owners)) && FoundAt(pos) == true
    {
      var end, pause, endmarkSeen := SkipFree(pos);
      if pos < end {
        ReadPiece(pos, end, pause, endmarkSeen);
      } else {
        ReadNext(end);
      }
    }

    // Everything before pos has been read, and no end was found there.
    ghost predicate ReadUpTo(pos: nat)
      reads this`filled, cache`entries, cache`owners, cache.owners
    {
      pos < |cache.entries| && pos <= filled
    }

    // A scan that began with the frontier at first has come to pos: it has read on only behind
    // the frontier, and no more than it needed.
    ghost predicate OnWay(first: nat, pos: nat)
      reads this`filled, cache`entries, cache`owners, cache.owners
    {
      if pos < first then filled == first else Ahead(pos)
    }

    // It has looked at what there is at pos.
    ghost predicate Arrived(first: nat, pos: nat)
      requires pos <= |slots|
      reads this`filled, cache`entries, cache`owners, cache.owners
    {
      if pos < first then filled == first else Ahead(PieceEnd(slots, pos))
    }

    // vfat_lookup_loop_for_insert: the entry at a slot, from the cache or else from the disk.
    method EntryForInsert(pos: nat, ghost first: nat) returns (dce: Entry)
      requires Valid() && EntryBorder(pos) && ReadUpTo(pos) && OnWay(first, pos)
      modifies this`filled, cache, cache.owners
      ensures Valid() == true && ReadUpTo(pos) && fresh(cache.owners - old(cache.owners)) && Arrived(first, pos)
      ensures dce == cache.entries[pos] && cache.Look(pos) != Unread && (cache.Look(pos) == EndCell ==> pos == |slots|)
    {
      if cache.entries[pos] != null {
        assert cache.SlotOwned(pos) && FilledSo(pos);
      } else {
        assert cache.Look(pos) == Unread && FilledSo(pos);
      }
      if cache.entries[pos] == null || cache.entries[pos].kind == End {
        ReadMore(pos);
      } else {
        assert Matches(cache.Look(pos), slots, pos);
      }
      dce := cache.entries[pos];
    }

    // A free entry is a whole run of free slots, as far as the directory has been read.
    lemma FreeEntryIsRun(pos: nat, dce: Entry)
      requires Valid() && ReadUpTo(pos) && dce == cache.entries[pos] && dce.kind == Free
      ensures dce.beginSlot <= pos < dce.endSlot <= |slots| && ReadUpTo(dce.endSlot)
      ensures forall i {:trigger slots[i]} :: dce.beginSlot <= i < dce.endSlot ==> slots[i].FreeSlot?
      ensures dce.beginSlot > 0 ==> slots[dce.beginSlot - 1].UsedSlot?
      ensures dce.endSlot == Least(filled, RunEnd(slots, pos))
    {
      assert cache.SlotOwned(pos) && cache.EntryOwns(dce);
      forall i: nat | dce.beginSlot <= i < dce.endSlot
        ensures i < |slots| && slots[i].FreeSlot? && i < filled
      {
        assert cache.entries[i] == dce;
        assert Matches(cache.Look(i), slots, i) && FilledSo(i);
      }
      assert cache.Look(dce.endSlot - 1) == FreeCell;
      if dce.beginSlot > 0 {
        var b := dce.beginSlot - 1;
        assert FilledSo(b) && cache.Merged(dce.beginSlot) && cache.SlotOwned(b);
        assert Matches(cache.Look(b), slots, b);
      }
      FreeEntryEnds(pos, dce);
    }

    // It does not end before the free slots do.
    lemma FreeEntryEnds(pos: nat, dce: Entry)
      requires Valid() && pos < |cache.entries| && dce == cache.entries[pos] && dce.kind == Free && dce in cache.owners
      requires dce.beginSlot <= pos < dce.endSlot <= |slots| && dce.endSlot <= filled && cache.Look(dce.endSlot - 1) == FreeCell
      requires forall i {:trigger slots[i]} :: dce.beginSlot <= i < dce.endSlot ==> slots[i].FreeSlot?
      ensures dce.endSlot == Least(filled, RunEnd(slots, pos))
    {
      var e := dce.endSlot;
      assert cache.EntryOwns(dce) && cache.entries[e - 1] == dce;
      if e < filled {
        assert FilledSo(e) && cache.SlotOwned(e) && cache.Merged(e);
        assert cache.Look(e) != FreeCell;
        assert Matches(cache.Look(e), slots, e);
      }
    }

    lemma UsedEntryIsRun(pos: nat, dce: Entry)
      requires Valid() && EntryBorder(pos) && ReadUpTo(pos) && dce == cache.entries[pos] && dce.kind == Used
      ensures pos < |slots| && slots[pos] == UsedSlot(pos, dce.endSlot, dce.longName, dce.shortName, dce.isLabel)
      ensures dce.beginSlot == pos < dce.endSlot <= |slots| && ReadUpTo(dce.endSlot) && EntryBorder(dce.endSlot)
      ensures forall i {:trigger slots[i]} :: pos <= i < dce.endSlot ==> slots[i] == slots[pos]
    {
      assert cache.SlotOwned(pos) && cache.EntryOwns(dce);
      assert Matches(cache.Look(pos), slots, pos) && RunAt(slots, pos);
      var last := dce.endSlot - 1;
      assert cache.entries[last] == dce && cache.Look(last).UsedCell? && FilledSo(last);
      if dce.endSlot < |slots| && slots[dce.endSlot].UsedSlot? {
        assert RunAt(slots, dce.endSlot);
      }
    }

    // The names in question are not in the filter, so that no hashed entry has one of them.
    ghost predicate Unknown(q: Query)
      reads cache
    {
      && q.sourceEntry < 0
      && (cache.nrHashed > 0 ==> !IsHashed(cache.hash, cache.planes, q.longName))
      && (cache.nrHashed > 0 && q.ignoreEntry != -2 ==> !IsHashed(cache.hash, cache.planes, q.shortName))
    }

    // The scan has reached slot n without meeting the long name.
    ghost predicate Scanned(q: Query, n: nat, shortMatch: int) {
      && n <= |slots| && EntryBorder(n) && IsLastShort(upper, slots, q, shortMatch, n)
      && forall i {:trigger slots[i]} :: 0 <= i < n ==> !LongHit(upper, slots[i], q)
    }

    // Starting behind the hashed entries is as good as starting at the beginning.
    lemma HashedEntriesSkipped(q: Query, ssp: ScanState, look: nat)
      requires Valid() && Unknown(q) && ssp.Accounted(slots, q, look, 0) && !ssp.gotSlots && q.sizeNeeded >= 1
      ensures ReadUpTo(cache.nrHashed) && Scanned(q, cache.nrHashed, -1)
      ensures ssp.Accounted(slots, q, look, cache.nrHashed)
    {
      var n := cache.nrHashed;
      forall i | 0 <= i < n
        ensures i < |slots| && i < filled && cache.Look(i).UsedCell?
        ensures slots[i].UsedSlot? && !LongHit(upper, slots[i], q) && !ShortHit(upper, slots[i], q) && !Available(slots[i], q)
      {
        HashedEntry(q, i);
      }
      if n > 0 {
        assert cache.SlotOwned(n - 1) && cache.EntryOwns(cache.entries[n - 1]);
        assert cache.Look(n - 1).UsedCell?;
        UsedEnd(n);
        TrackTaken(slots, q, look, 0, n, ssp.freeStart, ssp.freeEnd);
      }
    }

    lemma UsedEnd(n: nat)
      requires Valid() && 0 < n <= |slots| && slots[n - 1].UsedSlot? && slots[n - 1].endSlot == n
      ensures EntryBorder(n)
    {
      if n < |slots| && slots[n].UsedSlot? {
        assert RunAt(slots, n);
      }
    }

    lemma HashedEntry(q: Query, i: nat)
      requires Valid() && Unknown(q) && i < cache.nrHashed
      ensures i < |slots| && i < filled && cache.Look(i).UsedCell?
      ensures slots[i].UsedSlot? && !LongHit(upper, slots[i], q) && !ShortHit(upper, slots[i], q) && !Available(slots[i], q)
    {
      assert cache.NamesHashed(i) && cache.SlotOwned(i);
      assert Matches(cache.Look(i), slots, i) && FilledSo(i);
      assert RunAt(slots, i);
    }

    // An entry of a file, met by the scan: a long match stops it.
    method ScanUsed(dce: Entry, pos: nat, q: Query, ssp: ScanState, shortMatch: int, ghost look: nat) returns (longMatch: int, shortMatch': int)
      requires Valid() && ReadUpTo(pos) && dce == cache.entries[pos] && dce.kind == Used
      requires Scanned(q, pos, shortMatch) && ssp.Accounted(slots, q, look, pos) && q.sizeNeeded >= 1
      requires HasSource(slots, q) ==> q.sourceEntry < look
      modifies ssp
      ensures (longMatch == -1 || longMatch >= 0) && shortMatch' >= -1
      ensures longMatch >= 0 ==> IsFirstLong(upper, slots, q, longMatch)
      ensures longMatch == -1 ==> Scanned(q, dce.endSlot, shortMatch') && ssp.Accounted(slots, q, look, dce.endSlot)
    {
      UsedEntryIsRun(pos, dce);
      if !dce.isLabel && dce.endSlot - 1 == q.sourceEntry {
        ssp.AccountFreeSlots(dce.beginSlot, dce.endSlot, slots, q, look, pos);
      } else if !ssp.gotSlots {
        TrackTaken(slots, q, look, pos, dce.endSlot, ssp.freeStart, ssp.freeEnd);
      }
      longMatch, shortMatch' := MatchUsed(dce, pos, q, shortMatch);
    }

    // Labels never match, neither does the ignored entry.
    method MatchUsed(dce: Entry, pos: nat, q: Query, shortMatch: int) returns (longMatch: int, shortMatch': int)
      requires Valid() && ReadUpTo(pos) && dce == cache.entries[pos] && dce.kind == Used && Scanned(q, pos, shortMatch)
      ensures (longMatch == -1 || longMatch >= 0) && shortMatch' >= -1
      ensures longMatch >= 0 ==> IsFirstLong(upper, slots, q, longMatch)
      ensures longMatch == -1 ==> Scanned(q, dce.endSlot, shortMatch')
    {
      UsedEntryIsRun(pos, dce);
      longMatch, shortMatch' := -1, shortMatch;
      if !dce.isLabel && dce.endSlot - 1 != q.ignoreEntry {
        if (dce.longName.Some? && SameName(upper, dce.longName.value, q.longName)) || SameName(upper, dce.shortName, q.longName) {
          longMatch := dce.endSlot - 1;
        } else if q.ignoreEntry != -2 && SameName(upper, q.shortName, dce.shortName) {
          shortMatch' := dce.endSlot - 1;
        }
      }
    }

    // The scan has come to a slot and has not met the long name.
    ghost predicate Scanning(q: Query, ssp: ScanState, pos: nat, shortMatch: int, atEnd: bool, look: nat, first: nat)
      reads this, cache, cache.owners, ssp
    {
      && pos <= |slots| && Scanned(q, pos, shortMatch) && ssp.Accounted(slots, q, look, pos)
      && if atEnd then pos == |slots| == filled else ReadUpTo(pos) && OnWay(first, pos)
    }

    // Where the scan starts: behind the hashed entries, unless the filter may know one of the
    // names. A pessimistic caller is sure of a clash then.
    method ScanStart(q: Query, ssp: ScanState, ghost look: nat) returns (pos: nat, sure: bool)
      requires Valid() && q.sizeNeeded >= 1 && ssp.Accounted(slots, q, look, 0) && !ssp.gotSlots
      ensures sure ==> q.pessimistic && q.sourceEntry < 0 && q.ignoreEntry != -2
      ensures sure ==> cache.nrHashed > 0 && IsHashed(cache.hash, cache.planes, q.shortName)
      ensures !sure ==> Scanning(q, ssp, pos, -1, false, look, filled) == true
    {
      pos, sure := cache.nrHashed, false;
      if q.sourceEntry >= 0 || (pos > 0 && IsHashed(cache.hash, cache.planes, q.longName)) {
        pos := 0;
      } else if pos > 0 && q.ignoreEntry != -2 && IsHashed(cache.hash, cache.planes, q.shortName) {
        pos, sure := 0, q.pessimistic;
      } else {
        HashedEntriesSkipped(q, ssp, look);
      }
    }

    // lookupForInsert. Whether or not hashed entries are skipped, the verdict is that of a scan
    // of the whole directory; only a pessimistic caller may be told of a clash of short names
    // (-2) on the word of the filter alone. Where no name clashes, the first room is reported, or
    // there is none, exactly if it is not lost. A scan without a clash of long names leaves the
    // directory read to its end.
    method LookupForInsert(q: Query) returns (a: Answer)
      requires Valid() && q.sizeNeeded >= 1
      modifies this`filled, cache, cache.owners
      ensures Valid() == true && fresh(cache.owners - old(cache.owners))
      ensures a.shortMatch == -2 ==> q.pessimistic && q.sourceEntry < 0 && q.ignoreEntry != -2 && a.code == 1
      ensures a.shortMatch == -2 ==> old(cache.nrHashed > 0 && IsHashed(cache.hash, cache.planes, q.shortName))
      ensures a.shortMatch != -2 ==> Correct(upper, slots, isRootDir, q, SourceLook(slots, q, old(filled)), a)
      ensures a.shortMatch == -1 && a.longMatch < 0 ==> (FindsFirst(slots, q, a) <==> !Lost(slots, q, SourceLook(slots, q, old(filled))))
      ensures a.shortMatch != -2 && a.longMatch < 0 ==> filled == |slots|
    {
      ghost var first := filled;
      ghost var look := SourceLook(slots, q, first);
      var ssp := new ScanState(q.sizeNeeded);
      assert Valid() && filled == first && ssp.Accounted(slots, q, look, 0);
      var pos, sure := ScanStart(q, ssp, look);
      if sure {
        a := Answer(1, -1, -2, false, 0, 0);
      } else {
        a := Scan(q, ssp, pos, look, first);
        if a.longMatch < 0 && a.shortMatch < 0 {
          FirstRoomFound(upper, slots, isRootDir, q, look, a);
        }
      }
    }

    // A free entry is the next piece to be accounted for, and the way goes on behind it.
    lemma FreePiece(pos: nat, dce: Entry, q: Query, look: nat, first: nat)
      requires Valid() && ReadUpTo(pos) && pos <= |slots| && dce == cache.entries[pos] && dce.kind == Free
      requires look == SourceLook(slots, q, first) && Arrived(first, pos)
      ensures NextPiece(slots, q, look, pos, dce.beginSlot, dce.endSlot) == true
      ensures MovesOn(pos, dce.endSlot, false, first) == true && EntryBorder(dce.endSlot)
    {
      FreeEntryIsRun(pos, dce);
      BorderBehindFree(dce.endSlot);
    }

    lemma UsedPiece(pos: nat, dce: Entry, first: nat)
      requires Valid() && EntryBorder(pos) && ReadUpTo(pos) && dce == cache.entries[pos] && dce.kind == Used && Arrived(first, pos)
      ensures MovesOn(pos, dce.endSlot, false, first) == true && dce.endSlot <= |slots|
    {
      UsedEntryIsRun(pos, dce);
    }

    // The scan goes on from pos to next, or has come to the end.
    ghost predicate MovesOn(pos: nat, next: nat, atEnd: bool, first: nat)
      reads this`filled, cache`entries, cache`owners, cache.owners
    {
      if atEnd then next == pos == |slots| == filled else pos < next && ReadUpTo(next) && OnWay(first, next)
    }

    method ScanFree(dce: Entry, pos: nat, q: Query, ssp: ScanState, ghost shortMatch: int, ghost look: nat)
      requires Valid() && ReadUpTo(pos) && dce == cache.entries[pos] && dce.kind == Free && EntryBorder(dce.endSlot)
      requires q.sizeNeeded >= 1 && Scanned(q, pos, shortMatch) && ssp.Accounted(slots, q, look, pos)
      requires NextPiece(slots, q, look, pos, dce.beginSlot, dce.endSlot)
      modifies ssp
      ensures Scanned(q, dce.endSlot, shortMatch) == true && ssp.Accounted(slots, q, look, dce.endSlot) == true
    {
      FreeEntryIsRun(pos, dce);
      ssp.AccountFreeSlots(dce.beginSlot, dce.endSlot, slots, q, look, pos);
    }

    // One entry of the scan. Only free entries and entries that may be replaced are accounted
    // for; the end of the directory ends it.
    method ScanEntry(dce: Entry, pos: nat, q: Query, ssp: ScanState, shortMatch: int, ghost look: nat, ghost first: nat)
      returns (next: nat, longMatch: int, shortMatch': int, atEnd: bool)
      requires Valid() && q.sizeNeeded >= 1 && ReadUpTo(pos) && Scanned(q, pos, shortMatch) && ssp.Accounted(slots, q, look, pos)
      requires dce == cache.entries[pos] && cache.Look(pos) != Unread && (cache.Look(pos) == EndCell ==> pos == |slots|)
      requires look == SourceLook(slots, q, first) && Arrived(first, pos)
      modifies ssp
      ensures next <= |slots| && shortMatch' >= -1
      ensures longMatch >= 0 ==> IsFirstLong(upper, slots, q, longMatch)
      ensures longMatch < 0 ==> longMatch == -1 && Scanned(q, next, shortMatch') == true && ssp.Accounted(slots, q, look, next) == true
      ensures longMatch < 0 ==> MovesOn(pos, next, atEnd, first) == true
    {
      next, longMatch, shortMatch', atEnd := pos, -1, shortMatch, false;
      assert cache.SlotOwned(pos);
      if dce.kind == Free {
        FreePiece(pos, dce, q, look, first);
        next := dce.endSlot;
        ScanFree(dce, pos, q, ssp, shortMatch, look);
      } else if dce.kind == Used {
        UsedPiece(pos, dce, first);
        longMatch, shortMatch' := ScanUsed(dce, pos, q, ssp, shortMatch, look);
        next := dce.endSlot;
      } else {
        assert FilledSo(pos);
        atEnd := true;
      }
    }

    // The scan goes on until an entry has the long name or the directory ends.
    method Scan(q: Query, ssp: ScanState, start: nat, ghost look: nat, ghost first: nat) returns (a: Answer)
      requires Valid() && q.sizeNeeded >= 1 && Scanning(q, ssp, start, -1, false, look, first) && look == SourceLook(slots, q, first)
      modifies this`filled, cache, cache.owners, ssp
      ensures Valid() == true && Correct(upper, slots, isRootDir, q, look, a) && a.shortMatch >= -1
      ensures a.longMatch < 0 ==> filled == |slots|
      ensures fresh(cache.owners - old(cache.owners))
    {
      var pos: nat, shortMatch: int, longMatch: int, atEnd := start, -1, -1, false;
      while longMatch < 0 && !atEnd
        invariant Valid() && fresh(cache.owners - old(cache.owners)) && pos <= |slots| && shortMatch >= -1
        invariant longMatch >= 0 ==> IsFirstLong(upper, slots, q, longMatch)
        invariant longMatch < 0 ==> longMatch == -1 && Scanning(q, ssp, pos, shortMatch, atEnd, look, first) == true
        decreases if longMatch >= 0 || atEnd then 0 else 1, |slots| - pos
      {
        var dce := EntryForInsert(pos, first);
        pos, longMatch, shortMatch, atEnd := ScanEntry(dce, pos, q, ssp, shortMatch, look, first);
      }
      a := Answer(1, longMatch, shortMatch, ssp.gotSlots, ssp.slot, pos);
      if longMatch < 0 && shortMatch < 0 && !ssp.gotSlots {
        a := a.(code := if isRootDir then -1 else 5);
      } else if longMatch < 0 && shortMatch < 0 {
        a := a.(code := 6);
      }
    }
  }

  // Four slots in a row, of which the second is the entry to be renamed and the others are
  // deleted; the new name needs all four.
  function FourSlots(): seq<Slot> {
    [FreeSlot(true), UsedSlot(1, 2, None, [97], false), FreeSlot(true), FreeSlot(true)]
  }

  ghost function LongRename(): (q: Query)
    ensures q.sizeNeeded == SizeNeeded(q.longName, true) == 4 && q.sourceEntry == 1
  {
    Query(seq(39, _ => 98), [], 4, -2, 1, false)
  }

  lemma RoomForRename()
    ensures WellFormed(FourSlots()) && Room(FourSlots(), LongRename(), 3) && FirstRoom(FourSlots(), LongRename()) == 3
    ensures Lost(FourSlots(), LongRename(), SourceLook(FourSlots(), LongRename(), 0))
    ensures Place(FourSlots(), LongRename(), SourceLook(FourSlots(), LongRename(), 0)) == 4
    ensures Place(FourSlots(), LongRename(), SourceLook(FourSlots(), LongRename(), 4)) == 3
  {
    var slots, q := FourSlots(), LongRename();
    assert slots[1].UsedSlot? && RunAt(slots, 1);
    assert forall i :: 0 <= i < 4 ==> Available(slots[i], q);
    assert Room(slots, q, 3);
    assert PieceEnd(slots, 2) == 3;
    NotLost(slots, q, 4);
  }

  // In a directory that has not been read yet, they are not found; asked again, they are.
  method RenameNeedsSecondTry(upper: Folding, q: Query) returns (d: Directory, once: Answer, again: Answer)
    requires q == LongRename()
    ensures d.slots == FourSlots() && Room(FourSlots(), q, 3)
    ensures !once.gotSlots && once.code == 5 && again.gotSlots && again.slot == 3 && again.code == 6
  {
    RoomForRename();
    d := new Directory(upper, false, FourSlots(), 4);
    forall i | 0 <= i < 4
      ensures !LongHit(upper, d.slots[i], q) && !ShortHit(upper, d.slots[i], q)
    {
    }
    once := d.LookupForInsert(q);
    again := d.LookupForInsert(q);
  }
}
