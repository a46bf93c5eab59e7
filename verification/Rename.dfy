/**
 Renaming an entry inside its directory (renameit in mmove.c, write_slots in mk_direntry.c). A
 place for the new entry is looked up while the old one is still there, the old one is wiped, and
 then the new one is added to the cache. By then the slots wiped may have been merged with those
 of the place.
 */
module Rename {
  import opened DirCache
  import opened NameFilter
  import opened SlotRuns
  import opened InsertLookup

  // dir_write for a slot marked as deleted: the whole entry it belongs to becomes free.
  method DirWriteDeleted(cache: DirCache, pos: nat)
    requires cache.Valid() && pos < |cache.entries|
    modifies cache, cache.owners
    ensures cache.Valid() && fresh(cache.owners - old(cache.owners))
    ensures forall i: nat {:trigger cache.Look(i)} ::
      cache.Look(i) == if i < old(|cache.entries|) && old(cache.entries[pos] != null && cache.entries[i] == cache.entries[pos]) then FreeCell else old(cache.Look(i))
  {
    var dce := cache.entries[pos];
    if dce != null {
      OneEntryFits(cache, dce, pos);
      var entry := cache.AddFreeEndEntry(dce.beginSlot, dce.endSlot, false);
    }
  }

  // The range of an entry fits in for another one, and ends at a border of entries.
  lemma OneEntryFits(cache: DirCache, dce: Entry, pos: nat)
    requires cache.Valid() && pos < |cache.entries| && cache.entries[pos] == dce
    ensures dce in cache.owners && dce.beginSlot <= pos < dce.endSlot < |cache.entries|
    ensures cache.Boundary(dce.beginSlot) && !cache.CutShort(dce.beginSlot, dce.endSlot)
    ensures forall i: nat {:trigger cache.Look(i)} :: i >= dce.endSlot && cache.Look(i).UsedCell? ==> cache.Look(i).beginSlot >= dce.endSlot
    ensures forall i: nat :: i < |cache.entries| ==> (cache.entries[i] == dce <==> dce.beginSlot <= i < dce.endSlot)
  {
    assert cache.SlotOwned(pos) && cache.EntryOwns(dce);
    forall i: nat | i < |cache.entries|
      ensures cache.entries[i] == dce <==> dce.beginSlot <= i < dce.endSlot
    {
      assert cache.SlotOwned(i);
    }
    forall i: nat | i >= dce.endSlot && cache.Look(i).UsedCell?
      ensures cache.entries[i].beginSlot >= dce.endSlot
    {
      assert cache.SlotOwned(i) && cache.EntryOwns(cache.entries[i]);
      assert cache.entries[dce.endSlot - 1] == dce;
    }
    forall e, j: nat {:trigger cache.Behind(e, j, dce.beginSlot, dce.endSlot)} | e in cache.owners
      ensures !cache.Behind(e, j, dce.beginSlot, dce.endSlot)
    {
      assert cache.EntryOwns(e) && cache.entries[e.beginSlot] == e;
    }
  }

  // wipeEntry: its slots are marked as deleted one by one, and the last one once more.
  method WipeEntry(cache: DirCache, first: nat, last: nat, ghost u: Cell)
    requires cache.Valid() && first <= last && u.UsedCell? && u.beginSlot == first && u.endSlot == last + 1
    requires forall i: nat {:trigger cache.Look(i)} :: first <= i <= last ==> cache.Look(i) == u
    modifies cache, cache.owners
    ensures cache.Valid() && fresh(cache.owners - old(cache.owners))
    ensures forall i: nat {:trigger cache.Look(i)} :: cache.Look(i) == if first <= i <= last then FreeCell else old(cache.Look(i))
  {
    for i := first to last
      invariant cache.Valid() && fresh(cache.owners - old(cache.owners))
      invariant forall j: nat {:trigger cache.Look(j)} :: cache.Look(j) == if i > first && first <= j <= last then FreeCell else old(cache.Look(j))
    {
      WipeStep(cache, i, first, last, u);
    }
    WipeStep(cache, last, first, last, u);
  }

  method WipeStep(cache: DirCache, pos: nat, first: nat, last: nat, ghost u: Cell)
    requires cache.Valid() && first <= pos <= last && u.UsedCell? && u.beginSlot == first && u.endSlot == last + 1
    requires cache.Look(pos) == FreeCell || forall i: nat {:trigger cache.Look(i)} :: first <= i <= last ==> cache.Look(i) == u
    requires cache.Look(pos) == FreeCell ==> forall i: nat {:trigger cache.Look(i)} :: first <= i <= last ==> cache.Look(i) == FreeCell
    modifies cache, cache.owners
    ensures cache.Valid() && fresh(cache.owners - old(cache.owners))
    ensures forall i: nat {:trigger cache.Look(i)} :: cache.Look(i) == if first <= i <= last then FreeCell else old(cache.Look(i))
  {
    assert cache.Look(pos) != Unread;
    OneEntryFits(cache, cache.entries[pos], pos);
    DirWriteDeleted(cache, pos);
  }

  // The entry to be renamed: an entry of a file, named by its last slot.
  ghost predicate RealSource(slots: seq<Slot>, q: Query) {
    HasSource(slots, q) && !slots[q.sourceEntry].isLabel && slots[q.sourceEntry].endSlot == q.sourceEntry + 1
  }

  // Free slots from a place on belong to one entry; it fits in there exactly if no free slot
  // lies before the place.
  lemma FreePlace(cache: DirCache, start: nat, last: nat)
    requires cache.Valid() && start <= last
    requires forall i: nat {:trigger cache.Look(i)} :: start <= i <= last ==> cache.Look(i) == FreeCell
    ensures cache.nrHashed <= start && !cache.CutShort(start, last + 1)
    ensures cache.Boundary(start) <==> start == 0 || cache.Look(start - 1) != FreeCell
  {
    assert cache.Look(start) == FreeCell && cache.Look(last) == FreeCell;
    var dce := cache.entries[start];
    assert cache.SlotOwned(start) && cache.EntryOwns(dce);
    if start < cache.nrHashed {
      assert cache.NamesHashed(start);
    }
    if start > 0 {
      assert cache.Merged(start);
      assert cache.Look(start - 1) == FreeCell ==> cache.SlotOwned(start - 1);
    }
    OneFreeEntry(cache, start, last);
    forall e, j: nat {:trigger cache.Behind(e, j, start, last + 1)} | e in cache.owners
      ensures !cache.Behind(e, j, start, last + 1)
    {
      assert cache.EntryOwns(e) && cache.entries[e.beginSlot] == e;
    }
  }

  lemma {:induction false} OneFreeEntry(cache: DirCache, start: nat, last: nat)
    requires cache.Valid() && start <= last
    requires forall i: nat {:trigger cache.Look(i)} :: start <= i <= last ==> cache.Look(i) == FreeCell
    ensures last < |cache.entries| && forall i: nat :: start <= i <= last ==> cache.entries[i] == cache.entries[start]
    decreases last
  {
    assert cache.Look(last) == FreeCell;
    if start < last {
      OneFreeEntry(cache, start, last - 1);
      assert cache.Look(last - 1) == FreeCell;
      assert cache.Merged(last);
    }
  }

  // What the directory holds after a rename: the slots of the old entry are deleted, and the new
  // entry has the place.
  function RenamedSlot(slots: seq<Slot>, q: Query, start: nat, i: nat): Slot
    requires i < |slots| && HasSource(slots, q)
  {
    if start <= i < start + q.sizeNeeded then NewSlot(q, start)
    else if slots[i] == slots[q.sourceEntry] then FreeSlot(true)
    else slots[i]
  }

  function NewSlot(q: Query, start: nat): Slot {
    UsedSlot(start, start + q.sizeNeeded, Some(if q.sizeNeeded > 1 then q.longName else []), q.shortName, false)
  }

  function Renamed(slots: seq<Slot>, q: Query, start: nat): (r: seq<Slot>)
    requires HasSource(slots, q)
  {
    seq(|slots|, i requires 0 <= i < |slots| => RenamedSlot(slots, q, start, i))
  }

  // The cache after the old entry has been wiped.
  ghost predicate Wiped(cache: DirCache, slots: seq<Slot>, q: Query)
    requires HasSource(slots, q)
    reads cache`entries, cache`owners, cache.owners
  {
    && (forall i: nat {:trigger cache.Look(i)} :: i < |slots| ==>
      cache.Look(i) == if Available(slots[i], q) then FreeCell else CellOf(slots[i]))
    && (forall i: nat {:trigger cache.Look(i)} :: i >= |slots| ==> cache.Look(i) == Unread || (cache.Look(i) == EndCell && i == |slots|))
  }

  // Everything has been read; then the old entry is wiped.
  method WipeSource(d: Directory, q: Query)
    requires d.Valid() && d.filled == |d.slots| && RealSource(d.slots, q)
    modifies d.cache, d.cache.owners
    ensures d.cache.Valid() && fresh(d.cache.owners - old(d.cache.owners))
    ensures Wiped(d.cache, d.slots, q)
  {
    var slots := d.slots;
    ghost var u := slots[q.sourceEntry];
    assert RunAt(slots, q.sourceEntry);
    forall i: nat
      ensures if i < |slots| then !d.cache.Look(i).Unread? && !d.cache.Look(i).EndCell? && Matches(d.cache.Look(i), slots, i) else d.cache.Look(i) == Unread || (d.cache.Look(i) == EndCell && i == |slots|)
    {
      assert d.FilledSo(i) && Matches(d.cache.Look(i), slots, i);
    }
    forall i: nat | i < |slots|
      ensures slots[i].UsedSlot? && Available(slots[i], q) <==> u.beginSlot <= i <= q.sourceEntry
    {
      if slots[i].UsedSlot? {
        assert RunAt(slots, i);
      }
    }
    WipeEntry(d.cache, slots[q.sourceEntry].beginSlot, q.sourceEntry, d.cache.Look(q.sourceEntry));
  }

  // The slots of the old entry are those equal to its last one.
  lemma SourceSlots(slots: seq<Slot>, q: Query, i: nat)
    requires WellFormed(slots) && RealSource(slots, q) && i < |slots|
    ensures slots[i] == slots[q.sourceEntry] <==> slots[i].UsedSlot? && Available(slots[i], q)
  {
    assert RunAt(slots, q.sourceEntry);
    if slots[i].UsedSlot? {
      assert RunAt(slots, i);
    }
  }

  lemma RenamedIsWellFormed(slots: seq<Slot>, q: Query, start: nat)
    requires WellFormed(slots) && RealSource(slots, q) && q.sizeNeeded >= 1 && Room(slots, q, start + q.sizeNeeded - 1)
    ensures WellFormed(Renamed(slots, q, start))
  {
    var r := Renamed(slots, q, start);
    forall i: nat | i < |r| && r[i].UsedSlot?
      ensures RunAt(r, i)
    {
      if !(start <= i < start + q.sizeNeeded) {
        assert RunAt(slots, i);
        forall j | slots[i].beginSlot <= j < slots[i].endSlot
          ensures r[j] == r[i]
        {
          SourceSlots(slots, q, j);
          assert slots[j] == slots[i];
        }
      }
    }
  }

  // Entries behind the place begin there.
  lemma BehindPlace(slots: seq<Slot>, q: Query, start: nat, i: nat)
    requires WellFormed(slots) && q.sizeNeeded >= 1 && Room(slots, q, start + q.sizeNeeded - 1)
    requires i < |slots|
    ensures i >= start + q.sizeNeeded && !Available(slots[i], q) ==> slots[i].beginSlot >= start + q.sizeNeeded
    ensures start <= i < start + q.sizeNeeded ==> Available(slots[i], q)
  {
    if i >= start + q.sizeNeeded && !Available(slots[i], q) {
      assert RunAt(slots, i);
      assert Available(slots[start + q.sizeNeeded - 1], q);
    }
  }

  // All slots of the place show the new names, each where it belongs.
  ghost predicate HasNewEntry(cache: DirCache, q: Query, start: nat)
    reads cache`entries, cache`owners, cache.owners
  {
    forall i: nat {:trigger cache.Look(i)} :: start <= i < start + q.sizeNeeded ==>
      && cache.Look(i).UsedCell? && cache.Look(i).shortName == q.shortName && !cache.Look(i).isLabel
      && cache.Look(i).longName == Some(if q.sizeNeeded > 1 then q.longName else [])
      && cache.Look(i).beginSlot == start && cache.Look(i).endSlot == start + q.sizeNeeded
  }

  lemma NewEntryShown(cache: DirCache, slots: seq<Slot>, q: Query, start: nat)
    requires WellFormed(slots) && HasSource(slots, q) && q.sizeNeeded >= 1 && Room(slots, q, start + q.sizeNeeded - 1)
    requires Shows(cache, Renamed(slots, q, start))
    ensures HasNewEntry(cache, q, start) == true
  {
    var r := Renamed(slots, q, start);
    forall i: nat | start <= i < start + q.sizeNeeded
      ensures cache.Look(i) == CellOf(NewSlot(q, start))
    {
      assert r[i] == RenamedSlot(slots, q, start, i);
    }
  }

  // The new entry is added to the cache.
  method AddRenamed(cache: DirCache, slots: seq<Slot>, q: Query, start: nat) returns (entry: Entry)
    requires cache.Valid() && WellFormed(slots) && RealSource(slots, q) && Wiped(cache, slots, q)
    requires q.sizeNeeded >= 1 && Room(slots, q, start + q.sizeNeeded - 1)
    modifies cache, cache.owners
    ensures fresh(cache.owners - old(cache.owners))
    ensures cache.Ownership() <==> start == 0 || !Available(slots[start - 1], q)
    ensures cache.Ownership() ==> cache.Valid() && Shows(cache, Renamed(slots, q, start))
    ensures cache.Ownership() ==> HasNewEntry(cache, q, start) == true
  {
    var u := NewSlot(q, start);
    forall i: nat | start <= i < start + q.sizeNeeded
      ensures cache.Look(i) == FreeCell
    {
      assert Available(slots[i], q);
    }
    FreePlace(cache, start, start + q.sizeNeeded - 1);
    assert cache.Boundary(start) <==> start == 0 || !Available(slots[start - 1], q) by {
      assert start > 0 ==> cache.Look(start - 1) == if Available(slots[start - 1], q) then FreeCell else CellOf(slots[start - 1]);
    }
    entry := cache.AddUsedEntry(start, start + q.sizeNeeded, u.longName, u.shortName, false);
    if cache.Ownership() {
      forall i: nat
        ensures if i < |slots| then cache.Look(i) == CellOf(RenamedSlot(slots, q, start, i)) else cache.Look(i) == old(cache.Look(i))
      {
        if i < |slots| {
          SourceSlots(slots, q, i);
          BehindPlace(slots, q, start, i);
        }
      }
      NewEntryShown(cache, slots, q, start);
    }
  }

  // write_slots: the old entry is wiped, then the new one is added at the place.
  method WriteSlots(d: Directory, q: Query, start: nat)
    requires d.Valid() && d.filled == |d.slots| && RealSource(d.slots, q)
    requires q.sizeNeeded >= 1 && Room(d.slots, q, start + q.sizeNeeded - 1)
    modifies d.cache, d.cache.owners
    ensures d.cache.Ownership() <==> start == 0 || !Available(d.slots[start - 1], q)
    ensures d.cache.Ownership() ==> d.cache.Valid() == true && Shows(d.cache, Renamed(d.slots, q, start)) == true && HasNewEntry(d.cache, q, start) == true
    ensures fresh(d.cache.owners - old(d.cache.owners))
  {
    WipeSource(d, q);
    var entry := AddRenamed(d.cache, d.slots, q, start);
  }

  // The place begins right behind the old entry exactly if a slot that may be taken lies before
  // it, and not at all if what is free there had been read before.
  lemma WhereItBegins(slots: seq<Slot>, q: Query, frontier: nat)
    requires WellFormed(slots) && RealSource(slots, q) && q.sizeNeeded >= 1
    requires Place(slots, q, SourceLook(slots, q, frontier)) < |slots|
    ensures var start := Place(slots, q, SourceLook(slots, q, frontier)) + 1 - q.sizeNeeded;
      && (start == 0 || !Available(slots[start - 1], q) <==> start != q.sourceEntry + 1)
      && (RunEnd(slots, q.sourceEntry + 1) <= frontier ==> start != q.sourceEntry + 1)
  {
    var look := SourceLook(slots, q, frontier);
    StartOfPlace(slots, q, look);
    if RunEnd(slots, q.sourceEntry + 1) <= frontier {
      NotLost(slots, q, frontier);
    }
    assert Available(slots[q.sourceEntry], q);
  }

  // With a source entry nothing is decided on the word of the filter.
  method LookupForRename(d: Directory, q: Query) returns (a: Answer)
    requires d.Valid() && q.sizeNeeded >= 1 && RealSource(d.slots, q)
    modifies d`filled, d.cache, d.cache.owners
    ensures Correct(d.upper, d.slots, d.isRootDir, q, SourceLook(d.slots, q, old(d.filled)), a) == true
    ensures d.Valid() == true && fresh(d.cache.owners - old(d.cache.owners))
    ensures a.code == 6 ==> a.slot == Place(d.slots, q, SourceLook(d.slots, q, old(d.filled))) < |d.slots| == d.filled
  {
    a := d.LookupForInsert(q);
  }

  // The entry is written to the place the lookup has found.
  method WriteFound(d: Directory, q: Query, slot: nat, ghost frontier: nat)
    requires d.Valid() == true && d.filled == |d.slots| && RealSource(d.slots, q) && q.sizeNeeded >= 1
    requires slot == Place(d.slots, q, SourceLook(d.slots, q, frontier)) < |d.slots|
    modifies d.cache, d.cache.owners
    ensures Room(d.slots, q, slot) == true && fresh(d.cache.owners - old(d.cache.owners))
    ensures d.cache.Ownership() <==> slot + 1 - q.sizeNeeded != q.sourceEntry + 1
    ensures d.cache.Ownership() ==> d.cache.Valid() == true && Shows(d.cache, Renamed(d.slots, q, slot + 1 - q.sizeNeeded)) == true
    ensures d.cache.Ownership() ==> HasNewEntry(d.cache, q, slot + 1 - q.sizeNeeded) == true
    ensures RunEnd(d.slots, q.sourceEntry + 1) <= frontier ==> d.cache.Ownership()
  {
    WhereItBegins(d.slots, q, frontier);
    WriteSlots(d, q, slot + 1 - q.sizeNeeded);
  }

  // A rename. Where the lookup finds a place, the cache keeps ownership, and shows what the
  // directory holds afterwards, exactly if the place does not begin right behind the old entry.
  // It never does if what is free there had been read before.
  method RenameEntry(d: Directory, q: Query) returns (a: Answer)
    requires d.Valid() && q.sizeNeeded >= 1 && RealSource(d.slots, q)
    modifies d`filled, d.cache, d.cache.owners
    ensures Correct(d.upper, d.slots, d.isRootDir, q, SourceLook(d.slots, q, old(d.filled)), a) == true
    ensures a.code != 6 ==> d.Valid() == true
    ensures a.code == 6 ==> Room(d.slots, q, a.slot) == true && (d.cache.Ownership() <==> a.slot + 1 - q.sizeNeeded != q.sourceEntry + 1)
    ensures a.code == 6 && d.cache.Ownership() ==> d.cache.Valid() == true && Shows(d.cache, Renamed(d.slots, q, a.slot + 1 - q.sizeNeeded)) == true
    ensures a.code == 6 && d.cache.Ownership() ==> forall i: nat {:trigger d.cache.Look(i)} :: a.slot + 1 - q.sizeNeeded <= i <= a.slot ==>
      && d.cache.Look(i).UsedCell? && d.cache.Look(i).shortName == q.shortName && !d.cache.Look(i).isLabel
      && d.cache.Look(i).longName == Some(if q.sizeNeeded > 1 then q.longName else [])
      && d.cache.Look(i).beginSlot == a.slot + 1 - q.sizeNeeded && d.cache.Look(i).endSlot == a.slot + 1
    ensures fresh(d.cache.owners - old(d.cache.owners))
    ensures a.code == 6 && RunEnd(d.slots, q.sourceEntry + 1) <= old(d.filled) ==> d.cache.Ownership()
  {
    ghost var frontier := d.filled;
    a := LookupForRename(d, q);
    if a.code == 6 {
      WriteFound(d, q, a.slot, frontier);
    }
  }

  // What the directory holds after a rename is a directory again.
  lemma RenamedHolds(slots: seq<Slot>, q: Query, look: nat)
    requires WellFormed(slots) && RealSource(slots, q) && q.sizeNeeded >= 1 && Place(slots, q, look) < |slots|
    ensures WellFormed(Renamed(slots, q, Place(slots, q, look) + 1 - q.sizeNeeded))
  {
    RenamedIsWellFormed(slots, q, Place(slots, q, look) + 1 - q.sizeNeeded);
  }

  // Where the end mark is then.
  lemma EndMarkMoves(slots: seq<Slot>, q: Query, start: nat, endMark: nat, m: nat)
    requires HasSource(slots, q) && endMark <= |slots| && start + q.sizeNeeded <= |slots|
    requires forall i {:trigger slots[i]} :: endMark <= i < |slots| ==> slots[i] == FreeSlot(false)
    requires m == if start + q.sizeNeeded > endMark then start + q.sizeNeeded else endMark
    ensures var r := Renamed(slots, q, start); forall i {:trigger r[i]} :: m <= i < |r| ==> r[i] == FreeSlot(false)
  {
    var r := Renamed(slots, q, start);
    forall i | m <= i < |r|
      ensures r[i] == FreeSlot(false)
    {
      assert slots[i] == FreeSlot(false) && r[i] == RenamedSlot(slots, q, start, i);
    }
  }

  // The same names, for a new file.
  function Anew(q: Query): Query {
    q.(ignoreEntry := -1, sourceEntry := -1)
  }

  // The entry that ends at slot m has the short name; if it is alone, it has the long name too,
  // and no other entry has it.
  ghost predicate ClashesAt(upper: Folding, slots: seq<Slot>, q: Query, m: nat, alone: bool) {
    && m < |slots| && ShortHit(upper, slots[m], q)
    && (alone ==>
      && LongHit(upper, slots[m], q) && slots[m].endSlot == m + 1
      && forall i {:trigger slots[i]} :: 0 <= i < |slots| && LongHit(upper, slots[i], q) ==> slots[i] == slots[m])
  }

  lemma ClashIsFound(upper: Folding, slots: seq<Slot>, isRootDir: bool, q: Query, look: nat, a: Answer, m: nat, alone: bool)
    requires Correct(upper, slots, isRootDir, q, look, a) && ClashesAt(upper, slots, q, m, alone)
    ensures a.code == 1 && (alone ==> a.longMatch == m)
  {
  }

  // A long name, and no entry that stays is ignored.
  predicate Alone(q: Query) {
    q.sizeNeeded > 1 && (q.ignoreEntry < 0 || q.ignoreEntry == q.sourceEntry)
  }

  // In the directory after the rename, the new entry clashes with its own names; no other entry
  // has its long name.
  lemma NewEntryClashes(upper: Folding, slots: seq<Slot>, isRootDir: bool, q: Query, look: nat, a: Answer)
    requires WellFormed(slots) && RealSource(slots, q) && q.sizeNeeded >= 1
    requires Correct(upper, slots, isRootDir, q, look, a) && a.code == 6
    ensures ClashesAt(upper, Renamed(slots, q, a.slot + 1 - q.sizeNeeded), Anew(q), a.slot, Alone(q))
  {
    var start := a.slot + 1 - q.sizeNeeded;
    var r := Renamed(slots, q, start);
    assert r[a.slot] == RenamedSlot(slots, q, start, a.slot) == NewSlot(q, start);
    forall i | 0 <= i < |r| && LongHit(upper, r[i], Anew(q)) && Alone(q)
      ensures r[i] == r[a.slot]
    {
      assert r[i] == RenamedSlot(slots, q, start, i);
      SourceSlots(slots, q, i);
      assert !LongHit(upper, slots[i], q);
    }
  }

  ghost predicate Ready(upper: Folding, slots: seq<Slot>, endMark: nat, q: Query, m: nat, alone: bool) {
    && WellFormed(slots) && ClashesAt(upper, slots, q, m, alone)
    && endMark <= |slots| && forall i {:trigger slots[i]} :: endMark <= i < |slots| ==> slots[i] == FreeSlot(false)
  }

  // What does not depend on the state of the cache.
  ghost predicate Consistent(d: Directory) {
    && Respects(d.upper, d.cache.hash) && WellFormed(d.slots)
    && d.endMark <= |d.slots| && forall i {:trigger d.slots[i]} :: d.endMark <= i < |d.slots| ==> d.slots[i] == FreeSlot(false)
  }

  lemma ReadyForLookup(d: Directory, q: Query, look: nat, a: Answer, slots: seq<Slot>, endMark: nat)
    requires Consistent(d) == true && RealSource(d.slots, q) && q.sizeNeeded >= 1 && Room(d.slots, q, a.slot)
    requires slots == Renamed(d.slots, q, a.slot + 1 - q.sizeNeeded)
    requires Correct(d.upper, d.slots, d.isRootDir, q, look, a) == true && a.code == 6
    requires endMark == if a.slot + 1 > d.endMark then a.slot + 1 else d.endMark
    ensures Ready(d.upper, slots, endMark, Anew(q), a.slot, Alone(q)) == true
  {
    var start := a.slot + 1 - q.sizeNeeded;
    RenamedIsWellFormed(d.slots, q, start);
    EndMarkMoves(d.slots, q, start, d.endMark, endMark);
    NewEntryClashes(d.upper, d.slots, d.isRootDir, q, look, a);
  }

  // A lookup in a directory all of which is in the cache.
  method LookupWhole(d: Directory, slots: seq<Slot>, endMark: nat, q: Query, ghost m: nat, ghost alone: bool) returns (a: Answer)
    requires d.cache.Valid() == true && Respects(d.upper, d.cache.hash) == true && Shows(d.cache, slots) == true && q.sizeNeeded >= 1
    requires Ready(d.upper, slots, endMark, q, m, alone) == true
    modifies d.cache, d.cache.owners
    ensures a.code == 1 && (a.shortMatch == -2 ==> q.pessimistic) && (alone && a.shortMatch != -2 ==> a.longMatch == m)
  {
    var whole := new Directory.Over(d.upper, d.isRootDir, d.cache, slots, endMark);
    a := whole.LookupForInsert(q);
    if a.shortMatch != -2 {
      ClashIsFound(d.upper, slots, d.isRootDir, q, SourceLook(slots, q, |slots|), a, m, alone);
    }
  }

  // A lookup for the same names in what the directory holds after the rename.
  method LookupAgain(d: Directory, q: Query, a: Answer, slots: seq<Slot>, ghost look: nat) returns (again: Answer)
    requires d.cache.Valid() == true && Consistent(d) == true && RealSource(d.slots, q) && q.sizeNeeded >= 1
    requires Correct(d.upper, d.slots, d.isRootDir, q, look, a) == true && a.code == 6
    requires Room(d.slots, q, a.slot) && slots == Renamed(d.slots, q, a.slot + 1 - q.sizeNeeded) && Shows(d.cache, slots) == true
    modifies d.cache, d.cache.owners
    ensures again.code == 1 && (again.shortMatch == -2 ==> q.pessimistic)
    ensures Alone(q) && again.shortMatch != -2 ==> again.longMatch == a.slot
  {
    var endMark := if a.slot + 1 > d.endMark then a.slot + 1 else d.endMark;
    ReadyForLookup(d, q, look, a, slots, endMark);
    again := LookupWhole(d, slots, endMark, Anew(q), a.slot, Alone(q));
  }

  // A rename, and a lookup for the same names in what the directory holds then. (A pessimistic
  // caller may be told of a clash on the word of the filter, without the place.)
  method RenameThenLookup(d: Directory, q: Query) returns (a: Answer, again: Answer)
    requires d.Valid() && q.sizeNeeded >= 1 && RealSource(d.slots, q)
    modifies d`filled, d.cache, d.cache.owners
    ensures Correct(d.upper, d.slots, d.isRootDir, q, SourceLook(d.slots, q, old(d.filled)), a) == true
    ensures a.code == 6 && a.slot + 1 - q.sizeNeeded != q.sourceEntry + 1 ==>
      && again.code == 1 && (again.shortMatch == -2 ==> q.pessimistic)
      && (q.sizeNeeded > 1 && (q.ignoreEntry < 0 || q.ignoreEntry == q.sourceEntry) && again.shortMatch != -2 ==> again.longMatch == a.slot)
  {
    ghost var frontier := d.filled;
    assert Consistent(d);
    a := RenameEntry(d, q);
    again := a;
    if a.code == 6 && a.slot + 1 - q.sizeNeeded != q.sourceEntry + 1 {
      again := LookupAgain(d, q, a, Renamed(d.slots, q, a.slot + 1 - q.sizeNeeded), SourceLook(d.slots, q, frontier));
    }
  }

  // Six slots in a row, of which the second is the entry to be renamed and the others are
  // deleted; the new name needs four.
  function SixSlots(): seq<Slot> {
    [FreeSlot(true), UsedSlot(1, 2, None, [97], false), FreeSlot(true), FreeSlot(true), FreeSlot(true), FreeSlot(true)]
  }

  lemma PlaceBehindSource(q: Query)
    requires q == LongRename()
    ensures WellFormed(SixSlots()) && RealSource(SixSlots(), q)
    ensures Place(SixSlots(), q, SourceLook(SixSlots(), q, 0)) == 5
  {
    var slots := SixSlots();
    assert slots[1].UsedSlot? && RunAt(slots, 1);
    assert forall i :: 0 <= i < 6 ==> Available(slots[i], q);
    assert Room(slots, q, 3) && Room(slots, q, 5);
    assert PieceEnd(slots, 2) == 3;
    assert FirstRoom(slots, q) == 3;
    assert Lost(slots, q, 3);
  }

  // If the directory has not been read before, the new entry is put right behind the old one,
  // and ownership is lost.
  method RenameBehindItself(upper: Folding, q: Query) returns (d: Directory, a: Answer)
    requires q == LongRename()
    ensures d.slots == SixSlots() && a.code == 6 && a.slot == 5 && q.sourceEntry == 1
    ensures !d.cache.Ownership()
  {
    PlaceBehindSource(q);
    d := new Directory(upper, false, SixSlots(), 6);
    assert forall i :: 0 <= i < 6 ==> !LongHit(upper, d.slots[i], q) && !ShortHit(upper, d.slots[i], q);
    a := RenameEntry(d, q);
  }
}
