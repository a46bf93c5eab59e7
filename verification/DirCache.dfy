/**
 The directory cache (dirCache.c): a table with one place per directory slot, in which each
 entry of the directory occupies a run of places, and a filter over the names of the leading
 entries.
 */
module DirCache {
  import opened NameFilter

  datatype Option<T> = None | Some(value: T)

  datatype Kind = Free | Used | End

  class Entry {
    const kind: Kind
    const longName: Option<Name>
    const shortName: Name
    const isLabel: bool          // volume labels never match a file name
    var beginSlot: nat
    var endSlot: nat
    var endMarkPos: int

    constructor (kind: Kind, longName: Option<Name>, shortName: Name, isLabel: bool, beginSlot: nat, endSlot: nat)
      ensures this.kind == kind && this.longName == longName && this.shortName == shortName && this.isLabel == isLabel
      ensures this.beginSlot == beginSlot && this.endSlot == endSlot && endMarkPos == -1
    {
      this.kind, this.longName, this.shortName, this.isLabel := kind, longName, shortName, isLabel;
      this.beginSlot, this.endSlot, endMarkPos := beginSlot, endSlot, -1;
    }
  }

  // What the cache tells about a slot.
  datatype Cell = Unread | FreeCell | EndCell | UsedCell(beginSlot: nat, endSlot: nat, longName: Option<Name>, shortName: Name, isLabel: bool)

  class DirCache {
    const hash: Hash
    var entries: seq<Entry?>
    var planes: Planes
    var nrHashed: nat
    ghost var owners: set<Entry>      // the entries in use

    // A slot belongs to an entry exactly if it lies between the ends of the entry.
    ghost predicate SlotOwned(i: nat)
      requires i < |entries|
      reads this`entries, this`owners, owners
    {
      entries[i] != null ==> entries[i] in owners && entries[i].beginSlot <= i < entries[i].endSlot
    }

    ghost predicate EntryOwns(e: Entry)
      reads this`entries, e
    {
      && e.beginSlot < e.endSlot < |entries| && (e.kind == End ==> e.endMarkPos == -1)
      && forall i :: e.beginSlot <= i < e.endSlot ==> entries[i] == e
    }

    ghost predicate Ownership()
      reads this`entries, this`owners, owners
    {
      && (forall i {:trigger SlotOwned(i)} {:trigger entries[i]} :: 0 <= i < |entries| ==> SlotOwned(i))
      && (forall e {:trigger EntryOwns(e)} {:trigger e in owners} :: e in owners ==> EntryOwns(e))
    }

    // The same from a slot on; a slot before it may be left behind by an entry cut or given up.
    ghost predicate OwnedFrom(n: nat)
      reads this`entries, this`owners, owners
    {
      && (forall i {:trigger SlotOwned(i)} {:trigger entries[i]} :: n <= i < |entries| ==> SlotOwned(i))
      && (forall e {:trigger EntryOwns(e)} {:trigger e in owners} :: e in owners ==> EntryOwns(e))
    }

    ghost function Look(i: nat): Cell
      reads this`entries, this`owners, owners
    {
      if i >= |entries| || entries[i] == null || entries[i] !in owners then Unread
      else
        var e := entries[i];
        match e.kind
        case Free => FreeCell
        case End => EndCell
        case Used => UsedCell(e.beginSlot, e.endSlot, e.longName, e.shortName, e.isLabel)
    }

    // Slots before a range, and those behind it unless they belong to the entry of a file that
    // begins before the end of the range, are what they were.
    twostate predicate RestKept(beginSlot: nat, endSlot: nat)
      reads this`entries, this`owners, owners
    {
      forall i: nat {:trigger Look(i)} ::
        i < beginSlot || (i >= endSlot && (old(Look(i)).UsedCell? ==> old(Look(i)).beginSlot >= endSlot)) ==> Look(i) == old(Look(i))
    }

    predicate FreeAt(i: int)
      reads this`entries
    {
      0 <= i < |entries| && entries[i] != null && entries[i].kind == Free
    }

    // Neighbouring free slots belong to one entry.
    predicate Merged(i: int)
      reads this`entries
    {
      0 < i < |entries| && FreeAt(i - 1) && FreeAt(i) ==> entries[i - 1] == entries[i]
    }

    // An entry of a file whose names are in the filter.
    predicate NamesHashed(i: nat)
      requires i < |entries|
      reads this`entries, this`planes
    {
      && entries[i] != null && entries[i].kind == Used
      && IsHashed(hash, planes, entries[i].shortName)
      && (entries[i].longName.Some? ==> IsHashed(hash, planes, entries[i].longName.value))
    }

    ghost predicate Hashed()
      reads this`entries, this`planes, this`nrHashed, this`owners, owners
      requires Ownership()
    {
      && nrHashed <= |entries| && 2 <= |entries|
      && (forall i {:trigger NamesHashed(i)} {:trigger entries[i]} :: 0 <= i < nrHashed ==> NamesHashed(i))
      && (0 < nrHashed ==> NamesHashed(nrHashed - 1) && entries[nrHashed - 1].endSlot == nrHashed)
    }

    ghost predicate Valid()
      reads this, owners
    {
      && Ownership() && Hashed()
      && (forall i {:trigger Merged(i)} :: Merged(i))
    }

    // Either nothing is there, or an entry begins.
    ghost predicate Boundary(i: nat)
      reads this`entries, this`owners, owners
    {
      i < |entries| && entries[i] != null && entries[i] in owners ==> entries[i].beginSlot == i
    }

    constructor (hash: Hash, slot: nat)
      ensures Valid() && owners == {} && nrHashed == 0 && this.hash == hash
      ensures |entries| == (slot + 1) * 2 && forall i :: 0 <= i < |entries| ==> entries[i] == null
    {
      this.hash := hash;
      entries := seq((slot + 1) * 2, _ => null);
      planes, nrHashed, owners := Planes({}, {}, {}), 0, {};
    }

    // Makes room for a slot.
    method GrowDirCache(slot: nat)
      requires Ownership()
      modifies this`entries
      ensures slot < |entries| && |old(entries)| <= |entries| && Ownership()
      ensures forall i :: 0 <= i < |entries| ==> entries[i] == if i < |old(entries)| then old(entries)[i] else null
    {
      if |entries| <= slot {
        entries := entries + seq((slot + 1) * 2 - |entries|, _ => null);
        forall e | e in owners
          ensures EntryOwns(e)
        {
          assert old(EntryOwns(e));
        }
        forall i | 0 <= i < |entries|
          ensures SlotOwned(i)
        {
          assert i < |old(entries)| ==> old(SlotOwned(i));
        }
      }
    }

    // A slot behind an empty one is no place inside an entry.
    lemma BoundaryAfterGap(i: nat)
      requires OwnedFrom(i) && 0 < i <= |entries| && entries[i - 1] == null
      ensures Boundary(i)
    {
      if i < |entries| && entries[i] != null {
        assert SlotOwned(i) && EntryOwns(entries[i]);
      }
    }

    // The loops that point a run of slots to an entry, or to none.
    method Fill(lo: nat, hi: nat, e: Entry?)
      requires lo <= hi <= |entries|
      modifies this`entries
      ensures |entries| == |old(entries)|
      ensures forall i :: 0 <= i < |entries| ==> entries[i] == if lo <= i < hi then e else old(entries)[i]
    {
      for i := lo to hi
        invariant |entries| == |old(entries)|
        invariant forall k :: 0 <= k < |entries| ==> entries[k] == if lo <= k < i then e else old(entries)[k]
      {
        entries := entries[i := e];
      }
    }

    // The part of a range that one entry covers is taken from it. An entry that has nothing
    // left is given up. Slots before the range are left behind exactly if the range does not
    // begin where the entry does.
    method ClearEntry(entry: Entry, beginSlot: nat, clearEnd: nat)
      requires OwnedFrom(beginSlot) && entry in owners && entry.beginSlot <= beginSlot < clearEnd <= entry.endSlot
      modifies this`entries, this`owners, entry`beginSlot
      ensures OwnedFrom(clearEnd) && |entries| == |old(entries)|
      ensures forall i :: 0 <= i < |entries| ==> entries[i] == if beginSlot <= i < clearEnd then null else old(entries)[i]
      ensures entry.beginSlot == clearEnd
      ensures owners == if clearEnd == entry.endSlot then old(owners) - {entry} else old(owners)
      ensures old(Ownership() && entry.beginSlot == beginSlot) ==> Ownership()
      ensures old(entry.beginSlot) < beginSlot ==> !SlotOwned(beginSlot - 1)
    {
      assert EntryOwns(entry);
      Fill(beginSlot, clearEnd, null);
      entry.beginSlot := clearEnd;
      if entry.beginSlot == entry.endSlot {
        owners := owners - {entry};
      }
      forall e | e in owners
        ensures EntryOwns(e)
      {
        assert old(EntryOwns(e));
        if e != entry {
          forall i | e.beginSlot <= i < e.endSlot
            ensures entries[i] == e
          {
            assert old(entries)[i] == e;
          }
        }
      }
      forall i | 0 <= i < |entries| && old(SlotOwned(i)) && (i >= beginSlot || old(entry.beginSlot) == beginSlot)
        ensures SlotOwned(i)
      {
      }
      assert old(Ownership()) ==> forall i {:trigger SlotOwned(i)} :: 0 <= i < |entries| ==> old(SlotOwned(i));
    }

    // An entry cut at its front since the end mark was put there.
    predicate Marked(e: Entry)
      reads e
    {
      e.endMarkPos != -1 && e.endMarkPos < e.beginSlot
    }

    // Slot j of the range is in use behind an entry of the range whose end mark has moved.
    ghost predicate Behind(e: Entry, j: nat, beginSlot: nat, endSlot: nat)
      reads this`entries, e
    {
      beginSlot <= e.beginSlot && e.endSlot <= j < endSlot && j < |entries| && entries[j] != null && Marked(e)
    }

    // Clearing the range will end early.
    ghost predicate CutShort(beginSlot: nat, endSlot: nat)
      reads this`entries, this`owners, owners
    {
      exists e, j: nat {:trigger Behind(e, j, beginSlot, endSlot)} :: e in owners && Behind(e, j, beginSlot, endSlot)
    }

    // No entry of the range that ends before a slot had an end mark that has moved.
    twostate predicate NoneMarked(beginSlot: nat, at: nat) {
      forall e {:trigger e in old(owners)} :: e in old(owners) && beginSlot <= old(e.beginSlot) && old(e.endSlot) <= at ==> !old(Marked(e))
    }

    // One round of the clearing loop: an empty slot, or what the range has of one entry.
    method FreeStep(at: nat, endSlot: nat) returns (r: int, next: nat)
      requires OwnedFrom(at) && at < endSlot <= |entries|
      modifies this`entries, this`owners, owners`beginSlot
      ensures OwnedFrom(next) && |entries| == |old(entries)| && owners <= old(owners) && at < next <= endSlot
      ensures forall i :: 0 <= i < |entries| ==> entries[i] == if at <= i < next then null else old(entries)[i]
      ensures forall e {:trigger e in owners} :: e in owners ==> e.beginSlot == old(e.beginSlot) || (next == endSlot && old(e.beginSlot) < endSlot == e.beginSlot)
      ensures Boundary(next)
      ensures old(Ownership() && Boundary(at)) ==> Ownership()
      ensures !old(Boundary(at)) ==> at > 0 && !SlotOwned(at - 1)
      ensures forall i :: 0 <= i < at && !old(SlotOwned(i)) ==> !SlotOwned(i)
      ensures old(entries)[at] == null ==> next == at + 1 && r == -1
      ensures old(entries)[at] != null ==> next == old(if entries[at].endSlot > endSlot then endSlot else entries[at].endSlot)
      ensures old(entries[at] != null && Boundary(at)) ==> r == old(if entries[at].endSlot <= endSlot && Marked(entries[at]) then at else -1)
      ensures r == -1 || (r == at && old(entries[at] != null && entries[at].endSlot == next))
    {
      var entry := entries[at];
      r := -1;
      if entry == null {
        next := at + 1;
      } else {
        assert SlotOwned(at) && EntryOwns(entry);
        next := if entry.endSlot > endSlot then endSlot else entry.endSlot;
        if next == entry.endSlot && entry.endMarkPos != -1 && entry.endMarkPos < at {
          r := at;
        }
        ClearEntry(entry, at, next);
      }
      BoundaryAfterGap(next);
    }

    // The slots of a range before at have been cleared; entries are cut short at most by the
    // range.
    twostate predicate Cleared(beginSlot: nat, at: nat, endSlot: nat)
      reads this`entries, this`owners, owners
    {
      && beginSlot <= at <= endSlot && OwnedFrom(at) && |entries| == |old(entries)| && owners <= old(owners)
      && (forall i :: 0 <= i < |entries| ==> entries[i] == if beginSlot <= i < at then null else old(entries)[i])
      && (forall e {:trigger e in owners} :: e in owners ==> e.beginSlot == old(e.beginSlot) || (old(e.beginSlot) < endSlot == e.beginSlot))
    }

    // What clearing leaves behind: ownership, and no entry whose end mark had moved but the last
    // one, if the range begins where an entry does; otherwise a slot left behind.
    twostate predicate Left(beginSlot: nat, at: nat, r: int)
      requires old(beginSlot <= |entries|)
      reads this`entries, this`owners, owners
    {
      && beginSlot <= at <= |entries| && at <= |old(entries)|
      && (r != -1 ==> beginSlot <= r < at && old(entries[r] != null && entries[r].endSlot == at))
      && if at == beginSlot then Ownership() && (Boundary(at) <==> old(Boundary(beginSlot)))
         else Boundary(at) && if old(Boundary(beginSlot)) then Ownership() && MarkedAt(beginSlot, at, r) else beginSlot > 0 && !SlotOwned(beginSlot - 1)
    }

    twostate predicate MarkedAt(beginSlot: nat, at: nat, r: int)
      requires r != -1 ==> 0 <= r < |old(entries)| && old(entries)[r] != null
    {
      if r == -1 then NoneMarked(beginSlot, at) else NoneMarked(beginSlot, r) && old(Marked(entries[r]) && entries[r].beginSlot == r)
    }

    // The clearing loop. It ends early behind an entry whose end mark has moved.
    method ClearLoop(beginSlot: nat, endSlot: nat) returns (r: int, at: nat)
      requires Ownership() && beginSlot <= endSlot <= |entries|
      modifies this`entries, this`owners, owners`beginSlot
      ensures Cleared(beginSlot, at, endSlot) == true && (r == -1 ==> at == endSlot)
      ensures Left(beginSlot, at, r) == true
    {
      at := beginSlot;
      r := -1;
      while r == -1 && at < endSlot
        invariant Cleared(beginSlot, at, endSlot) == true
        invariant forall e {:trigger e in owners} :: e in owners ==> e.beginSlot == old(e.beginSlot) || at == endSlot
        invariant Left(beginSlot, at, r) == true
        decreases r == -1, endSlot - at
      {
        var next;
        r, next := FreeStep(at, endSlot);
        forall e | r == -1 && old(Boundary(beginSlot)) && e in old(owners) && beginSlot <= old(e.beginSlot) && old(e.endSlot) <= next
          ensures !old(Marked(e))
        {
          assert old(EntryOwns(e));
          assert old(entries)[old(e.endSlot) - 1] == e;
        }
        at := next;
      }
    }

    // Clears a range. The answer tells where an end mark has to be written anew, or is -1. In
    // the former case only the slots before stop are cleared. The range should start where an
    // entry does; if it does not, the program may be stopped by an assertion, and if it goes on,
    // the slot before the range is left behind by its entry.
    method FreeDirCacheRange(beginSlot: nat, endSlot: nat) returns (r: int, ghost stop: nat)
      requires Ownership() && beginSlot <= endSlot <= |entries|
      modifies this`entries, this`owners, owners`beginSlot
      ensures Cleared(beginSlot, stop, endSlot) && (r == -1 ==> stop == endSlot)
      ensures r != -1 ==> beginSlot <= r < stop && old(entries[r] != null && entries[r].endSlot == stop)
      ensures Boundary(stop) || beginSlot == endSlot
      ensures beginSlot == endSlot || old(Boundary(beginSlot)) ==> Ownership()
      ensures beginSlot < endSlot && !old(Boundary(beginSlot)) ==> beginSlot > 0 && !SlotOwned(beginSlot - 1)
      ensures r != -1 && old(Boundary(beginSlot)) ==> old(Marked(entries[r]))
      ensures old(Boundary(beginSlot)) ==> ((forall i :: beginSlot <= i < endSlot ==> entries[i] == null) <==> !old(CutShort(beginSlot, endSlot)))
    {
      var at;
      r, at := ClearLoop(beginSlot, endSlot);
      assert Left(beginSlot, at, r);
      stop := at;
      if old(Boundary(beginSlot)) {
        forall e, j: nat | e in old(owners) && old(Behind(e, j, beginSlot, endSlot))
          ensures stop <= j
        {
          assert old(EntryOwns(e));
          assert old(entries)[old(e.endSlot) - 1] == e;
        }
        if r != -1 {
          assert old(SlotOwned(r));
          forall i | stop <= i < endSlot && entries[i] != null
            ensures old(CutShort(beginSlot, endSlot))
          {
            assert old(Behind(entries[r], i, beginSlot, endSlot));
          }
        }
      }
    }

    // Points a range to its new entry. This keeps ownership exactly if the range was cleared; a
    // slot left behind before the range stays so.
    method PlaceEntry(entry: Entry)
      requires Ownership() || (entry.beginSlot > 0 && entry.beginSlot <= |entries| && !SlotOwned(entry.beginSlot - 1))
      requires entry !in owners && entry !in entries && entry.beginSlot < entry.endSlot < |entries| && entry.endMarkPos == -1
      modifies this`entries, this`owners
      ensures Ownership() <==> old(Ownership()) && forall i :: entry.beginSlot <= i < entry.endSlot ==> old(entries)[i] == null
      ensures owners == old(owners) + {entry} && |entries| == |old(entries)|
      ensures forall i :: 0 <= i < |entries| ==> entries[i] == if entry.beginSlot <= i < entry.endSlot then entry else old(entries)[i]
    {
      Fill(entry.beginSlot, entry.endSlot, entry);
      owners := owners + {entry};
      if !old(Ownership()) {
        assert !SlotOwned(entry.beginSlot - 1);
      } else if forall i :: entry.beginSlot <= i < entry.endSlot ==> old(entries)[i] == null {
        forall e | e in owners
          ensures EntryOwns(e)
        {
          if e != entry {
            assert old(EntryOwns(e));
            forall i | e.beginSlot <= i < e.endSlot
              ensures entries[i] == e
            {
              assert old(entries)[i] == e;
            }
          }
        }
        forall i | 0 <= i < |entries|
          ensures SlotOwned(i)
        {
          assert old(SlotOwned(i));
        }
      } else {
        ghost var i :| entry.beginSlot <= i < entry.endSlot && old(entries)[i] != null;
        assert old(SlotOwned(i));
        assert !EntryOwns(old(entries)[i]);
      }
    }

    // A new entry has taken over a range; entries are cut short at most by it.
    twostate predicate Taken(new entry: Entry, beginSlot: nat, endSlot: nat)
      reads this`entries, this`owners, owners
    {
      && entry in owners && owners <= old(owners) + {entry}
      && entry.beginSlot == beginSlot && entry.endSlot == endSlot < |entries| && |old(entries)| <= |entries|
      && (forall i :: 0 <= i < |entries| ==>
        entries[i] == if beginSlot <= i < endSlot then entry else if i < |old(entries)| then old(entries)[i] else null)
      && (forall e {:trigger e in owners} :: e in owners && e != entry ==>
        e.beginSlot == old(e.beginSlot) || (old(e.beginSlot) < endSlot == e.beginSlot))
    }

    // Clears the range of a new entry and points it there. Ownership survives exactly if the
    // range begins where an entry does and its clearing does not end early.
    method ClearAndPlace(entry: Entry)
      requires Ownership() && entry !in owners && entry !in entries && entry.endMarkPos == -1
      requires entry.beginSlot < entry.endSlot < |entries|
      modifies this`entries, this`owners, owners`beginSlot
      ensures Ownership() <==> old(Boundary(entry.beginSlot) && !CutShort(entry.beginSlot, entry.endSlot))
      ensures entry in owners && owners <= old(owners) + {entry} && |entries| == |old(entries)|
      ensures forall i :: 0 <= i < |entries| ==> entries[i] == if entry.beginSlot <= i < entry.endSlot then entry else old(entries)[i]
      ensures forall e {:trigger e in owners} :: e in owners && e != entry ==>
        e.beginSlot == old(e.beginSlot) || (old(e.beginSlot) < entry.endSlot == e.beginSlot)
    {
      var mark, stop := FreeDirCacheRange(entry.beginSlot, entry.endSlot);
      PlaceEntry(entry);
    }

    method TakeRange(beginSlot: nat, endSlot: nat, kind: Kind, longName: Option<Name>, shortName: Name, isLabel: bool)
      returns (entry: Entry)
      requires Ownership() && beginSlot < endSlot
      modifies this`entries, this`owners, owners`beginSlot
      ensures Ownership() <==> old(Boundary(beginSlot) && !CutShort(beginSlot, endSlot))
      ensures fresh(entry) && Taken(entry, beginSlot, endSlot)
      ensures entry.kind == kind && entry.longName == longName && entry.shortName == shortName && entry.isLabel == isLabel
      ensures entry.endMarkPos == -1
    {
      GrowDirCache(endSlot);
      entry := new Entry(kind, longName, shortName, isLabel, beginSlot, endSlot);
      forall e, j: nat | e in owners
        ensures Behind(e, j, beginSlot, endSlot) <==> old(Behind(e, j, beginSlot, endSlot))
      {
      }
      ClearAndPlace(entry);
    }

    // A range that fits in: behind the hashed entries, from a border of entries on, and with no
    // end mark that ends its clearing.
    ghost predicate Fits(beginSlot: nat, endSlot: nat)
      reads this`entries, this`owners, this`nrHashed, owners
    {
      nrHashed <= beginSlot && Boundary(beginSlot) && !CutShort(beginSlot, endSlot)
    }

    // A new entry takes over a range. If that fits in, only at the ends of the range there may
    // be free slots to be merged.
    method AllocDirCacheEntry(beginSlot: nat, endSlot: nat, kind: Kind, longName: Option<Name>, shortName: Name, isLabel: bool)
      returns (entry: Entry)
      requires Valid() && beginSlot < endSlot
      modifies this`entries, this`owners, owners`beginSlot
      ensures Ownership() <==> old(Boundary(beginSlot) && !CutShort(beginSlot, endSlot))
      ensures fresh(entry) && Taken(entry, beginSlot, endSlot)
      ensures entry.kind == kind && entry.longName == longName && entry.shortName == shortName && entry.isLabel == isLabel
      ensures entry.endMarkPos == -1
      ensures old(Fits(beginSlot, endSlot)) ==> Hashed() && RestKept(beginSlot, endSlot)
      ensures old(Fits(beginSlot, endSlot)) ==> forall i {:trigger Merged(i)} :: (i != beginSlot && i != endSlot) || kind != Free ==> Merged(i)
      ensures old(Fits(beginSlot, endSlot)) && kind == Free ==> forall i: nat {:trigger Look(i)} :: beginSlot <= i < endSlot ==> Look(i) == FreeCell
    {
      entry := TakeRange(beginSlot, endSlot, kind, longName, shortName, isLabel);
      if old(Fits(beginSlot, endSlot)) {
        forall i: nat | i < beginSlot || (i >= endSlot && (old(Look(i)).UsedCell? ==> old(Look(i)).beginSlot >= endSlot))
          ensures Look(i) == old(Look(i))
        {
          if i < |old(entries)| {
            assert SlotOwned(i) && old(SlotOwned(i));
          }
        }
        forall i | (i != beginSlot && i != endSlot) || kind != Free
          ensures Merged(i)
        {
          assert old(Merged(i));
        }
        forall i | 0 <= i < nrHashed
          ensures NamesHashed(i)
        {
          assert old(NamesHashed(i));
        }
        if 0 < nrHashed {
          assert SlotOwned(nrHashed - 1);
        }
      }
    }

    // Whatever was found stays found.
    method AddNameToHash(name: Name)
      modifies this`planes
      ensures IsHashed(hash, planes, name) && (old(Valid()) ==> Valid())
      ensures forall n {:trigger IsHashed(hash, planes, n)} :: IsHashed(hash, old(planes), n) ==> IsHashed(hash, planes, n)
    {
      planes := planes.Add(hash(name));
      assert forall n {:trigger IsHashed(hash, planes, n)} :: IsHashed(hash, old(planes), n) ==> IsHashed(hash, planes, n);
      if old(Valid()) {
        forall i | 0 <= i < nrHashed
          ensures NamesHashed(i)
        {
          assert old(NamesHashed(i));
        }
      }
    }

    // hashDce: the filter is extended by entries in order only.
    method HashDce(dce: Entry)
      requires dce.kind == Used
      modifies this`planes, this`nrHashed
      ensures old(Valid() && dce in owners) ==> Valid()
      ensures nrHashed == if dce.beginSlot == old(nrHashed) then dce.endSlot else old(nrHashed)
    {
      if dce.beginSlot != nrHashed {
        return;
      }
      if dce.longName.Some? {
        AddNameToHash(dce.longName.value);
      }
      AddNameToHash(dce.shortName);
      nrHashed := dce.endSlot;
      if old(Valid() && dce in owners) {
        assert EntryOwns(dce);
      }
    }

    // An entry of a file.
    method AddUsedEntry(beginSlot: nat, endSlot: nat, longName: Option<Name>, shortName: Name, isLabel: bool) returns (entry: Entry)
      requires Valid() && beginSlot < endSlot
      modifies this, owners`beginSlot
      ensures Ownership() <==> old(Boundary(beginSlot) && !CutShort(beginSlot, endSlot))
      ensures fresh(owners - old(owners)) && endSlot < |entries| && entry == entries[beginSlot]
      ensures old(Fits(beginSlot, endSlot)) || Taken(entry, beginSlot, endSlot)
      ensures nrHashed == if beginSlot == old(nrHashed) then endSlot else old(nrHashed)
      ensures old(Fits(beginSlot, endSlot)) ==> Valid() && RestKept(beginSlot, endSlot)
      ensures old(Fits(beginSlot, endSlot)) ==> forall i: nat {:trigger Look(i)} :: beginSlot <= i < endSlot ==> Look(i) == UsedCell(beginSlot, endSlot, longName, shortName, isLabel)
    {
      entry := AllocDirCacheEntry(beginSlot, endSlot, Used, longName, shortName, isLabel);
      HashDce(entry);
    }

    // The end of the directory.
    method AddEndEntry(pos: nat) returns (entry: Entry)
      requires Valid()
      modifies this`entries, this`owners, owners`beginSlot
      ensures Ownership() <==> old(Boundary(pos) && !CutShort(pos, pos + 1))
      ensures fresh(owners - old(owners)) && pos + 1 < |entries| && entry == entries[pos]
      ensures old(Fits(pos, pos + 1)) || Taken(entry, pos, pos + 1)
      ensures old(Fits(pos, pos + 1)) ==> Valid() && RestKept(pos, pos + 1) && Look(pos) == EndCell
    {
      entry := AllocDirCacheEntry(pos, pos + 1, End, None, [], false);
    }

    // Free slots may have changed their owner; the cache tells the same as before.
    twostate predicate SameLook()
      reads this`entries, this`owners, owners
    {
      && |entries| == |old(entries)| && owners <= old(owners)
      && forall i: nat {:trigger Look(i)} :: Look(i) == old(Look(i))
    }

    // Free slots on either side of a slot border come to belong to one entry, the former; it
    // never is the latter.
    method MergeFreeSlots(slot: nat)
      requires Ownership() && Hashed() && slot < |entries|
      requires FreeAt(slot - 1) && FreeAt(slot) ==> entries[slot - 1] != entries[slot]
      modifies this`entries, this`owners, owners`endSlot, owners`endMarkPos
      ensures Ownership() && Hashed() && SameLook()
      ensures forall i :: 0 <= i < |entries| ==>
        entries[i] == if old(FreeAt(slot - 1) && FreeAt(slot)) && old(entries)[i] == old(entries)[slot] then old(entries)[slot - 1] else old(entries)[i]
      ensures forall i {:trigger Merged(i)} :: old(Merged(i)) || i == slot ==> Merged(i)
      ensures forall e {:trigger e in owners} :: e in owners && e.kind != Free ==> e.endSlot == old(e.endSlot) && e.endMarkPos == old(e.endMarkPos)
    {
      if slot > 0 && FreeAt(slot) && FreeAt(slot - 1) {
        Join(entries[slot - 1], entries[slot], slot);
        forall i | old(Merged(i)) || i == slot
          ensures Merged(i)
        {
        }
        forall i: nat
          ensures Look(i) == old(Look(i))
        {
          if i < |entries| {
            assert SlotOwned(i) && old(SlotOwned(i));
          }
        }
        forall i | 0 <= i < nrHashed
          ensures NamesHashed(i)
        {
          assert old(NamesHashed(i));
        }
      }
    }

    method Join(previous: Entry, next: Entry, slot: nat)
      requires Ownership() && 0 < slot < |entries| && previous != next && previous.kind == Free
      requires entries[slot - 1] == previous && entries[slot] == next
      modifies this`entries, this`owners, previous`endSlot, previous`endMarkPos
      ensures Ownership() && |entries| == |old(entries)| && owners == old(owners) - {next}
      ensures forall i :: 0 <= i < |entries| ==> entries[i] == if old(entries)[i] == next then previous else old(entries)[i]
    {
      assert SlotOwned(slot - 1) && SlotOwned(slot) && EntryOwns(previous) && EntryOwns(next);
      assert previous.endSlot == slot == next.beginSlot;
      forall i | 0 <= i < |entries| && entries[i] == next
        ensures next.beginSlot <= i < next.endSlot
      {
        assert SlotOwned(i);
      }
      Fill(next.beginSlot, next.endSlot, previous);
      previous.endSlot := next.endSlot;
      previous.endMarkPos := next.endMarkPos;
      owners := owners - {next};
      forall e | e in owners
        ensures EntryOwns(e)
      {
        assert old(EntryOwns(e));
        if e != previous {
          forall i | e.beginSlot <= i < e.endSlot
            ensures entries[i] == e
          {
            assert old(entries)[i] == e;
          }
        }
      }
      forall i | 0 <= i < |entries|
        ensures SlotOwned(i)
      {
        assert old(SlotOwned(i));
      }
    }

    // Slots that are free, merged with free neighbours; nothing else has changed.
    method AddFreeEndEntry(beginSlot: nat, endSlot: nat, isAtEnd: bool) returns (entry: Entry?)
      requires Valid() && beginSlot <= endSlot && Boundary(beginSlot) && !CutShort(beginSlot, endSlot)
      modifies this`entries, this`owners, this`nrHashed, owners
      ensures Valid() && nrHashed == if beginSlot < old(nrHashed) then beginSlot else old(nrHashed)
      ensures RestKept(beginSlot, endSlot) && fresh(owners - old(owners))
      ensures forall i: nat {:trigger Look(i)} :: beginSlot <= i < endSlot ==> Look(i) == FreeCell
      ensures if beginSlot == endSlot then entry == null && entries == old(entries)
        else entry != null && endSlot < |entries| && entry == entries[beginSlot]
    {
      LowerHashed(beginSlot);
      if endSlot == beginSlot {
        return null;
      }
      FreeRange(beginSlot, endSlot, isAtEnd);
      assert Look(beginSlot) == FreeCell;
      entry := entries[beginSlot];
    }

    method FreeRange(beginSlot: nat, endSlot: nat, isAtEnd: bool)
      requires Valid() && nrHashed <= beginSlot < endSlot && Boundary(beginSlot) && !CutShort(beginSlot, endSlot)
      modifies this`entries, this`owners, owners
      ensures Valid() && endSlot < |entries|
      ensures RestKept(beginSlot, endSlot) && fresh(owners - old(owners))
      ensures forall i: nat {:trigger Look(i)} :: beginSlot <= i < endSlot ==> Look(i) == FreeCell
    {
      var entry := AllocDirCacheEntry(beginSlot, endSlot, Free, None, [], false);
      if isAtEnd {
        MarkEnd(entry);
      }
      MergeAround(entry);
    }

    method MarkEnd(entry: Entry)
      requires Ownership() && Hashed() && entry.kind == Free
      modifies entry`endMarkPos
      ensures Ownership() && Hashed() && entry.endMarkPos == entry.beginSlot
      ensures forall i: nat {:trigger Look(i)} :: Look(i) == old(Look(i))
    {
      entry.endMarkPos := entry.beginSlot;
      forall e | e in owners
        ensures EntryOwns(e)
      {
        assert old(EntryOwns(e));
      }
      forall i | 0 <= i < |entries|
        ensures SlotOwned(i)
      {
        assert old(SlotOwned(i));
      }
    }

    method LowerHashed(beginSlot: nat)
      requires Valid() && Boundary(beginSlot)
      modifies this`nrHashed
      ensures Valid() && nrHashed == if beginSlot < old(nrHashed) then beginSlot else old(nrHashed)
    {
      if 0 < beginSlot < nrHashed {
        assert NamesHashed(beginSlot - 1) && NamesHashed(beginSlot);
        assert SlotOwned(beginSlot - 1) && SlotOwned(beginSlot) && EntryOwns(entries[beginSlot - 1]);
      }
      if beginSlot < nrHashed {
        nrHashed := beginSlot;
      }
    }

    // A new free entry is merged with what is free before and behind it.
    method MergeAround(entry: Entry)
      requires Ownership() && Hashed() && entry in owners && entry.kind == Free && entry.endSlot < |entries|
      requires forall i {:trigger Merged(i)} :: i != entry.beginSlot && i != entry.endSlot ==> Merged(i)
      modifies this`entries, this`owners, owners`endSlot, owners`endMarkPos
      ensures Valid() && SameLook()
      ensures forall e {:trigger e in owners} :: e in owners && e.kind != Free ==> e.endSlot == old(e.endSlot) && e.endMarkPos == old(e.endMarkPos)
    {
      var beginSlot, endSlot := entry.beginSlot, entry.endSlot;
      assert EntryOwns(entry) && SlotOwned(endSlot);
      assert beginSlot > 0 ==> SlotOwned(beginSlot - 1);
      MergeFreeSlots(beginSlot);
      MergeFreeSlots(endSlot);
    }
  }

  // Two slots are free up to the end of the directory.
  method FreeToEnd(hash: Hash) returns (cache: DirCache, rest: Entry)
    ensures fresh(cache) && fresh(rest) && cache.Ownership() && cache.Hashed() && cache.owners == {rest}
    ensures rest.kind == Free && rest.beginSlot == 0 && rest.endSlot == 2 && rest.endMarkPos == 0
    ensures |cache.entries| == 4 && cache.entries[0] == cache.entries[1] == rest && cache.entries[2] == cache.entries[3] == null
  {
    cache := new DirCache(hash, 1);
    rest := new Entry(Free, None, [], false, 0, 2);
    cache.PlaceEntry(rest);
    cache.MarkEnd(rest);
  }

  // Then the first is taken, and a third one behind them.
  method TakenAround(hash: Hash) returns (cache: DirCache, rest: Entry)
    ensures fresh(cache) && fresh(cache.owners) && cache.Ownership() && rest in cache.owners && rest.beginSlot == 1 && rest.endSlot == 2 && cache.Marked(rest)
    ensures 3 < |cache.entries| && cache.entries[1] == rest && cache.entries[2] != null
  {
    cache, rest := FreeToEnd(hash);
    var first := cache.TakeRange(0, 1, Used, None, [], false);
    assert cache.SlotOwned(1) && cache.EntryOwns(rest) && rest.endSlot == 2;
    var third := cache.TakeRange(2, 3, Used, None, [], false);
    assert cache.SlotOwned(1) && cache.EntryOwns(rest);
  }

  // Clearing the second and third slots ends early: the third one is still in use.
  method ClearingEndsEarly(hash: Hash) returns (cache: DirCache, r: int, ghost stop: nat)
    ensures cache.Ownership() && r == 1 && stop == 2 && 2 < |cache.entries|
    ensures cache.entries[1] == null && cache.entries[2] != null
  {
    var rest;
    cache, rest := TakenAround(hash);
    assert cache.Behind(rest, 2, 1, 3);
    r, stop := cache.FreeDirCacheRange(1, 3);
  }
}
