/**
 Slots of a directory, the runs of slots that may be taken, and the place a scan finds for new
 entries (accountFreeSlots and lookupForInsert in vfat.c). A run may go over an entry whose
 place is to be reused, the source entry of a rename. Whether the scan keeps hold of such a run
 depends on how much of the directory has been read before.
 */
module SlotRuns {
  import opened Arith
  import opened DirCache
  import opened NameFilter

  // What reading the directory from the beginning finds at a slot. Reading pauses behind a
  // deleted entry, but not behind parts of a long name that belong to nothing.
  datatype Slot =
    | FreeSlot(pause: bool)
    | UsedSlot(beginSlot: nat, endSlot: nat, longName: Option<Name>, shortName: Name, isLabel: bool)

  ghost predicate WellFormed(slots: seq<Slot>) {
    forall i {:trigger slots[i]} :: 0 <= i < |slots| && slots[i].UsedSlot? ==> RunAt(slots, i)
  }

  ghost predicate RunAt(slots: seq<Slot>, i: nat)
    requires i < |slots| && slots[i].UsedSlot?
  {
    var u := slots[i];
    u.beginSlot <= i < u.endSlot <= |slots| && forall j {:trigger slots[j]} :: u.beginSlot <= j < u.endSlot ==> slots[j] == u
  }

  // The names to be created, the slots they need, and which entry is no clash: ignoreEntry is
  // the last slot of an entry that may be overwritten, -2 if short names do not matter;
  // sourceEntry is the last slot of an entry whose place may be taken, -1 if there is none.
  datatype Query = Query(longName: Name, shortName: Name, sizeNeeded: nat, ignoreEntry: int, sourceEntry: int, pessimistic: bool)

  // A slot that may be taken.
  predicate Available(s: Slot, q: Query) {
    s.FreeSlot? || (!s.isLabel && s.endSlot - 1 == q.sourceEntry)
  }

  // The slots needed, up to the given one, may all be taken.
  ghost predicate Room(slots: seq<Slot>, q: Query, last: nat) {
    && q.sizeNeeded <= last + 1 <= |slots|
    && forall i {:trigger slots[i]} :: last + 1 - q.sizeNeeded <= i <= last ==> Available(slots[i], q)
  }

  // The last slot of the first room that begins at slot lo or behind it, looking from slot n on;
  // the number of slots if there is none.
  ghost function RoomFrom(slots: seq<Slot>, q: Query, lo: nat, n: nat): (p: nat)
    requires n <= |slots|
    ensures n <= p <= |slots| && (p < |slots| ==> Room(slots, q, p) && p + 1 - q.sizeNeeded >= lo)
    ensures forall last {:trigger Room(slots, q, last)} :: n <= last < p ==> !Room(slots, q, last) || last + 1 - q.sizeNeeded < lo
    decreases |slots| - n
  {
    if n == |slots| || (Room(slots, q, n) && n + 1 - q.sizeNeeded >= lo) then n else RoomFrom(slots, q, lo, n + 1)
  }

  ghost function FirstRoom(slots: seq<Slot>, q: Query): nat {
    RoomFrom(slots, q, 0, 0)
  }

  // Where the slots that may be taken begin, of which slot n - 1 is the last.
  ghost function RunStart(slots: seq<Slot>, q: Query, n: nat): (r: nat)
    requires n <= |slots|
    ensures r <= n && (r > 0 ==> !Available(slots[r - 1], q))
    ensures forall i {:trigger slots[i]} :: r <= i < n ==> Available(slots[i], q)
  {
    if n == 0 || !Available(slots[n - 1], q) then n else RunStart(slots, q, n - 1)
  }

  lemma RunStartIs(slots: seq<Slot>, q: Query, r: nat, n: nat)
    requires r <= n <= |slots| && (r > 0 ==> !Available(slots[r - 1], q))
    requires forall i {:trigger slots[i]} :: r <= i < n ==> Available(slots[i], q)
    ensures RunStart(slots, q, n) == r
  {
  }

  // How far free slots go, and how far reading goes among them before it pauses.
  function RunEnd(slots: seq<Slot>, n: nat): (e: nat)
    requires n <= |slots|
    ensures n <= e <= |slots| && (e < |slots| ==> slots[e].UsedSlot?)
    ensures forall i {:trigger slots[i]} :: n <= i < e ==> slots[i].FreeSlot?
    decreases |slots| - n
  {
    if n == |slots| || slots[n].UsedSlot? then n else RunEnd(slots, n + 1)
  }

  function PieceEnd(slots: seq<Slot>, n: nat): (e: nat)
    requires n <= |slots|
    ensures n <= e <= RunEnd(slots, n) && (e < RunEnd(slots, n) ==> n < e && slots[e - 1] == FreeSlot(true))
    ensures n < |slots| && slots[n].FreeSlot? ==> n < e
    decreases |slots| - n
  {
    if n == |slots| || slots[n].UsedSlot? then n
    else if slots[n].pause then n + 1
    else PieceEnd(slots, n + 1)
  }

  // How far free slots are known from slot n on when the scan first looks there, if the slots
  // before the frontier had been read before the scan and no others.
  function FirstLook(slots: seq<Slot>, frontier: nat, n: nat): (e: nat)
    requires n <= |slots|
    ensures n <= e <= RunEnd(slots, n)
  {
    if n < frontier then Least(frontier, RunEnd(slots, n)) else PieceEnd(slots, n)
  }

  // The end of the first look behind the source entry.
  function SourceLook(slots: seq<Slot>, q: Query, frontier: nat): (e: nat)
    ensures 0 <= q.sourceEntry < |slots| ==> q.sourceEntry < e <= |slots|
  {
    if 0 <= q.sourceEntry < |slots| then FirstLook(slots, frontier, q.sourceEntry + 1) else 0
  }

  predicate HasSource(slots: seq<Slot>, q: Query) {
    0 <= q.sourceEntry < |slots| && slots[q.sourceEntry].UsedSlot?
  }

  // The first room goes over the source entry, and beyond what the first look behind it shows.
  ghost predicate Lost(slots: seq<Slot>, q: Query, look: nat) {
    var first := FirstRoom(slots, q);
    first < |slots| && HasSource(slots, q) && first + 1 - q.sizeNeeded <= q.sourceEntry && look <= first
  }

  // The place a scan finds: the first room; but if that is lost, the first room behind the
  // source entry. It is the number of slots if none is found.
  ghost function Place(slots: seq<Slot>, q: Query, look: nat): (p: nat)
    ensures p <= |slots| && (p < |slots| ==> Room(slots, q, p))
  {
    RoomFrom(slots, q, if Lost(slots, q, look) then q.sourceEntry + 1 else 0, 0)
  }

  // No slot that may be taken lies right before the place, but for the source entry when the
  // first room is lost.
  lemma StartOfPlace(slots: seq<Slot>, q: Query, look: nat)
    requires q.sizeNeeded >= 1 && Place(slots, q, look) < |slots|
    ensures var start := Place(slots, q, look) + 1 - q.sizeNeeded;
      start > 0 && Available(slots[start - 1], q) ==> Lost(slots, q, look) && start == q.sourceEntry + 1
  {
    var last := Place(slots, q, look);
    if last + 1 - q.sizeNeeded > 0 && Available(slots[last - q.sizeNeeded], q) {
      assert Room(slots, q, last - 1);
    }
  }

  // The scan finds the first room if and only if it is not lost.
  lemma FirstUnlessLost(slots: seq<Slot>, q: Query, look: nat)
    ensures Place(slots, q, look) == FirstRoom(slots, q) <==> !Lost(slots, q, look)
  {
  }

  // It is never lost without a source entry, nor if all of the free slots behind the source
  // entry had been read before, as they have when the whole directory had been read.
  lemma NotLost(slots: seq<Slot>, q: Query, frontier: nat)
    requires WellFormed(slots)
    requires !HasSource(slots, q) || RunEnd(slots, q.sourceEntry + 1) <= frontier
    ensures !Lost(slots, q, SourceLook(slots, q, frontier))
  {
    var first := FirstRoom(slots, q);
    if Lost(slots, q, SourceLook(slots, q, frontier)) {
      var s := q.sourceEntry + 1;
      assert RunAt(slots, q.sourceEntry);
      BehindSource(slots, q, first, RunEnd(slots, s));
      assert false;
    }
  }

  // Slots that may be taken behind the source entry are free.
  lemma BehindSource(slots: seq<Slot>, q: Query, last: nat, end: nat)
    requires WellFormed(slots) && HasSource(slots, q) && Room(slots, q, last)
    requires last + 1 - q.sizeNeeded <= q.sourceEntry < end <= last
    ensures slots[end].FreeSlot?
  {
    assert Available(slots[end], q) && Available(slots[q.sourceEntry], q);
    if slots[end].UsedSlot? {
      assert RunAt(slots, end);
    }
  }

  // Where the scan believes the run to begin whose last slot is n - 1.
  ghost function KnownStart(slots: seq<Slot>, q: Query, look: nat, n: nat): nat
    requires n <= |slots|
  {
    if HasSource(slots, q) && RunStart(slots, q, n) <= q.sourceEntry < n && look < n then q.sourceEntry + 1 else RunStart(slots, q, n)
  }

  // What is known of the run when the first n slots have been accounted for and no place has been
  // found in them.
  ghost predicate Tracked(slots: seq<Slot>, q: Query, look: nat, n: nat, freeStart: nat, freeEnd: nat) {
    && freeStart <= freeEnd <= n <= |slots| && freeEnd - freeStart < q.sizeNeeded
    && (freeEnd > 0 ==> Available(slots[freeEnd - 1], q))
    && (n > 0 && Available(slots[n - 1], q) ==> freeEnd == n && freeStart == KnownStart(slots, q, look, n))
    && (HasSource(slots, q) && RunStart(slots, q, n) <= q.sourceEntry && q.sourceEntry + 1 < n ==> look <= n)
    && n <= Place(slots, q, look)
  }

  // The next slots to be accounted for: the source entry, or a run of free slots from its
  // beginning on. The first look behind the source entry ends where it is said to end.
  ghost predicate NextPiece(slots: seq<Slot>, q: Query, look: nat, n: nat, beginSlot: nat, endSlot: nat) {
    && beginSlot <= n < endSlot <= |slots| && (HasSource(slots, q) ==> q.sourceEntry < look)
    && if slots[beginSlot].UsedSlot? then beginSlot == n && endSlot == q.sourceEntry + 1 && IsSource(slots, q, beginSlot)
       else
         && (forall i {:trigger slots[i]} :: beginSlot <= i < endSlot ==> slots[i].FreeSlot?)
         && (beginSlot > 0 ==> slots[beginSlot - 1].UsedSlot?)
         && (beginSlot == n == q.sourceEntry + 1 && HasSource(slots, q) ==> endSlot == look)
  }

  ghost predicate IsSource(slots: seq<Slot>, q: Query, beginSlot: nat)
    requires beginSlot <= q.sourceEntry < |slots|
  {
    forall i {:trigger slots[i]} :: beginSlot <= i <= q.sourceEntry ==> slots[i].UsedSlot? && slots[i] == slots[beginSlot] && Available(slots[i], q)
  }

  lemma PieceIsAvailable(slots: seq<Slot>, q: Query, look: nat, n: nat, beginSlot: nat, endSlot: nat)
    requires WellFormed(slots) && NextPiece(slots, q, look, n, beginSlot, endSlot)
    ensures forall i {:trigger slots[i]} :: beginSlot <= i < endSlot ==> Available(slots[i], q)
  {
  }

  // The run that ends with the piece begins where it began before, or with the piece.
  lemma RunGrows(slots: seq<Slot>, q: Query, look: nat, n: nat, beginSlot: nat, endSlot: nat)
    requires WellFormed(slots) && NextPiece(slots, q, look, n, beginSlot, endSlot)
    ensures RunStart(slots, q, endSlot) == RunStart(slots, q, beginSlot) <= beginSlot
    ensures n > beginSlot ==> RunStart(slots, q, n) == RunStart(slots, q, beginSlot)
    ensures slots[beginSlot].FreeSlot? && RunStart(slots, q, beginSlot) < beginSlot ==> HasSource(slots, q) && beginSlot == q.sourceEntry + 1
  {
    PieceIsAvailable(slots, q, look, n, beginSlot, endSlot);
    var r := RunStart(slots, q, beginSlot);
    RunStartIs(slots, q, r, endSlot);
    RunStartIs(slots, q, r, n);
    if slots[beginSlot].FreeSlot? && r < beginSlot {
      assert Available(slots[beginSlot - 1], q);
      assert RunAt(slots, beginSlot - 1);
    }
  }

  // The account keeps track of where the run begins.
  lemma StartIsKnown(slots: seq<Slot>, q: Query, look: nat, n: nat, beginSlot: nat, endSlot: nat, freeStart: nat, freeEnd: nat)
    requires WellFormed(slots) && NextPiece(slots, q, look, n, beginSlot, endSlot) && Tracked(slots, q, look, n, freeStart, freeEnd)
    ensures KnownStart(slots, q, look, endSlot) == if freeEnd == beginSlot then freeStart else beginSlot
    ensures HasSource(slots, q) && RunStart(slots, q, endSlot) <= q.sourceEntry && q.sourceEntry + 1 < endSlot ==> look <= endSlot
    ensures HasSource(slots, q) && RunStart(slots, q, endSlot) <= q.sourceEntry < endSlot && look < endSlot ==> look <= n
  {
    RunGrows(slots, q, look, n, beginSlot, endSlot);
  }

  // What the known part of the run does not reach is not the place.
  lemma NotYet(slots: seq<Slot>, q: Query, look: nat, n: nat, beginSlot: nat, endSlot: nat, last: nat)
    requires WellFormed(slots) && q.sizeNeeded >= 1 && NextPiece(slots, q, look, n, beginSlot, endSlot)
    requires HasSource(slots, q) && RunStart(slots, q, endSlot) <= q.sourceEntry < endSlot && look < endSlot ==> look <= n
    requires n <= last < endSlot && last + 1 < KnownStart(slots, q, look, endSlot) + q.sizeNeeded
    ensures last != Place(slots, q, look)
  {
    if last == Place(slots, q, look) {
      assert Room(slots, q, last);
      RunGrows(slots, q, look, n, beginSlot, endSlot);
      FirstUnlessLost(slots, q, look);
    }
  }

  // A run that is known to be long enough has the place.
  lemma RoomHere(slots: seq<Slot>, q: Query, look: nat, endSlot: nat)
    requires endSlot <= |slots| && q.sizeNeeded >= 1 && (HasSource(slots, q) ==> q.sourceEntry < look)
    requires endSlot - KnownStart(slots, q, look, endSlot) >= q.sizeNeeded
    ensures Place(slots, q, look) <= KnownStart(slots, q, look, endSlot) + q.sizeNeeded - 1
  {
    assert Room(slots, q, KnownStart(slots, q, look, endSlot) + q.sizeNeeded - 1);
  }

  // A place is found among the new slots exactly if the known part of the run is long enough.
  lemma PlaceInPiece(slots: seq<Slot>, q: Query, look: nat, n: nat, beginSlot: nat, endSlot: nat, freeStart: nat, freeEnd: nat)
    requires WellFormed(slots) && q.sizeNeeded >= 1
    requires NextPiece(slots, q, look, n, beginSlot, endSlot) && Tracked(slots, q, look, n, freeStart, freeEnd)
    ensures var start := KnownStart(slots, q, look, endSlot);
      if endSlot - start >= q.sizeNeeded then Place(slots, q, look) == start + q.sizeNeeded - 1 else endSlot <= Place(slots, q, look)
  {
    var start, place := KnownStart(slots, q, look, endSlot), Place(slots, q, look);
    StartIsKnown(slots, q, look, n, beginSlot, endSlot, freeStart, freeEnd);
    if n <= place < endSlot && place + 1 < start + q.sizeNeeded {
      NotYet(slots, q, look, n, beginSlot, endSlot, place);
    }
    if endSlot - start >= q.sizeNeeded {
      RoomHere(slots, q, look, endSlot);
    }
  }

  // One more piece has been accounted for.
  lemma TrackPiece(slots: seq<Slot>, q: Query, look: nat, n: nat, beginSlot: nat, endSlot: nat, freeStart: nat, freeEnd: nat)
    requires WellFormed(slots) && q.sizeNeeded >= 1
    requires NextPiece(slots, q, look, n, beginSlot, endSlot) && Tracked(slots, q, look, n, freeStart, freeEnd)
    ensures var start := if freeEnd == beginSlot then freeStart else beginSlot;
      if endSlot - start >= q.sizeNeeded then Place(slots, q, look) == start + q.sizeNeeded - 1
      else Tracked(slots, q, look, endSlot, start, endSlot)
  {
    StartIsKnown(slots, q, look, n, beginSlot, endSlot, freeStart, freeEnd);
    PlaceInPiece(slots, q, look, n, beginSlot, endSlot, freeStart, freeEnd);
    PieceIsAvailable(slots, q, look, n, beginSlot, endSlot);
  }

  // Slots that stay taken end every run.
  lemma TrackTaken(slots: seq<Slot>, q: Query, look: nat, n: nat, end: nat, freeStart: nat, freeEnd: nat)
    requires q.sizeNeeded >= 1 && Tracked(slots, q, look, n, freeStart, freeEnd) && n < end <= |slots|
    requires forall i {:trigger slots[i]} :: n <= i < end ==> !Available(slots[i], q)
    ensures Tracked(slots, q, look, end, freeStart, freeEnd)
  {
    forall last | n <= last < end
      ensures !Room(slots, q, last)
    {
      assert !Available(slots[last], q);
    }
  }
}
