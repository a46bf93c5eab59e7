/**
 The cache of table sectors in fat.c: sectors are read in bulk or one at a time, from the
 first copy of the table that answers, and changed ones are written back to the copies. Above
 it the table is one array of bytes, whichever sectors happen to be in memory.
 */
module FatCache {
  import opened Arith
  import opened FatCodec
  import opened Store

  type Sector = seq<byte>

  datatype Mode = ReadAccess | WriteAccess

  const SECT_PER_ENTRY: nat := 64

  // Two numbers of sectors modulo n: the copies tried one after the other are all copies.
  function CopyNumber(dupe: nat, primaryFat: nat, numFat: nat): (c: nat)
    requires numFat > 0
    ensures c < numFat
  {
    Mod(dupe + primaryFat, numFat)
  }

  lemma CopyNumberHits(copy: nat, primaryFat: nat, numFat: nat) returns (dupe: nat)
    requires copy < numFat
    ensures dupe < numFat && CopyNumber(dupe, primaryFat, numFat) == copy
  {
    var p := Mod(primaryFat, numFat);
    dupe := if copy >= p then copy - p else copy - p + numFat;
    DivTimes(primaryFat, numFat);
    DivShift(Div(primaryFat, numFat), dupe + p, numFat);
    assert dupe + p == copy || dupe + p == copy + numFat;
  }

  function Run(first: nat, count: nat): (r: set<nat>)
    ensures forall s :: s in r <==> first <= s < first + count
  {
    if count == 0 then {} else Run(first, count - 1) + {first + count - 1}
  }

  // A sector of a copy of the table on a device; empty if the device ends before it.
  function CopySector(disk: seq<Sector>, fatStart: nat, fatLen: nat, copy: nat, sector: nat): Sector {
    var a := fatStart + Times(copy, fatLen) + sector;
    if a < |disk| then disk[a] else []
  }

  class FatCache {
    const sectorSize: nat
    const fatStart: nat
    const fatLen: nat
    const numFat: nat
    const primaryFat: nat
    const writeAllFats: bool
    const sound: set<nat>                // copies that can always be read
    const writable: bool                 // writing never fails
    var disk: seq<Sector>                // the device, by sector number
    const data: array<Sector>            // in slots of SECT_PER_ENTRY sectors
    var valid: set<nat>
    var dirty: set<nat>
    var fatDirty: bool
    var lastSector: int                  // sector of the last access, -1 if none
    var lastMode: Mode
    var fatError: nat
    ghost const original: seq<seq<Sector>>   // the copies at the beginning
    ghost var view: seq<Sector>          // what the table contains
    ghost var changed: set<nat>          // sectors ever taken for writing

    // A cache with nothing in it. The table is what the copy tried first has.
    constructor (sectorSize: nat, fatStart: nat, fatLen: nat, numFat: nat, primaryFat: nat, writeAllFats: bool, sound: set<nat>, writable: bool, disk: seq<Sector>)
      requires sectorSize > 0 && Aligned(sectorSize, 4) && numFat > 0 && fatStart + Times(numFat, fatLen) <= |disk|
      requires forall a :: 0 <= a < |disk| ==> |disk[a]| == sectorSize
      ensures Valid() && dirty == valid == changed == {} && fatError == 0 && this.disk == disk
      ensures this.sectorSize == sectorSize && this.fatStart == fatStart && this.fatLen == fatLen && this.numFat == numFat
      ensures this.primaryFat == primaryFat && this.writeAllFats == writeAllFats && this.sound == sound && this.writable == writable
      ensures forall c, s :: 0 <= c < numFat && 0 <= s < fatLen ==> original[c][s] == CopySector(disk, fatStart, fatLen, c, s)
      ensures view == original[First()] && fresh(data)
      ensures primaryFat < numFat ==> forall s :: 0 <= s < fatLen ==> view[s] == CopySector(disk, fatStart, fatLen, primaryFat, s)
    {
      this.sectorSize, this.fatStart, this.fatLen, this.numFat := sectorSize, fatStart, fatLen, numFat;
      this.primaryFat, this.writeAllFats, this.sound, this.writable, this.disk := primaryFat, writeAllFats, sound, writable, disk;
      valid, dirty, fatDirty, lastSector, lastMode, fatError := {}, {}, false, -1, ReadAccess, 0;
      data := new Sector[(fatLen / SECT_PER_ENTRY + 1) * SECT_PER_ENTRY](_ => seq(sectorSize, _ => 0xee));
      original := seq(numFat, c requires 0 <= c < numFat => seq(fatLen, s requires 0 <= s < fatLen => CopySector(disk, fatStart, fatLen, c, s)));
      changed := {};
      view := seq(fatLen, s requires 0 <= s < fatLen => CopySector(disk, fatStart, fatLen, CopyNumber(0, primaryFat, numFat), s));
      new;
      forall c, s | 0 <= c < numFat && 0 <= s < fatLen
        ensures OnDisk(c, s) == original[c][s] && |original[c][s]| == sectorSize
      {
        AddressInside(c, s);
        assert OnDisk(c, s) == CopySector(disk, fatStart, fatLen, c, s);
      }
      assert view == original[First()];
    }

    // The copy tried first.
    function First(): nat
      requires numFat > 0
    {
      CopyNumber(0, primaryFat, numFat)
    }

    // Where a sector of a copy lies on the device.
    function Address(copy: nat, sector: nat): nat {
      fatStart + Times(copy, fatLen) + sector
    }

    // The copies that are kept up to date.
    predicate Kept(copy: nat) {
      writeAllFats || copy == 0
    }

    predicate SlotEmpty(slot: nat)
      reads this`valid
    {
      forall s :: s in valid ==> s / SECT_PER_ENTRY != slot
    }

    ghost predicate Shape()
      reads this`disk, this`view, this`lastSector, this`valid, this`dirty, data
    {
      && sectorSize > 0 && numFat > 0 && Aligned(sectorSize, 4)
      && fatStart + Times(numFat, fatLen) <= |disk|
      && fatLen <= data.Length && data.Length % SECT_PER_ENTRY == 0
      && (forall a :: 0 <= a < |disk| ==> |disk[a]| == sectorSize)
      && (forall s :: 0 <= s < data.Length ==> |data[s]| == sectorSize)
      && |view| == fatLen && Sized(view)
      && |original| == numFat && (forall c :: 0 <= c < numFat ==> |original[c]| == fatLen && Sized(original[c]))
      && -1 <= lastSector < fatLen
      && (forall s :: s in valid ==> s < data.Length)
    }

    ghost predicate Sized(table: seq<Sector>) {
      forall s :: 0 <= s < |table| ==> |table[s]| == sectorSize
    }

    // Sectors in memory are those of the table.
    ghost predicate Loaded()
      requires Shape()
      reads this`disk, this`view, this`lastSector, this`valid, this`dirty, data
    {
      forall s {:trigger view[s]} {:trigger s in valid} :: 0 <= s < fatLen && s in valid ==> data[s] == view[s]
    }

    // Sectors never taken for writing are on the device as they were.
    ghost predicate Untouched()
      requires Shape()
      reads this`disk, this`view, this`lastSector, this`valid, this`dirty, this`changed, data
    {
      forall c, s {:trigger OnDisk(c, s)} :: 0 <= c < numFat && 0 <= s < fatLen && s !in changed ==> OnDisk(c, s) == original[c][s]
    }

    // They are in the table as the first copy had them, if they have not been read or can only
    // have been read from a copy like the first.
    ghost predicate AsFirst()
      requires Shape()
      reads this`disk, this`view, this`lastSector, this`valid, this`dirty, this`changed, data
    {
      forall s {:trigger view[s]} :: 0 <= s < fatLen && s !in changed && (s !in valid || Coherent()) ==> view[s] == original[First()][s]
    }

    // Sectors written back are on the copies that are written as they are in the table.
    ghost predicate WrittenBack()
      requires Shape()
      reads this`disk, this`view, this`lastSector, this`valid, this`dirty, this`changed, this`fatError, data
    {
      forall c, s {:trigger OnDisk(c, s)} :: 0 <= c < numFat && 0 <= s < fatLen && Written(c) && s in changed && s !in dirty ==> OnDisk(c, s) == view[s]
    }

    ghost predicate Valid()
      reads this, data
    {
      && Shape()
      && dirty <= changed <= valid
      && (forall s :: s in changed ==> s < fatLen)
      && (dirty != {} ==> fatDirty)
      && Loaded() && Untouched() && AsFirst() && WrittenBack()
      && (lastSector >= 0 ==> lastSector in valid)
      && (lastSector >= 0 && lastMode == WriteAccess ==> lastSector in dirty)
    }

    function OnDisk(copy: nat, sector: nat): (d: Sector)
      requires copy < numFat && sector < fatLen && fatStart + Times(numFat, fatLen) <= |disk|
      reads this`disk
      ensures fatStart + Times(copy, fatLen) + sector < |disk| && d == disk[fatStart + Times(copy, fatLen) + sector]
    {
      AddressInside(copy, sector);
      disk[Address(copy, sector)]
    }

    lemma AddressInside(copy: nat, sector: nat)
      requires copy < numFat && sector < fatLen
      ensures Address(copy, sector) < fatStart + Times(numFat, fatLen)
    {
      TimesMono(copy + 1, numFat, fatLen);
    }

    lemma AddressInjective(copy: nat, sector: nat, copy2: nat, sector2: nat)
      requires sector < fatLen && sector2 < fatLen && Address(copy, sector) == Address(copy2, sector2)
      ensures copy == copy2 && sector == sector2
    {
      if copy < copy2 {
        TimesMono(copy + 1, copy2, fatLen);
      } else if copy2 < copy {
        TimesMono(copy2 + 1, copy, fatLen);
      }
    }

    // Transfers sectors from the device to the cache, as many as it likes to give, at most nr;
    // 0 if it fails, which may leave rubbish behind.
    method ReadSectors(copy: nat, sector: nat, nr: nat) returns (ret: nat)
      requires Shape() && copy < numFat && sector < fatLen && 0 < nr && sector + nr <= data.Length
      modifies data
      ensures ret <= nr && (copy in sound ==> ret > 0)
      ensures forall s :: 0 <= s < data.Length ==> |data[s]| == sectorSize
      ensures forall s :: 0 <= s < data.Length && !(sector <= s < sector + (if ret == 0 then 1 else ret)) ==> data[s] == old(data[s])
      ensures forall s :: sector <= s < sector + ret ==> Address(copy, s) < |disk| && data[s] == disk[Address(copy, s)]
    {
      AddressInside(copy, sector);
      ret :| 0 <= ret <= nr && Address(copy, sector) + ret <= |disk| && (copy in sound ==> ret > 0) by {
        assert 0 <= 1 <= nr && Address(copy, sector) + 1 <= |disk|;
      }
      if ret == 0 {
        data[sector] := seq(sectorSize, _ => 0xee);
      }
      for k := 0 to ret
        invariant forall s :: 0 <= s < data.Length ==> |data[s]| == sectorSize
        invariant forall s :: 0 <= s < data.Length && !(sector <= s < sector + (if ret == 0 then 1 else ret)) ==> data[s] == old(data[s])
        invariant forall s :: sector <= s < sector + k ==> data[s] == disk[Address(copy, s)]
      {
        data[sector + k] := disk[Address(copy, sector) + k];
      }
    }

    // Some copy can always be read.
    ghost predicate Answers() {
      exists copy :: 0 <= copy < numFat && copy in sound
    }

    // All copies tried before are such that reading may fail.
    ghost predicate MayAnswer(dupe: nat)
      requires numFat > 0
    {
      dupe < numFat && forall j :: 0 <= j < dupe ==> CopyNumber(j, primaryFat, numFat) !in sound
    }

    // The copies that may answer were all like the first one.
    ghost predicate Coherent()
      requires |original| == numFat > 0
    {
      forall dupe {:trigger MayAnswer(dupe)} :: MayAnswer(dupe) ==> original[CopyNumber(dupe, primaryFat, numFat)] == original[First()]
    }

    // Sectors that were not in memory have been read from some copy; the table is no other than
    // before if the copies that may answer were alike.
    ghost predicate Read(before: seq<Sector>, had: set<nat>, found: seq<Sector>, has: set<nat>) {
      && |original| == numFat > 0 && |found| == |before| && Sized(found) && had <= has
      && (Coherent() ==> found == before)
      && forall s {:trigger found[s]} :: 0 <= s < |found| ==> found[s] == before[s] || (s !in had && FromCopy(found, s))
    }

    lemma ReadTwice(a: seq<Sector>, inA: set<nat>, b: seq<Sector>, inB: set<nat>, c: seq<Sector>, inC: set<nat>)
      requires Read(a, inA, b, inB) && Read(b, inB, c, inC)
      ensures Read(a, inA, c, inC)
    {
      forall s | 0 <= s < |c| && c[s] != a[s]
        ensures s !in inA && FromCopy(c, s)
      {
        if c[s] == b[s] {
          assert FromCopy(b, s);
        }
      }
    }

    ghost predicate FromCopy(found: seq<Sector>, s: nat)
      requires s < |found|
    {
      exists c :: 0 <= c < |original| && s < |original[c]| && found[s] == original[c][s]
    }

    // fatReadSector: with nothing in memory around it, as many sectors as there are to the end
    // of the slot are asked for.
    method FatReadSector(sector: nat, dupe: nat, slotEmpty: bool) returns (ret: nat)
      requires Valid() && sector < fatLen && sector !in valid && dupe < numFat
      requires slotEmpty <==> SlotEmpty(sector / SECT_PER_ENTRY)
      modifies data
      ensures Valid() && sector + ret <= data.Length
      ensures CopyNumber(dupe, primaryFat, numFat) in sound ==> ret > 0
      ensures forall s :: s in valid ==> data[s] == old(data[s])
      ensures Brought(sector, ret, CopyNumber(dupe, primaryFat, numFat))
    {
      var copy := CopyNumber(dupe, primaryFat, numFat);
      var nr := if slotEmpty then SECT_PER_ENTRY - sector % SECT_PER_ENTRY else 1;
      assert forall s :: sector <= s < sector + nr ==> s !in valid && s < data.Length by {
        SlotEnd(sector, data.Length);
      }
      ret := ReadSectors(copy, sector, nr);
      forall s | sector <= s < sector + ret && s < fatLen
        ensures data[s] == original[copy][s]
      {
        assert OnDisk(copy, s) == original[copy][s];
      }
    }

    // Sectors that were not in memory are in their places there, as a copy had them.
    ghost predicate Brought(sector: nat, count: nat, copy: nat)
      reads this`valid, data
    {
      forall s :: sector <= s < sector + count && s < data.Length ==>
        s !in valid && (s < fatLen && copy < |original| && s < |original[copy]| ==> data[s] == original[copy][s])
    }

    static lemma SlotEnd(sector: nat, length: nat)
      requires sector < length && length % SECT_PER_ENTRY == 0
      ensures sector + SECT_PER_ENTRY - sector % SECT_PER_ENTRY <= length
      ensures forall s :: sector <= s < sector + SECT_PER_ENTRY - sector % SECT_PER_ENTRY ==> s / SECT_PER_ENTRY == sector / SECT_PER_ENTRY
    {
    }

    // The copies are tried in turn until one answers.
    method TryCopies(sector: nat, slotEmpty: bool) returns (ret: nat, ghost copy: nat)
      requires Valid() && sector < fatLen && sector !in valid
      requires slotEmpty <==> SlotEmpty(sector / SECT_PER_ENTRY)
      modifies data
      ensures Valid() && sector + ret <= data.Length
      ensures forall s :: s in valid ==> data[s] == old(data[s])
      ensures ret > 0 ==> copy < numFat && Brought(sector, ret, copy) && (Coherent() ==> original[copy] == original[First()])
      ensures Answers() ==> ret > 0
    {
      ret, copy := 0, 0;
      var dupe := 0;
      while dupe < numFat && ret == 0
        invariant Valid() && dupe <= numFat && sector + ret <= data.Length
        invariant forall s :: s in valid ==> data[s] == old(data[s])
        invariant ret == 0 ==> forall k :: 0 <= k < dupe ==> CopyNumber(k, primaryFat, numFat) !in sound
        invariant ret > 0 ==> copy < numFat && Brought(sector, ret, copy) && (Coherent() ==> original[copy] == original[First()])
        decreases numFat - dupe
      {
        assert MayAnswer(dupe);
        copy := CopyNumber(dupe, primaryFat, numFat);
        ret := FatReadSector(sector, dupe, slotEmpty);
        dupe := dupe + 1;
      }
      if ret == 0 {
        forall copy | 0 <= copy < numFat
          ensures copy !in sound
        {
          var k := CopyNumberHits(copy, primaryFat, numFat);
        }
      }
    }

    static ghost function Replaced(view: seq<Sector>, memory: seq<Sector>, sector: nat, count: nat): seq<Sector>
      requires |view| <= |memory|
    {
      seq(|view|, s requires 0 <= s < |view| => if sector <= s < sector + count then memory[s] else view[s])
    }

    // Reads a sector that is not in memory, and tells whether it came alone, with nothing else
    // of its slot in memory. (A predicate compared with true is proved as a whole and not part by
    // part, which is cheaper here and below.)
    method Fetch(sector: nat) returns (ok: bool, alone: bool)
      requires Valid() && sector < fatLen && sector !in valid
      modifies data, this`valid, this`view
      ensures (Valid() && Read(old(view), old(valid), view, valid)) == true && (ok ==> sector in valid)
      ensures Answers() ==> ok
      ensures old(valid) <= valid && (forall s :: s in old(valid) ==> data[s] == old(data[s]))
    {
      var slotEmpty := SlotEmpty(sector / SECT_PER_ENTRY);
      var ret, copy := TryCopies(sector, slotEmpty);
      Enter(sector, ret, copy);
      ok, alone := ret > 0, slotEmpty && ret == 1;
    }

    // Sectors brought by a copy count as valid, and as what the table contains.
    method Enter(sector: nat, count: nat, ghost copy: nat)
      requires Valid() && sector + count <= data.Length
      requires count > 0 ==> copy < numFat && Brought(sector, count, copy) && (Coherent() ==> original[copy] == original[First()])
      modifies this`valid, this`view
      ensures (Valid() && Read(old(view), old(valid), view, valid)) == true && valid == old(valid) + Run(sector, count)
    {
      valid := valid + Run(sector, count);
      view := Replaced(view, data[..], sector, count);
      forall s | 0 <= s < fatLen && view[s] != old(view)[s]
        ensures s !in old(valid) && s in valid && view[s] == original[copy][s] && FromCopy(view, s) && !Coherent()
      {
      }
    }

    // Brings a sector into memory, with its successor if it came alone, and marks it (and a
    // successor asked for with it) as changed if it is going to be written.
    method LoadSector(sector: nat, mode: Mode, recurs: bool) returns (ok: bool)
      requires Valid()
      modifies data, this`valid, this`dirty, this`changed, this`fatDirty, this`view
      ensures (Valid() && Read(old(view), old(valid), view, valid)) == true
      ensures ok ==> sector < fatLen && sector in valid && (mode == WriteAccess ==> sector in dirty)
      ensures sector < fatLen && Answers() ==> ok
      ensures old(valid) <= valid && (forall s :: s in old(valid) ==> data[s] == old(data[s]))
      ensures old(dirty) <= dirty
      ensures forall s :: s in dirty ==> s in old(dirty) || (mode == WriteAccess && (s == sector || (!recurs && s == sector + 1)))
      ensures mode == ReadAccess ==> fatDirty == old(fatDirty)
      ensures changed == old(changed) + (dirty - old(dirty))
      decreases if recurs then 0 else 1
    {
      ok := sector < fatLen;
      if ok && sector !in valid {
        var alone;
        ok, alone := Fetch(sector);
        if ok && !recurs && alone {
          ghost var once, had := view, valid;
          var prefetched := LoadSector(sector + 1, mode, true);
          ReadTwice(old(view), old(valid), once, had, view, valid);
        }
      }
      if ok && mode == WriteAccess {
        Mark(sector);
      }
    }

    method Mark(sector: nat)
      requires Valid() && sector < fatLen && sector in valid
      modifies this`dirty, this`changed, this`fatDirty
      ensures Valid() == true && dirty == old(dirty) + {sector} && changed == old(changed) + {sector} && fatDirty
    {
      dirty, changed := dirty + {sector}, changed + {sector};
      fatDirty := true;
    }

    // The table as one array of bytes.
    ghost function Flat(): (v: Bytes)
      requires Shape()
      reads this`disk, this`view, this`lastSector, this`valid, this`dirty, data
      ensures |v| == Times(fatLen, sectorSize)
    {
      Flattened(view, sectorSize)
    }

    // Where a byte is kept in memory. A sector used last is found without looking, provided
    // it was used last in a mode that is strong enough.
    method GetAddress(num: nat, mode: Mode) returns (ok: bool, sector: nat, offset: nat)
      requires Valid()
      modifies data, this`valid, this`dirty, this`changed, this`fatDirty, this`lastSector, this`lastMode, this`view
      ensures (Valid() && Read(old(view), old(valid), view, valid)) == true
      ensures ok ==> num < Times(fatLen, sectorSize) && sector == Div(num, sectorSize) < fatLen && offset == Mod(num, sectorSize)
      ensures ok ==> sector in valid && (mode == WriteAccess ==> sector in dirty)
      ensures num < Times(fatLen, sectorSize) && Answers() ==> ok
      ensures old(valid) <= valid && old(dirty) <= dirty
    {
      sector, offset := Div(num, sectorSize), Mod(num, sectorSize);
      DivBound(num, fatLen, sectorSize);
      DivTimes(num, sectorSize);
      if sector == lastSector && (lastMode == WriteAccess || mode == ReadAccess) {
        ok := true;
      } else {
        ok := LoadSector(sector, mode, false);
        if ok {
          lastSector, lastMode := sector, mode;
        }
      }
      if ok {
        TimesMono(sector + 1, fatLen, sectorSize);
      }
    }

    method ReadByte(num: nat) returns (b: int)
      requires Valid()
      modifies data, this`valid, this`dirty, this`changed, this`fatDirty, this`lastSector, this`lastMode, this`view
      ensures (Valid() && Read(old(view), old(valid), view, valid)) == true
      ensures b == -1 || (num < |Flat()| && b == Flat()[num] as int && Div(num, sectorSize) in valid)
      ensures num < |Flat()| && Answers() ==> b != -1
    {
      var ok, sector, offset := GetAddress(num, ReadAccess);
      b := if ok then data[sector][offset] as int else -1;
    }

    // Stores through an address obtained for writing.
    method StoreByte(num: nat, sector: nat, offset: nat, b: byte)
      requires Valid() && num < |Flat()| && sector == Div(num, sectorSize) && offset == Mod(num, sectorSize)
      requires sector in dirty
      modifies data, this`view
      ensures Valid() == true && Flat() == old(Flat())[num := b]
    {
      FlattenedUpdate(view, sectorSize, num, b);
      data[sector] := data[sector][offset := b];
      view := view[sector := data[sector]];
    }

    // A run of bytes lies together in one sector.
    ghost predicate Located(start: nat, count: nat, sector: nat, offset: nat)
      requires sectorSize > 0
    {
      && offset + count <= sectorSize
      && forall i: nat {:trigger Div(i, sectorSize)} {:trigger Mod(i, sectorSize)} :: start <= i < start + count ==>
        Div(i, sectorSize) == sector && Mod(i, sectorSize) == offset + (i - start)
    }

    // Entries of 16 and 32 bits lie inside one sector.
    lemma WholeEntry(w: Width, num: nat)
      requires Shape() && w != Fat12
      ensures Located(Start(w, num), Span(w), Div(Start(w, num), sectorSize), Mod(Start(w, num), sectorSize))
    {
      var k := Span(w);
      TimesIsProduct(num, k);
      DivShift(num, 0, k);
      assert Mod(4, 2) == Mod(2, 2) == Mod(0, 2);
      AlignedTransitive(sectorSize, 4, k);
      AlignedGroup(Start(w, num), k, sectorSize);
      forall i: nat | Start(w, num) <= i < Start(w, num) + k
        ensures Div(i, sectorSize) == Div(Start(w, num), sectorSize) && Mod(i, sectorSize) == Mod(Start(w, num), sectorSize) + (i - Start(w, num))
      {
        SameBlock(Start(w, num), i - Start(w, num), sectorSize);
      }
    }

    // The address of a whole entry.
    method GetEntry(w: Width, num: nat, mode: Mode) returns (ok: bool, sector: nat, offset: nat)
      requires Valid() && w != Fat12
      modifies data, this`valid, this`dirty, this`changed, this`fatDirty, this`lastSector, this`lastMode, this`view
      ensures (Valid() && Read(old(view), old(valid), view, valid)) == true
      ensures ok ==> Inside(w, Flat(), num) && Located(Start(w, num), Span(w), sector, offset) && sector < fatLen
      ensures ok ==> sector in valid && (mode == WriteAccess ==> sector in dirty)
      ensures Inside(w, Flat(), num) && Answers() ==> ok
    {
      WholeEntry(w, num);
      ok, sector, offset := GetAddress(Start(w, num), mode);
      if ok {
        ghost var end := Start(w, num) + Span(w) - 1;
        assert Div(end, sectorSize) == sector;
        DivTimes(end, sectorSize);
        TimesMono(sector + 1, fatLen, sectorSize);
      }
    }

    method Fat12Decode(num: nat, numClus: nat) returns (code: nat)
      requires Valid()
      modifies data, this`valid, this`dirty, this`changed, this`fatDirty, this`lastSector, this`lastMode, this`view
      ensures (Valid() && Read(old(view), old(valid), view, valid)) == true
      ensures code == 1 || (2 <= num <= numClus + 1 && Inside(Fat12, Flat(), num) && code == Entry(Fat12, Flat(), num))
      ensures 2 <= num <= numClus + 1 && Inside(Fat12, Flat(), num) && Answers() ==> code == Entry(Fat12, Flat(), num)
    {
      var start := num * 3 / 2;
      var byte0 := ReadByte(start);
      ghost var once, had := view, valid;
      var byte1 := ReadByte(start + 1);
      ReadTwice(old(view), old(valid), once, had, view, valid);
      if byte0 >= 0 {
        DivBound(start, fatLen, sectorSize);
        assert view[Div(start, sectorSize)] == once[Div(start, sectorSize)];
      }
      if num < 2 || byte0 < 0 || byte1 < 0 || num > numClus + 1 {
        code := 1;
      } else {
        code := Join12(num % 2 == 1, byte0 as byte, byte1 as byte);
      }
    }

    // Two neighbouring bytes, for writing.
    method GetPair(start: nat) returns (ok: bool, sector0: nat, offset0: nat, sector1: nat, offset1: nat)
      requires Valid()
      modifies data, this`valid, this`dirty, this`changed, this`fatDirty, this`lastSector, this`lastMode, this`view
      ensures (Valid() && Read(old(view), old(valid), view, valid)) == true
      ensures ok ==> start + 1 < |Flat()| && sector0 == Div(start, sectorSize) && offset0 == Mod(start, sectorSize) && sector0 in dirty
      ensures ok ==> sector1 == Div(start + 1, sectorSize) && offset1 == Mod(start + 1, sectorSize) && sector1 in dirty
      ensures start + 1 < |Flat()| && Answers() ==> ok
    {
      var ok0, ok1;
      ok0, sector0, offset0 := GetAddress(start, WriteAccess);
      ghost var once, had := view, valid;
      ok1, sector1, offset1 := GetAddress(start + 1, WriteAccess);
      ReadTwice(old(view), old(valid), once, had, view, valid);
      ok := ok0 && ok1;
    }

    method StorePair(start: nat, sector0: nat, offset0: nat, sector1: nat, offset1: nat, pair: (byte, byte))
      requires Valid() && start + 1 < |Flat()| && sector0 == Div(start, sectorSize) && offset0 == Mod(start, sectorSize)
      requires sector1 == Div(start + 1, sectorSize) && offset1 == Mod(start + 1, sectorSize) && sector0 in dirty && sector1 in dirty
      modifies data, this`view
      ensures Valid() == true && Flat() == old(Flat())[start := pair.0][start + 1 := pair.1]
    {
      StoreByte(start, sector0, offset0, pair.0);
      StoreByte(start + 1, sector1, offset1, pair.1);
    }

    // The two bytes may lie in different sectors.
    method Fat12Encode(num: nat, code: nat) returns (ok: bool, ghost found: seq<Sector>)
      requires Valid()
      modifies data, this`valid, this`dirty, this`changed, this`fatDirty, this`lastSector, this`lastMode, this`view
      ensures (Valid() && |found| == fatLen && Read(old(view), old(valid), found, valid)) == true && |Flat()| == |old(Flat())|
      ensures ok ==> Inside(Fat12, old(Flat()), num) && Flat() == Encoded(Fat12, Flattened(found, sectorSize), num, code)
      ensures !ok ==> view == found
      ensures Inside(Fat12, old(Flat()), num) && Answers() ==> ok
    {
      var start := num * 3 / 2;
      var sector0, offset0, sector1, offset1;
      ok, sector0, offset0, sector1, offset1 := GetPair(start);
      found := view;
      if ok {
        assert data[sector0][offset0] == Flat()[start] && data[sector1][offset1] == Flat()[start + 1];
        var pair := Split12(num % 2 == 1, data[sector0][offset0], data[sector1][offset1], code);
        StorePair(start, sector0, offset0, sector1, offset1, pair);
      }
    }

    method Fat16Decode(num: nat) returns (code: nat)
      requires Valid()
      modifies data, this`valid, this`dirty, this`changed, this`fatDirty, this`lastSector, this`lastMode, this`view
      ensures (Valid() && Read(old(view), old(valid), view, valid)) == true
      ensures code == 1 || (Inside(Fat16, Flat(), num) && code == Entry(Fat16, Flat(), num))
      ensures Inside(Fat16, Flat(), num) && Answers() ==> code == Entry(Fat16, Flat(), num)
    {
      var ok, sector, offset := GetEntry(Fat16, num, ReadAccess);
      code := if ok then Word(data[sector][offset], data[sector][offset + 1]) else 1;
    }

    // A code that is too long ends the program; here nothing is stored.
    method Fat16Encode(num: nat, code: nat) returns (ok: bool, ghost found: seq<Sector>)
      requires Valid()
      modifies data, this`valid, this`dirty, this`changed, this`fatDirty, this`lastSector, this`lastMode, this`view
      ensures (Valid() && |found| == fatLen && Read(old(view), old(valid), found, valid)) == true && |Flat()| == |old(Flat())|
      ensures ok ==> code <= 0xffff && Inside(Fat16, old(Flat()), num) && Flat() == Encoded(Fat16, Flattened(found, sectorSize), num, code)
      ensures !ok ==> view == found
      ensures code <= 0xffff && Inside(Fat16, old(Flat()), num) && Answers() ==> ok
    {
      ok, found := code <= 0xffff, view;
      var sector, offset;
      if ok {
        ok, sector, offset := GetEntry(Fat16, num, WriteAccess);
        found := view;
      }
      if ok {
        StoreByte(2 * num, sector, offset, (code % 256) as byte);
        StoreByte(2 * num + 1, sector, offset + 1, (code / 256 % 256) as byte);
      }
    }

    method Fat32Decode(num: nat) returns (code: nat)
      requires Valid()
      modifies data, this`valid, this`dirty, this`changed, this`fatDirty, this`lastSector, this`lastMode, this`view
      ensures (Valid() && Read(old(view), old(valid), view, valid)) == true
      ensures code == 1 || (Inside(Fat32, Flat(), num) && code == Entry(Fat32, Flat(), num))
      ensures Inside(Fat32, Flat(), num) && Answers() ==> code == Entry(Fat32, Flat(), num)
    {
      var ok, sector, offset := GetEntry(Fat32, num, ReadAccess);
      code := 1;
      if ok {
        Entry32At(num, sector, offset);
        var s := data[sector];
        code := Dword(s[offset], s[offset + 1], s[offset + 2], s[offset + 3]) % 0x1000_0000;
      }
    }

    lemma Entry32At(num: nat, sector: nat, offset: nat)
      requires Valid() && Inside(Fat32, Flat(), num) && Located(4 * num, 4, sector, offset) && sector < fatLen && sector in valid
      ensures var s := data[sector];
        Dword(s[offset], s[offset + 1], s[offset + 2], s[offset + 3]) % 0x1000_0000 == Entry(Fat32, Flat(), num)
    {
      DwordAt(4 * num, sector, offset);
    }

    lemma DwordAt(start: nat, sector: nat, offset: nat)
      requires Valid() && start + 4 <= |Flat()| && Located(start, 4, sector, offset) && sector < fatLen && sector in valid
      ensures var s, v := data[sector], Flat();
        Dword(s[offset], s[offset + 1], s[offset + 2], s[offset + 3]) == Dword(v[start], v[start + 1], v[start + 2], v[start + 3])
    {
      assert Div(start, sectorSize) == Div(start + 1, sectorSize) == Div(start + 2, sectorSize) == Div(start + 3, sectorSize) == sector;
    }

    method Fat32Encode(num: nat, code: nat) returns (ok: bool, ghost found: seq<Sector>)
      requires Valid()
      modifies data, this`valid, this`dirty, this`changed, this`fatDirty, this`lastSector, this`lastMode, this`view
      ensures (Valid() && |found| == fatLen && Read(old(view), old(valid), found, valid)) == true && |Flat()| == |old(Flat())|
      ensures ok ==> Inside(Fat32, old(Flat()), num) && Flat() == Encoded(Fat32, Flattened(found, sectorSize), num, code)
      ensures !ok ==> view == found
      ensures Inside(Fat32, old(Flat()), num) && Answers() ==> ok
    {
      var sector, offset;
      ok, sector, offset := GetEntry(Fat32, num, WriteAccess);
      found := view;
      if ok {
        DwordAt(4 * num, sector, offset);
        var s := data[sector];
        StoreDword(4 * num, sector, offset, Mixed(Dword(s[offset], s[offset + 1], s[offset + 2], s[offset + 3]), code));
        EncodedIsMixed(Flattened(found, sectorSize), num, code);
      }
    }

    // set_dword
    method StoreDword(start: nat, sector: nat, offset: nat, d: nat)
      requires Valid() && start + 4 <= |Flat()| && Located(start, 4, sector, offset) && sector in dirty
      modifies data, this`view
      ensures Valid() == true
      ensures Flat() == WithDword(old(Flat()), start, d)
    {
      StoreByte(start, sector, offset, ByteOf(d, 0));
      StoreByte(start + 1, sector, offset + 1, ByteOf(d, 1));
      StoreByte(start + 2, sector, offset + 2, ByteOf(d, 2));
      StoreByte(start + 3, sector, offset + 3, ByteOf(d, 3));
    }

    // The decoder of the present width: the answer is that of the decoded table, or 1 if a
    // sector cannot be read.
    method FatDecode(w: Width, num: nat, numClus: nat) returns (code: nat)
      requires Valid() && num <= numClus + 1 && Inside(w, Flat(), numClus + 1)
      modifies data, this`valid, this`dirty, this`changed, this`fatDirty, this`lastSector, this`lastMode, this`view
      ensures (Valid() && Read(old(view), old(valid), view, valid)) == true
      ensures code == 1 || code == Decoded(w, Flat(), numClus)[num]
      ensures Answers() ==> code == Decoded(w, Flat(), numClus)[num]
      ensures Answers() && w == Fat12 && num >= 2 && num % 2 == 0 ==>
        && 3 * (num / 2) + 1 < |Flat()|
        && code == Flat()[3 * (num / 2)] as nat + 0x100 * (Flat()[3 * (num / 2) + 1] as nat % 0x10)
      ensures Answers() && w == Fat12 && num >= 2 && num % 2 == 1 ==>
        && 3 * (num / 2) + 2 < |Flat()|
        && code == Flat()[3 * (num / 2) + 1] as nat / 0x10 + 0x10 * Flat()[3 * (num / 2) + 2] as nat
      ensures Answers() && w == Fat16 ==>
        && 2 * num + 1 < |Flat()|
        && code == Flat()[2 * num] as nat + 0x100 * Flat()[2 * num + 1] as nat
      ensures Answers() && w == Fat32 ==>
        && 4 * num + 3 < |Flat()|
        && code == Flat()[4 * num] as nat + 0x100 * Flat()[4 * num + 1] as nat + 0x1_0000 * Flat()[4 * num + 2] as nat + 0x100_0000 * (Flat()[4 * num + 3] as nat % 0x10)
    {
      code := DecodeEntry(w, num, numClus);
      ghost var v := Flat();
      DecodedSpelled(w, v, num, numClus);
    }

    method DecodeEntry(w: Width, num: nat, numClus: nat) returns (code: nat)
      requires Valid() && num <= numClus + 1 && Inside(w, Flat(), numClus + 1)
      modifies data, this`valid, this`dirty, this`changed, this`fatDirty, this`lastSector, this`lastMode, this`view
      ensures (Valid() && Read(old(view), old(valid), view, valid)) == true && |Flat()| == |old(Flat())|
      ensures code == 1 || code == Decoded(w, Flat(), numClus)[num]
      ensures Answers() ==> code == Decoded(w, Flat(), numClus)[num]
    {
      InsideBelow(w, Flat(), num, numClus + 1);
      match w
      case Fat12 => code := Fat12Decode(num, numClus);
      case Fat16 => code := Fat16Decode(num);
      case Fat32 => code := Fat32Decode(num);
    }

    // The encoder of the present width.
    method EncodeEntry(w: Width, num: nat, code: nat) returns (ok: bool, ghost found: seq<Sector>)
      requires Valid() && code < CodeLimit(w)
      modifies data, this`valid, this`dirty, this`changed, this`fatDirty, this`lastSector, this`lastMode, this`view
      ensures (Valid() && |found| == fatLen && Read(old(view), old(valid), found, valid)) == true && |Flat()| == |old(Flat())|
      ensures ok ==> Inside(w, old(Flat()), num) && Flat() == Encoded(w, Flattened(found, sectorSize), num, code)
      ensures !ok ==> view == found
      ensures Inside(w, old(Flat()), num) && Answers() ==> ok
    {
      match w
      case Fat12 => ok, found := Fat12Encode(num, code);
      case Fat16 => ok, found := Fat16Encode(num, code);
      case Fat32 => ok, found := Fat32Encode(num, code);
    }

    // It replaces one number of the decoded table.
    method FatEncode(w: Width, num: nat, code: nat, numClus: nat) returns (ok: bool, ghost found: seq<Sector>)
      requires Valid() && 2 <= num <= numClus + 1 && Inside(w, Flat(), numClus + 1) && code < CodeLimit(w)
      modifies data, this`valid, this`dirty, this`changed, this`fatDirty, this`lastSector, this`lastMode, this`view
      ensures (Valid() && |found| == fatLen && Read(old(view), old(valid), found, valid)) == true && |Flat()| == |old(Flat())|
      ensures var table := Flattened(found, sectorSize);
        Inside(w, table, numClus + 1) && Decoded(w, Flat(), numClus) == if ok then Decoded(w, table, numClus)[num := code] else Decoded(w, table, numClus)
      ensures Answers() ==> ok
    {
      InsideBelow(w, Flat(), num, numClus + 1);
      ok, found := EncodeEntry(w, num, code);
      EncodedTable(w, Flattened(found, sectorSize), numClus, num, code);
    }

    // What writing back needs: the sectors to be written are in memory, as the table has them.
    ghost predicate Writable(todo: set<nat>)
      reads this`disk, this`view, this`lastSector, this`valid, this`dirty, data
    {
      && Shape() && dirty <= todo <= valid
      && (forall s {:trigger view[s]} {:trigger s in todo} :: s in todo ==> s < fatLen && data[s] == view[s])
    }

    // The device as it was, but for the sectors to be written of one copy.
    twostate predicate OnlyCopyWritten(copy: nat, todo: set<nat>)
      requires old(Shape()) && Shape()
      reads this`disk, this`view, this`lastSector, this`valid, this`dirty, data
    {
      && |disk| == old(|disk|)
      && (forall a :: 0 <= a < |disk| && (a < fatStart || a >= fatStart + Times(numFat, fatLen)) ==> disk[a] == old(disk[a]))
      && (forall c, s {:trigger OnDisk(c, s)} :: 0 <= c < numFat && 0 <= s < fatLen && (c != copy || s !in todo || !Kept(c)) ==>
        OnDisk(c, s) == old(OnDisk(c, s)))
    }

    // fatWriteSector, for the copy tried at place dupe; only a copy that is kept is written.
    method FatWriteSector(sector: nat, dupe: nat, ghost todo: set<nat>) returns (ok: bool)
      requires Writable(todo) && sector in todo && dupe < numFat
      modifies this`disk
      ensures Writable(todo) && (writable ==> ok)
      ensures OnlyCopyWritten(CopyNumber(dupe, primaryFat, numFat), {sector})
      ensures ok && Kept(CopyNumber(dupe, primaryFat, numFat)) ==> OnDisk(CopyNumber(dupe, primaryFat, numFat), sector) == view[sector]
    {
      var copy := CopyNumber(dupe, primaryFat, numFat);
      if copy != 0 && !writeAllFats {
        return true;
      }
      ok :| writable ==> ok;
      if ok {
        AddressInside(copy, sector);
        disk := disk[Address(copy, sector) := data[sector]];
        forall c, s | 0 <= c < numFat && 0 <= s < fatLen && (c != copy || s != sector)
          ensures OnDisk(c, s) == old(OnDisk(c, s))
        {
          AddressInside(c, s);
          if Address(c, s) == Address(copy, sector) {
            AddressInjective(c, s, copy, sector);
          }
        }
      }
    }

    // All changed sectors go to one copy, slot by slot; after the last copy they count as
    // unchanged.
    method WriteCopy(dupe: nat, final: bool, ghost todo: set<nat>) returns (ok: bool)
      requires Writable(todo) && dirty == todo && dupe < numFat
      modifies this`disk, this`dirty
      ensures Writable(todo) && OnlyCopyWritten(CopyNumber(dupe, primaryFat, numFat), todo)
      ensures (writable ==> ok) && (ok ==> dirty == if final then {} else todo)
      ensures ok && Kept(CopyNumber(dupe, primaryFat, numFat)) ==>
        forall s :: s in todo ==> OnDisk(CopyNumber(dupe, primaryFat, numFat), s) == view[s]
    {
      var j := 0;
      while j < fatLen
        invariant Writable(todo) && OnlyCopyWritten(CopyNumber(dupe, primaryFat, numFat), todo)
        invariant forall s :: s in dirty <==> s in todo && !(final && s < j)
        invariant Kept(CopyNumber(dupe, primaryFat, numFat)) ==>
          forall s :: s in todo && s < j ==> OnDisk(CopyNumber(dupe, primaryFat, numFat), s) == view[s]
        decreases fatLen - j
      {
        if j % SECT_PER_ENTRY == 0 && forall s :: s in dirty ==> s / SECT_PER_ENTRY != j / SECT_PER_ENTRY {
          j := j + SECT_PER_ENTRY;
        } else {
          if j in dirty {
            ok := FatWriteSector(j, dupe, todo);
            if !ok {
              return;
            }
            if final {
              dirty := dirty - {j};
            }
          }
          j := j + 1;
        }
      }
      ok := true;
    }

    // The copies fat_write writes: those that are kept, or after an error only the first one
    // tried, if that is kept.
    predicate Written(copy: nat)
      requires numFat > 0
      reads this`fatError
    {
      Kept(copy) && (fatError == 0 || copy == CopyNumber(0, primaryFat, numFat))
    }

    // A bad entry has been met; from now on only the copy tried first is written.
    method CountError()
      requires Valid()
      modifies this`fatError
      ensures Valid() && fatError == old(fatError) + 1
    {
      fatError := fatError + 1;
      assert forall c: nat {:trigger Written(c)} :: Written(c) ==> old(Written(c));
    }

    // Writes changed sectors to the copies. No sector is marked afterwards; the copies written
    // have them as they are in memory, and nothing else on the device has changed. A copy that
    // is not written goes stale. A failed write ends the program.
    method FatWrite() returns (ok: bool)
      requires Valid()
      modifies this`disk, this`dirty, this`fatDirty, this`lastMode
      ensures writable ==> ok
      ensures ok ==> Valid() && dirty == {} && !fatDirty && |disk| == |old(disk)|
      ensures ok ==> forall c, s {:trigger OnDisk(c, s)} :: 0 <= c < numFat && 0 <= s < fatLen ==>
        OnDisk(c, s) == if s in old(dirty) && Written(c) then view[s] else old(OnDisk(c, s))
      ensures ok ==> forall a :: 0 <= a < |disk| && (a < fatStart || a >= fatStart + Times(numFat, fatLen)) ==> disk[a] == old(disk[a])
    {
      ok := true;
      if fatDirty {
        var dups := if fatError != 0 then 1 else numFat;
        ok := WriteCopies(dups, dirty);
        if ok {
          forall c, s | 0 <= c < numFat && 0 <= s < fatLen
            ensures OnDisk(c, s) == if s in old(dirty) && Written(c) then view[s] else old(OnDisk(c, s))
          {
            if fatError == 0 {
              var k := CopyNumberHits(c, primaryFat, numFat);
              assert CopyWritten(k, old(dirty));
            } else {
              assert CopyWritten(0, old(dirty));
            }
          }
          fatDirty := false;
          lastMode := ReadAccess;
        }
      }
    }

    // What is on the device once changed sectors have been written is the table, as far as the
    // copy tried first is concerned.
    ghost predicate Recoverable()
      requires Shape()
      reads this`disk, this`view, this`lastSector, this`valid, this`dirty, this`fatError, data
    {
      forall s {:trigger OnDisk(First(), s)} :: 0 <= s < fatLen ==> (s in dirty && Written(First())) || OnDisk(First(), s) == view[s]
    }

    // If nothing has been read from a copy that differs, this is so exactly if the first copy is
    // written or has all changed sectors as they are in the table anyway.
    lemma RecoverableExactly()
      requires Valid() && Coherent()
      ensures Recoverable() <==> Written(First()) || forall s :: s in changed ==> OnDisk(First(), s) == view[s]
      ensures Written(First()) <==> writeAllFats || Aligned(primaryFat, numFat)
    {
      forall s | 0 <= s < fatLen && s !in changed
        ensures OnDisk(First(), s) == view[s]
      {
        assert view[s] == original[First()][s];
      }
      if !Written(First()) && Recoverable() {
        forall s | s in changed
          ensures OnDisk(First(), s) == view[s]
        {
        }
      }
    }

    // The copy tried at place k, if it is kept, has the changed sectors of the table.
    ghost predicate CopyWritten(k: nat, todo: set<nat>)
      requires Shape() && forall s :: s in todo ==> s < fatLen
      reads this`disk, this`view, this`lastSector, this`valid, this`dirty, data
    {
      Kept(CopyNumber(k, primaryFat, numFat)) ==>
        forall s :: s in todo ==> OnDisk(CopyNumber(k, primaryFat, numFat), s) == view[s]
    }

    // Sectors that have not been changed, and copies that are not written, stay as they are.
    twostate predicate OthersUnwritten(dups: nat, todo: set<nat>)
      requires old(Shape()) && Shape()
      reads this`disk, this`view, this`lastSector, this`valid, this`dirty, data
    {
      forall c, s {:trigger OnDisk(c, s)} :: 0 <= c < numFat && 0 <= s < fatLen && !(s in todo && Kept(c) && (dups == 1 ==> c == CopyNumber(0, primaryFat, numFat))) ==>
        OnDisk(c, s) == old(OnDisk(c, s))
    }

    method WriteCopies(dups: nat, ghost todo: set<nat>) returns (ok: bool)
      requires Writable(todo) && dirty == todo && 1 <= dups <= numFat
      modifies this`disk, this`dirty
      ensures Writable(todo) && |disk| == |old(disk)|
      ensures forall a :: 0 <= a < |disk| && (a < fatStart || a >= fatStart + Times(numFat, fatLen)) ==> disk[a] == old(disk[a])
      ensures OthersUnwritten(dups, todo)
      ensures writable ==> ok
      ensures ok ==> dirty == {} && forall k :: 0 <= k < dups ==> CopyWritten(k, todo)
    {
      var i := 0;
      while i < dups
        invariant i <= dups && Writable(todo) && |disk| == |old(disk)|
        invariant dirty == if i == dups then {} else todo
        invariant forall a :: 0 <= a < |disk| && (a < fatStart || a >= fatStart + Times(numFat, fatLen)) ==> disk[a] == old(disk[a])
        invariant OthersUnwritten(dups, todo)
        invariant forall k :: 0 <= k < i ==> CopyWritten(k, todo)
      {
        label before:
        ok := WriteCopy(i, i == dups - 1, todo);
        if !ok {
          return;
        }
        forall k | 0 <= k <= i
          ensures CopyWritten(k, todo)
        {
          if k < i {
            assert old@before(CopyWritten(k, todo));
          }
        }
        i := i + 1;
      }
      ok := true;
    }
  }

  // Another cache over the same device.
  ghost predicate SameDevice(c: FatCache, d: FatCache) {
    && d.sectorSize == c.sectorSize && d.fatLen == c.fatLen && d.numFat == c.numFat && d.primaryFat == c.primaryFat
    && d.writeAllFats == c.writeAllFats && d.sound == c.sound && d.writable == c.writable
  }

  // Opening it once more finds the copies as they are now. They are alike if all are written, or
  // if only the first one is ever read.
  method Reopen(c: FatCache) returns (d: FatCache)
    requires c.Valid() && c.dirty == {}
    ensures fresh(d) && fresh(d.data) && d.Valid() == true && d.dirty == {} && SameDevice(c, d)
    ensures forall s :: 0 <= s < d.fatLen ==> d.view[s] == c.OnDisk(c.First(), s)
    ensures c.First() in c.sound || (c.Coherent() && c.writeAllFats && c.fatError == 0) ==> d.Coherent()
  {
    d := new FatCache(c.sectorSize, c.fatStart, c.fatLen, c.numFat, c.primaryFat, c.writeAllFats, c.sound, c.writable, c.disk);
    forall copy, s | 0 <= copy < c.numFat && 0 <= s < c.fatLen
      ensures d.original[copy][s] == c.OnDisk(copy, s)
    {
      c.AddressInside(copy, s);
    }
    StillAlike(c, d.original);
    forall dupe | d.MayAnswer(dupe)
      ensures c.MayAnswer(dupe) && (c.First() in c.sound ==> dupe == 0)
    {
    }
  }

  // After a successful write back, another cache over the same device starts with the same table
  // if and only if it could be recovered.
  method WriteBackAndReopen(c: FatCache) returns (ok: bool, d: FatCache?)
    requires c.Valid()
    modifies c`disk, c`dirty, c`fatDirty, c`lastMode
    ensures c.writable ==> ok
    ensures ok ==> d != null && fresh(d) && fresh(d.data) && d.Valid() == true && c.Valid() == true && d.dirty == {} && SameDevice(c, d)
    ensures ok ==> forall s :: 0 <= s < d.fatLen ==>
      d.view[s] == if s in old(c.dirty) && old(c.Written(c.First())) then old(c.view)[s] else old(c.OnDisk(c.First(), s))
    ensures ok ==> (d.Flat() == old(c.Flat()) <==> old(c.Recoverable()))
    ensures ok && c.Coherent() ==> (d.Flat() == old(c.Flat()) <==>
      old(c.Written(c.First()) || forall s :: s in c.changed ==> c.OnDisk(c.First(), s) == c.view[s]))
    ensures ok && (c.First() in c.sound || (c.Coherent() && c.writeAllFats && c.fatError == 0)) ==> d.Coherent()
  {
    d := null;
    if c.Coherent() {
      c.RecoverableExactly();
    }
    ok := c.FatWrite();
    if ok {
      d := Reopen(c);
      FlattenedInjective(d.view, c.view, c.sectorSize);
      if d.view == c.view {
        forall s | 0 <= s < c.fatLen
          ensures old((s in c.dirty && c.Written(c.First())) || c.OnDisk(c.First(), s) == c.view[s])
        {
          assert d.view[s] == c.OnDisk(c.First(), s);
        }
      }
    }
  }

  // Copies that were alike and are all written are alike again.
  lemma StillAlike(c: FatCache, copies: seq<seq<Sector>>)
    requires c.Valid() && c.dirty == {} && |copies| == c.numFat
    requires forall k :: 0 <= k < c.numFat ==> |copies[k]| == c.fatLen
    requires forall k, s :: 0 <= k < c.numFat && 0 <= s < c.fatLen ==> copies[k][s] == c.OnDisk(k, s)
    ensures c.Coherent() && c.writeAllFats && c.fatError == 0 ==>
      forall dupe {:trigger c.MayAnswer(dupe)} :: c.MayAnswer(dupe) ==> copies[CopyNumber(dupe, c.primaryFat, c.numFat)] == copies[c.First()]
  {
    forall dupe | c.MayAnswer(dupe) && c.Coherent() && c.writeAllFats && c.fatError == 0
      ensures copies[CopyNumber(dupe, c.primaryFat, c.numFat)] == copies[c.First()]
    {
      var k := CopyNumber(dupe, c.primaryFat, c.numFat);
      assert c.original[k] == c.original[c.First()];
      forall s | 0 <= s < c.fatLen
        ensures copies[k][s] == copies[c.First()][s]
      {
        assert copies[k][s] == c.OnDisk(k, s) && copies[c.First()][s] == c.OnDisk(c.First(), s);
      }
    }
  }

  // What the next program reads is what this one has written, if it can be recovered.
  method WriteThenDecode(c: FatCache, w: Width, num: nat, numClus: nat) returns (ok: bool, code: nat)
    requires c.Valid() && num <= numClus + 1 && Inside(w, c.Flat(), numClus + 1) && c.writable
    requires c.First() in c.sound || (c.Coherent() && c.Answers() && c.writeAllFats && c.fatError == 0)
    modifies c`disk, c`dirty, c`fatDirty, c`lastMode
    ensures ok && (old(c.Recoverable()) ==> code == Decoded(w, old(c.Flat()), numClus)[num])
  {
    var d;
    ok, d := WriteBackAndReopen(c);
    assert d.First() == c.First() < d.numFat && (c.Answers() ==> d.Answers());
    code := d.FatDecode(w, num, numClus);
  }

  // Two copies of one sector each, all zeros; the second is the primary one, and only one of
  // them is to be written.
  method TwoCopies() returns (c: FatCache)
    ensures fresh(c) && fresh(c.data) && c.Valid() && c.sectorSize == 512 && c.fatLen == 1 && c.numFat == 2
    ensures c.First() == 1 && c.sound == {0, 1} && c.writable && !c.writeAllFats && |c.Flat()| == 512
    ensures c.OnDisk(1, 0) == seq(512, _ => 0)
  {
    TimesIsProduct(2, 1);
    TimesIsProduct(1, 512);
    DivShift(128, 0, 4);
    TimesIsProduct(128, 4);
    c := new FatCache(512, 0, 1, 2, 1, false, {0, 1}, true, [seq(512, _ => 0), seq(512, _ => 0)]);
  }

  // A number is put into the table. It goes to the first copy only; the next program finds the
  // old number.
  method TableIsLost() returns (ghost table: Bytes, code: nat)
    ensures |table| == 512 && Decoded(Fat16, table, 2)[2] == 7 && code == 0
  {
    var c := TwoCopies();
    assert c.Answers() by {
      assert 1 in c.sound;
    }
    var ok, found := c.FatEncode(Fat16, 2, 7, 2);
    table := c.Flat();
    code := LostNumber(c);
  }

  method LostNumber(c: FatCache) returns (code: nat)
    requires c.Valid() && c.sectorSize == 512 && c.fatLen == 1 && c.First() == 1 && 1 < c.numFat && 1 in c.sound
    requires c.writable && !c.writeAllFats && c.OnDisk(1, 0) == seq(512, _ => 0)
    modifies c`disk, c`dirty, c`fatDirty, c`lastMode
    ensures code == 0
  {
    var ok, d := WriteBackAndReopen(c);
    DivBound(4, 1, 512);
    DivBound(5, 1, 512);
    TimesIsProduct(1, 512);
    assert d.view[0] == seq(512, _ => 0);
    assert ByteAt(d.view, 512, 4) == ByteAt(d.view, 512, 5) == 0;
    assert d.First() in d.sound;
    ghost var zeros := d.Flat();
    code := d.FatDecode(Fat16, 2, 2);
    assert d.Flat() == zeros && zeros[4] == zeros[5] == 0;
  }

  lemma EncodedIsMixed(v: Bytes, num: nat, code: nat)
    requires Inside(Fat32, v, num)
    ensures var s := 4 * num;
      Encoded(Fat32, v, num, code) == WithDword(v, s, Mixed(Dword(v[s], v[s + 1], v[s + 2], v[s + 3]), code))
  {
    assert Start(Fat32, num) == 4 * num;
  }

  // The bytes of sectors one after the other.
  ghost function Flattened(view: seq<Sector>, sectorSize: nat): (v: Bytes)
    requires sectorSize > 0 && forall s :: 0 <= s < |view| ==> |view[s]| == sectorSize
    ensures |v| == Times(|view|, sectorSize)
    ensures forall i :: 0 <= i < |v| ==> v[i] == ByteAt(view, sectorSize, i)
  {
    seq(Times(|view|, sectorSize), i requires 0 <= i < Times(|view|, sectorSize) => ByteAt(view, sectorSize, i))
  }

  // Different sectors make different bytes.
  lemma FlattenedInjective(a: seq<Sector>, b: seq<Sector>, sectorSize: nat)
    requires sectorSize > 0 && |a| == |b|
    requires (forall s :: 0 <= s < |a| ==> |a[s]| == sectorSize) && (forall s :: 0 <= s < |b| ==> |b[s]| == sectorSize)
    ensures Flattened(a, sectorSize) == Flattened(b, sectorSize) <==> a == b
  {
    if Flattened(a, sectorSize) == Flattened(b, sectorSize) {
      forall s, k | 0 <= s < |a| && 0 <= k < sectorSize
        ensures a[s][k] == b[s][k]
      {
        var i := Times(s, sectorSize) + k;
        TimesMono(s + 1, |a|, sectorSize);
        DivShift(s, k, sectorSize);
        assert Flattened(a, sectorSize)[i] == ByteAt(a, sectorSize, i) && Flattened(b, sectorSize)[i] == ByteAt(b, sectorSize, i);
      }
      forall s | 0 <= s < |a|
        ensures a[s] == b[s]
      {
      }
    }
  }

  ghost function ByteAt(view: seq<Sector>, sectorSize: nat, i: nat): byte
    requires sectorSize > 0 && forall s :: 0 <= s < |view| ==> |view[s]| == sectorSize
    requires i < Times(|view|, sectorSize)
  {
    DivBound(i, |view|, sectorSize);
    view[Div(i, sectorSize)][Mod(i, sectorSize)]
  }

  lemma FlattenedUpdate(view: seq<Sector>, sectorSize: nat, num: nat, b: byte)
    requires sectorSize > 0 && forall s :: 0 <= s < |view| ==> |view[s]| == sectorSize
    requires num < Times(|view|, sectorSize)
    ensures Div(num, sectorSize) < |view|
    ensures var s := Div(num, sectorSize);
      var u := view[s := view[s][Mod(num, sectorSize) := b]];
      (forall k :: 0 <= k < |u| ==> |u[k]| == sectorSize) && Flattened(u, sectorSize) == Flattened(view, sectorSize)[num := b]
  {
    DivBound(num, |view|, sectorSize);
    var s := Div(num, sectorSize);
    var u := view[s := view[s][Mod(num, sectorSize) := b]];
    forall i | 0 <= i < Times(|view|, sectorSize)
      ensures ByteAt(u, sectorSize, i) == if i == num then b else ByteAt(view, sectorSize, i)
    {
      DivBound(i, |view|, sectorSize);
      DivTimes(i, sectorSize);
      DivTimes(num, sectorSize);
    }
  }
}
