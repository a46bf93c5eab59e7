/**
 The search for file system parameters in mformat.c: given the size of the disk and whatever
 the user has fixed, find a FAT width, a cluster size and a table length that go together.
 The fields have the widths of the source; the search is proved to come to an end.
 */
module FormatParams {
  import opened Arith
  import opened FatLen

  const FAT12: int := 0x0ff5       // number of clusters that no longer fits 12-bit entries
  const FAT16: int := 0xfff5
  const FAT32: int := 0xfff_fff5

  // Results of try_cluster_size; Abort stands for a failing assertion of the source.
  datatype Fit = NoRoom | TooFew | Good | TooMany | TooManyForLength | Abort

  function MinClusters(fatBits: nat): int {
    if fatBits == 12 then 1 else if fatBits == 16 then 4096 else FAT16
  }

  function MaxClusters(fatBits: nat): int {
    if fatBits == 12 then FAT12 else if fatBits == 16 then FAT16 else FAT32
  }

  // set_fat: the width of the entries follows from the number of clusters, except that a long
  // table length means 32 bits.
  function FatWidth(numClus: nat, haveBigFatLen: bool): nat {
    if haveBigFatLen then 32 else if numClus < FAT12 then 12 else if numClus < FAT16 then 16 else 32
  }

  // Sectors by which the directory may grow.
  function Room(waste: nat, dirLen: nat, mayRoot: bool): (r: nat)
    ensures r <= waste && r <= 32
  {
    if !mayRoot || dirLen > 32 then 0 else if 32 - dirLen <= waste then 32 - dirLen else waste
  }

  // Whether padding takes up all the sectors it is meant to. Room in the directory is used
  // first. What is left goes to the tables, in equal parts; but if it cannot be shared out
  // evenly the growth of the directory is taken back, so that the tables have to cover it all.
  predicate PaddingReaches(waste: nat, start: nat, dirLen: nat, numFat: nat, fatBits: nat, mayBoot: bool, mayLen: bool, mayRoot: bool)
    requires numFat > 0
  {
    var room := Room(waste, dirLen, mayRoot);
    if mayLen && (!mayBoot || fatBits == 12) then
      Aligned(waste - room, numFat) || RoundUp(waste - room, numFat) >= waste
    else if mayBoot then
      start + waste - room < 0x1_0000
    else
      waste == room
  }

  class Params {
    const sectorSize: nat
    const numFat: nat
    var fatBits: nat
    var clusterSize: nat
    var fatStart: nat
    var fatLen: nat
    var dirLen: nat
    var clusStart: nat
    var numClus: nat
    var backupBoot: nat

    // What the user has fixed, and 0 for what is open.
    constructor (sectorSize: nat, numFat: nat, fatBits: nat, clusterSize: nat, fatStart: nat, fatLen: nat, dirLen: nat)
      ensures this.sectorSize == sectorSize && this.numFat == numFat && this.fatBits == fatBits && this.clusterSize == clusterSize
      ensures this.fatStart == fatStart && this.fatLen == fatLen && this.dirLen == dirLen
    {
      this.sectorSize, this.numFat, this.fatBits, this.clusterSize := sectorSize, numFat, fatBits, clusterSize;
      this.fatStart, this.fatLen, this.dirLen := fatStart, fatLen, dirLen;
      clusStart, numClus, backupBoot := 0, 0, 0;
    }

    function Shape(): Geometry
      reads this`clusterSize, this`fatBits
    {
      Geometry(clusterSize, sectorSize, numFat, fatBits / 4)
    }

    // The fields have values of their types, and the FAT width is a known one.
    ghost predicate Valid()
      reads this
    {
      && Shape().Valid() && fatBits in {12, 16, 32}
      && fatStart < 0x1_0000 && dirLen < 0x1_0000 && fatLen < TWO32
    }

    // First cluster sector, without the wrap-around of 32-bit arithmetic.
    function DataStart(): nat
      reads this
    {
      fatStart + Times(numFat, fatLen) + dirLen
    }

    // Sectors left for tables and clusters.
    function Remaining(tot: nat): int
      reads this`clusterSize, this`fatBits, this`fatStart, this`dirLen
    {
      Shape().Evened(tot - fatStart - dirLen)
    }

    // The clusters fill the disk, but for less than a cluster.
    ghost predicate Filled(tot: nat)
      reads this
    {
      Times(numClus, clusterSize) <= tot - clusStart < Times(numClus, clusterSize) + clusterSize
    }

    // The last count of clusters is that of the present fields.
    ghost predicate Counted(tot: nat)
      reads this
    {
      clusStart == U32(DataStart()) && clusStart < tot && Filled(tot)
    }

    method CalcNumClus(tot: nat) returns (ok: bool)
      requires Valid() && tot < TWO32
      modifies this`clusStart, this`numClus
      ensures Valid() && clusStart == U32(DataStart())
      ensures ok <==> tot > clusStart
      ensures ok ==> Filled(tot)
    {
      clusStart := U32(DataStart());
      if tot <= clusStart {
        return false;
      }
      numClus := Div(tot - clusStart, clusterSize);
      DivTimes(tot - clusStart, clusterSize);
      ok := true;
    }

    // Table length for the sectors left; TooMany if 12-bit entries are out of the question.
    method CalcFatLen(tot: nat) returns (fit: Fit)
      requires Valid() && tot < TWO32
      modifies this`fatLen
      ensures Valid()
      ensures fit == NoRoom || fit == TooMany || fit == Good
      ensures fit == NoRoom <==> tot < fatStart + dirLen
      ensures fit == TooMany <==> fatBits == 12 && Remaining(tot) > 256 * FAT12
      ensures fit == Good ==> Shape().Exact(fatLen, Remaining(tot))
    {
      fatLen := 0;
      TimesCommutes(numFat, 0);
      var start := U32(DataStart());
      if tot < start {
        return NoRoom;
      }
      var rem := Shape().Evened(tot - start);
      if fatBits == 12 && rem > 256 * FAT12 {
        return TooMany;
      }
      fatLen := Length(rem);
      fit := Good;
    }

    method Length(rem: nat) returns (f: nat)
      requires Valid() && rem < TWO32 && (fatBits == 12 ==> rem <= 256 * FAT12)
      ensures f < TWO32 && Shape().Exact(f, rem)
    {
      Shape().WrappedIsExact(rem);
      f := WrappedLength(rem, clusterSize, 2 * Times(clusterSize, sectorSize) + Times(numFat, fatBits / 4), fatBits / 4);
    }

    // Takes up space to bring the number of clusters below the limit: by more directory
    // sectors, a longer table, or more reserved sectors.
    method Pad(waste0: nat, mayBoot: bool, mayLen: bool, mayRoot: bool)
      requires Valid() && waste0 < 0x1_0000 && (mayRoot ==> dirLen <= 32) && (mayBoot ==> fatStart == 1)
      requires mayLen ==> DataStart() + waste0 + 255 < TWO32
      modifies this`fatStart, this`fatLen, this`dirLen
      ensures Valid() && (mayRoot ==> dirLen <= 32) && (!mayRoot ==> dirLen == old(dirLen))
      ensures dirLen >= old(dirLen) && fatLen >= old(fatLen) && fatStart >= old(fatStart) - 1
      ensures !mayLen ==> fatLen == old(fatLen)
      ensures !mayBoot ==> fatStart == old(fatStart)
      ensures mayLen ==> DataStart() < old(DataStart()) + waste0 + 255
      ensures DataStart() >= old(DataStart()) + waste0 <==> PaddingReaches(waste0, old(fatStart), old(dirLen), numFat, fatBits, mayBoot, mayLen, mayRoot)
    {
      var waste, dirGrow := DirectoryGrowth(waste0, mayRoot);
      if mayLen && (!mayBoot || fatBits == 12) {
        dirGrow := GrowTables(waste, dirGrow);
      } else if mayBoot {
        fatStart := U16(fatStart + waste);
      }
      dirLen := U16(dirLen + dirGrow);
    }

    // The directory takes the waste first, up to 32 sectors.
    method DirectoryGrowth(waste: nat, mayRoot: bool) returns (rest: nat, dirGrow: nat)
      requires waste < 0x1_0000 && (mayRoot ==> dirLen <= 32)
      ensures dirGrow == Room(waste, dirLen, mayRoot) && rest == waste - dirGrow
    {
      rest, dirGrow := waste, 0;
      if mayRoot {
        dirGrow := U16(32 - dirLen);
        if dirGrow > waste {
          dirGrow := waste;
        }
        rest := U16(waste - dirGrow);
      }
    }

    // Lengthens the tables by the waste, shared out and rounded up. The directory keeps its
    // growth only if there was nothing to round: a negative difference has become a large
    // 16-bit number.
    method GrowTables(waste: nat, dirGrow: nat) returns (kept: nat)
      requires Valid() && waste < 0x1_0000 && dirGrow <= 32 && DataStart() + waste + 255 < TWO32
      modifies this`fatLen
      ensures Valid() && fatLen >= old(fatLen)
      ensures Times(numFat, fatLen) == Times(numFat, old(fatLen)) + RoundUp(waste, numFat)
      ensures kept == if Aligned(waste, numFat) then dirGrow else 0
    {
      var fatGrow := U16(Div(waste + numFat - 1, numFat));
      GrowthCovers(waste, fatGrow);
      fatLen := U32(fatLen + fatGrow);
      var dirShrink := U16(waste - Times(numFat, fatGrow));
      if dirShrink > dirGrow {
        dirShrink := dirGrow;
      }
      kept := U16(dirGrow - dirShrink);
    }

    // Table sectors added in all copies cover the waste and exceed it by less than one round.
    lemma GrowthCovers(waste: nat, fatGrow: nat)
      requires Valid() && waste < 0x1_0000
      requires DataStart() + waste + 255 < TWO32
      requires fatGrow == U16(Div(waste + numFat - 1, numFat))
      ensures waste <= Times(numFat, fatGrow) < waste + numFat
      ensures Times(numFat, fatGrow) == RoundUp(waste, numFat)
      ensures Aligned(waste, numFat) <==> RoundUp(waste, numFat) == waste
      ensures fatLen + fatGrow < TWO32
      ensures Times(numFat, fatLen + fatGrow) == Times(numFat, fatLen) + Times(numFat, fatGrow)
    {
      var q := Div(waste + numFat - 1, numFat);
      RoundUpExact(waste, numFat);
      TimesMono(1, numFat, q);
      TimesCommutes(numFat, q);
      TimesMono(1, numFat, fatLen + fatGrow);
      TimesCommutes(numFat, fatLen + fatGrow);
      TimesCommutes(numFat, fatLen);
      TimesCommutes(numFat, fatGrow);
      TimesAdd(fatLen, fatGrow, numFat);
    }

    // Whether the number of clusters is below n, read off the sectors they take.
    lemma CountBelow(tot: nat, n: nat)
      requires Valid() && Filled(tot)
      ensures numClus < n <==> tot - clusStart < Times(n, clusterSize)
    {
      if numClus < n {
        TimesMono(numClus + 1, n, clusterSize);
      } else {
        TimesMono(n, numClus, clusterSize);
      }
    }

    // The table found for the sectors left has an entry for every cluster.
    lemma ComputedTableHolds(tot: nat)
      requires Valid() && tot < TWO32 && tot > clusStart == DataStart() && Filled(tot)
      requires Remaining(tot) >= 0 && Shape().Exact(fatLen, Remaining(tot))
      ensures Shape().Holds(numClus, fatLen)
    {
      Shape().OddSectorIsSpare(tot - fatStart - dirLen, numClus, fatLen);
      Shape().ExactHolds(fatLen, Remaining(tot), numClus);
    }

    // clusters_fit_into_fat: the last entry of the table lies inside it.
    method ClustersFitIntoFat() returns (fit: bool)
      requires Valid() && numClus < FAT32
      ensures fit <==> Shape().Holds(numClus, fatLen)
    {
      var used := Times(numClus + 2, fatBits / 4);
      TimesMono(1, numClus + 2, fatBits / 4);
      DivTimes(used - 1, sectorSize * 2);
      DivBound(used - 1, fatLen, sectorSize * 2);
      fit := Div(used - 1, sectorSize * 2) < fatLen;
      if fit {
        TimesMono(Div(used - 1, sectorSize * 2) + 1, fatLen, sectorSize * 2);
      }
    }

    // One round of an attempt: count the clusters and compare with the limits.
    method Round(tot: nat, mayLen: bool) returns (fit: Fit)
      requires Valid() && tot < TWO32
      modifies this`clusStart, this`numClus
      ensures Valid() && clusStart == U32(DataStart()) && fit != Abort
      ensures fit == NoRoom <==> tot <= clusStart
      ensures fit != NoRoom ==> Filled(tot)
      ensures fit != NoRoom ==> (fit == TooFew <==> numClus < MinClusters(fatBits))
      ensures fit == TooManyForLength ==> !mayLen && (numClus >= FAT32 || !Shape().Holds(numClus, fatLen))
      ensures fit == TooMany ==> numClus >= MaxClusters(fatBits)
      ensures fit == Good ==> MinClusters(fatBits) <= numClus < MaxClusters(fatBits) && (mayLen || Shape().Holds(numClus, fatLen))
    {
      var ok := CalcNumClus(tot);
      if !ok {
        return NoRoom;
      }
      if numClus < MinClusters(fatBits) {
        return TooFew;
      }
      if !mayLen {
        if numClus >= FAT32 {
          return TooManyForLength;
        }
        var holds := ClustersFitIntoFat();
        if !holds {
          return TooManyForLength;
        }
      }
      fit := if numClus < MaxClusters(fatBits) then Good else TooMany;
    }

    // With the exact length there are too few clusters.
    ghost predicate Thin(tot: nat)
      reads this
    {
      && Remaining(tot) >= 0 && Shape().Exact(fatLen, Remaining(tot))
      && clusStart == DataStart() && Filled(tot) && numClus < MinClusters(fatBits)
    }

    // The table has the length computed for the sectors left, and the clusters begin behind it.
    ghost predicate Computed(tot: nat)
      reads this
    {
      Remaining(tot) >= 0 && Shape().Exact(fatLen, Remaining(tot)) && clusStart == DataStart()
    }

    // What the result of an attempt says about the fields.
    ghost predicate Justified(fit: Fit, tot: nat, mayLen: bool)
      reads this
    {
      match fit
      case NoRoom => tot < fatStart + dirLen || tot <= U32(DataStart())
      case TooFew => Counted(tot) && numClus < MinClusters(fatBits)
      case Good => Counted(tot) && MinClusters(fatBits) <= numClus < MaxClusters(fatBits) && Shape().Holds(numClus, fatLen)
      case TooMany => (Counted(tot) && numClus >= MaxClusters(fatBits)) || (fatBits == 12 && Remaining(tot) > 256 * FAT12)
      case TooManyForLength => !mayLen && Counted(tot) && (numClus >= FAT32 || !Shape().Holds(numClus, fatLen))
      case Abort => fatBits != 32 && Filled(tot) && numClus >= MaxClusters(fatBits) && clusStart < tot && Excess(tot) > 0xffff
    }

    // Before any padding, with a table length still to be computed. Not counted means that it
    // could not be.
    method ComputedRound(tot: nat) returns (fit: Fit, counted: bool)
      requires Valid() && tot < TWO32
      modifies this`fatLen, this`clusStart, this`numClus
      ensures Valid() && fit != Abort && Justified(fit, tot, true)
      ensures !counted ==> (fit == NoRoom && tot < fatStart + dirLen) || (fit == TooMany && fatBits == 12 && Remaining(tot) > 256 * FAT12)
      ensures counted <==> tot >= fatStart + dirLen && !(fatBits == 12 && Remaining(tot) > 256 * FAT12)
      ensures counted ==> Computed(tot) && (fit == NoRoom <==> tot <= clusStart)
      ensures fit != NoRoom && counted ==> Counted(tot) && Shape().Holds(numClus, fatLen)
      ensures fit == TooMany && counted ==> numClus >= MaxClusters(fatBits)
    {
      fit := CalcFatLen(tot);
      counted := fit == Good;
      if counted {
        Shape().ExactIsBounded(fatLen, Remaining(tot));
        fit := Round(tot, true);
        if fit != NoRoom {
          ComputedTableHolds(tot);
        }
      }
    }

    // Behind a table of the exact length there are too many clusters.
    ghost predicate Overfull(tot: nat)
      reads this`clusterSize, this`fatBits, this`fatStart, this`dirLen
    {
      tot >= fatStart + dirLen && Shape().LeavesAtLeast(tot - fatStart - dirLen, MaxClusters(fatBits))
    }

    lemma TooManyCounted(tot: nat)
      requires Valid() && tot < TWO32 && Computed(tot) && Filled(tot) && numClus >= MaxClusters(fatBits)
      ensures Overfull(tot)
    {
      var g, avail := Shape(), tot - fatStart - dirLen;
      CountBelow(tot, MaxClusters(fatBits));
      forall f: nat {:trigger g.Exact(f, g.Evened(avail))} | g.Exact(f, g.Evened(avail))
        ensures Times(MaxClusters(fatBits), clusterSize) <= avail - Times(numFat, f)
      {
        g.ExactUnique(f, fatLen, g.Evened(avail));
      }
    }

    lemma TooManySectors(tot: nat)
      requires Valid() && tot < TWO32 && fatBits == 12 && clusterSize <= 128 && Remaining(tot) > 256 * FAT12
      ensures Overfull(tot)
    {
      var g, avail := Shape(), tot - fatStart - dirLen;
      TimesIsProduct(clusterSize, FAT12);
      TimesIsProduct(3, 4342);
      forall f: nat {:trigger g.Exact(f, g.Evened(avail))} | g.Exact(f, g.Evened(avail))
        ensures Times(FAT12, clusterSize) <= avail - Times(numFat, f)
      {
        g.ExactLeavesRoom(f, g.Evened(avail), FAT12);
        TimesCommutes(clusterSize, FAT12);
      }
    }

    lemma TooManyIsCrowded(tot: nat, counted: bool)
      requires Valid() && tot < TWO32
      requires if counted then Computed(tot) && Filled(tot) && numClus >= MaxClusters(fatBits) else fatBits == 12 && Remaining(tot) > 256 * FAT12
      ensures Crowded(Shape(), tot, Trail(true, fatLen, Remaining(tot)), fatStart, dirLen) == true
      ensures clusterSize <= 128 ==> Overfull(tot) == true
    {
      if counted {
        CountBelow(tot, MaxClusters(fatBits));
      }
      if counted {
        TooManyCounted(tot);
      } else if clusterSize <= 128 {
        TooManySectors(tot);
      }
    }

    method FirstRound(tot: nat, mayLen: bool) returns (fit: Fit, counted: bool)
      requires Valid() && tot < TWO32
      modifies this`fatLen, this`clusStart, this`numClus
      ensures Valid() && fit != Abort && (!mayLen ==> fatLen == old(fatLen))
      ensures Justified(fit, tot, mayLen) && (counted || (mayLen && fit in {NoRoom, TooMany}))
      ensures fit != NoRoom && counted ==> Counted(tot)
      ensures counted && mayLen ==> Computed(tot) && (fit == NoRoom <==> tot <= clusStart)
      ensures !counted && fit == NoRoom ==> tot < fatStart + dirLen
      ensures fit != NoRoom && counted && mayLen ==> Shape().Holds(numClus, fatLen)
      ensures fit == TooMany && mayLen ==> Crowded(Shape(), tot, Trail(true, fatLen, Remaining(tot)), fatStart, dirLen)
      ensures fit == TooMany && counted ==> numClus >= MaxClusters(fatBits)
      ensures fit == TooMany && mayLen && clusterSize <= 128 ==> Overfull(tot) == true
    {
      if mayLen {
        fit, counted := ComputedRound(tot);
        if fit == TooMany {
          TooManyIsCrowded(tot, counted);
        }
      } else {
        fit := Round(tot, false);
        counted := true;
      }
    }

    // With padding: the same count again.
    method PaddedRound(tot: nat, mayBoot: bool, mayLen: bool, mayRoot: bool, ghost trail: Trail) returns (fit: Fit)
      requires Valid() && tot < TWO32 && (mayRoot ==> dirLen <= 32) && fatBits != 32 && (mayBoot ==> fatStart == 1)
      requires Filled(tot) && numClus >= MaxClusters(fatBits) && clusStart < tot
      requires mayLen ==> clusStart == DataStart() && Shape().Holds(numClus, fatLen)
      requires trail.rem == Remaining(tot) && trail.f == fatLen && (mayLen ==> trail.rem >= 0 && Shape().Exact(trail.f, trail.rem))
      modifies this`fatStart, this`fatLen, this`dirLen, this`clusStart, this`numClus
      ensures Valid() && (mayRoot ==> dirLen <= 32) && (!mayBoot ==> fatStart == old(fatStart)) && dirLen >= old(dirLen)
      ensures !mayLen ==> fatLen == old(fatLen)
      ensures mayLen ==> fit != TooFew && fit != NoRoom
      ensures fit == Abort ==> old(Excess(tot)) > 0xffff
      ensures fit == TooMany && mayLen ==> Crowded(Shape(), tot, trail, old(fatStart), dirLen)
      ensures Justified(fit, tot, mayLen)
      ensures mayLen && (fit == Good || fit == TooMany) ==> (fit == Good <==> old(PaddingReaches(
        Excess(tot), fatStart, dirLen, numFat, fatBits, mayBoot, mayLen, mayRoot)))
    {
      ExcessIsCounted(tot);
      var bwaste := U32(tot - clusStart - Times(MaxClusters(fatBits), clusterSize) + 1);
      if bwaste > 0xffff {
        return Abort;
      }
      ghost var count, start, start0, dir0 := numClus, clusStart, fatStart, dirLen;
      Pad(bwaste, mayBoot, mayLen, mayRoot);
      fit := Recount(tot, mayLen, start, bwaste, count, trail, start0, dir0);
    }

    // The second round, after waste sectors were to be used up behind sector start.
    method Recount(tot: nat, mayLen: bool, ghost start: nat, ghost waste: nat, ghost count: nat, ghost trail: Trail, ghost start0: nat, ghost dir0: nat)
      returns (fit: Fit)
      requires Valid() && tot < TWO32 && fatBits != 32 && start < tot
      requires mayLen ==> waste == tot - start - Times(MaxClusters(fatBits), clusterSize) + 1 && DataStart() < start + waste + 255 < tot
      requires mayLen ==> MaxClusters(fatBits) <= count && trail.f <= fatLen && Shape().Holds(count, trail.f)
      requires start0 - 1 <= fatStart && dir0 <= dirLen
      requires mayLen ==> trail.rem >= 0 && trail.rem == Shape().Evened(tot - start0 - dir0) && Shape().Exact(trail.f, trail.rem)
      modifies this`clusStart, this`numClus
      ensures Valid() && fit != Abort
      ensures mayLen ==> fit != TooFew && fit != NoRoom
      ensures fit == TooMany && mayLen ==> Crowded(Shape(), tot, trail, start0, dirLen)
      ensures Justified(fit, tot, mayLen)
      ensures mayLen && (fit == Good || fit == TooMany) ==> (fit == Good <==> DataStart() >= start + waste)
    {
      fit := Round(tot, mayLen);
      if mayLen && fit != NoRoom {
        AfterPadding(tot, start, waste, count, trail.f);
        if fit == TooMany {
          StillCrowded(tot, trail, start0, dir0);
        }
      }
    }

    // Sectors to be used up before the number of clusters is below the limit.
    function Excess(tot: nat): nat
      reads this
    {
      var excess := tot - clusStart - Times(MaxClusters(fatBits), clusterSize) + 1;
      if excess < 0 then 0 else excess
    }

    lemma ExcessIsCounted(tot: nat)
      requires Valid() && Filled(tot) && numClus >= MaxClusters(fatBits) && clusStart < tot < TWO32
      ensures 0 < Excess(tot) == tot - clusStart - Times(MaxClusters(fatBits), clusterSize) + 1
      ensures clusStart + Excess(tot) + 255 < tot
    {
      CountBelow(tot, MaxClusters(fatBits));
      MinIsFarBelowMax();
    }

    lemma StillCrowded(tot: nat, trail: Trail, start: nat, dir: nat)
      requires Valid() && trail.rem == Shape().Evened(tot - start - dir) && trail.rem >= 0 && Shape().Exact(trail.f, trail.rem)
      requires trail.f <= fatLen && start - 1 <= fatStart && dir <= dirLen
      requires Times(MaxClusters(fatBits), clusterSize) <= tot - DataStart()
      ensures Crowded(Shape(), tot, trail, start, dirLen)
    {
      TimesMore(numFat, trail.f, fatLen);
    }

    lemma MinIsFarBelowMax()
      requires Valid()
      ensures Times(MaxClusters(fatBits), clusterSize) >= Times(MinClusters(fatBits), clusterSize) + 1024
    {
      var gap := MaxClusters(fatBits) - MinClusters(fatBits);
      TimesAdd(MinClusters(fatBits), gap, clusterSize);
      TimesCommutes(gap, clusterSize);
      TimesMono(1, clusterSize, gap);
    }

    lemma AfterPadding(tot: nat, start: nat, waste: nat, count: nat, f: nat)
      requires Valid() && tot < TWO32 && fatBits != 32 && tot > clusStart && Filled(tot)
      requires waste == tot - start - Times(MaxClusters(fatBits), clusterSize) + 1
      requires DataStart() < start + waste + 255 && clusStart == U32(DataStart())
      requires MaxClusters(fatBits) <= count && f <= fatLen && Shape().Holds(count, f)
      ensures clusStart == DataStart()
      ensures numClus >= MinClusters(fatBits)
      ensures numClus >= MaxClusters(fatBits) ==> Times(MaxClusters(fatBits), clusterSize) <= tot - DataStart()
      ensures numClus < MaxClusters(fatBits) <==> DataStart() >= start + waste
      ensures numClus < MaxClusters(fatBits) ==> Shape().Holds(numClus, fatLen)
    {
      MinIsFarBelowMax();
      CountBelow(tot, MinClusters(fatBits));
      CountBelow(tot, MaxClusters(fatBits));
      if numClus < MaxClusters(fatBits) {
        TimesMono(numClus + 2, count + 2, fatBits / 4);
        TimesMono(f, fatLen, 2 * sectorSize);
      }
    }

    // What an attempt with a computed length and without padding has found.
    ghost predicate Tried(fit: Fit, tot: nat, crowd: Trail)
      reads this
    {
      && fit != Abort && Justified(fit, tot, true) && (fit == Good ==> Computed(tot))
      && (fit == NoRoom ==> tot < fatStart + dirLen || (Computed(tot) && tot <= clusStart))
      && (fit == TooFew ==> Thin(tot)) && (fit == TooMany ==> Crowded(Shape(), tot, crowd, fatStart, dirLen))
      && (fit == TooMany && clusterSize <= 128 ==> Overfull(tot))
    }

    // One attempt with the present FAT width and cluster size. The loop of the source runs
    // once, or twice if padding is called for. The ghost result is the computed length.
    method TryClusterSize(tot: nat, mayBoot: bool, mayLen: bool, mayRoot: bool, mayPad: bool) returns (fit: Fit, ghost f: nat)
      requires Valid() && tot < TWO32 && (mayRoot ==> dirLen <= 32)
      requires mayPad ==> fatBits != 32 && (mayBoot ==> fatStart == 1)
      modifies this`fatStart, this`fatLen, this`dirLen, this`clusStart, this`numClus
      ensures Valid() && (mayRoot ==> dirLen <= 32) && (!mayBoot ==> fatStart == old(fatStart))
      ensures dirLen >= old(dirLen) && (!mayPad ==> dirLen == old(dirLen) && fatStart == old(fatStart))
      ensures !mayLen ==> fatLen == old(fatLen)
      ensures fit == TooMany && mayLen ==> Crowded(Shape(), tot, Trail(true, f, old(Remaining(tot))), old(fatStart), dirLen)
      ensures fit == TooFew && mayLen ==> fatStart == old(fatStart) && dirLen == old(dirLen) && Thin(tot)
      ensures Justified(fit, tot, mayLen)
      ensures mayLen && !mayPad ==> Tried(fit, tot, Trail(true, f, old(Remaining(tot))))
    {
      var counted;
      fit, counted := FirstRound(tot, mayLen);
      f := fatLen;
      if fit == TooMany && counted && mayPad {
        fit := PaddedRound(tot, mayBoot, mayLen, mayRoot, Trail(true, f, Remaining(tot)));
      }
    }

    lemma TimesMore(n: nat, f: nat, g: nat)
      ensures f <= g ==> Times(n, f) <= Times(n, g)
    {
      TimesCommutes(n, f);
      TimesCommutes(n, g);
      if f <= g {
        TimesMono(f, g, n);
      }
    }

    // The attempt with half the present cluster size, and at least as many sectors to share
    // out, found too many clusters.
    ghost predicate CrowdedAtHalf(tot: nat, trail: Trail, start: nat, dir: nat)
      reads this`clusterSize, this`fatBits
    {
      clusterSize % 2 == 0 && Crowded(Shape().(clusterSize := clusterSize / 2), tot, trail, start, dir)
    }

    // For a fixed FAT width: where a cluster size gives too many clusters, its double does not
    // give too few.
    lemma NeverBothWays(tot: nat, trail: Trail)
      requires Valid() && tot < TWO32
      requires CrowdedAtHalf(tot, trail, fatStart, dirLen)
      ensures !Thin(tot)
    {
      if Thin(tot) {
        CountBelow(tot, MinClusters(fatBits));
        if fatBits == 12 && tot - fatStart - dirLen > 256 * FAT12 {
          TimesCommutes(1, clusterSize);
          TimesIsProduct(3, 258);
          Shape().ExactLeavesRoom(fatLen, Remaining(tot), 1);
        } else {
          var half := clusterSize / 2;
          Shape().(clusterSize := half).ExactShrinks(trail.f, trail.rem, fatLen, Remaining(tot));
          TimesMore(numFat, fatLen, trail.f);
          HalfOfMax(half);
        }
      }
    }

    // The limits of one FAT width are more than a factor of two apart.
    lemma HalfOfMax(c: nat)
      requires Valid() && c > 0
      ensures Times(MaxClusters(fatBits), c) > Times(MinClusters(fatBits), 2 * c)
    {
      var m := MinClusters(fatBits);
      TimesIsProduct(m, 2 * c);
      TimesIsProduct(2 * m, c);
      assert (2 * m) * c == m * (2 * c);
      TimesMono(2 * m + 1, MaxClusters(fatBits), c);
      TimesAdd(2 * m, 1, c);
    }

    // The cluster sizes prescribed for large 32-bit file systems always fit.
    lemma PrescribedSizeFits(tot: nat)
      requires Valid() && fatBits == 32 && dirLen == 0 && tot < TWO32
      requires clusterSize == Prescribed(tot, 0) && clusterSize > 0
      ensures !Thin(tot)
      ensures forall trail :: !Crowded(Shape(), tot, trail, fatStart, 0)
    {
      if Thin(tot) {
        CountBelow(tot, FAT16);
        TimesCommutes(FAT16, clusterSize);
        TimesIsProduct(clusterSize, FAT16);
        TimesIsProduct(8, FAT16 + 257);
        Shape().ExactLeavesRoom(fatLen, Remaining(tot), FAT16);
      }
      TimesIsProduct(FAT32, clusterSize);
    }

    function BaseStart(mayBoot: bool): nat
      reads this`fatBits, this`fatStart
    {
      if !mayBoot then fatStart else if fatBits == 32 then 32 else 1
    }

    function BaseDir(saved: nat): nat
      reads this`fatBits, this`dirLen
    {
      if fatBits == 32 then 0 else if dirLen == 0 then saved else dirLen
    }

    // The beginning of a round of the search: reserved sectors, directory length and, for large
    // disks, the cluster size are set anew.
    method Prepare(tot: nat, may: May, saved: nat)
      requires Valid() && saved < 0x1_0000
      modifies this`fatStart, this`dirLen, this`clusterSize
      ensures Valid() && fatStart == old(BaseStart(may.boot)) && dirLen == old(BaseDir(saved))
      ensures clusterSize == if fatBits == 32 && may.cluster && may.len then Prescribed(tot, old(clusterSize)) else old(clusterSize)
    {
      if may.boot {
        fatStart := if fatBits == 32 then 32 else 1;
      }
      if fatBits == 32 {
        dirLen := 0;
      } else if dirLen == 0 {
        dirLen := saved;
      }
      if fatBits == 32 && may.cluster && may.len {
        clusterSize := Prescribed(tot, clusterSize);
      }
    }

    // When the search gives up there is no width and no cluster size left to try.
    predicate GivesUp(code: Outcome, fit: Fit, may: May)
      reads this`fatBits, this`clusterSize
    {
      match code
      case TooFewClusters => fit == TooFew && (may.cluster && may.len ==> clusterSize == 1) && (may.bits ==> fatBits == 12)
      case TooManyClusters => fit == TooMany && (may.cluster ==> clusterSize == 128)
      case TooManyClustersForLength => fit == TooManyForLength && (may.cluster ==> clusterSize == 128) && !(may.bits && may.root && fatBits == 16)
      case TooFewSectors => false
      case Aborted => false
      case Ok => false
    }

    // How the search reacts to a failed attempt: with another width or cluster size, or not at all.
    method React(fit: Fit, may: May, fat32: bool, pad: bool) returns (next: Next)
      requires Valid() && fit in {TooFew, TooMany, TooManyForLength} && (pad ==> fatBits != 32)
      requires (may.cluster ==> PowerOfTwo(clusterSize)) && (fat32 ==> fatBits == 32 && !may.bits)
      ensures next.Break? ==> fit == TooFew && fatBits == 32
      ensures next.Return? ==> GivesUp(next.code, fit, may)
      ensures next.Return? && fit == TooMany && may.bits ==> pad || fatBits == 32
      ensures next.Continue? ==> next.bits in {12, 16, 32} && 1 <= next.size <= 255 && (next.pad ==> next.bits != 32)
      ensures next.Continue? ==> if may.cluster then PowerOfTwo(next.size) else next.size == clusterSize
      ensures next.Continue? && pad ==> next.pad && next.bits <= fatBits
      ensures next.Continue? && next.pad && !pad ==> fit == TooManyForLength || (fit == TooFew && fatBits != 12 && (may.cluster && may.len ==> clusterSize == 1))
      ensures next.Continue? && next.bits > fatBits ==> fit == TooMany && may.bits && !pad && next.bits == if fatBits == 12 then 16 else 32
      ensures fit == TooMany && may.bits && !pad && fatBits == 12 ==> (next.Continue? && next.bits == 16 <==> !may.cluster || clusterSize >= 8)
      ensures fit == TooMany && may.bits && !pad && fatBits == 16 ==> (next.Continue? && next.bits == 32 <==> !may.cluster || clusterSize >= 64)
      ensures next.Continue? && next.bits > fatBits && may.cluster ==> next.size == if next.bits == 32 && may.len then 8 else 1
      ensures next.Continue? && next.bits == fatBits && fit != TooFew ==> next.size == 2 * clusterSize
      ensures next.Continue? && next.bits == fatBits && fit == TooFew ==> next.size == clusterSize / 2
      ensures next.Continue? && !may.bits ==> next.bits == fatBits && next.pad == pad
      ensures next.Continue? ==> Progress(fit, pad, fatBits, clusterSize, may.len, next.pad, next.bits, next.size)
    {
      if fit == TooFew {
        if may.cluster && may.len && clusterSize > 1 {
          return Continue(pad, fatBits, clusterSize / 2);
        }
        if fat32 {
          return Break;
        }
        if !may.bits && fatBits == 32 {
          return Break;
        }
        if !may.bits || fatBits == 12 {
          return Return(TooFewClusters);
        }
        return Continue(true, if fatBits == 16 then 12 else 16, clusterSize);
      }
      if fit == TooMany && may.bits && !pad {
        if fatBits == 12 && (!may.cluster || clusterSize >= 8) {
          return Continue(pad, 16, if may.cluster then 1 else clusterSize);
        }
        if fatBits == 16 && (!may.cluster || clusterSize >= 64) {
          return Continue(pad, 32, if !may.cluster then clusterSize else if may.len then 8 else 1);
        }
      }
      if may.cluster && clusterSize < 128 {
        return Continue(pad, fatBits, 2 * clusterSize);
      }
      if fit == TooManyForLength && may.bits && may.root && fatBits == 16 {
        return Continue(true, 12, clusterSize);
      }
      next := Return(if fit == TooManyForLength then TooManyClustersForLength else TooManyClusters);
    }

    // A parameter set that is in itself consistent: table, directory and clusters fill the disk,
    // every cluster has its entry, and the number of clusters suits the FAT width. The lower
    // limit does not bind where the user insists on 32 bits.
    ghost predicate Consistent(tot: nat)
      reads this
    {
      && Valid() && clusStart == U32(DataStart()) && clusStart < tot && Filled(tot)
      && Shape().Holds(numClus, fatLen)
      && (fatBits == 32 <==> dirLen == 0)
      && numClus < MaxClusters(fatBits)
      && (fatBits == 32 || numClus >= MinClusters(fatBits))
    }

    // The upper bound of the second assertion does not fit into 32 bits.
    predicate EndWraps()
      reads this`clusStart, this`numClus, this`clusterSize
    {
      clusStart + Times(numClus, clusterSize) + clusterSize - 1 >= TWO32
    }

    // What the assertions let pass.
    ghost predicate Accepted(tot: nat)
      reads this
    {
      Consistent(tot) && !EndWraps()
    }

    // The final assertions, and set_fat, which derives the width from the number of clusters.
    method CheckFsParamsAndSetFat(tot: nat) returns (ok: bool)
      requires Valid() && clusStart < tot < TWO32 && Filled(tot) && numClus < FAT32 && clusStart == U32(DataStart())
      requires fatBits == 32 || MinClusters(fatBits) <= numClus < MaxClusters(fatBits)
      modifies this`fatBits
      ensures fatBits == old(fatBits)
      ensures ok ==> Consistent(tot)
      ensures ok <==> Shape().Holds(numClus, fatLen) && (fatBits == 32 <==> dirLen == 0) && !EndWraps()
    {
      if (fatBits == 32 && dirLen != 0) || (fatBits != 32 && dirLen == 0) {
        return false;
      }
      var end := clusStart + Times(numClus, clusterSize);
      if tot < U32(end) || tot > U32(end + clusterSize - 1) {
        return false;
      }
      ok := ClustersFitIntoFat();
      if !ok {
        return;
      }
      var provisional := fatBits;
      fatBits := FatWidth(numClus, provisional == 32);
      ok := provisional == fatBits;
    }

    method Fat32SpecificInit() returns (ok: bool)
      requires fatStart < 0x1_0000
      modifies this`backupBoot
      ensures ok <==> fatStart >= 3
      ensures ok ==> backupBoot < fatStart
    {
      if backupBoot == 0 {
        backupBoot := if fatStart <= 6 then U16(fatStart - 1) else 6;
      }
      if fatStart < 3 {
        return false;
      }
      if fatStart <= backupBoot {
        backupBoot := 0;
      }
      ok := true;
    }

    // Values the search starts from where the user gave none.
    method Defaults(devFatBits: nat, tot: nat, heads: nat, may: May)
      requires devFatBits in {0, 12, 16, 32}
      requires clusterSize <= 255 && dirLen < 0x1_0000
      modifies this`fatBits, this`clusterSize, this`dirLen
      ensures fatBits == if devFatBits == 0 then 12 else devFatBits
      ensures clusterSize == if old(clusterSize) != 0 then old(clusterSize) else if tot < 2400 && heads == 2 then 2 else if may.len && fatBits == 32 then 8 else 1
      ensures old(dirLen) != 0 ==> dirLen == old(dirLen)
      ensures old(dirLen) == 0 ==> dirLen == if tot <= 1199 then (if heads == 1 then 4 else 7) else if tot <= 3840 then 14 else if tot <= 7680 then 15 else 32
    {
      fatBits := if devFatBits == 0 then 12 else devFatBits;
      if clusterSize == 0 {
        clusterSize := if tot < 2400 && heads == 2 then 2 else if may.len && fatBits == 32 then 8 else 1;
      }
      if dirLen == 0 {
        dirLen := if tot < 1200 then (if heads == 1 then 4 else 7) else if tot <= 3840 then 14 else if tot <= 7680 then 15 else 32;
      }
    }

    // Where nothing is fixed, nothing is padded, and wider entries have been chosen for large
    // disks only.
    ghost predicate Upwards(tot: nat, may: May, fat32: bool, pad: bool, saved: nat, trail: Trail)
      reads this`fatBits, this`clusterSize, this`dirLen
    {
      AllOpen(may, fat32) ==>
        && !pad && dirLen == saved && WideEnough(tot) && PassedOver(tot, saved, fatBits, clusterSize)
        && (fatBits != 32 ==> trail.up || clusterSize == 1 || (fatBits == 12 && clusterSize == 2)) && (fatBits == 32 ==> clusterSize == 8)
    }

    // With one reserved sector, and with this width and cluster size, there are too many clusters.
    ghost predicate TooManyAt(tot: nat, dir: nat, bits: nat, size: nat) {
      tot >= 1 + dir && Geometry(size, sectorSize, numFat, bits / 4).LeavesAtLeast(tot - 1 - dir, MaxClusters(bits))
    }

    // Smaller cluster sizes and narrower entries have been found not to do. Only on small disks
    // the search begins with clusters of two sectors.
    ghost predicate PassedOver(tot: nat, dir: nat, bits: nat, size: nat) {
      && (bits == 12 ==> size <= 8 && (size <= 1 || (size == 2 && tot < 2400) || TooManyAt(tot, dir, 12, size / 2)))
      && (bits == 16 ==> size <= 64 && TooManyAt(tot, dir, 12, 8) && (size <= 1 || TooManyAt(tot, dir, 16, size / 2)))
      && (bits == 32 ==> TooManyAt(tot, dir, 16, 64))
    }

    predicate WideEnough(tot: nat)
      reads this`fatBits
    {
      (fatBits == 16 ==> tot >= 8 * FAT12) && (fatBits == 32 ==> tot >= 64 * FAT16)
    }

    // What holds whenever the search begins a round.
    ghost predicate Searching(tot: nat, may: May, fat32: bool, pad: bool, saved: nat, trail: Trail)
      reads this
    {
      match may
      case May(boot, bits, cluster, root, len) =>
        && Valid() && 0 < saved < 0x1_0000 && (root ==> saved <= 32 && dirLen <= 32)
        && (cluster ==> PowerOfTwo(clusterSize))
        && (fat32 ==> fatBits == 32 && !bits) && (pad ==> fatBits != 32 && bits)
        && (trail.up && len ==> CrowdedAtHalf(tot, trail, BaseStart(boot), BaseDir(saved)))
        && Upwards(tot, may, fat32, pad, saved, trail)
    }

    // With a computed length and enough sectors there is room for m clusters.
    lemma RoomForClusters(tot: nat, m: nat)
      requires Valid() && tot < TWO32 && Computed(tot)
      requires tot - fatStart - dirLen > Times(clusterSize, m) + Times(fatBits / 4, m + 257) + 255
      ensures tot - clusStart >= Times(m, clusterSize)
    {
      Shape().ExactLeavesRoom(fatLen, Remaining(tot), m);
      TimesCommutes(clusterSize, m);
    }

    // What an attempt can lead to if nothing is fixed: too few clusters are found only with
    // 12-bit entries and more than one sector in a cluster, no room only with 12-bit entries on
    // a small disk, and 32-bit entries always do.
    ghost predicate Expected(fit: Fit, tot: nat)
      reads this`fatBits, this`clusterSize
    {
      && fit in {NoRoom, TooFew, Good, TooMany}
      && (fit == NoRoom ==> fatBits == 12 && tot < SMALL_DISK)
      && (fit == TooFew ==> fatBits == 12 && clusterSize > 1)
      && (fatBits == 32 ==> fit == Good)
    }

    lemma NothingFixed(fit: Fit, tot: nat, crowd: Trail)
      requires Valid() && 0 < tot < TWO32 && WideEnough(tot) && fatStart == (if fatBits == 32 then 32 else 1) && dirLen <= 32 && clusterSize <= 128
      requires fatBits == 32 ==> dirLen == 0 && clusterSize == Prescribed(tot, 8)
      requires fatBits == 16 && fit == TooFew ==> clusterSize == 1
      requires Tried(fit, tot, crowd) == true
      ensures Expected(fit, tot)
    {
      match fit
      case NoRoom => NoRoomOnSmallDisk(tot);
      case TooFew => TooFewOnSmallDisk(tot);
      case TooMany => WideTableIsEnough(tot, crowd);
      case _ =>
    }

    lemma NoRoomOnSmallDisk(tot: nat)
      requires Valid() && tot < TWO32 && WideEnough(tot) && fatStart <= 32 && dirLen <= 32 && clusterSize <= 128
      requires tot < fatStart + dirLen || (Computed(tot) && tot <= clusStart)
      ensures fatBits == 12 && tot < SMALL_DISK
    {
      if tot >= SMALL_DISK {
        TimesIsProduct(clusterSize, 1);
        TimesIsProduct(fatBits / 4, 258);
        RoomForClusters(tot, 1);
        TimesIsProduct(1, clusterSize);
        assert false;
      }
    }

    lemma TooFewOnSmallDisk(tot: nat)
      requires Valid() && tot < TWO32 && WideEnough(tot) && fatStart <= 32 && dirLen <= 32 && Thin(tot) && clusStart < tot
      requires fatBits == 32 ==> dirLen == 0 && clusterSize == Prescribed(tot, 8)
      requires fatBits == 16 ==> clusterSize == 1
      ensures fatBits == 12 && clusterSize > 1
    {
      var m := MinClusters(fatBits);
      TimesIsProduct(m, clusterSize);
      CountBelow(tot, m);
      if fatBits == 32 && Prescribed(tot, 0) != 0 {
        PrescribedSizeFits(tot);
      } else if fatBits != 12 {
        TimesIsProduct(clusterSize, m);
        TimesIsProduct(fatBits / 4, m + 257);
        RoomForClusters(tot, m);
      }
    }

    lemma WideTableIsEnough(tot: nat, crowd: Trail)
      requires Valid() && tot < TWO32 && (fatBits == 32 ==> dirLen == 0 && clusterSize == Prescribed(tot, 8))
      requires Crowded(Shape(), tot, crowd, fatStart, dirLen) && (fatBits == 32 ==> fatStart == 32)
      ensures fatBits != 32
    {
      if fatBits == 32 && Prescribed(tot, 0) != 0 {
        PrescribedSizeFits(tot);
        assert false;
      } else if fatBits == 32 {
        TimesIsProduct(FAT32, 8);
      }
    }

    // With a computed table length: a large disk is never refused its prescribed cluster size, and
    // a cluster size reached by doubling never gives too few clusters.
    lemma NoBacktracking(tot: nat, may: May, fit: Fit, crowd: Trail, trail: Trail, start: nat)
      requires Valid() && 0 < tot < TWO32 && may.len && fit in {TooFew, TooMany}
      requires fit == TooFew ==> Thin(tot) && fatStart == start
      requires fit == TooMany ==> Crowded(Shape(), tot, crowd, start, dirLen) && (fatBits == 32 ==> fatStart == start)
      requires fatBits == 32 ==> dirLen == 0
      requires fatBits == 32 && may.cluster ==> clusterSize == Prescribed(tot, clusterSize)
      requires trail.up && fit == TooFew ==>
        CrowdedAtHalf(tot, trail, start, dirLen) || (fatBits == 32 && may.cluster && Prescribed(tot, 0) != 0)
      ensures !(fatBits == 32 && may.cluster && Prescribed(tot, 0) != 0)
      ensures !(trail.up && fit == TooFew)
    {
      if fatBits == 32 && may.cluster && Prescribed(tot, 0) != 0 {
        PrescribedSizeFits(tot);
      } else if trail.up && fit == TooFew {
        NeverBothWays(tot, trail);
      }
    }

    // The first half of a round: an attempt with the present width and cluster size. When it
    // fails the cluster size has not been replaced, and is not one reached by doubling and
    // found too large.
    method Attempt(tot: nat, may: May, fat32: bool, pad: bool, saved: nat, ghost trail: Trail) returns (fit: Fit, ghost crowd: Trail)
      requires Searching(tot, may, fat32, pad, saved, trail) && 0 < tot < TWO32
      modifies this`fatStart, this`dirLen, this`clusterSize, this`fatLen, this`clusStart, this`numClus
      ensures Valid() && (may.root ==> dirLen <= 32) && (may.cluster ==> PowerOfTwo(clusterSize))
      ensures !may.cluster ==> clusterSize == old(clusterSize)
      ensures !may.len ==> fatLen == old(fatLen)
      ensures crowd.up
      ensures fit in {TooFew, TooMany, TooManyForLength} ==> clusterSize == old(clusterSize)
      ensures fit == TooFew && may.len ==> !trail.up
      ensures fit == TooMany && may.len ==> Crowded(Shape(), tot, crowd, BaseStart(may.boot), BaseDir(saved))
      ensures Justified(fit, tot, may.len) && (fatBits == 32 <==> dirLen == 0)
      ensures may.len && !pad ==> Tried(fit, tot, crowd) == true
      ensures !pad && may.boot ==> fatStart == if fatBits == 32 then 32 else 1
      ensures !pad ==> dirLen == old(BaseDir(saved))
      ensures fatBits != 32 ==> clusterSize == old(clusterSize)
      ensures fatBits == 32 && may.cluster && may.len ==> clusterSize == Prescribed(tot, old(clusterSize))
    {
      Prepare(tot, may, saved);
      ghost var f, start, rem := 0, fatStart, Remaining(tot);
      fit, f := TryClusterSize(tot, may.boot, may.len, may.root, pad);
      crowd := Trail(true, f, rem);
      if may.len && fit in {TooFew, TooMany} {
        NoBacktracking(tot, may, fit, crowd, trail, start);
      }
    }

    // Where nothing is fixed: what an attempt adds to what has been passed over.
    lemma OpenAttempt(fit: Fit, tot: nat, saved: nat, crowd: Trail, trail: Trail)
      requires Valid() && 0 < tot < TWO32 && 0 < saved && Tried(fit, tot, crowd) == true && Expected(fit, tot) == true && WideEnough(tot) && PowerOfTwo(clusterSize)
      requires fatStart == (if fatBits == 32 then 32 else 1) && dirLen == (if fatBits == 32 then 0 else saved)
      requires PassedOver(tot, saved, fatBits, clusterSize) == true && (fatBits == 32 ==> clusterSize == Prescribed(tot, 8))
      requires fatBits != 32 ==> trail.up || clusterSize == 1 || (fatBits == 12 && clusterSize == 2)
      ensures fit in {TooFew, TooMany} ==> Passing(fit, tot, false, saved, trail) == true
      ensures fit == Good ==> Sound(tot, saved) == true
    {
      if fit == TooMany {
        assert Overfull(tot);
        assert TooManyAt(tot, saved, fatBits, clusterSize);
      }
    }

    // An attempt where nothing is fixed has one of few results.
    method AttemptOpen(tot: nat, may: May, fat32: bool, pad: bool, saved: nat, ghost trail: Trail) returns (fit: Fit, ghost crowd: Trail)
      requires Searching(tot, may, fat32, pad, saved, trail) && 0 < tot < TWO32
      modifies this`fatStart, this`dirLen, this`clusterSize, this`fatLen, this`clusStart, this`numClus
      ensures !may.cluster ==> clusterSize == old(clusterSize)
      ensures !may.len ==> fatLen == old(fatLen)
      ensures fit in {TooFew, TooMany, TooManyForLength} || fatBits != 32 ==> clusterSize == old(clusterSize)
      ensures Valid() == true && Justified(fit, tot, may.len) == true && (fatBits == 32 <==> dirLen == 0)
      ensures fit in {TooFew, TooMany, TooManyForLength} ==> Failed(fit, tot, may, fat32, pad, saved, trail, crowd) == true
      ensures AllOpen(may, fat32) ==> Expected(fit, tot) == true && clusterSize <= 128 && fatStart == (if fatBits == 32 then 32 else 1)
      ensures AllOpen(may, fat32) && fit == Good ==> Sound(tot, saved) == true
    {
      fit, crowd := Attempt(tot, may, fat32, pad, saved, trail);
      if AllOpen(may, fat32) {
        NothingFixed(fit, tot, crowd);
        OpenAttempt(fit, tot, saved, crowd, trail);
      }
    }

    // What a search that succeeds has found.
    ghost predicate Found(tot: nat)
      reads this
    {
      && Valid() && Counted(tot) && numClus < MaxClusters(fatBits) && (fatBits == 32 <==> dirLen == 0)
      && (fatBits == 32 || (MinClusters(fatBits) <= numClus && Shape().Holds(numClus, fatLen)))
    }

    // The final assertions let it pass, but for the upper bound that may wrap around.
    // Its cluster size is the least that does, and so is its width.
    ghost predicate Sound(tot: nat, dir: nat)
      reads this
    {
      && Found(tot) && Shape().Holds(numClus, fatLen) && PowerOfTwo(clusterSize) && Computed(tot)
      && fatStart == (if fatBits == 32 then 32 else 1) && dirLen == (if fatBits == 32 then 0 else dir)
      && PassedOver(tot, dir, fatBits, clusterSize) && (fatBits == 32 ==> clusterSize == Prescribed(tot, 8))
    }

    // Counted clusters that the final assertions do not let pass.
    ghost predicate Rejected(tot: nat)
      reads this
    {
      Counted(tot) && (EndWraps() || (fatBits == 32 && (fatStart < 3 || !Shape().Holds(numClus, fatLen))))
    }

    // A refusal, and what it says about the last attempt.
    ghost predicate Refused(code: Outcome, tot: nat, may: May)
      reads this
    {
      match code
      case TooFewClusters => Justified(TooFew, tot, may.len) && GivesUp(code, TooFew, may)
      case TooManyClusters => Justified(TooMany, tot, may.len) && GivesUp(code, TooMany, may)
      case TooManyClustersForLength => Justified(TooManyForLength, tot, may.len) && GivesUp(code, TooManyForLength, may)
      case TooFewSectors => Justified(NoRoom, tot, may.len)
      case Aborted => Justified(Abort, tot, may.len) || Rejected(tot)
      case Ok => false
    }

    // Where nothing is fixed, wider entries are chosen after too many clusters were found with
    // the greatest cluster size for the width.
    ghost predicate StillUpwards(next: Next, fit: Fit, tot: nat, saved: nat)
      requires next.Continue?
      reads this`fatBits, this`clusterSize, this`dirLen
    {
      && !next.pad && dirLen == saved && PassedOver(tot, saved, next.bits, next.size)
      && (next.bits == 12 ==> fatBits == 12 && (fit == TooMany || next.size == 1))
      && (next.bits == 16 ==> tot >= 8 * FAT12 && ((fatBits == 12 && next.size == 1) || (fatBits == 16 && fit == TooMany)))
      && (next.bits == 32 ==> tot >= 64 * FAT16 && fatBits == 16 && next.size == 8)
      && (next.size > clusterSize ==> tot >= FAT12)
    }

    // The search goes on with the width and cluster size of the reaction to a failed attempt.
    ghost predicate Adoptable(next: Next, fit: Fit, tot: nat, may: May, fat32: bool, pad: bool, saved: nat, trail: Trail, crowd: Trail)
      reads this
    {
      match next
      case Continue(nextPad, bits, size) =>
        && bits in {12, 16, 32} && 1 <= size <= 255 && (nextPad ==> bits != 32 && may.bits)
        && Valid() && 0 < saved < 0x1_0000 && (may.root ==> saved <= 32 && dirLen <= 32)
        && (if may.cluster then PowerOfTwo(size) else size == clusterSize)
        && (!may.bits ==> bits == fatBits) && (fat32 ==> bits == 32 && !may.bits) && (pad ==> nextPad && bits <= fatBits)
        && crowd.up && (fit == TooFew && may.len ==> !trail.up)
        && (fit == TooMany && may.len ==> Crowded(Shape(), tot, crowd, BaseStart(may.boot), BaseDir(saved)))
        && fit in {TooFew, TooMany, TooManyForLength} && (fit == TooManyForLength ==> !may.len)
        && Progress(fit, pad, fatBits, clusterSize, may.len, nextPad, bits, size)
        && (AllOpen(may, fat32) ==> StillUpwards(next, fit, tot, saved))
      case Break => false
      case Return(code) => false
    }

    // The first half of a round: an attempt and the reaction to it. Either the search can go on,
    // or it stops with counted clusters, or it gives up. (A predicate compared with true is
    // proved as a whole and not part by part, which is cheaper here.)
    method Consider(tot: nat, may: May, fat32: bool, pad: bool, saved: nat, ghost trail: Trail) returns (next: Next, fit: Fit, ghost crowd: Trail)
      requires Searching(tot, may, fat32, pad, saved, trail) && 0 < tot < TWO32
      modifies this`fatStart, this`dirLen, this`clusterSize, this`fatLen, this`clusStart, this`numClus
      ensures !may.cluster ==> clusterSize == old(clusterSize)
      ensures !may.len ==> fatLen == old(fatLen)
      ensures next.Return? ==> next.code != Ok && Refused(next.code, tot, may) == true
      ensures next.Break? ==> Found(tot) == true
      ensures next.Continue? ==> clusterSize == old(clusterSize)
      ensures fatBits != 32 ==> clusterSize == old(clusterSize)
      ensures next.Continue? == Adoptable(next, fit, tot, may, fat32, pad, saved, trail, crowd)
      ensures AllOpen(may, fat32) && next.Return? ==> next.code == TooFewSectors && tot < SMALL_DISK
      ensures AllOpen(may, fat32) && next.Break? ==> Sound(tot, saved) == true
    {
      fit, crowd := AttemptOpen(tot, may, fat32, pad, saved, trail);
      if fit == Good {
        next := Break;
      } else if fit == NoRoom || fit == Abort {
        next := Return(if fit == NoRoom then TooFewSectors else Aborted);
      } else {
        next := ReactTo(fit, tot, may, fat32, pad, saved, trail, crowd);
      }
    }

    // Where nothing is fixed, besides: too many clusters add to what has been passed over.
    ghost predicate Passing(fit: Fit, tot: nat, pad: bool, saved: nat, trail: Trail)
      reads this
    {
      && !pad && dirLen == saved && WideEnough(tot) && Expected(fit, tot) && PassedOver(tot, saved, fatBits, clusterSize)
      && (fit == TooMany ==> TooManyAt(tot, saved, fatBits, clusterSize))
      && (trail.up || clusterSize == 1 || (fatBits == 12 && clusterSize == 2))
    }

    // What is known after a failed attempt.
    ghost predicate Failed(fit: Fit, tot: nat, may: May, fat32: bool, pad: bool, saved: nat, trail: Trail, crowd: Trail)
      reads this
    {
      && fit in {TooFew, TooMany, TooManyForLength} && Justified(fit, tot, may.len) && (fatBits == 32 <==> dirLen == 0)
      && Valid() && 0 < saved < 0x1_0000 && (may.root ==> saved <= 32 && dirLen <= 32) && (may.cluster ==> PowerOfTwo(clusterSize))
      && (fat32 ==> fatBits == 32 && !may.bits) && (pad ==> fatBits != 32 && may.bits)
      && crowd.up && (fit == TooFew && may.len ==> !trail.up)
      && (fit == TooMany && may.len ==> Crowded(Shape(), tot, crowd, BaseStart(may.boot), BaseDir(saved)))
      && (AllOpen(may, fat32) ==> Passing(fit, tot, pad, saved, trail))
    }

    // Too many clusters, on a disk of at least that many sectors.
    lemma CrowdedIsLarge(tot: nat, crowd: Trail, start: nat, dir: nat, least: nat)
      requires Valid() && tot < TWO32 && Crowded(Shape(), tot, crowd, start, dir) && start >= 1
      requires least <= clusterSize && least <= 256
      ensures tot >= least * MaxClusters(fatBits) || (fatBits == 12 && tot >= 8 * FAT12)
    {
      var m := MaxClusters(fatBits);
      TimesIsProduct(m, clusterSize);
      TimesIsProduct(m, least);
      TimesCommutes(m, clusterSize);
      TimesCommutes(m, least);
      TimesMono(least, clusterSize, m);
    }

    // A reaction to a failed attempt passes over what has failed: half the cluster size,
    lemma PassesLess(next: Next, tot: nat, saved: nat, trail: Trail)
      requires Passing(TooFew, tot, false, saved, trail) && !trail.up
      requires next.Continue? && !next.pad && next.bits == fatBits && next.size == clusterSize / 2
      ensures StillUpwards(next, TooFew, tot, saved)
    {
    }

    // twice the size,
    lemma PassesMore(next: Next, tot: nat, saved: nat, trail: Trail)
      requires Passing(TooMany, tot, false, saved, trail) && PowerOfTwo(clusterSize) && tot >= FAT12
      requires clusterSize < if fatBits == 12 then 8 else 64
      requires next.Continue? && !next.pad && next.bits == fatBits && next.size == 2 * clusterSize
      ensures StillUpwards(next, TooMany, tot, saved)
    {
      assert next.size / 2 == clusterSize;
    }

    // or wider entries.
    lemma PassesWider(next: Next, tot: nat, saved: nat, trail: Trail)
      requires Passing(TooMany, tot, false, saved, trail) && PowerOfTwo(clusterSize)
      requires fatBits in {12, 16} && if fatBits == 12 then clusterSize >= 8 && tot >= 8 * FAT12 else clusterSize >= 64 && tot >= 64 * FAT16
      requires next.Continue? && !next.pad
      requires if fatBits == 12 then next.bits == 16 && next.size == 1 else next.bits == 32 && next.size == 8
      ensures StillUpwards(next, TooMany, tot, saved)
    {
    }

    lemma PassesOn(next: Next, fit: Fit, tot: nat, saved: nat, trail: Trail, crowd: Trail)
      requires Valid() && 0 < tot < TWO32 && fit in {TooFew, TooMany} && PowerOfTwo(clusterSize)
      requires Passing(fit, tot, false, saved, trail) == true && (fit == TooFew ==> !trail.up)
      requires fit == TooMany ==> fatBits != 32 && Crowded(Shape(), tot, crowd, BaseStart(true), BaseDir(saved))
      requires next.Continue? && !next.pad && (fit == TooFew ==> next.bits == fatBits && next.size == clusterSize / 2)
      requires fit == TooMany && fatBits == 12 ==> if clusterSize >= 8 then next.bits == 16 && next.size == 1 else next.bits == 12 && next.size == 2 * clusterSize
      requires fit == TooMany && fatBits == 16 ==> if clusterSize >= 64 then next.bits == 32 && next.size == 8 else next.bits == 16 && next.size == 2 * clusterSize
      ensures StillUpwards(next, fit, tot, saved) == true
    {
      if fit == TooFew {
        PassesLess(next, tot, saved, trail);
      } else if clusterSize < if fatBits == 12 then 8 else 64 {
        CrowdedIsLarge(tot, crowd, BaseStart(true), BaseDir(saved), 1);
        PassesMore(next, tot, saved, trail);
      } else {
        CrowdedIsLarge(tot, crowd, BaseStart(true), BaseDir(saved), if fatBits == 12 then 8 else 64);
        PassesWider(next, tot, saved, trail);
      }
    }

    method ReactTo(fit: Fit, tot: nat, may: May, fat32: bool, pad: bool, saved: nat, ghost trail: Trail, ghost crowd: Trail) returns (next: Next)
      requires Failed(fit, tot, may, fat32, pad, saved, trail, crowd) && 0 < tot < TWO32
      ensures next.Return? ==> next.code != Ok && Refused(next.code, tot, may) == true
      ensures next.Break? ==> Found(tot) == true
      ensures next.Continue? == Adoptable(next, fit, tot, may, fat32, pad, saved, trail, crowd)
      ensures AllOpen(may, fat32) ==> next.Continue?
    {
      next := React(fit, may, fat32, pad);
      if AllOpen(may, fat32) {
        PassesOn(next, fit, tot, saved, trail, crowd);
      }
    }

    // The second half: the reaction is put into effect, further along in widths or sizes.
    method Adopt(next: Next, fit: Fit, tot: nat, may: May, fat32: bool, pad: bool, saved: nat, ghost trail: Trail, ghost crowd: Trail)
      returns (ghost after: Trail)
      requires next.Continue? && Adoptable(next, fit, tot, may, fat32, pad, saved, trail, crowd)
      modifies this`fatBits, this`clusterSize
      ensures fatBits == next.bits && clusterSize == next.size
      ensures !may.cluster ==> clusterSize == old(clusterSize)
      ensures !may.bits ==> fatBits == old(fatBits)
      ensures Searching(tot, may, fat32, next.pad, saved, after)
      ensures Further(old(Phase(pad, fatBits)), trail.up, old(clusterSize), Phase(next.pad, fatBits), after.up, clusterSize)
    {
      after := NextTrail(fit, trail, crowd, Phase(next.pad, next.bits) < Phase(pad, fatBits));
      ghost var shape0 := Shape();
      fatBits, clusterSize := next.bits, next.size;
      assert fatBits == old(fatBits) && clusterSize == 2 * old(clusterSize) ==> Shape().(clusterSize := clusterSize / 2) == shape0;
    }

    function Open(devFatBits: nat, fat32Requested: bool): May
      reads this
    {
      May(fatStart == 0, devFatBits == 0 && !fat32Requested, clusterSize == 0, dirLen == 0, fatLen == 0)
    }

    // Smaller clusters than too small ones are too small.
    lemma {:induction false} SmallerToo(tot: nat, dir: nat, bits: nat, size: nat, s: nat)
      requires tot < TWO32 && bits in {12, 16} && PowerOfTwo(size) && PowerOfTwo(s) && s <= size
      requires Geometry(size, sectorSize, numFat, bits / 4).Valid() && TooManyAt(tot, dir, bits, size)
      ensures TooManyAt(tot, dir, bits, s)
      decreases size
    {
      if s < size {
        var half := Geometry(size / 2, sectorSize, numFat, bits / 4);
        assert half.(clusterSize := 2 * half.clusterSize) == Geometry(size, sectorSize, numFat, bits / 4);
        half.LeavesAtHalf(tot - 1 - dir, MaxClusters(bits));
        SmallerToo(tot, dir, bits, size / 2, s);
      }
    }

    // What the search finds where nothing is fixed: one reserved sector, or 32 for 32-bit
    // entries; a root directory by the size of the disk; tables of the exact length; the
    // narrowest entries for which clusters of a moderate size are few enough, and the smallest
    // such clusters, or clusters by the size of the disk for 32-bit entries.
    ghost predicate LeastFit(tot: nat, heads: nat)
      reads this
    {
      var dir := if tot < 1200 then (if heads == 1 then 4 else 7) else if tot <= 3840 then 14 else if tot <= 7680 then 15 else 32;
      && fatBits in {12, 16, 32} && fatStart == (if fatBits == 32 then 32 else 1) && dirLen == (if fatBits == 32 then 0 else dir)
      && Computed(tot) && clusStart < tot && Filled(tot)
      && LeastWidth(tot, dir) && (fatBits != 32 ==> LeastSize(tot, heads, dir, if fatBits == 12 then 4085 else 65525))
    }

    ghost predicate LeastWidth(tot: nat, dir: nat)
      reads this`fatBits, this`clusterSize, this`numClus
    {
      && (fatBits == 12 ==> clusterSize in {1, 2, 4, 8} && 1 <= numClus < 4085)
      && (fatBits == 16 ==>
        && clusterSize in {1, 2, 4, 8, 16, 32, 64} && 4096 <= numClus < 65525
        && Geometry(8, sectorSize, numFat, 3).LeavesAtLeast(tot - 1 - dir, 4085))
      && (fatBits == 32 ==>
        && numClus < 268435445 && Geometry(64, sectorSize, numFat, 4).LeavesAtLeast(tot - 1 - dir, 65525)
        && clusterSize == if tot >= 67108864 then 64 else if tot >= 33554432 then 32 else if tot >= 16777216 then 16 else 8)
    }

    ghost predicate LeastSize(tot: nat, heads: nat, dir: nat, limit: nat)
      reads this`fatBits, this`clusterSize
    {
      forall s {:trigger Geometry(s, sectorSize, numFat, fatBits / 4)} :: s in {1, 2, 4, 8, 16, 32} && s < clusterSize ==>
        || (s == 1 && clusterSize == 2 && tot < 2400 && heads == 2)
        || Geometry(s, sectorSize, numFat, fatBits / 4).LeavesAtLeast(tot - 1 - dir, limit)
    }

    // Every smaller cluster size has been passed over.
    lemma SmallerSizes(tot: nat, heads: nat, dir: nat, limit: nat, s: nat)
      requires Sound(tot, dir) && 0 < tot < TWO32 && fatBits in {12, 16} && limit == (if fatBits == 12 then 4085 else 65525)
      requires tot < 2400 ==> clusterSize <= if heads == 2 then 2 else 1
      requires s in {1, 2, 4, 8, 16, 32} && s < clusterSize
      ensures (s == 1 && clusterSize == 2 && tot < 2400 && heads == 2)
        || (tot >= 1 + dir && Geometry(s, sectorSize, numFat, fatBits / 4).LeavesAtLeast(tot - 1 - dir, limit))
    {
      if !(s == 1 && clusterSize == 2 && tot < 2400 && heads == 2) {
        assert s <= clusterSize / 2;
        SmallerToo(tot, dir, fatBits, clusterSize / 2, s);
        assert TooManyAt(tot, dir, fatBits, s);
      }
    }

    lemma SoundHasLeastSize(tot: nat, heads: nat, dir: nat, limit: nat)
      requires Sound(tot, dir) && 0 < tot < TWO32 && fatBits in {12, 16} && limit == (if fatBits == 12 then 4085 else 65525)
      requires tot < 2400 ==> clusterSize <= if heads == 2 then 2 else 1
      ensures LeastSize(tot, heads, dir, limit)
    {
      forall s {:trigger Geometry(s, sectorSize, numFat, fatBits / 4)} | s in {1, 2, 4, 8, 16, 32} && s < clusterSize
        ensures (s == 1 && clusterSize == 2 && tot < 2400 && heads == 2) || Geometry(s, sectorSize, numFat, fatBits / 4).LeavesAtLeast(tot - 1 - dir, limit)
      {
        SmallerSizes(tot, heads, dir, limit, s);
      }
    }

    lemma SoundHasLeastWidth(tot: nat, dir: nat)
      requires Sound(tot, dir)
      ensures LeastWidth(tot, dir)
    {
    }

    lemma SoundIsLeast(tot: nat, heads: nat, dir: nat)
      requires Sound(tot, dir) == true && 0 < tot < TWO32
      requires dir == if tot < 1200 then (if heads == 1 then 4 else 7) else if tot <= 3840 then 14 else if tot <= 7680 then 15 else 32
      requires tot < 2400 ==> clusterSize <= if heads == 2 then 2 else 1
      ensures LeastFit(tot, heads)
    {
      SoundHasLeastWidth(tot, dir);
      if fatBits != 32 {
        SoundHasLeastSize(tot, heads, dir, if fatBits == 12 then 4085 else 65525);
      }
    }

    // The search. It ends for every disk size and every choice of fixed parameters; what it
    // finds is consistent, and FAT widths are never raised again once padding has begun. Where
    // nothing is fixed it succeeds, but for disks that are very small or as large as can be.
    method CalcFsParameters(devFatBits: nat, fat32Requested: bool, tot: nat, heads: nat) returns (r: Outcome)
      requires devFatBits in {0, 12, 16, 32} && (fat32Requested ==> devFatBits == 32)
      requires 128 <= sectorSize <= 8192 && sectorSize % 4 == 0 && 1 <= numFat <= 255
      requires clusterSize <= 255 && fatStart < 0x1_0000 && fatLen < TWO32 && dirLen < 0x1_0000
      requires 0 < tot < TWO32
      modifies this
      ensures r == Ok ==> Accepted(tot) == true
      ensures r != Ok ==> Refused(r, tot, old(Open(devFatBits, fat32Requested))) == true
      ensures old(AllOpen(Open(devFatBits, fat32Requested), fat32Requested)) ==>
        r == Ok || (r == TooFewSectors && tot < SMALL_DISK) || (r == Aborted && EndWraps() && tot > TWO32 - 128)
      ensures old(AllOpen(Open(devFatBits, fat32Requested), fat32Requested)) && r == Ok ==> LeastFit(tot, heads) == true
      ensures old(clusterSize) != 0 ==> clusterSize == old(clusterSize)
      ensures devFatBits != 0 ==> fatBits == devFatBits
      ensures old(fatLen) != 0 ==> fatLen == old(fatLen)
    {
      var may := Open(devFatBits, fat32Requested);
      Defaults(devFatBits, tot, heads, may);
      ghost var dir := dirLen;
      r := Search(tot, may, fat32Requested);
      if r == Ok {
        r := FinishSearch(tot, AllOpen(may, fat32Requested), heads, dir);
      }
    }

    method Search(tot: nat, may: May, fat32: bool) returns (r: Outcome)
      requires Searching(tot, may, fat32, false, dirLen, Trail(false, 0, 0)) && 0 < tot < TWO32
      modifies this`fatStart, this`dirLen, this`clusterSize, this`fatLen, this`clusStart, this`numClus, this`fatBits
      ensures r == Ok ==> Found(tot) == true
      ensures r != Ok ==> Refused(r, tot, may) == true
      ensures AllOpen(may, fat32) ==> if r == Ok then Sound(tot, old(dirLen)) == true else r == TooFewSectors && tot < SMALL_DISK
      ensures AllOpen(may, fat32) && tot < 2400 ==> clusterSize <= old(clusterSize)
      ensures !may.cluster ==> clusterSize == old(clusterSize)
      ensures !may.bits ==> fatBits == old(fatBits)
      ensures !may.len ==> fatLen == old(fatLen)
    {
      var pad, saved, searching := false, dirLen, true;
      ghost var trail := Trail(false, 0, 0);
      r := Ok;
      while searching
        invariant searching ==> r == Ok && Searching(tot, may, fat32, pad, saved, trail) == true
        invariant !searching && r == Ok ==> Found(tot) == true
        invariant !searching && r != Ok ==> Refused(r, tot, may) == true
        invariant !searching && AllOpen(may, fat32) ==> if r == Ok then Sound(tot, saved) == true else r == TooFewSectors && tot < SMALL_DISK
        invariant saved == old(dirLen) && (AllOpen(may, fat32) && tot < 2400 ==> clusterSize <= old(clusterSize))
        invariant !may.cluster ==> clusterSize == old(clusterSize)
        invariant !may.bits ==> fatBits == old(fatBits)
        invariant !may.len ==> fatLen == old(fatLen)
        decreases searching, Phase(pad, fatBits), if trail.up then 0 else 1, if trail.up then 256 - clusterSize else clusterSize
      {
        var next, fit, crowd := Consider(tot, may, fat32, pad, saved, trail);
        match next
        case Break => searching := false;
        case Return(code) => r, searching := code, false;
        case Continue(nextPad, _, _) =>
          trail := Adopt(next, fit, tot, may, fat32, pad, saved, trail, crowd);
          pad := nextPad;
      }
    }

    method FinishSearch(tot: nat, ghost open: bool, ghost heads: nat, ghost dir: nat) returns (r: Outcome)
      requires Found(tot) && 0 < tot < TWO32 && (open ==> Sound(tot, dir) && (tot < 2400 ==> clusterSize <= if heads == 2 then 2 else 1))
      requires open ==> dir == if tot < 1200 then (if heads == 1 then 4 else 7) else if tot <= 3840 then 14 else if tot <= 7680 then 15 else 32
      modifies this`fatBits, this`backupBoot
      ensures r == Ok ==> Accepted(tot) == true
      ensures r == Ok || (r == Aborted && Rejected(tot))
      ensures open && r != Ok ==> EndWraps() && tot > TWO32 - 128
      ensures open ==> LeastFit(tot, heads) == true
      ensures fatBits == old(fatBits)
    {
      r := Finish(tot);
      if open {
        SoundIsLeast(tot, heads, dir);
      }
    }

    method Finish(tot: nat) returns (r: Outcome)
      requires Found(tot) && tot < TWO32
      modifies this`fatBits, this`backupBoot
      ensures r == Ok ==> Accepted(tot) == true
      ensures r == Ok || (r == Aborted && Rejected(tot))
      ensures r == Ok <==> Shape().Holds(numClus, fatLen) && !EndWraps() && (fatBits == 32 ==> fatStart >= 3)
      ensures fatBits == old(fatBits)
    {
      var ok := CheckFsParamsAndSetFat(tot);
      if ok && fatBits == 32 {
        ok := Fat32SpecificInit();
      }
      r := if ok then Ok else Aborted;
    }
  }

  // A first attempt with sectors of 512 bytes, two tables, a cluster size of 1 and the defaults
  // for 4144 sectors: one reserved sector and 15 sectors for the directory.
  method Attempt4144(fatBits: nat) returns (p: Params, fit: Fit)
    requires fatBits in {12, 16}
    ensures fresh(p) && p.Valid() && p.sectorSize == 512 && p.numFat == 2 && p.fatBits == fatBits && p.clusterSize == 1
    ensures p.fatStart == 1 && p.dirLen == 15 && p.fatLen == if fatBits == 12 then 13 else 17
    ensures p.clusStart == p.DataStart() && p.numClus == 4144 - p.clusStart == if fatBits == 12 then 4102 else 4094
    ensures p.Remaining(4144) == 4128 && p.Shape().Exact(p.fatLen, 4128) && p.Shape().Holds(p.numClus, p.fatLen)
    ensures fit == if fatBits == 12 then TooMany else TooFew
  {
    p := new Params(512, 2, fatBits, 1, 1, 0, 15);
    var counted;
    fit, counted := p.ComputedRound(4144);
    Length4144(fatBits, p.fatLen);
    TimesIsProduct(p.numClus, 1);
  }

  lemma Length4144(fatBits: nat, f: nat)
    requires fatBits in {12, 16} && Geometry(1, 512, 2, fatBits / 4).Exact(f, 4128)
    ensures f == (if fatBits == 12 then 13 else 17) && Times(2, f) == 2 * f
  {
    TimesIsProduct(1, 512);
    TimesIsProduct(2, fatBits / 4);
    TimesIsProduct(fatBits / 4, 4130);
    TimesIsProduct(2, f);
    TimesIsProduct(16, 1032);
    TimesIsProduct(17, 1032);
    TimesIsProduct(12, 1030);
    TimesIsProduct(13, 1030);
    Geometry(1, 512, 2, fatBits / 4).ExactUnique(f, if fatBits == 12 then 13 else 17, 4128);
  }

  // With 4144 sectors, 12-bit entries give too many clusters and 16-bit entries too few.
  // Padding then ends with too many again.
  method PaddingFallsShort() returns (wide: Fit, narrow: Fit, padded: Fit)
    ensures wide == TooFew && narrow == TooMany && padded == TooMany
  {
    var p;
    p, wide := Attempt4144(16);
    p, narrow := Attempt4144(12);
    padded := Padded4144(p);
  }

  method Padded4144(p: Params) returns (padded: Fit)
    requires p.Valid() && p.numFat == 2 && p.fatBits == 12 && p.clusterSize == 1 && p.fatStart == 1 && p.dirLen == 15 && p.fatLen == 13
    requires p.clusStart == p.DataStart() && p.numClus == 4102 == 4144 - p.clusStart && p.Shape().Holds(4102, 13)
    requires p.Remaining(4144) == 4128 && p.Shape().Exact(13, 4128)
    modifies p
    ensures padded == TooMany
  {
    TimesIsProduct(FAT12, 1);
    TimesIsProduct(p.numClus, 1);
    OneSectorTooMany();
    padded := p.PaddedRound(4144, true, true, true, Trail(true, 13, 4128));
  }

  // Of 18 sectors the directory takes 17, and one cannot be shared out.
  lemma OneSectorTooMany()
    ensures !PaddingReaches(18, 1, 15, 2, 12, true, true, true)
  {
    assert Mod(1, 2) == 1;
  }

  // But 17 more directory sectors and one more sector in each table would have done.
  method OtherPadding() returns (fit: Fit)
    ensures fit == Good
  {
    var p := new Params(512, 2, 12, 1, 1, 14, 32);
    TimesIsProduct(2, 14);
    TimesIsProduct(14, 1024);
    fit := p.Round(4144, false);
    TimesIsProduct(p.numClus, 1);
    TimesIsProduct(p.numClus + 2, 3);
  }

  method PreparedDisk() returns (p: Params)
    ensures fresh(p) && p.Valid() && p.fatBits == 32 && p.fatStart == 32 && p.dirLen == 0 && p.clusterSize == 64
    ensures p.sectorSize == 512 && p.numFat == 2
  {
    p := new Params(512, 2, 32, 8, 0, 0, 32);
    p.Prepare(TWO32 - 1, May(true, true, true, true, true), 32);
  }

  // The attempt on the largest disk there can be, with two tables and sectors of 512 bytes: 32-bit
  // entries and the cluster size prescribed.
  method LargestDisk() returns (p: Params, fit: Fit)
    ensures fresh(p) && p.Valid() && p.fatBits == 32 && p.fatStart == 32 && p.dirLen == 0 && p.clusterSize == 64
    ensures fit == Good && p.Counted(TWO32 - 1) && p.Shape().Holds(p.numClus, p.fatLen)
    ensures p.clusStart == 1048354 && p.numClus == 67092483 && Times(p.numClus, 64) == 4293918912
  {
    p := PreparedDisk();
    ghost var f;
    fit, f := p.TryClusterSize(TWO32 - 1, true, true, true, false);
    p.PrescribedSizeFits(TWO32 - 1);
    assert fit in {Good, NoRoom} && p.Computed(TWO32 - 1);
    assert p.Shape() == Geometry(64, 512, 2, 8) && p.Remaining(TWO32 - 1) == TWO32 - 34;
    LargestLength(p.fatLen);
    assert p.DataStart() == 1048354;
    LargestCount(p.numClus);
  }

  // The assertion that the clusters fill the disk then fails: its bound is cut to 33.
  method LargestDiskAborts() returns (p: Params, fit: Fit, r: Outcome)
    ensures fit == Good && r == Aborted
    ensures U32(p.clusStart + Times(p.numClus, p.clusterSize) + p.clusterSize - 1) == 33
  {
    p, fit := LargestDisk();
    assert p.EndWraps();
    r := p.Finish(TWO32 - 1);
  }

  lemma LargestLength(f: nat)
    requires Geometry(64, 512, 2, 8).Exact(f, TWO32 - 34)
    ensures f == 524161 && Times(2, f) == 1048322
  {
    TimesIsProduct(64, 512);
    TimesIsProduct(2, 8);
    TimesIsProduct(524160, 65552);
    TimesIsProduct(524161, 65552);
    TimesIsProduct(8, TWO32 - 34 + 128);
    TimesIsProduct(2, f);
    Geometry(64, 512, 2, 8).ExactUnique(f, 524161, TWO32 - 34);
  }

  lemma LargestCount(n: nat)
    ensures Times(n, 64) <= TWO32 - 1 - 1048354 < Times(n, 64) + 64 ==> n == 67092483 && Times(n, 64) == 4293918912
  {
    TimesIsProduct(n, 64);
  }

  // Strictly further along: a smaller phase, or the same phase and cluster sizes that shrink
  // until they grow.
  predicate Further(phase0: nat, up0: bool, size0: nat, phase: nat, up: bool, size: nat) {
    || phase < phase0
    || (phase == phase0 && ((!up0 && up) || (up0 == up && if up then size0 < size <= 255 else size < size0)))
  }

  // The last attempt that found too many clusters, if the cluster size has been doubled since:
  // the table length it computed and the sectors it had to share out.
  datatype Trail = Trail(up: bool, f: nat, rem: int)

  // A new width starts afresh; doubling records the attempt that asked for it.
  ghost function NextTrail(fit: Fit, trail: Trail, crowd: Trail, newWidth: bool): Trail {
    if newWidth then Trail(false, 0, 0) else if fit == TooFew then trail else crowd
  }

  // With this geometry, behind the given reserved and directory sectors, there are too many
  // clusters: so many sectors that 12-bit tables are not even computed, or too many clusters
  // behind tables of at least the recorded length.
  ghost predicate Crowded(shape: Geometry, tot: nat, trail: Trail, start: nat, dir: nat) {
    && shape.Valid() && shape.Evened(tot - start - dir) <= trail.rem
    && (|| (shape.nybbles == 3 && shape.Evened(tot - start - dir) > 256 * FAT12)
        || (trail.rem >= 0 && shape.Exact(trail.f, trail.rem)
            && Times(MaxClusters(4 * shape.nybbles), shape.clusterSize) <= tot - (start - 1 + Times(shape.numFat, trail.f) + dir)))
  }

  // From this size on a disk has room for a cluster behind its tables.
  const SMALL_DISK: nat := 1260

  predicate AllOpen(may: May, fat32: bool) {
    may == May(true, true, true, true, true) && !fat32
  }

  predicate PowerOfTwo(c: nat) {
    c in {1, 2, 4, 8, 16, 32, 64, 128}
  }

  // Which parameters the user has left open.
  datatype May = May(boot: bool, bits: bool, cluster: bool, root: bool, len: bool)

  datatype Outcome = Ok | TooFewSectors | TooFewClusters | TooManyClusters | TooManyClustersForLength | Aborted

  datatype Next = Continue(pad: bool, bits: nat, size: nat) | Break | Return(code: Outcome)

  // Progress of the search through FAT widths: up until padding starts, then down.
  function Phase(pad: bool, fatBits: nat): nat {
    var width := if fatBits == 12 then 0 else if fatBits == 16 then 1 else 2;
    if pad then width else 5 - width
  }

  // A failed attempt leads to a smaller phase, to half the cluster size if there were too few
  // clusters, or to twice the size if there were too many.
  predicate Progress(fit: Fit, pad0: bool, bits0: nat, size0: nat, mayLen: bool, pad: bool, bits: nat, size: nat) {
    || Phase(pad, bits) < Phase(pad0, bits0)
    || (pad == pad0 && bits == bits0 && fit == TooFew && mayLen && size == size0 / 2 && size0 > 1)
    || (pad == pad0 && bits == bits0 && fit != TooFew && size == 2 * size0)
  }

  // Cluster size for a 32-bit file system of at least 8 GB; otherwise the present one.
  function Prescribed(tot: nat, present: nat): nat {
    if tot >= 32 * 1024 * 1024 * 2 then 64
    else if tot >= 16 * 1024 * 1024 * 2 then 32
    else if tot >= 8 * 1024 * 1024 * 2 then 16
    else present
  }
}
