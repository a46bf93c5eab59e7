/**
 Files as cluster chains (file.c): mapping a stretch of a file to a stretch of the disk with a
 cached chain position, growing the chain on write, and reading and writing through the map.
 */
module FileMap {
  import opened Arith
  import opened DiskLayout
  import opened FatTable
  import opened Store
  import LoopDetect

  const TWO32: nat := 0x1_0000_0000
  const UNSET: nat := 0xffff    // the source's mark for "no cached position"
  const HALT: int := -3         // stands for the end of the program

  // The length left after clipping to a run of clusters, in 32-bit arithmetic.
  function Clip(len: nat, runBytes: nat, offset: nat): nat
    requires offset <= runBytes
  {
    var limit := U32(runBytes - offset);
    if len > limit then limit else len
  }

  // Clipping makes no progress in one case only: the run ends exactly 4 GiB behind the request.
  lemma ClipProgress(len: nat, clusters: nat, clusBytes: nat, offset: nat)
    requires 0 < len < TWO32 && offset < clusBytes < TWO32 && 0 < clusters
    requires Times(clusters - 1, clusBytes) < offset + len
    ensures offset < Times(clusters, clusBytes)
    ensures Clip(len, Times(clusters, clusBytes), offset) <= Times(clusters, clusBytes) - offset
    ensures Clip(len, Times(clusters, clusBytes), offset) == 0 <==> Times(clusters, clusBytes) - offset == TWO32
    ensures Times(clusters, clusBytes) - offset == TWO32 ==> len > TWO32 - clusBytes
  {
  }

  // From rel on, the clusters up to cur are adjacent on disk.
  ghost predicate Adjacent(c: seq<nat>, rel: nat, cur: nat)
    requires rel <= cur < |c|
    decreases cur
  {
    rel == cur || (c[cur] == c[cur - 1] + 1 && Adjacent(c, rel, cur - 1))
  }

  lemma {:induction false} AdjacentRun(c: seq<nat>, rel: nat, cur: nat, i: nat)
    requires rel <= i <= cur < |c| && Adjacent(c, rel, cur)
    ensures c[i] == c[rel] + i - rel
    decreases cur
  {
    if i < cur {
      AdjacentRun(c, rel, cur - 1, i);
    } else if rel < cur {
      AdjacentRun(c, rel, cur - 1, i - 1);
    }
  }

  lemma {:induction false} RunIsAdjacent(c: seq<nat>, rel: nat, cur: nat)
    requires rel <= cur < |c| && forall i :: rel <= i <= cur ==> c[i] == c[rel] + i - rel
    ensures Adjacent(c, rel, cur)
    decreases cur
  {
    if rel < cur {
      RunIsAdjacent(c, rel, cur - 1);
    }
  }

  // The cluster of a chain that holds the last byte of a request.
  function LastCluster(where: nat, len: nat, clusBytes: nat): nat
    requires clusBytes > 0 && len > 0
  {
    Div(where, clusBytes) + Div(Mod(where, clusBytes) + len - 1, clusBytes)
  }

  // A request whose clusters are adjacent and end exactly 4 GiB behind it.
  ghost predicate Stalls(c: seq<nat>, where: nat, len: nat, clusBytes: nat)
    requires clusBytes > 0 && len > 0
  {
    var rel, goal := Div(where, clusBytes), LastCluster(where, len, clusBytes);
    goal < |c| && Adjacent(c, rel, goal) && Times(1 + goal - rel, clusBytes) - Mod(where, clusBytes) == TWO32
  }

  // The walk has ended at the last cluster asked for, or where adjacent clusters end.
  ghost predicate RunTo(c: seq<nat>, where: nat, len: nat, clusBytes: nat, cur: nat)
    requires clusBytes > 0 && len > 0
  {
    && Div(where, clusBytes) <= cur <= LastCluster(where, len, clusBytes) && cur < |c| && Adjacent(c, Div(where, clusBytes), cur)
    && (cur < LastCluster(where, len, clusBytes) ==> cur + 1 == |c| || c[cur + 1] != c[cur] + 1)
  }

  lemma ClipFits(c: seq<nat>, where: nat, len: nat, clusBytes: nat, cur: nat)
    requires 0 < clusBytes < TWO32 && 0 < len < TWO32 && RunTo(c, where, len, clusBytes, cur)
    ensures var run := Times(1 + cur - Div(where, clusBytes), clusBytes);
      Mod(where, clusBytes) <= run && Clip(len, run, Mod(where, clusBytes)) <= Least(len, run - Mod(where, clusBytes))
  {
    var rel, offset := Div(where, clusBytes), Mod(where, clusBytes);
    DivTimes(offset + len - 1, clusBytes);
    TimesMono(cur - rel, LastCluster(where, len, clusBytes) - rel, clusBytes);
    ClipProgress(len, 1 + cur - rel, clusBytes, offset);
  }

  // Clipping to the run the walk has found leaves nothing exactly if the request stalls.
  lemma StallsExactly(c: seq<nat>, where: nat, len: nat, clusBytes: nat, cur: nat)
    requires 0 < clusBytes < TWO32 && 0 < len < TWO32 && RunTo(c, where, len, clusBytes, cur)
    ensures var run := Times(1 + cur - Div(where, clusBytes), clusBytes);
      Mod(where, clusBytes) <= run && (Clip(len, run, Mod(where, clusBytes)) == 0 <==> Stalls(c, where, len, clusBytes))
  {
    var rel, goal, offset := Div(where, clusBytes), LastCluster(where, len, clusBytes), Mod(where, clusBytes);
    DivTimes(offset + len - 1, clusBytes);
    TimesMono(cur - rel, goal - rel, clusBytes);
    ClipProgress(len, 1 + cur - rel, clusBytes, offset);
    if cur < goal {
      TimesMono(1 + cur - rel, goal - rel, clusBytes);
      if goal < |c| && Adjacent(c, rel, goal) {
        AdjacentRun(c, rel, goal, cur);
        AdjacentRun(c, rel, goal, cur + 1);
      }
    }
  }

  lemma {:induction false} AdjacentInLonger(c: seq<nat>, d: seq<nat>, rel: nat, cur: nat)
    requires rel <= cur < |c| && Adjacent(c, rel, cur) && c <= d
    ensures Adjacent(d, rel, cur)
    decreases cur
  {
    if rel < cur {
      AdjacentInLonger(c, d, rel, cur - 1);
    }
  }

  datatype Walked = At(cur: nat) | PastEnd | NoSpace

  datatype Stepped = Next(next: nat) | Stay | Stop(why: Walked)

  // Halt stands for the end of the program with the message "cluster too big".
  datatype Mapping = Mapped(res: nat, len: nat) | Nothing | Full | Halt

  lemma ExtentOfRun(layout: Layout, c: seq<nat>, where: nat, cur: nat, len: nat)
    requires layout.clusBytes > 0 && Div(where, layout.clusBytes) <= cur < |c|
    requires c[Div(where, layout.clusBytes)] >= 2 && Adjacent(c, Div(where, layout.clusBytes), cur)
    requires len + Mod(where, layout.clusBytes) <= Times(1 + cur - Div(where, layout.clusBytes), layout.clusBytes)
    ensures Div(len + Mod(where, layout.clusBytes), layout.clusBytes) + c[Div(where, layout.clusBytes)] <= c[cur] + 1
    ensures layout.IsExtent(c, where, len, layout.Base(c[Div(where, layout.clusBytes)]) + Mod(where, layout.clusBytes))
  {
    var rel := Div(where, layout.clusBytes);
    forall i | rel <= i <= cur
      ensures c[i] == c[rel] + i - rel
    {
      AdjacentRun(c, rel, cur, i);
    }
    DivBound(len + Mod(where, layout.clusBytes), 1 + cur - rel, layout.clusBytes);
    layout.RunIsContiguous(c, where, 1 + cur - rel, len);
  }

  // What a mapping of a non-empty request has to be: an extent no longer than it, empty only if
  // the request stalls; well below 4 GiB it ends early only where the next byte of the file
  // lies elsewhere.
  ghost predicate Maps(layout: Layout, c: seq<nat>, where: nat, len: nat, m: Mapping)
    requires layout.clusBytes > 0 && len > 0
  {
    && m.Mapped? && m.len <= len && layout.IsExtent(c, where, m.len, m.res)
    && (m.len == 0 <==> Stalls(c, where, len, layout.clusBytes))
    && (m.len < len <= TWO32 - layout.clusBytes ==> !layout.Continues(c, where, m.len, m.res))
  }

  // A request well below 4 GiB is cut only where the run of adjacent clusters ends.
  lemma ClipEndsRun(layout: Layout, c: seq<nat>, where: nat, reqLen: nat, cur: nat)
    requires 0 < layout.clusBytes < TWO32 && 0 < reqLen <= TWO32 - layout.clusBytes && RunTo(c, where, reqLen, layout.clusBytes, cur)
    requires c[Div(where, layout.clusBytes)] >= 2
    ensures var rel, offset := Div(where, layout.clusBytes), Mod(where, layout.clusBytes);
      && offset <= Times(1 + cur - rel, layout.clusBytes)
      && var len := Clip(reqLen, Times(1 + cur - rel, layout.clusBytes), offset);
      len < reqLen ==> !layout.Continues(c, where, len, layout.Base(c[rel]) + offset)
  {
    var rel, offset := Div(where, layout.clusBytes), Mod(where, layout.clusBytes);
    DivTimes(offset + reqLen - 1, layout.clusBytes);
    TimesMono(cur - rel, LastCluster(where, reqLen, layout.clusBytes) - rel, layout.clusBytes);
    ClipProgress(reqLen, 1 + cur - rel, layout.clusBytes, offset);
    var len := Clip(reqLen, Times(1 + cur - rel, layout.clusBytes), offset);
    if len < reqLen {
      AdjacentRun(c, rel, cur, cur);
      layout.RunEnds(c, where, cur, len);
    }
  }

  lemma OneClusterClip(where: nat, reqLen: nat, clusBytes: nat)
    requires 0 < clusBytes < TWO32
    ensures Times(1, clusBytes) == clusBytes && Mod(where, clusBytes) < clusBytes
    ensures Div(Clip(reqLen, clusBytes, Mod(where, clusBytes)) + Mod(where, clusBytes), clusBytes) <= 1
  {
    TimesIsProduct(1, clusBytes);
    DivTimes(where, clusBytes);
    DivBound(Clip(reqLen, clusBytes, Mod(where, clusBytes)) + Mod(where, clusBytes), 1, clusBytes);
  }

  // The request clipped to the run the walk has found is an extent of the disk, and ends before
  // the last cluster of the disk does. (Here and below a predicate compared with true is proved as
  // a whole and not part by part, which is cheaper.)
  lemma ClipIsExtent(layout: Layout, c: seq<nat>, where: nat, reqLen: nat, cur: nat, numClus: nat)
    requires 0 < layout.clusBytes < TWO32 && 0 < reqLen < TWO32 && RunTo(c, where, reqLen, layout.clusBytes, cur)
    requires c[Div(where, layout.clusBytes)] >= 2 && c[cur] <= numClus + 1
    ensures var rel, offset := Div(where, layout.clusBytes), Mod(where, layout.clusBytes);
      && offset <= Times(1 + cur - rel, layout.clusBytes)
      && var len := Clip(reqLen, Times(1 + cur - rel, layout.clusBytes), offset);
      && len <= reqLen && layout.IsExtent(c, where, len, layout.Base(c[rel]) + offset) == true
      && Div(len + offset, layout.clusBytes) + c[rel] - 2 <= numClus
  {
    var rel, offset := Div(where, layout.clusBytes), Mod(where, layout.clusBytes);
    ClipFits(c, where, reqLen, layout.clusBytes, cur);
    ExtentOfRun(layout, c, where, cur, Clip(reqLen, Times(1 + cur - rel, layout.clusBytes), offset));
  }

  // It is a mapping as it has to be.
  lemma ClipMaps(layout: Layout, c: seq<nat>, where: nat, reqLen: nat, cur: nat, len: nat, res: nat)
    requires 0 < layout.clusBytes < TWO32 && 0 < reqLen < TWO32 && RunTo(c, where, reqLen, layout.clusBytes, cur)
    requires Mod(where, layout.clusBytes) <= Times(1 + cur - Div(where, layout.clusBytes), layout.clusBytes)
    requires len == Clip(reqLen, Times(1 + cur - Div(where, layout.clusBytes), layout.clusBytes), Mod(where, layout.clusBytes))
    requires c[Div(where, layout.clusBytes)] >= 2 && res == layout.Base(c[Div(where, layout.clusBytes)]) + Mod(where, layout.clusBytes)
    requires len <= reqLen && layout.IsExtent(c, where, len, res)
    ensures Maps(layout, c, where, reqLen, Mapped(res, len)) == true
  {
    StallsExactly(c, where, reqLen, layout.clusBytes, cur);
    if reqLen <= TWO32 - layout.clusBytes {
      ClipEndsRun(layout, c, where, reqLen, cur);
    }
  }

  // The extent on the run that begins with cluster first and ends with cluster number cur; or
  // the end of the program, if the walk had a false start at cluster 0.
  method ClipToRun(layout: Layout, ghost c: seq<nat>, where: nat, reqLen: nat, cur: nat, first: nat, numClus: nat) returns (m: Mapping)
    requires 0 < layout.clusBytes < TWO32 && 0 < reqLen < TWO32 && numClus < TWO32 - 2
    requires if first == 0 then cur == Div(where, layout.clusBytes)
      else RunTo(c, where, reqLen, layout.clusBytes, cur) && 2 <= first == c[Div(where, layout.clusBytes)] && c[cur] <= numClus + 1
    ensures if first == 0 then m.Halt? else Maps(layout, c, where, reqLen, m) == true
  {
    var offset, rel := Mod(where, layout.clusBytes), Div(where, layout.clusBytes);
    if first == 0 {
      OneClusterClip(where, reqLen, layout.clusBytes);
    } else {
      ClipIsExtent(layout, c, where, reqLen, cur, numClus);
    }
    var len := Clip(reqLen, Times(1 + cur - rel, layout.clusBytes), offset);
    if U32(Div(len + offset, layout.clusBytes) + first - 2) > numClus {
      m := Halt;
    } else {
      m := Mapped(layout.Base(first) + offset, len);
      ClipMaps(layout, c, where, reqLen, cur, m.len, m.res);
    }
  }

  class File {
    const fs: Fs
    const disk: Store
    var fileSize: nat
    var firstAbsCluNr: nat      // below 2 while the file has no cluster
    var previousRelCluNr: nat
    var previousAbsCluNr: nat
    var loopDetectRel: nat
    var loopDetectAbs: nat
    var where: nat
    var preallocatedSize: nat
    var preallocatedClusters: nat

    ghost predicate Valid()
      reads this, fs
    {
      && fs.Valid() && fs.numClus > 0 && 0 < fs.layout.clusBytes < TWO32
      && (firstAbsCluNr >= 2 ==> firstAbsCluNr in fs.files)
      && (TruePoint(Chain()) || (previousRelCluNr == UNSET && previousAbsCluNr == 0))
      && (loopDetectRel == 0 || (loopDetectRel < |Chain()| && Chain()[loopDetectRel] == loopDetectAbs))
    }

    // The clusters of this file.
    ghost function Chain(): seq<nat>
      reads this, fs
    {
      if firstAbsCluNr >= 2 && firstAbsCluNr in fs.files then fs.files[firstAbsCluNr] else []
    }

    // The cached position lies on the chain.
    ghost predicate TruePoint(c: seq<nat>)
      reads this
    {
      previousRelCluNr < |c| && c[previousRelCluNr] == previousAbsCluNr
    }

    // The mark for no cached position is taken for a position: the walk starts with cluster 0,
    // which belongs to no file. This is so for a first access behind 65535 clusters or more.
    ghost predicate FalseStart(rel: nat)
      reads this, fs
    {
      firstAbsCluNr >= 2 && !TruePoint(Chain()) && rel >= UNSET
    }

    // The entry of cluster 0 is an end mark, as it is on hard disks.
    ghost predicate MediaIsEnd()
      reads fs
    {
      |fs.table| > 0 && fs.table[0] > fs.lastFat
    }

    // A file opened on a chain that starts at the given cluster.
    constructor (fs: Fs, disk: Store, first: nat, size: nat)
      requires fs.Valid() && fs.numClus > 0 && 0 < fs.layout.clusBytes < TWO32
      requires first >= 2 ==> first in fs.files
      ensures Valid() && this.fs == fs && this.disk == disk && fileSize == size
      ensures firstAbsCluNr == (if first == 1 then 0 else first) && where == 0
      ensures previousRelCluNr == UNSET && previousAbsCluNr == 0
    {
      this.fs, this.disk := fs, disk;
      firstAbsCluNr, fileSize := if first == 1 then 0 else first, size;
      previousRelCluNr, previousAbsCluNr := UNSET, 0;
      loopDetectRel, loopDetectAbs, where := 0, 0, 0;
      preallocatedSize, preallocatedClusters := 0, 0;
    }

    // What mapping may change: this file's chain grows, all others stay.
    twostate predicate Grown()
      reads this, fs
    {
      && old(Chain()) <= Chain()
      && fs.files == (if Chain() == [] then old(fs.files) else old(fs.files)[firstAbsCluNr := Chain()])
      && (firstAbsCluNr == old(firstAbsCluNr) || (old(firstAbsCluNr) < 2 && firstAbsCluNr !in old(fs.files)))
    }

    // A cluster the chain grows by has been free; entries stay readable.
    twostate predicate Conserved()
      requires old(|fs.table|) >= 2 && |fs.table| >= 2
      reads this, fs
    {
      && FreeCount(fs.table) + |Chain()| == old(FreeCount(fs.table) + |Chain()|)
      && (old(fs.Readable()) ==> fs.Readable()) && fs.preallocatedClusters == old(fs.preallocatedClusters)
    }

    ghost predicate OutOfSpace()
      requires |fs.table| >= 2
      reads fs
    {
      FreeCount(fs.table) == 0 || !fs.Readable()
    }

    method FirstCluster() returns (ok: bool)
      requires Valid() && firstAbsCluNr < 2 && Chain() == []
      modifies this`firstAbsCluNr, fs
      ensures Valid() && Conserved() && (ok ==> Grown() && firstAbsCluNr >= 2 && Chain() == [firstAbsCluNr])
      ensures !ok ==> firstAbsCluNr == old(firstAbsCluNr) && fs.files == old(fs.files) && fs.table == old(fs.table) && OutOfSpace()
    {
      var c := fs.GetNextFreeCluster(1);
      if c == 1 {
        return false;
      }
      firstAbsCluNr := c;
      fs.FatAllocate(c, fs.endFat);
      ok := true;
    }

    // Extends the chain by a cluster behind its last one.
    method Extend(cur: nat, abs: nat) returns (ok: bool, next: nat)
      requires Valid() && firstAbsCluNr >= 2 && cur + 1 == |Chain()| && Chain()[cur] == abs
      modifies fs
      ensures Valid() && Grown() && Conserved()
      ensures !ok ==> Chain() == old(Chain()) && OutOfSpace()
      ensures ok ==> Chain() == old(Chain()) + [next] && 2 <= next <= fs.lastFat
    {
      ChainBegins();
      assert FileChain(fs.table, fs.lastFat, fs.files, firstAbsCluNr);
      next := fs.GetNextFreeCluster(abs);
      if next == 1 {
        return false, 1;
      }
      fs.FatAppend(abs, next, firstAbsCluNr);
      ok := true;
    }

    lemma ChainBegins()
      requires Valid() && firstAbsCluNr >= 2
      ensures IsChain(fs.table, fs.lastFat, Chain()) && Chain()[0] == firstAbsCluNr
    {
      assert FileChain(fs.table, fs.lastFat, fs.files, firstAbsCluNr);
    }

    lemma LinkOf(i: nat)
      requires Valid() && firstAbsCluNr >= 2 && i < |Chain()|
      ensures IsChain(fs.table, fs.lastFat, Chain())
      ensures 2 <= Chain()[i] < |fs.table| == fs.numClus + 2 <= fs.lastFat
      ensures fs.table[Chain()[i]] > 1
      ensures if i + 1 < |Chain()| then fs.table[Chain()[i]] == Chain()[i + 1] <= fs.lastFat else fs.table[Chain()[i]] > fs.lastFat
    {
      ChainBegins();
      if i + 1 < |Chain()| {
        assert fs.table[Chain()[i]] == Chain()[i + 1] >= 2;
      }
    }

    // On a chain without repetition the check stays silent and keeps a true point of the chain.
    method LoopDetectStep(rel: nat, absol: nat) returns (alarm: bool)
      requires Valid() && firstAbsCluNr >= 2 && rel < |Chain()| && Chain()[rel] == absol
      modifies this`loopDetectRel, this`loopDetectAbs
      ensures Valid() && !alarm
    {
      LinkOf(rel);
      alarm, loopDetectRel, loopDetectAbs := LoopDetect.MtLoopDetect(loopDetectRel, rel, loopDetectAbs, absol);
    }

    // Decodes the entry of cluster number cur of the chain.
    method NextLink(cur: nat, abs: nat) returns (next: nat)
      requires Valid() && firstAbsCluNr >= 2 && if abs == 0 then MediaIsEnd() else cur < |Chain()| && Chain()[cur] == abs
      modifies fs`fatError
      ensures Valid() && Chain() == old(Chain())
      ensures abs + 1 <= fs.lastFat && next >= 2
      ensures if abs != 0 && cur + 1 < |Chain()| then next == Chain()[cur + 1] <= fs.lastFat else next > fs.lastFat
    {
      if abs != 0 {
        LinkOf(cur);
      }
      next := fs.FatDecode(abs);
      if next == 1 || next == 0 {
        assert false;
      }
    }

    // The walk has come to cluster number cur; from rel on its way was along adjacent clusters.
    ghost predicate Progress(c: seq<nat>, cur: nat, abs: nat, rel: nat)
      reads this
    {
      && cur < |c| && c[cur] == abs
      && (cur >= rel ==> Adjacent(c, rel, cur))
      && (cur > rel ==> previousRelCluNr == rel && previousAbsCluNr == c[rel])
    }

    // The walk is about to begin with cluster 0.
    ghost predicate Astray(cur: nat, abs: nat, rel: nat)
      reads this, fs
    {
      FalseStart(rel) && cur == UNSET && abs == 0 && MediaIsEnd()
    }

    // The walk has come to a cluster, or has begun with cluster 0.
    ghost predicate OnWay(cur: nat, abs: nat, rel: nat, goal: nat, isReadonly: bool, astray: bool)
      reads this, fs
    {
      && cur <= goal && (astray <==> abs == 0)
      && if abs == 0 then isReadonly && Astray(cur, abs, rel) else Progress(Chain(), cur, abs, rel)
    }

    // One round of the walk: go on to the next cluster, or say why not. From cluster 0 it does
    // not go on.
    method Step(cur: nat, abs: nat, rel: nat, goal: nat, isReadonly: bool) returns (r: Stepped)
      requires Valid() && firstAbsCluNr >= 2 && cur <= goal && rel <= goal
      requires if abs == 0 then isReadonly && Astray(cur, abs, rel) else Progress(Chain(), cur, abs, rel)
      modifies this`previousRelCluNr, this`previousAbsCluNr, this`loopDetectRel, this`loopDetectAbs, fs
      ensures Valid() && Grown() && Conserved()
      ensures isReadonly ==> Chain() == old(Chain())
      ensures r.Next? ==> cur < goal && abs != 0 && r.next != 0 && Progress(Chain(), cur + 1, r.next, rel) == true
      ensures r.Stay? ==> WalkEnds(At(cur), rel, goal, isReadonly, abs == 0) == true
      ensures r.Stop? ==> WalkEnds(r.why, rel, goal, isReadonly, abs == 0) == true && !r.why.At?
    {
      if cur == rel {
        previousRelCluNr, previousAbsCluNr := rel, abs;
      }
      var next := NextLink(cur, abs);
      r := Stay;
      if cur != goal {
        var ok := true;
        if next > fs.lastFat && !isReadonly {
          ok, next := Lengthen(cur, abs, rel);
        }
        if !ok {
          r := Stop(NoSpace);
        } else if cur < rel && next > fs.lastFat {
          r := Stop(PastEnd);
        } else if cur < rel || next == abs + 1 {
          var alarm := LoopDetectStep(cur + 1, next);
          if alarm {
            assert false;
          }
          r := Next(next);
        }
      }
    }

    // At its end, for writing: the chain is extended, and the way so far stays what it was.
    method Lengthen(cur: nat, abs: nat, rel: nat) returns (ok: bool, next: nat)
      requires Valid() && firstAbsCluNr >= 2 && cur + 1 == |Chain()| && Progress(Chain(), cur, abs, rel)
      requires cur >= rel ==> previousRelCluNr == rel && previousAbsCluNr == Chain()[rel]
      modifies fs
      ensures Valid() && Grown() && Conserved() && cur < |Chain()| && Progress(Chain(), cur, abs, rel)
      ensures !ok ==> OutOfSpace() && |Chain()| == cur + 1
      ensures ok ==> cur + 2 == |Chain()| && Chain()[cur + 1] == next && 2 <= next <= fs.lastFat
    {
      ghost var c0 := Chain();
      ok, next := Extend(cur, abs);
      if rel <= cur {
        AdjacentInLonger(c0, Chain(), rel, cur);
      }
    }

    // What the end of a walk means.
    ghost predicate WalkEnds(w: Walked, rel: nat, goal: nat, isReadonly: bool, astray: bool)
      requires |fs.table| >= 2
      reads this, fs
    {
      match w
      case PastEnd => isReadonly && if astray then rel > UNSET else rel >= |Chain()|
      case NoSpace => !isReadonly && OutOfSpace() && |Chain()| <= goal
      case At(cur) =>
        if astray then isReadonly && cur == rel == UNSET && previousAbsCluNr == 0 else
        && rel <= cur <= goal && cur < |Chain()| && Adjacent(Chain(), rel, cur)
        && previousRelCluNr == rel && previousAbsCluNr == Chain()[rel]
        && (cur < goal ==> (cur + 1 == |Chain()| && isReadonly) || (cur + 1 < |Chain()| && Chain()[cur + 1] != Chain()[cur] + 1))
    }

    // All that has happened is that the chain may have grown.
    ghost predicate OnlyGrown(c: seq<nat>, files: Files, total: nat, readable: bool, reserved: int)
      reads this, fs
    {
      && Valid() && c <= Chain() && fs.files == files[firstAbsCluNr := Chain()]
      && FreeCount(fs.table) + |Chain()| == total && (readable ==> fs.Readable()) && fs.preallocatedClusters == reserved
    }

    method Round(cur: nat, abs: nat, rel: nat, goal: nat, isReadonly: bool, ghost c: seq<nat>, ghost files: Files, ghost total: nat, ghost readable: bool, ghost astray: bool) returns (s: Stepped)
      requires OnlyGrown(c, files, total, readable, fs.preallocatedClusters) == true && firstAbsCluNr >= 2 && rel <= goal
      requires OnWay(cur, abs, rel, goal, isReadonly, astray) == true
      modifies this`previousRelCluNr, this`previousAbsCluNr, this`loopDetectRel, this`loopDetectAbs, fs
      ensures OnlyGrown(c, files, total, readable, old(fs.preallocatedClusters)) == true
      ensures isReadonly ==> Chain() == old(Chain())
      ensures s.Next? ==> cur < goal && OnWay(cur + 1, s.next, rel, goal, isReadonly, astray) == true
      ensures s.Stay? ==> WalkEnds(At(cur), rel, goal, isReadonly, astray) == true
      ensures s.Stop? ==> WalkEnds(s.why, rel, goal, isReadonly, astray) == true
    {
      s := Step(cur, abs, rel, goal, isReadonly);
    }

    // Walk the chain from the cached position, or from its beginning, to cluster number goal,
    // but beyond cluster number rel only while the clusters are adjacent.
    method Walk(rel: nat, goal: nat, isReadonly: bool) returns (r: Walked)
      requires Valid() && firstAbsCluNr >= 2 && rel <= goal
      requires FalseStart(rel) ==> isReadonly && MediaIsEnd()
      modifies this`previousRelCluNr, this`previousAbsCluNr, this`loopDetectRel, this`loopDetectAbs, fs
      ensures Valid() && Grown() && Conserved()
      ensures isReadonly ==> Chain() == old(Chain())
      ensures WalkEnds(r, rel, goal, isReadonly, old(FalseStart(rel))) == true
    {
      ChainBegins();
      ghost var total, readable := FreeCount(fs.table) + |Chain()|, fs.Readable();
      ghost var c, files := Chain(), fs.files;
      ghost var astray := FalseStart(rel);
      var cur, abs := 0, firstAbsCluNr;
      if rel >= previousRelCluNr {
        cur, abs := previousRelCluNr, previousAbsCluNr;
      }
      r := PastEnd;
      var walking := true;
      while walking
        invariant OnlyGrown(c, files, total, readable, old(fs.preallocatedClusters)) == true
        invariant walking ==> OnWay(cur, abs, rel, goal, isReadonly, astray) == true
        invariant !walking ==> WalkEnds(r, rel, goal, isReadonly, astray) == true
        invariant isReadonly ==> Chain() == c
        decreases walking, goal - cur
      {
        var s := Round(cur, abs, rel, goal, isReadonly, c, files, total, readable, astray);
        match s
        case Next(next) => cur, abs := cur + 1, next;
        case Stay => r, walking := At(cur), false;
        case Stop(why) => r, walking := why, false;
      }
    }

    // What is left of a request: reading stops at the end of the file.
    function Wanted(where: nat, len: nat, isReadonly: bool): nat
      requires isReadonly ==> where <= fileSize
      reads this
    {
      if isReadonly && len > fileSize - where then fileSize - where else len
    }

    // The walk finds the file to end before a cluster: rightly, unless it has a false start.
    ghost predicate PastChain(rel: nat)
      reads this, fs
    {
      if FalseStart(rel) then rel > UNSET else rel >= |Chain()|
    }

    // The part of the mapping that walks an existing chain.
    method MapOnChain(where: nat, reqLen: nat, isReadonly: bool) returns (m: Mapping)
      requires Valid() && firstAbsCluNr >= 2
      requires 0 < reqLen < TWO32
      requires FalseStart(Div(where, fs.layout.clusBytes)) ==> isReadonly && MediaIsEnd()
      modifies this`previousRelCluNr, this`previousAbsCluNr, this`loopDetectRel, this`loopDetectAbs, fs
      ensures Valid() && Grown() && Conserved()
      ensures isReadonly ==> Chain() == old(Chain())
      ensures m.Nothing? <==> isReadonly && old(PastChain(Div(where, fs.layout.clusBytes)))
      ensures m.Halt? <==> old(FalseStart(Div(where, fs.layout.clusBytes))) && Div(where, fs.layout.clusBytes) == UNSET
      ensures m.Full? ==> !isReadonly && OutOfSpace() && |Chain()| <= LastCluster(where, reqLen, fs.layout.clusBytes)
      ensures m.Mapped? ==> Div(where, fs.layout.clusBytes) < |Chain()| && Maps(fs.layout, Chain(), where, reqLen, m)
      ensures m.Mapped? ==> TruePoint(Chain())
    {
      var w := Walk(Div(where, fs.layout.clusBytes), LastCluster(where, reqLen, fs.layout.clusBytes), isReadonly);
      ChainBegins();
      match w
      case NoSpace => m := Full;
      case PastEnd => m := Nothing;
      case At(cur) => m := ClipToRun(fs.layout, Chain(), where, reqLen, cur, previousAbsCluNr, fs.numClus);
    }

    // Maps len bytes of the file from where on to the disk.
    method NormalMap(where: nat, reqLen: nat, isReadonly: bool) returns (m: Mapping)
      requires Valid()
      requires if isReadonly then where <= fileSize < TWO32 && reqLen < TWO32 else where + reqLen < TWO32
      requires FalseStart(Div(where, fs.layout.clusBytes)) ==> isReadonly && MediaIsEnd()
      requires firstAbsCluNr < 2 && !isReadonly ==> Div(where, fs.layout.clusBytes) < UNSET
      modifies this`firstAbsCluNr, this`previousRelCluNr, this`previousAbsCluNr, this`loopDetectRel, this`loopDetectAbs, fs
      ensures Valid() && Grown() && Conserved()
      ensures isReadonly ==> Chain() == old(Chain())
      ensures m.Nothing? <==> Wanted(where, reqLen, isReadonly) == 0 || (isReadonly && old(PastChain(Div(where, fs.layout.clusBytes))))
      ensures m.Halt? <==> Wanted(where, reqLen, isReadonly) > 0 && old(FalseStart(Div(where, fs.layout.clusBytes))) && Div(where, fs.layout.clusBytes) == UNSET
      ensures m.Full? ==> !isReadonly && reqLen > 0 && OutOfSpace() && |Chain()| <= LastCluster(where, reqLen, fs.layout.clusBytes)
      ensures m.Mapped? ==>
        Div(where, fs.layout.clusBytes) < |Chain()| && Maps(fs.layout, Chain(), where, Wanted(where, reqLen, isReadonly), m)
      ensures m.Mapped? ==> TruePoint(Chain())
    {
      var len := reqLen;
      if isReadonly && len > fileSize - where {
        len := fileSize - where;
      }
      if len == 0 {
        return Nothing;
      }
      if firstAbsCluNr < 2 {
        if isReadonly {
          return Nothing;
        }
        var ok := FirstCluster();
        if !ok {
          return Full;
        }
      }
      m := MapOnChain(where, len, isReadonly);
    }

    // Byte p of the file with the given chain, on a disk with the given contents.
    ghost function ByteAt(bytes: seq<byte>, c: seq<nat>, p: nat): byte
      requires fs.layout.clusBytes > 0 && fs.layout.Holds(c, p)
    {
      Extended(bytes, fs.layout.Address(c, p))
    }

    // An address inside a mapped extent belongs to this file, and to the mapped stretch of it.
    lemma ExtentOwner(where: nat, len: nat, res: nat, h: nat, q: nat)
      requires Valid() && firstAbsCluNr >= 2 && fs.layout.IsExtent(Chain(), where, len, res)
      requires h in fs.files && fs.layout.Holds(fs.files[h], q)
      requires res <= fs.layout.Address(fs.files[h], q) < res + len
      ensures h == firstAbsCluNr && fs.layout.Address(fs.files[h], q) == res + q - where
    {
      var p := where + fs.layout.Address(fs.files[h], q) - res;
      assert fs.layout.Holds(Chain(), p) && fs.layout.Address(Chain(), p) == res + p - where;
      fs.layout.InjectiveAddress(Chain(), p, fs.files[h], q);
      ChainBegins();
      assert Chain()[Div(p, fs.layout.clusBytes)] in Chain();
      assert h != firstAbsCluNr ==> Disjoint(fs.files[firstAbsCluNr], fs.files[h]);
      DivTimes(p, fs.layout.clusBytes);
      DivTimes(q, fs.layout.clusBytes);
    }

    // What a read can come to where there is something to read and a cluster that holds it:
    // nothing is read where the mapping stalls, at the end of the device, or after a false start;
    // then the program stops, or takes the file to end there.
    ghost predicate ReadEnds(astray: bool, where: nat, wanted: nat, ret: int)
      requires fs.layout.clusBytes > 0 && fs.layout.Holds(Chain(), where) && wanted > 0
      reads this, fs, disk
    {
      if astray then ret == if Div(where, fs.layout.clusBytes) == UNSET then HALT else 0
      else if Stalls(Chain(), where, wanted, fs.layout.clusBytes) then ret == 0 || ret == -1
      else ret == 0 ==> fs.layout.Address(Chain(), where) >= |disk.bytes|
    }

    method ReadFile(ilen: nat) returns (ret: int, data: seq<byte>)
      requires Valid() && disk.Valid() && where <= fileSize < TWO32 && ilen < TWO32
      requires FalseStart(Div(where, fs.layout.clusBytes)) ==> MediaIsEnd()
      modifies this`where, this`previousRelCluNr, this`previousAbsCluNr, this`loopDetectRel, this`loopDetectAbs, this`firstAbsCluNr, fs
      ensures Valid() && Grown() && Chain() == old(Chain())
      ensures ret <= ilen && where == old(where) + (if ret > 0 then ret else 0) <= fileSize
      ensures |data| == if ret > 0 then ret else 0
      ensures ret >= 0 || (ret == -1 && !disk.reliable) || (ret == HALT && old(FalseStart(Div(where, fs.layout.clusBytes))))
      ensures 0 < ilen && old(where) < fileSize && fs.layout.Holds(Chain(), old(where)) ==>
        ReadEnds(old(FalseStart(Div(where, fs.layout.clusBytes))), old(where), old(Wanted(where, ilen, true)), ret)
      ensures ret > 0 ==> TruePoint(Chain())
      ensures forall p :: old(where) <= p < old(where) + ret ==>
        fs.layout.Holds(Chain(), p) && data[p - old(where)] == ByteAt(disk.bytes, Chain(), p)
    {
      var m := NormalMap(where, ilen, true);
      ret, data := if m.Halt? then HALT else 0, [];
      if m.Mapped? {
        ret, data := disk.PRead(m.res, m.len);
        if ret >= 0 {
          forall p | where <= p < where + ret
            ensures fs.layout.Holds(Chain(), p) && data[p - where] == ByteAt(disk.bytes, Chain(), p)
          {
            assert fs.layout.Holds(Chain(), p) && fs.layout.Address(Chain(), p) == m.res + p - where;
            assert disk.At(m.res + p - where) == data[p - where];
          }
          where := where + ret;
        }
      }
    }

    // pread_file: a read at a given position.
    method PReadFile(pos: nat, ilen: nat) returns (ret: int, data: seq<byte>)
      requires Valid() && disk.Valid() && pos <= fileSize < TWO32 && ilen < TWO32
      requires FalseStart(Div(pos, fs.layout.clusBytes)) ==> MediaIsEnd()
      modifies this`where, this`previousRelCluNr, this`previousAbsCluNr, this`loopDetectRel, this`loopDetectAbs, this`firstAbsCluNr, fs
      ensures Valid() && Grown() && Chain() == old(Chain()) && where == pos + (if ret > 0 then ret else 0) <= fileSize
      ensures 0 < ilen && pos < fileSize && fs.layout.Holds(Chain(), pos) ==>
        ReadEnds(old(FalseStart(Div(pos, fs.layout.clusBytes))), pos, Wanted(pos, ilen, true), ret)
      ensures ret <= ilen && |data| == if ret > 0 then ret else 0
      ensures forall p :: pos <= p < pos + ret ==> fs.layout.Holds(Chain(), p) && data[p - pos] == ByteAt(disk.bytes, Chain(), p)
      ensures ret > 0 ==> TruePoint(Chain())
    {
      where := pos;
      ret, data := ReadFile(ilen);
    }

    static function FilebytesToClusters(bytes: nat, clusSize: nat): (n: nat)
      requires clusSize > 0
      ensures bytes <= Times(n, clusSize)
      ensures bytes > 0 ==> n > 0 && Times(n - 1, clusSize) < bytes
    {
      DivTimes(bytes, clusSize);
      Div(bytes, clusSize) + if Mod(bytes, clusSize) != 0 then 1 else 0
    }

    // The clusters the announced size needs beyond those of the present size.
    function Needed(): nat
      requires fs.layout.clusBytes > 0
      reads this`preallocatedSize, this`fileSize
    {
      var needed := FilebytesToClusters(preallocatedSize, fs.layout.clusBytes) - FilebytesToClusters(fileSize, fs.layout.clusBytes);
      if needed > 0 then needed else 0
    }

    // This file has reserved what it needs, and all that is reserved can be had, counting for
    // this file the clusters of its chain that its size does not need yet.
    ghost predicate Covered()
      requires fs.layout.clusBytes > 0 && |fs.table| >= 2
      reads this, fs
    {
      && preallocatedClusters == Needed() <= fs.preallocatedClusters
      && fs.preallocatedClusters + FilebytesToClusters(fileSize, fs.layout.clusBytes) <= FreeCount(fs.table) + |Chain()|
    }

    static lemma ClustersMono(a: nat, b: nat, clusBytes: nat)
      requires clusBytes > 0 && a <= b
      ensures FilebytesToClusters(a, clusBytes) <= FilebytesToClusters(b, clusBytes)
    {
      var m, n := FilebytesToClusters(a, clusBytes), FilebytesToClusters(b, clusBytes);
      if m > n {
        TimesMono(n, m - 1, clusBytes);
      }
    }

    // The last cluster of a request is one of those the size needs that the request reaches.
    static lemma LastIsNeeded(where: nat, len: nat, size: nat, clusBytes: nat)
      requires clusBytes > 0 && len > 0 && where + len <= size
      ensures LastCluster(where, len, clusBytes) < FilebytesToClusters(size, clusBytes)
    {
      var n, rel := FilebytesToClusters(size, clusBytes), Div(where, clusBytes);
      var q := Div(Mod(where, clusBytes) + len - 1, clusBytes);
      DivTimes(where, clusBytes);
      DivTimes(Mod(where, clusBytes) + len - 1, clusBytes);
      TimesAdd(rel, q, clusBytes);
      if n <= rel + q {
        TimesMono(n, rel + q, clusBytes);
      }
    }

    // While it is covered, a file whose chain does not reach the announced size finds a free
    // cluster.
    lemma CoveredIsFree(where: nat, len: nat)
      requires Valid() && len > 0 && where + len <= preallocatedSize && Covered()
      requires |Chain()| <= LastCluster(where, len, fs.layout.clusBytes)
      ensures FreeCount(fs.table) > 0
    {
      LastIsNeeded(where, len, preallocatedSize, fs.layout.clusBytes);
    }

    // If no cluster of the chain is missing, what is reserved and backed is covered.
    lemma BackedIsCovered()
      requires Valid() && preallocatedClusters == Needed() <= fs.preallocatedClusters
      requires |Chain()| >= FilebytesToClusters(fileSize, fs.layout.clusBytes)
      ensures fs.Backed() ==> Covered()
    {
    }

    // Announces the size a file is going to have.
    method PreAllocateFile(size: nat) returns (ok: bool)
      requires Valid()
      modifies this`preallocatedSize, this`preallocatedClusters, fs`preallocatedClusters, fs`fatError
      ensures Valid() && preallocatedSize == if size > fileSize && size > old(preallocatedSize) then size else old(preallocatedSize)
      ensures fs.preallocatedClusters - preallocatedClusters == old(fs.preallocatedClusters - preallocatedClusters)
      ensures preallocatedClusters == if ok && preallocatedSize != old(preallocatedSize) then Needed() else old(preallocatedClusters)
    {
      ok := true;
      if size > fileSize && size > preallocatedSize {
        preallocatedSize := size;
        ok := RecalcPreallocSize();
      }
    }

    // Asks for the clusters the announced size still needs, and gives back those in excess.
    method RecalcPreallocSize() returns (ok: bool)
      requires Valid()
      modifies this`preallocatedClusters, fs`preallocatedClusters, fs`fatError
      ensures Valid()
      ensures fs.preallocatedClusters - preallocatedClusters == old(fs.preallocatedClusters - preallocatedClusters)
      ensures preallocatedClusters == if ok then Needed() else old(preallocatedClusters)
      ensures Needed() <= old(preallocatedClusters) ==> ok
    {
      var current := FilebytesToClusters(fileSize, fs.layout.clusBytes);
      var needed := FilebytesToClusters(preallocatedSize, fs.layout.clusBytes);
      var prealloc := if needed < current then 0 else needed - current;
      if prealloc > preallocatedClusters {
        ok := fs.FsPreallocateClusters(prealloc - preallocatedClusters);
        if !ok {
          return;
        }
      } else {
        fs.FsReleasePreallocateClusters(preallocatedClusters - prealloc);
      }
      preallocatedClusters := prealloc;
      ok := true;
    }

    // Stores bytes in a mapped extent; no other byte of any file changes.
    method StoreExtent(res: nat, buf: seq<byte>) returns (ret: int)
      requires Valid() && firstAbsCluNr >= 2 && disk.Valid() && disk.grain == 1
      requires fs.layout.IsExtent(Chain(), where, |buf|, res)
      modifies disk
      ensures disk.Valid() && -1 <= ret <= |buf| && (ret == 0 ==> buf == []) && (disk.reliable ==> ret >= 0)
      ensures forall h: nat, p: nat :: h in fs.files && fs.layout.Holds(fs.files[h], p) ==>
        ByteAt(disk.bytes, fs.files[h], p)
          == if h == firstAbsCluNr && where <= p < where + ret then buf[p - where] else ByteAt(old(disk.bytes), fs.files[h], p)
    {
      forall h: nat, q: nat | h in fs.files && fs.layout.Holds(fs.files[h], q) && res <= fs.layout.Address(fs.files[h], q) < res + |buf|
        ensures h == firstAbsCluNr && fs.layout.Address(fs.files[h], q) == res + q - where
      {
        ExtentOwner(where, |buf|, res, h, q);
      }
      ret := disk.PWrite(res, buf);
      assert forall a: nat :: disk.At(a) == Extended(disk.bytes, a);
    }

    // A write within the announced size is not refused for lack of space.
    method MapToWrite(len: nat) returns (m: Mapping)
      requires Valid() && where + len < TWO32
      requires TruePoint(Chain()) || Div(where, fs.layout.clusBytes) < UNSET
      modifies this`firstAbsCluNr, this`previousRelCluNr, this`previousAbsCluNr, this`loopDetectRel, this`loopDetectAbs, fs
      ensures Valid() && Grown() && !m.Halt? && (m.Nothing? <==> len == 0) && (m.Full? ==> OutOfSpace())
      ensures m.Mapped? ==> Div(where, fs.layout.clusBytes) < |Chain()| && Maps(fs.layout, Chain(), where, len, m)
      ensures old(Covered() && fs.Readable()) && where + len <= preallocatedSize ==> !m.Full? && Covered() == true
    {
      ghost var announced := Covered() && fs.Readable() && where + len <= preallocatedSize;
      m := NormalMap(where, len, false);
      if announced && m.Full? {
        CoveredIsFree(where, len);
      }
    }

    method WriteFile(buf: seq<byte>) returns (ret: int)
      requires Valid() && disk.Valid() && disk.grain == 1 && where < TWO32
      requires TruePoint(Chain()) || Div(where, fs.layout.clusBytes) < UNSET
      modifies this, fs, disk
      ensures Valid() == true && Grown() == true && disk.Valid()
      ensures -2 <= ret <= |buf| && where == old(where) + (if ret > 0 then ret else 0)
      ensures ret == -2 ==> OutOfSpace()
      ensures old(Covered() && fs.Readable()) && old(where) + |buf| <= preallocatedSize < TWO32 ==> ret != -2 && Covered() == true
      ensures ret == -1 ==> !disk.reliable
      ensures ret == 0 && buf != [] && old(where) < TWO32 - 1 ==>
        Stalls(Chain(), old(where), Least(|buf|, TWO32 - 1 - old(where)), fs.layout.clusBytes) == true
      ensures fileSize == old(fileSize) || (ret >= 0 && fileSize == where > old(fileSize))
      ensures ret > 0 ==> fileSize >= where
      ensures forall p: nat :: old(where) <= p < old(where) + ret ==> fs.layout.Holds(Chain(), p)
      ensures forall h: nat, p: nat :: h in fs.files && fs.layout.Holds(fs.files[h], p) ==>
        ByteAt(disk.bytes, fs.files[h], p)
          == if h == firstAbsCluNr && old(where) <= p < old(where) + ret then buf[p - old(where)] else ByteAt(old(disk.bytes), fs.files[h], p)
    {
      var len := Least(|buf|, TWO32 - 1 - where);
      var m := MapToWrite(len);
      ret := if m.Full? then -2 else 0;
      if m.Mapped? {
        ret := StoreMapped(m.res, buf[..m.len]);
      }
    }

    // The mapped part of a write: the bytes are stored, and position and size follow.
    method StoreMapped(res: nat, buf: seq<byte>) returns (ret: int)
      requires Valid() && firstAbsCluNr >= 2 && disk.Valid() && disk.grain == 1
      requires fs.layout.IsExtent(Chain(), where, |buf|, res)
      modifies this`where, this`fileSize, this`preallocatedClusters, fs`preallocatedClusters, fs`fatError, disk
      ensures Valid() && disk.Valid() && -1 <= ret <= |buf| && (ret == 0 ==> buf == []) && (disk.reliable ==> ret >= 0)
      ensures where == old(where) + (if ret > 0 then ret else 0)
      ensures fileSize == if where > old(fileSize) && ret >= 0 then where else old(fileSize)
      ensures old(Covered()) && where <= preallocatedSize ==> Covered() == true
      ensures forall h: nat, p: nat :: h in fs.files && fs.layout.Holds(fs.files[h], p) ==>
        ByteAt(disk.bytes, fs.files[h], p)
          == if h == firstAbsCluNr && old(where) <= p < old(where) + ret then buf[p - old(where)] else ByteAt(old(disk.bytes), fs.files[h], p)
    {
      ret := StoreExtent(res, buf);
      if ret >= 0 {
        Advance(ret);
      }
    }

    // The position moves on, and the size with it, if need be.
    method Advance(bytes: nat)
      requires Valid()
      modifies this`where, this`fileSize, this`preallocatedClusters, fs`preallocatedClusters, fs`fatError
      ensures Valid() && where == old(where) + bytes && fileSize == if where > old(fileSize) then where else old(fileSize)
      ensures old(Covered()) && where <= preallocatedSize ==> Covered()
    {
      if where + bytes > fileSize {
        ClustersMono(fileSize, where + bytes, fs.layout.clusBytes);
        if where + bytes <= preallocatedSize {
          ClustersMono(where + bytes, preallocatedSize, fs.layout.clusBytes);
        }
      }
      where := where + bytes;
      if where > fileSize {
        fileSize := where;
      }
      var _ := RecalcPreallocSize();
    }
  }

  const BIG_CLUSTER: nat := 0x8000
  const MANY_CLUSTERS: nat := 0x2_0000

  // A file that fills 131072 adjacent clusters of 32 KiB, the clusters from number 2 on.
  ghost function BigChain(): (c: seq<nat>)
    ensures |c| == MANY_CLUSTERS && forall i :: 0 <= i < |c| ==> c[i] == i + 2
  {
    seq(MANY_CLUSTERS, i requires 0 <= i < MANY_CLUSTERS => i + 2)
  }

  lemma BigFileStalls()
    ensures Div(0, BIG_CLUSTER) == Mod(0, BIG_CLUSTER) == 0
    ensures Stalls(BigChain(), 0, TWO32 - 1, BIG_CLUSTER)
  {
    var n := MANY_CLUSTERS - 1;
    TimesIsProduct(MANY_CLUSTERS, BIG_CLUSTER);
    TimesIsProduct(n, BIG_CLUSTER);
    DivShift(n, BIG_CLUSTER - 2, BIG_CLUSTER);
    assert LastCluster(0, TWO32 - 1, BIG_CLUSTER) == n;
    RunIsAdjacent(BigChain(), 0, n);
  }

  method BigFile(disk: Store) returns (f: File)
    ensures fresh(f) && fresh(f.fs) && f.Valid() && f.disk == disk && f.where == 0 && f.fileSize == TWO32 - 1
    ensures f.Chain() == BigChain() && f.fs.layout.clusBytes == BIG_CLUSTER && f.MediaIsEnd() && !f.TruePoint(f.Chain())
  {
    var layout := Layout(64, 512, 32, BIG_CLUSTER);
    TimesIsProduct(64, 512);
    var table := seq(MANY_CLUSTERS + 2, i => if i == 0 then 0xfff_fff8 else if i == MANY_CLUSTERS + 1 then 0xfff_ffff else i + 1);
    var fs := new Fs(MANY_CLUSTERS, 0xfff_fff6, 0xfff_ffff, layout, table);
    fs.files := map[2 := BigChain()];
    assert FileChain(table, fs.lastFat, fs.files, 2);
    f := new File(fs, disk, 2, TWO32 - 1);
  }

  method MapWholeFile(f: File) returns (m: Mapping)
    requires f.Valid() && f.Chain() == BigChain() && f.fs.layout.clusBytes == BIG_CLUSTER && f.where == 0 && f.fileSize == TWO32 - 1
    modifies f`firstAbsCluNr, f`previousRelCluNr, f`previousAbsCluNr, f`loopDetectRel, f`loopDetectAbs, f.fs
    ensures f.Valid() == true && f.Chain() == BigChain() && f.TruePoint(BigChain())
    ensures m.Mapped? && m.len == 0
  {
    BigFileStalls();
    m := f.NormalMap(0, TWO32 - 1, true);
  }

  // It does happen: such a file of 4 GiB - 1 bytes, the longest there can be, is asked for all
  // of them at once. The mapping has length 0, and nothing is read.
  method WholeFileStalls(disk: Store) returns (f: File, m: Mapping, ret: int)
    requires disk.Valid() && disk.reliable
    ensures f.Valid() == true && f.disk == disk && f.fileSize == TWO32 - 1 && f.Chain() == BigChain()
    ensures m.Mapped? && m.len == 0 && ret == 0
  {
    f := BigFile(disk);
    m := MapWholeFile(f);
    BigFileStalls();
    var data;
    ret, data := f.ReadFile(TWO32 - 1);
  }

  const FAR: nat := 70000

  // The first read of such a file is one behind 70000 clusters: nothing is read, though the file
  // has that byte. Behind 65535 clusters the program stops.
  method FarReadIsLost(disk: Store, rel: nat) returns (f: File, ret: int)
    requires disk.Valid() && rel in {UNSET, FAR}
    ensures f.Valid() && f.Chain() == BigChain() && f.fs.layout.clusBytes == BIG_CLUSTER && f.disk == disk
    ensures rel * BIG_CLUSTER < f.fileSize && f.fs.layout.Holds(f.Chain(), rel * BIG_CLUSTER)
    ensures ret == if rel == UNSET then HALT else 0
  {
    f := BigFile(disk);
    TimesIsProduct(rel, BIG_CLUSTER);
    DivShift(rel, 0, BIG_CLUSTER);
    assert Div(rel * BIG_CLUSTER, BIG_CLUSTER) == rel;
    var data;
    ret, data := f.PReadFile(rel * BIG_CLUSTER, 1);
  }
}
