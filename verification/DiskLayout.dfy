/** Where clusters, and through them the bytes of files, lie on disk. */
module DiskLayout {
  import opened Arith

  datatype Layout = Layout(clusterSize: nat, sectorSize: nat, clusStart: nat, clusBytes: nat) {
    ghost predicate Valid() {
      clusterSize > 0 && sectorSize > 0 && clusBytes == Times(clusterSize, sectorSize)
    }

    // Disk address of a cluster: clusters follow each other from the first data sector on.
    function Base(cluster: nat): nat
      requires cluster >= 2
    {
      if cluster == 2 then Times(clusStart, sectorSize) else Base(cluster - 1) + clusBytes
    }

    // The address as the source computes it, from sector numbers.
    lemma {:induction false} BaseInSectors(cluster: nat)
      requires Valid() && cluster >= 2
      ensures Base(cluster) == ((cluster - 2) * clusterSize + clusStart) * sectorSize
    {
      TimesIsProduct(clusStart, sectorSize);
      TimesIsProduct(clusterSize, sectorSize);
      if cluster > 2 {
        BaseInSectors(cluster - 1);
        Distribute(cluster - 3, 1, clusterSize);
        Distribute((cluster - 3) * clusterSize + clusStart, clusterSize, sectorSize);
      }
    }

    // The chain is long enough to hold byte p.
    ghost predicate Holds(chain: seq<nat>, p: nat)
      requires clusBytes > 0
    {
      Div(p, clusBytes) < |chain| && chain[Div(p, clusBytes)] >= 2
    }

    // Disk address of byte p of the file with the given chain.
    ghost function Address(chain: seq<nat>, p: nat): nat
      requires clusBytes > 0 && Holds(chain, p)
    {
      Base(chain[Div(p, clusBytes)]) + Mod(p, clusBytes)
    }

    // The len bytes of the file from where on are the len bytes of the disk from res on.
    ghost predicate IsExtent(chain: seq<nat>, where: nat, len: nat, res: nat)
      requires clusBytes > 0
    {
      forall p :: where <= p < where + len ==> Holds(chain, p) && Address(chain, p) == res + p - where
    }

    lemma {:induction false} BaseStep(cluster: nat, q: nat)
      requires cluster >= 2
      ensures Base(cluster + q) == Base(cluster) + Times(q, clusBytes)
    {
      if q > 0 {
        BaseStep(cluster, q - 1);
      }
    }

    lemma BasesApart(x: nat, y: nat)
      requires 2 <= x < y
      ensures Base(x) + clusBytes <= Base(y)
    {
      BaseStep(x, y - x);
      TimesMono(1, y - x, clusBytes);
    }

    // Bytes of different clusters never share an address.
    lemma DistinctAddresses(x: nat, r: nat, y: nat, s: nat)
      requires clusBytes > 0 && x >= 2 && y >= 2 && r < clusBytes && s < clusBytes
      requires Base(x) + r == Base(y) + s
      ensures x == y && r == s
    {
      if x < y {
        BasesApart(x, y);
      } else if y < x {
        BasesApart(y, x);
      }
    }

    // Two bytes of files have one address only if they are the same byte of the same cluster.
    lemma InjectiveAddress(c: seq<nat>, p: nat, d: seq<nat>, q: nat)
      requires clusBytes > 0 && Holds(c, p) && Holds(d, q)
      requires Address(c, p) == Address(d, q)
      ensures c[Div(p, clusBytes)] == d[Div(q, clusBytes)] && Mod(p, clusBytes) == Mod(q, clusBytes)
    {
      DistinctAddresses(c[Div(p, clusBytes)], Mod(p, clusBytes), d[Div(q, clusBytes)], Mod(q, clusBytes));
    }

    lemma RunByte(c: seq<nat>, rel: nat, q: nat, p: nat)
      requires clusBytes > 0 && Div(p, clusBytes) == rel + q < |c|
      requires c[rel] >= 2 && c[rel + q] == c[rel] + q
      ensures Holds(c, p)
      ensures Address(c, p) == Base(c[rel]) + Times(q, clusBytes) + Mod(p, clusBytes)
    {
      BaseStep(c[rel], q);
    }

    // Along a run of adjacent clusters file bytes follow each other on disk.
    lemma RunIsContiguous(c: seq<nat>, where: nat, clusters: nat, len: nat)
      requires clusBytes > 0 && clusters > 0 && Div(where, clusBytes) + clusters <= |c|
      requires var rel := Div(where, clusBytes); c[rel] >= 2 && forall i :: rel <= i < rel + clusters ==> c[i] == c[rel] + i - rel
      requires Mod(where, clusBytes) + len <= Times(clusters, clusBytes)
      ensures IsExtent(c, where, len, Base(c[Div(where, clusBytes)]) + Mod(where, clusBytes))
    {
      var rel, offset := Div(where, clusBytes), Mod(where, clusBytes);
      forall p | where <= p < where + len
        ensures Holds(c, p) && Address(c, p) == Base(c[rel]) + offset + p - where
      {
        var q := PlaceInRun(where, p, clusters);
        RunByte(c, rel, q, p);
      }
    }

    lemma PlaceInRun(where: nat, p: nat, clusters: nat) returns (q: nat)
      requires clusBytes > 0 && where <= p
      requires Mod(where, clusBytes) + p - where < Times(clusters, clusBytes)
      ensures q < clusters && Div(p, clusBytes) == Div(where, clusBytes) + q
      ensures Times(q, clusBytes) + Mod(p, clusBytes) == Mod(where, clusBytes) + p - where
    {
      var x := Mod(where, clusBytes) + p - where;
      q := Div(x, clusBytes);
      DivTimes(where, clusBytes);
      DivTimes(x, clusBytes);
      DivBound(x, clusters, clusBytes);
      DivShift(Div(where, clusBytes), x, clusBytes);
      assert p == Times(Div(where, clusBytes), clusBytes) + x;
    }

    // The byte behind an extent follows it on disk.
    ghost predicate Continues(chain: seq<nat>, where: nat, len: nat, res: nat)
      requires clusBytes > 0
    {
      Holds(chain, where + len) && Address(chain, where + len) == res + len
    }

    // An extent that fills its run up to cluster number cur goes no further.
    lemma RunEnds(c: seq<nat>, where: nat, cur: nat, len: nat)
      requires clusBytes > 0 && Div(where, clusBytes) <= cur < |c|
      requires var rel := Div(where, clusBytes); c[rel] >= 2 && c[cur] == c[rel] + cur - rel
      requires Mod(where, clusBytes) + len == Times(1 + cur - Div(where, clusBytes), clusBytes)
      requires cur + 1 == |c| || c[cur + 1] != c[cur] + 1
      ensures !Continues(c, where, len, Base(c[Div(where, clusBytes)]) + Mod(where, clusBytes))
    {
      var rel := Div(where, clusBytes);
      DivTimes(where, clusBytes);
      TimesAdd(rel, 1 + cur - rel, clusBytes);
      DivShift(cur + 1, 0, clusBytes);
      assert where + len == Times(cur + 1, clusBytes) + 0;
      BaseStep(c[rel], 1 + cur - rel);
      if Continues(c, where, len, Base(c[rel]) + Mod(where, clusBytes)) {
        DistinctAddresses(c[cur + 1], 0, c[cur] + 1, 0);
      }
    }
  }
}
