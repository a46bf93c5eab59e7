/**
 Loop detection in cluster chains (file.c): remember one cluster at positions 1, 3, 7, 15, ...
 and report a loop when it is met again. The chain is the orbit of a start cluster under the
 decoding of an arbitrary, possibly damaged, file allocation table.
 */
module LoopDetect {
  import opened Arith

  // One detection step: has the remembered cluster come back, and what to remember next.
  predicate Detected(oldrel: nat, rel: nat, oldabs: nat, absol: nat, alarm: bool, newrel: nat, newabs: nat) {
    && (alarm <==> oldrel != 0 && rel > oldrel && absol == oldabs)
    && (alarm || rel < 2 * oldrel + 1 ==> newrel == oldrel && newabs == oldabs)
    && (!alarm && rel >= 2 * oldrel + 1 ==> newrel == rel && newabs == absol)
  }

  method MtLoopDetect(oldrel: nat, rel: nat, oldabs: nat, absol: nat)
    returns (alarm: bool, newrel: nat, newabs: nat)
    ensures Detected(oldrel, rel, oldabs, absol, alarm, newrel, newabs)
  {
    alarm, newrel, newabs := false, oldrel, oldabs;
    if oldrel != 0 && rel > oldrel && absol == oldabs {
      return true, oldrel, oldabs;
    }
    if rel >= 2 * oldrel + 1 {
      newrel, newabs := rel, absol;
    }
  }

  // The cluster reached from block after k links.
  ghost function Orbit(next: nat -> nat, block: nat, k: nat): nat {
    if k == 0 then block else next(Orbit(next, block, k - 1))
  }

  // The walk goes on from here.
  predicate InChain(lastFat: nat, block: nat) {
    block <= lastFat && block != 1 && block != 0
  }

  // The chain is loop-free and has n clusters.
  ghost predicate HasLength(next: nat -> nat, lastFat: nat, block: nat, n: nat) {
    && !InChain(lastFat, Orbit(next, block, n))
    && forall j :: 0 <= j < n ==> InChain(lastFat, Orbit(next, block, j))
  }

  // The chain comes back to its cluster mu after lam more links.
  ghost predicate Repeats(next: nat -> nat, block: nat, mu: nat, lam: nat) {
    lam > 0 && Orbit(next, block, mu + lam) == Orbit(next, block, mu)
  }

  lemma {:induction false} Periodic(next: nat -> nat, block: nat, mu: nat, lam: nat, k: nat)
    requires Repeats(next, block, mu, lam) && k >= mu
    ensures Orbit(next, block, k + lam) == Orbit(next, block, k)
    decreases k
  {
    if k > mu {
      Periodic(next, block, mu, lam, k - 1);
    }
  }

  // Whatever is met later was met before the chain first came back.
  lemma {:induction false} MetBefore(next: nat -> nat, block: nat, mu: nat, lam: nat, k: nat) returns (j: nat)
    requires Repeats(next, block, mu, lam)
    ensures j < mu + lam && Orbit(next, block, j) == Orbit(next, block, k)
    decreases k
  {
    if k < mu + lam {
      j := k;
    } else {
      Periodic(next, block, mu, lam, k - lam);
      j := MetBefore(next, block, mu, lam, k - lam);
    }
  }

  // A chain that ends does not repeat, and one that repeats does not end.
  lemma EndsOrRepeats(next: nat -> nat, lastFat: nat, block: nat, n: nat, mu: nat, lam: nat)
    requires HasLength(next, lastFat, block, n) && Repeats(next, block, mu, lam)
    ensures mu + lam > n
  {
    if mu + lam <= n {
      var j := MetBefore(next, block, mu, lam, n);
    }
  }

  ghost function Members(path: seq<nat>): (s: set<nat>)
    ensures forall x :: x in s <==> x in path
  {
    set x | x in path
  }

  lemma {:induction false} DistinctCount(path: seq<nat>)
    requires forall i, j :: 0 <= i < j < |path| ==> path[i] != path[j]
    ensures |Members(path)| == |path|
  {
    if path == [] {
      assert Members(path) == {};
    } else {
      var n := |path| - 1;
      DistinctCount(path[..n]);
      assert Members(path) == Members(path[..n]) + {path[n]};
    }
  }

  lemma {:induction false} Explore(next: nat -> nat, lastFat: nat, block: nat, path: seq<nat>)
    returns (n: nat, mu: nat, lam: nat)
    requires forall i, j :: 0 <= i < j < |path| ==> path[i] != path[j]
    requires forall j :: 0 <= j < |path| ==> path[j] == Orbit(next, block, j) && InChain(lastFat, path[j])
    ensures HasLength(next, lastFat, block, n) || Repeats(next, block, mu, lam)
    ensures n <= lastFat + 1 && mu + lam <= lastFat + 1
    decreases lastFat + 2 - |path|
  {
    DistinctCount(path);
    BoundedSetSize(Members(path), lastFat + 1);
    var x := Orbit(next, block, |path|);
    n, mu, lam := 0, 0, 0;
    if !InChain(lastFat, x) {
      n := |path|;
    } else if x in path {
      mu :| 0 <= mu < |path| && path[mu] == x;
      lam := |path| - mu;
    } else {
      n, mu, lam := Explore(next, lastFat, block, path + [x]);
    }
  }

  // Every chain ends or repeats within lastFat + 1 clusters.
  lemma ShortOrRepeating(next: nat -> nat, lastFat: nat, block: nat) returns (n: nat, mu: nat, lam: nat)
    ensures HasLength(next, lastFat, block, n) || Repeats(next, block, mu, lam)
    ensures n <= lastFat + 1 && mu + lam <= lastFat + 1
  {
    n, mu, lam := Explore(next, lastFat, block, []);
  }

  // No repetition has escaped notice between the remembered position and rel.
  ghost predicate Unnoticed(next: nat -> nat, block: nat, oldrel: nat, rel: nat) {
    && oldrel <= rel <= 2 * oldrel
    && (forall j :: oldrel < j <= rel ==> Orbit(next, block, j) != Orbit(next, block, oldrel))
    && (forall mu: nat, lam: nat :: Repeats(next, block, mu, lam) ==> oldrel < 2 * (mu + lam))
  }

  lemma UnnoticedIsEarly(next: nat -> nat, block: nat, oldrel: nat, rel: nat, mu: nat, lam: nat)
    requires Unnoticed(next, block, oldrel, rel) && Repeats(next, block, mu, lam)
    ensures rel < 3 * (mu + lam)
  {
    if oldrel >= mu {
      Periodic(next, block, mu, lam, oldrel);
    }
  }

  // Moving the remembered position from p to 2p + 1 without an alarm in between.
  lemma Remember(next: nat -> nat, block: nat, p: nat)
    requires Unnoticed(next, block, p, 2 * p)
    requires p != 0 ==> Orbit(next, block, 2 * p + 1) != Orbit(next, block, p)
    ensures Unnoticed(next, block, 2 * p + 1, 2 * p + 1)
  {
    forall mu: nat, lam: nat | Repeats(next, block, mu, lam)
      ensures 2 * p + 1 < 2 * (mu + lam)
    {
      if p >= mu && p + 1 >= lam && p > 0 {
        Periodic(next, block, mu, lam, p);
        assert Orbit(next, block, p + lam) == Orbit(next, block, p);
      }
    }
  }

  // The position remembered is one the walk has come by.
  ghost predicate OnWay(next: nat -> nat, block: nat, rel: nat, absol: nat) {
    rel != 0 ==> absol == Orbit(next, block, rel)
  }

  // A step raises the alarm exactly if the walk has come back to the cluster remembered;
  // otherwise no repetition has escaped notice, wherever the mark is now.
  lemma StepIsSound(next: nat -> nat, block: nat, oldrel: nat, rel: nat, oldabs: nat, absol: nat, alarm: bool, newrel: nat, newabs: nat)
    requires rel > 0 && Unnoticed(next, block, oldrel, rel - 1) && OnWay(next, block, oldrel, oldabs)
    requires absol == Orbit(next, block, rel) && Detected(oldrel, rel, oldabs, absol, alarm, newrel, newabs)
    ensures alarm <==> 0 < oldrel < rel && Repeats(next, block, oldrel, rel - oldrel)
    ensures !alarm ==> Unnoticed(next, block, newrel, rel) && OnWay(next, block, newrel, newabs)
  {
    if !alarm && newrel != oldrel {
      Remember(next, block, oldrel);
    }
  }

  // No repetition is so short that a walk of rel clusters should have found it earlier.
  ghost predicate WithinBound(next: nat -> nat, first: nat, rel: nat) {
    forall p: nat, q: nat {:trigger Repeats(next, first, p, q)} :: Repeats(next, first, p, q) ==> rel <= 3 * (p + q + 1)
  }

  lemma AlarmInTime(next: nat -> nat, first: nat, oldrel: nat, rel: nat)
    requires Unnoticed(next, first, oldrel, rel)
    ensures WithinBound(next, first, rel + 1)
  {
    forall p: nat, q: nat | Repeats(next, first, p, q)
      ensures rel + 1 <= 3 * (p + q + 1)
    {
      UnnoticedIsEarly(next, first, oldrel, rel, p, q);
    }
  }

  // A walk that has met neither the end nor a repetition cannot be long.
  lemma StillShort(next: nat -> nat, lastFat: nat, first: nat, oldrel: nat, rel: nat, n: nat, mu: nat, lam: nat)
    requires HasLength(next, lastFat, first, n) || Repeats(next, first, mu, lam)
    requires n <= lastFat + 1 && mu + lam <= lastFat + 1
    requires Unnoticed(next, first, oldrel, rel) && forall j :: 0 <= j <= rel ==> InChain(lastFat, Orbit(next, first, j))
    ensures rel < 3 * (lastFat + 2)
  {
    if HasLength(next, lastFat, first, n) {
      assert rel < n;
    } else {
      UnnoticedIsEarly(next, first, oldrel, rel, mu, lam);
    }
  }

  // The walk has gone rel links and is at block, or at 1 after an alarm.
  ghost predicate Walking(next: nat -> nat, lastFat: nat, first: nat, block: nat, rel: nat, oldrel: nat, oldabs: nat, looped: bool) {
    && (forall j :: 0 <= j < rel ==> InChain(lastFat, Orbit(next, first, j)))
    && (if looped then block == 1 && LoopSeen(next, first, oldrel, rel)
        else block == Orbit(next, first, rel) && Unnoticed(next, first, oldrel, rel) && OnWay(next, first, oldrel, oldabs))
  }

  ghost predicate LoopSeen(next: nat -> nat, first: nat, oldrel: nat, rel: nat) {
    oldrel < rel && Repeats(next, first, oldrel, rel - oldrel) && WithinBound(next, first, rel)
  }

  // Counts the clusters of a chain, stopping at a loop.
  method MtCountBlocks(next: nat -> nat, lastFat: nat, first: nat) returns (blocks: nat)
    ensures forall n :: HasLength(next, lastFat, first, n) ==> blocks == n
    ensures forall mu: nat, lam: nat :: Repeats(next, first, mu, lam) ==> blocks <= 3 * (mu + lam + 1)
  {
    ghost var n, mu, lam := ShortOrRepeating(next, lastFat, first);
    var block: nat, rel: nat, oldabs: nat, oldrel: nat := first, 0, 0, 0;
    ghost var looped := false;
    blocks := 0;
    while block <= lastFat && block != 1 && block != 0
      invariant blocks == rel && Walking(next, lastFat, first, block, rel, oldrel, oldabs, looped)
      decreases 3 * (lastFat + 2) - rel
    {
      StillShort(next, lastFat, first, oldrel, rel, n, mu, lam);
      blocks := blocks + 1;
      block := next(block);
      rel := rel + 1;
      var alarm, newrel, newabs := MtLoopDetect(oldrel, rel, oldabs, block);
      StepIsSound(next, first, oldrel, rel, oldabs, block, alarm, newrel, newabs);
      if alarm {
        AlarmInTime(next, first, oldrel, rel - 1);
        looped := true;
        block := 1;
      }
      oldrel, oldabs := newrel, newabs;
    }
    CountIsRight(next, lastFat, first, block, blocks, oldrel, looped);
  }

  // The count when the walk is over, at a loop or at the end.
  lemma CountIsRight(next: nat -> nat, lastFat: nat, first: nat, block: nat, rel: nat, oldrel: nat, looped: bool)
    requires looped ==> LoopSeen(next, first, oldrel, rel)
    requires !looped ==> block == Orbit(next, first, rel) && !InChain(lastFat, block)
    requires forall j :: 0 <= j < rel ==> InChain(lastFat, Orbit(next, first, j))
    ensures forall n :: HasLength(next, lastFat, first, n) ==> rel == n
    ensures forall mu: nat, lam: nat :: Repeats(next, first, mu, lam) ==> rel <= 3 * (mu + lam + 1)
  {
    forall m | HasLength(next, lastFat, first, m)
      ensures rel == m
    {
      if looped {
        EndsOrRepeats(next, lastFat, first, m, oldrel, rel - oldrel);
      }
    }
    forall p: nat, q: nat | Repeats(next, first, p, q)
      ensures rel <= 3 * (p + q + 1)
    {
      if !looped {
        EndsOrRepeats(next, lastFat, first, rel, p, q);
      }
    }
  }
}
