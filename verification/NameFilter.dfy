/**
 The filter over hashed names in dirCache.c: three planes of 4096 bits, each addressed by
 another rotation of one 32-bit hash. A name that was added is always found again.
 */
module NameFilter {

  type Unit = bv32
  type Name = seq<Unit>

  // Case folding is a parameter: one function for the hash and for comparisons.
  type Folding = Unit -> Unit

  predicate SameName(upper: Folding, a: Name, b: Name) {
    |a| == |b| && forall i :: 0 <= i < |a| ==> upper(a[i]) == upper(b[i])
  }

  function Folded(upper: Folding, a: Name): (f: Name)
    ensures |f| == |a|
  {
    seq(|a|, i requires 0 <= i < |a| => upper(a[i]))
  }

  // Products modulo 2^32, by shifting and adding, over the bits of the second factor.
  function MulBits(a: bv32, b: bv32, bits: nat): bv32
    decreases bits
  {
    if bits == 0 then 0 else (if b & 1 == 1 then a else 0) + MulBits(a << 1, b >> 1, bits - 1)
  }

  function Mul(a: bv32, b: bv32): bv32 {
    MulBits(a, b, 32)
  }

  function Rol(arg: bv32, shift: bv6): bv32
    requires 0 < shift < 32
  {
    (arg << shift) | (arg >> (32 - shift))
  }

  // The loop over the letters, in upper case, from letter number i on.
  function HashLetters(letters: Name, i: bv32, hash: bv32): bv32 {
    if letters == [] then hash
    else
      var c := letters[0];
      HashLetters(letters[1..], i + 1, Rol(hash, 5) ^ Mul(c, c + 2) ^ Mul(i, i + 2))
  }

  function Spread(hash: bv32): bv32 {
    var square := Mul(hash, hash + 2);
    var mixed := square ^ ((square & 0xfff) << 12);
    mixed ^ ((mixed & 0xff000) << 24)
  }

  function CalcHash(upper: Folding, name: Name): bv32 {
    Spread(HashLetters(Folded(upper, name), 0, 0))
  }

  // Names that differ only in case have the same hash.
  lemma HashFoldsCase(upper: Folding, a: Name, b: Name)
    requires SameName(upper, a, b)
    ensures CalcHash(upper, a) == CalcHash(upper, b)
  {
    assert Folded(upper, a) == Folded(upper, b);
  }

  // The bits of a plane that are set; a bit is addressed by the twelve low bits of a hash.
  type Plane = set<bv32>

  datatype Planes = Planes(bm0: Plane, bm1: Plane, bm2: Plane) {
    function Add(hash: bv32): Planes {
      Planes(bm0 + {hash & 0xfff}, bm1 + {Rol(hash, 12) & 0xfff}, bm2 + {Rol(hash, 24) & 0xfff})
    }

    predicate Has(hash: bv32) {
      hash & 0xfff in bm0 && Rol(hash, 12) & 0xfff in bm1 && Rol(hash, 24) & 0xfff in bm2
    }

    predicate Within(p: Planes) {
      bm0 <= p.bm0 && bm1 <= p.bm1 && bm2 <= p.bm2
    }
  }

  // A hash that does not see case, such as CalcHash.
  type Hash = Name -> bv32

  ghost predicate Respects(upper: Folding, hash: Hash) {
    forall a, b {:trigger hash(a), hash(b)} :: SameName(upper, a, b) ==> hash(a) == hash(b)
  }

  lemma CalcHashRespects(upper: Folding)
    ensures Respects(upper, name => CalcHash(upper, name))
  {
    forall a, b | SameName(upper, a, b)
      ensures CalcHash(upper, a) == CalcHash(upper, b)
    {
      HashFoldsCase(upper, a, b);
    }
  }

  predicate IsHashed(hash: Hash, planes: Planes, name: Name) {
    planes.Has(hash(name))
  }

  // No false negatives: once a name has been added, every spelling of it is found, whatever
  // is added later.
  lemma AddedIsFound(upper: Folding, hash: Hash, planes: Planes, later: Planes, name: Name, spelling: Name)
    requires Respects(upper, hash) && SameName(upper, name, spelling)
    requires planes.Add(hash(name)).Within(later)
    ensures IsHashed(hash, later, spelling)
  {
  }
}
