/**
 Long names in directory entries (vfat.c): a name is spread over entries of 13 units each,
 which carry a checksum of the short name and may be read back in any order.
 */
module VfatNames {
  import opened Store

  const VSE_NAMELEN: nat := 13
  const MAX_VFAT_SUBENTRIES: nat := 20
  const VBUFSIZE: nat := 261

  // A unit of a name, 16 bits wide.
  newtype unit = x: int | 0 <= x < 0x1_0000

  // One entry: its number with a mark on the last one, the checksum and three pieces of text.
  datatype Vse = Vse(id: nat, sum: nat, text1: seq<byte>, text2: seq<byte>, text3: seq<byte>)

  // The checksum: rotate by one bit, add a byte.

  // Rotating back, the highest bit becomes the lowest, gives what was rotated.
  function Rotated(sum: nat): (r: nat)
    ensures sum < 0x100 ==> r < 0x100 && sum == 2 * (r % 0x80) + r / 0x80
  {
    (if sum % 2 == 1 then 0x80 else 0) + sum / 2
  }

  function Sum(bytes: seq<byte>): (s: nat)
    ensures s < 256
  {
    if bytes == [] then 0 else (Rotated(Sum(bytes[..|bytes| - 1])) + bytes[|bytes| - 1] as nat) % 256
  }

  // The checksum the specification of long names asks for: rotate to the right by one bit and
  // add, byte after byte. Each sum before a step is the left rotation of what the byte is added to.
  ghost predicate IsSum(bytes: seq<byte>, sum: nat) {
    if bytes == [] then sum == 0
    else
      exists rotated: nat {:trigger LeftRotation(rotated)} ::
        && rotated < 0x100 && sum == (rotated + bytes[|bytes| - 1] as nat) % 0x100
        && IsSum(bytes[..|bytes| - 1], LeftRotation(rotated))
  }

  // Bit 7 becomes bit 0, the others go up by one.
  function LeftRotation(b: nat): nat {
    2 * (b % 0x80) + b / 0x80
  }

  lemma LeftRotationUndone(b: nat, c: nat)
    requires b < 0x100 && c < 0x100
    ensures LeftRotation(b) < 0x100 && LeftRotation(Rotated(b)) == b && (LeftRotation(b) == LeftRotation(c) ==> b == c)
  {
    BitsMoved(b);
    BitsMoved(c);
  }

  lemma BitsMoved(b: nat)
    requires b < 0x100
    ensures LeftRotation(b) < 0x100 && LeftRotation(b) / 2 == b % 0x80 && LeftRotation(b) % 2 == b / 0x80
  {
    assert b / 0x80 < 2;
  }

  lemma RotationIs(b: nat, r: nat)
    requires b < 0x100 && r < 0x100 && LeftRotation(r) == b
    ensures r == Rotated(b)
  {
    LeftRotationUndone(b, 0);
    LeftRotationUndone(r, Rotated(b));
  }

  lemma {:induction false} SumIsSum(bytes: seq<byte>)
    ensures IsSum(bytes, Sum(bytes))
  {
    if bytes != [] {
      var before := bytes[..|bytes| - 1];
      SumIsSum(before);
      LeftRotationUndone(Sum(before), 0);
      OneMore(bytes, Rotated(Sum(before)), Sum(bytes));
    }
  }

  lemma OneMore(bytes: seq<byte>, rotated: nat, sum: nat)
    requires bytes != [] && rotated < 0x100 && IsSum(bytes[..|bytes| - 1], LeftRotation(rotated))
    requires sum == (rotated + bytes[|bytes| - 1] as nat) % 0x100
    ensures IsSum(bytes, sum)
  {
  }

  // No other number is.
  lemma {:induction false} SumIsUnique(bytes: seq<byte>, s: nat)
    requires IsSum(bytes, s)
    ensures s == Sum(bytes)
  {
    if bytes != [] {
      var before, b := bytes[..|bytes| - 1], bytes[|bytes| - 1];
      var rotated: nat :| rotated < 0x100 && s == (rotated + b as nat) % 0x100 && IsSum(before, LeftRotation(rotated));
      SumIsUnique(before, LeftRotation(rotated));
      RotationIs(Sum(before), rotated);
    }
  }

  // The sums after each byte.
  ghost predicate Partial(n: seq<byte>, sums: seq<nat>, k: nat) {
    k < |n| && k + 1 < |sums| && sums[k + 1] == (Rotated(sums[k]) + n[k] as nat) % 0x100
  }

  lemma {:induction false} SumsAre(n: seq<byte>, sums: seq<nat>, i: nat)
    requires i <= |n| && |sums| == |n| + 1 && sums[0] == 0
    requires forall k: nat {:trigger Partial(n, sums, k)} :: k < |n| ==> Partial(n, sums, k)
    ensures Sum(n[..i]) == sums[i]
  {
    if i > 0 {
      SumsAre(n, sums, i - 1);
      assert n[..i][..i - 1] == n[..i - 1] && Partial(n, sums, i - 1);
    }
  }

  // The checksum of FOO     TXT.
  lemma SumOfFooTxt(n: seq<byte>)
    requires n == [0x46, 0x4f, 0x4f, 0x20, 0x20, 0x20, 0x20, 0x20, 0x54, 0x58, 0x54]
    ensures Sum(n) == 0x65
  {
    var sums := [0, 0x46, 0x72, 0x88, 0x64, 0x52, 0x49, 0xc4, 0x82, 0x95, 0x22, 0x65];
    SumsAre(n, sums, 11);
    assert n[..11] == n;
  }

  method SumShortname(name: seq<byte>) returns (sum: nat)
    requires |name| == 11
    ensures sum == Sum(name) && IsSum(name, sum)
    ensures name == [0x46, 0x4f, 0x4f, 0x20, 0x20, 0x20, 0x20, 0x20, 0x54, 0x58, 0x54] ==> sum == 0x65
  {
    sum := 0;
    for i := 0 to 11
      invariant sum == Sum(name[..i])
    {
      assert name[..i + 1][..i] == name[..i];
      sum := ((if sum % 2 == 1 then 0x80 else 0) + sum / 2 + name[i] as nat) % 256;
    }
    assert name[..11] == name;
    SumIsRight(name, sum);
  }

  // There is one such checksum; that of FOO     TXT is 0x65.
  lemma SumIsRight(name: seq<byte>, s: nat)
    ensures IsSum(name, s) <==> s == Sum(name)
    ensures name == [0x46, 0x4f, 0x4f, 0x20, 0x20, 0x20, 0x20, 0x20, 0x54, 0x58, 0x54] ==> Sum(name) == 0x65
  {
    SumIsSum(name);
    if IsSum(name, s) {
      SumIsUnique(name, s);
    }
    if name == [0x46, 0x4f, 0x4f, 0x20, 0x20, 0x20, 0x20, 0x20, 0x54, 0x58, 0x54] {
      SumOfFooTxt(name);
    }
  }

  lemma RotationLosesNothing(a: nat, b: nat, c: byte, d: byte)
    requires a < 256 && b < 256
    requires if a == b then c != d else c == d
    ensures (Rotated(a) + c as nat) % 256 != (Rotated(b) + d as nat) % 256
  {
    if a != b {
      assert a / 2 != b / 2 || a % 2 != b % 2;
      assert Rotated(a) != Rotated(b);
    }
    assert Rotated(a) < 256 && Rotated(b) < 256;
  }

  // Names that differ in one byte have different checksums.
  lemma {:induction false} SumTellsOneByte(a: seq<byte>, b: seq<byte>, k: nat)
    requires |a| == |b| && k < |a| && a[k] != b[k]
    requires forall i :: 0 <= i < |a| && i != k ==> a[i] == b[i]
    ensures Sum(a) != Sum(b)
  {
    var n := |a| - 1;
    if k == n {
      assert a[..n] == b[..n];
    } else {
      SumTellsOneByte(a[..n], b[..n], k);
    }
    RotationLosesNothing(Sum(a[..n]), Sum(b[..n]), a[n], b[n]);
  }

  // Writing.

  // What is written at position p: the name, a zero behind it, and then 0xffff.
  function UnitAt(name: seq<unit>, p: nat): unit {
    if p < |name| then name[p] else if p == |name| then 0 else 0xffff
  }

  function LowByte(u: unit): byte {
    (u as int % 256) as byte
  }

  function HighByte(u: unit): byte {
    (u as int / 256) as byte
  }

  function FromBytes(low: byte, high: byte): unit {
    (low as int + 256 * high as int) as unit
  }

  // Names are C strings.
  ghost predicate ZeroFree(name: seq<unit>) {
    forall i :: 0 <= i < |name| ==> name[i] != 0
  }

  // The bytes of units first, ..., first + num - 1.
  function TextOf(name: seq<unit>, first: nat, num: nat): (text: seq<byte>)
    ensures |text| == 2 * num
  {
    if num == 0 then []
    else
      var u := UnitAt(name, first + num - 1);
      TextOf(name, first, num - 1) + [LowByte(u), HighByte(u)]
  }

  // unicode_write: end is set once the zero has been written.
  method UnicodeWrite(name: seq<unit>, first: nat, num: nat, end: bool) returns (text: seq<byte>, end': bool)
    requires ZeroFree(name) && (end <==> first > |name|)
    ensures text == TextOf(name, first, num)
    ensures end' <==> first + num > |name|
  {
    text, end' := [], end;
    for j := 0 to num
      invariant text == TextOf(name, first, j)
      invariant end' <==> first + j > |name|
    {
      if end' {
        text := text + [0xff, 0xff];
      } else {
        var u: unit := if first + j < |name| then name[first + j] else 0;
        text := text + [LowByte(u), HighByte(u)];
        if u == 0 {
          end' := true;
        }
      }
    }
  }

  // unicode_read puts units of text into a buffer.
  method UnicodeRead(text: seq<byte>, out: array<unit>, at: nat, num: nat)
    requires |text| == 2 * num && at + num <= out.Length
    modifies out
    ensures forall i :: 0 <= i < out.Length && !(at <= i < at + num) ==> out[i] == old(out[i])
    ensures forall i :: at <= i < at + num ==> out[i] == FromBytes(text[2 * (i - at)], text[2 * (i - at) + 1])
  {
    for j := 0 to num
      invariant forall i :: 0 <= i < out.Length && !(at <= i < at + j) ==> out[i] == old(out[i])
      invariant forall i :: at <= i < at + j ==> out[i] == FromBytes(text[2 * (i - at)], text[2 * (i - at) + 1])
    {
      out[at + j] := FromBytes(text[2 * j], text[2 * j + 1]);
    }
  }

  // Reading back what was written.
  lemma {:induction false} TextRoundTrip(name: seq<unit>, first: nat, num: nat, j: nat)
    requires j < num
    ensures FromBytes(TextOf(name, first, num)[2 * j], TextOf(name, first, num)[2 * j + 1]) == UnitAt(name, first + j)
  {
    if j < num - 1 {
      TextRoundTrip(name, first, num - 1, j);
    }
  }

  // The number of entries for a name.
  function EntryCount(length: nat): nat {
    (length + VSE_NAMELEN - 1) / VSE_NAMELEN
  }

  // The entry with a given number.
  function EntryFor(name: seq<unit>, sum: nat, id: nat): Vse
    requires id >= 1
  {
    var first := (id - 1) * VSE_NAMELEN;
    Vse(if id == EntryCount(|name|) then id + 0x40 else id, sum, TextOf(name, first, 5), TextOf(name, first + 5, 6), TextOf(name, first + 11, 2))
  }

  lemma LastPart(length: nat, id: nat)
    requires 1 <= id && 13 * (id - 1) < length
    ensures id == EntryCount(length) <==> length <= 13 * id
  {
  }

  // An entry, byte by byte: five units, six and two, low byte first; behind the name there are
  // a zero and then 0xffff. The last entry is marked.
  lemma EntrySpelled(name: seq<unit>, sum: nat, id: nat, j: nat)
    requires 1 <= id && 13 * (id - 1) < |name| && j < 13
    ensures var e := EntryFor(name, sum, id);
      e.id == (if |name| <= 13 * id then id + 64 else id) && e.sum == sum && |e.text1| == 10 && |e.text2| == 12 && |e.text3| == 4
    ensures var e, p := EntryFor(name, sum, id), 13 * (id - 1) + j;
      (if j < 5 then e.text1[2 * j] as nat + 0x100 * e.text1[2 * j + 1] as nat
        else if j < 11 then e.text2[2 * (j - 5)] as nat + 0x100 * e.text2[2 * (j - 5) + 1] as nat
        else e.text3[2 * (j - 11)] as nat + 0x100 * e.text3[2 * (j - 11) + 1] as nat)
      == if p < |name| then name[p] as nat else if p == |name| then 0 else 0xffff
  {
    var e, first := EntryFor(name, sum, id), 13 * (id - 1);
    LastPart(|name|, id);
    if j < 5 {
      UnitSpelled(name, first, 5, j, e.text1);
    } else if j < 11 {
      UnitSpelled(name, first + 5, 6, j - 5, e.text2);
    } else {
      UnitSpelled(name, first + 11, 2, j - 11, e.text3);
    }
  }

  lemma UnitSpelled(name: seq<unit>, first: nat, num: nat, j: nat, text: seq<byte>)
    requires j < num && text == TextOf(name, first, num)
    ensures var p := first + j;
      text[2 * j] as nat + 0x100 * text[2 * j + 1] as nat == if p < |name| then name[p] as nat else if p == |name| then 0 else 0xffff
  {
    TextRoundTrip(name, first, num, j);
  }

  // write_vfat: the entries in the order in which they lie on the disk, last part first.
  method WriteVfat(name: seq<unit>, shortName: seq<byte>) returns (entries: seq<Vse>)
    requires 1 <= |name| <= 255 && ZeroFree(name) && |shortName| == 11
    ensures |entries| == EntryCount(|name|) <= MAX_VFAT_SUBENTRIES
    ensures forall k :: 0 <= k < |entries| ==> entries[k] == EntryFor(name, Sum(shortName), |entries| - k)
    ensures forall k :: 0 <= k < |entries| ==> IsSum(shortName, entries[k].sum)
  {
    var sum := SumShortname(shortName);
    entries := WriteEntries(name, sum);
  }

  method WriteEntries(name: seq<unit>, sum: nat) returns (entries: seq<Vse>)
    requires 1 <= |name| <= 255 && ZeroFree(name)
    ensures |entries| == EntryCount(|name|) <= MAX_VFAT_SUBENTRIES
    ensures forall k :: 0 <= k < |entries| ==> entries[k] == EntryFor(name, sum, |entries| - k)
  {
    var num := EntryCount(|name|);
    entries := [];
    var id: nat := num;
    while id > 0
      invariant id <= num <= 20 && |entries| == num - id
      invariant forall k :: 0 <= k < |entries| ==> entries[k] == EntryFor(name, sum, num - k)
    {
      var c := (id - 1) * VSE_NAMELEN;
      assert c <= |name|;
      var end, text1, text2, text3 := false, [], [], [];
      text1, end := UnicodeWrite(name, c, 5, end);
      text2, end := UnicodeWrite(name, c + 5, 6, end);
      text3, end := UnicodeWrite(name, c + 11, 2, end);
      var vse := Vse(if id == num then id + 0x40 else id, sum, text1, text2, text3);
      assert vse == EntryFor(name, sum, id);
      entries := entries + [vse];
      id := id - 1;
    }
  }

  // vfat_state: what has been gathered from the entries before a short name.
  class VfatState {
    const name: array<unit>
    var status: set<nat>        // numbers of the entries seen
    var subentries: nat         // number of the last entry, 0 if not seen
    var sum: nat
    var present: bool

    ghost predicate Valid()
      reads this
    {
      name.Length == VBUFSIZE && subentries <= MAX_VFAT_SUBENTRIES
    }

    constructor (sum: nat)
      ensures Valid() && status == {} && subentries == 0 && !present && fresh(name)
    {
      name := new unit[VBUFSIZE];
      status, subentries, this.sum, present := {}, 0, sum, false;
    }

    method ClearVfat()
      modifies this
      ensures status == {} && subentries == 0 && !present && sum == old(sum)
    {
      status, subentries, present := {}, 0, false;
    }

    // parse_vses: entries with another checksum begin a new name.
    method ParseVses(vse: Vse)
      requires Valid() && vse.id % 32 > 0
      requires |vse.text1| == 10 && |vse.text2| == 12 && |vse.text3| == 4
      modifies this, name
      ensures Valid()
      ensures vse.id % 32 > MAX_VFAT_SUBENTRIES ==> unchanged(this) && unchanged(name)
      ensures vse.id % 32 <= MAX_VFAT_SUBENTRIES ==>
        && sum == vse.sum && status == (if old(sum) == vse.sum then old(status) else {}) + {vse.id % 32}
        && subentries == (if vse.id / 64 % 2 == 1 then vse.id % 32 else if old(sum) == vse.sum then old(subentries) else 0)
        && present == (old(sum) == vse.sum && old(present))
      ensures vse.id % 32 <= MAX_VFAT_SUBENTRIES ==> PartFrom(vse, VSE_NAMELEN * (vse.id % 32 - 1))
      ensures forall p {:trigger name[p]} :: 0 <= p < VBUFSIZE && (p < VSE_NAMELEN * (vse.id % 32 - 1) || p >= VSE_NAMELEN * (vse.id % 32)) ==>
        name[p] == old(name[p]) || (p == VSE_NAMELEN * (vse.id % 32) && vse.id / 64 % 2 == 1)
    {
      var id, lastFlag := vse.id % 32, vse.id / 64 % 2 == 1;
      if id > MAX_VFAT_SUBENTRIES {
        return;
      }
      if sum != vse.sum {
        ClearVfat();
        sum := vse.sum;
      }
      status := status + {id};
      if lastFlag {
        subentries := id;
      }
      var c := VSE_NAMELEN * (id - 1);
      ReadText(vse, c);
      if lastFlag {
        name[c + 13] := 0;
      }
    }

    method ReadText(vse: Vse, c: nat)
      requires name.Length == VBUFSIZE && c + 13 <= VBUFSIZE
      requires |vse.text1| == 10 && |vse.text2| == 12 && |vse.text3| == 4
      modifies name
      ensures PartFrom(vse, c)
      ensures forall p {:trigger name[p]} :: 0 <= p < VBUFSIZE && !(c <= p < c + 13) ==> name[p] == old(name[p])
    {
      UnicodeRead(vse.text1, name, c, 5);
      UnicodeRead(vse.text2, name, c + 5, 6);
      UnicodeRead(vse.text3, name, c + 11, 2);
    }

    // The units of one entry are in their place.
    ghost predicate PartFrom(vse: Vse, c: nat)
      requires name.Length == VBUFSIZE && c + 13 <= VBUFSIZE
      requires |vse.text1| == 10 && |vse.text2| == 12 && |vse.text3| == 4
      reads name
    {
      && (forall p :: c <= p < c + 5 ==> name[p] == FromBytes(vse.text1[2 * (p - c)], vse.text1[2 * (p - c) + 1]))
      && (forall p :: c + 5 <= p < c + 11 ==> name[p] == FromBytes(vse.text2[2 * (p - (c + 5))], vse.text2[2 * (p - (c + 5)) + 1]))
      && (forall p :: c + 11 <= p < c + 13 ==> name[p] == FromBytes(vse.text3[2 * (p - (c + 11))], vse.text3[2 * (p - (c + 11)) + 1]))
    }

    // check_vfat: the name counts if all entries up to the last are there and the checksum is
    // that of the short name behind them.
    method CheckVfat(shortName: seq<byte>)
      requires Valid() && |shortName| == 11
      modifies this`present, name
      ensures Valid()
      ensures present <==> old(present) || (subentries > 0 && sum == Sum(shortName) && forall id :: 1 <= id <= subentries ==> id in status)
      ensures forall p :: 0 <= p < VBUFSIZE && p != VSE_NAMELEN * subentries ==> name[p] == old(name[p])
      ensures present && !old(present) ==> name[VSE_NAMELEN * subentries] == 0
    {
      if subentries == 0 {
        return;
      }
      var expected := SumShortname(shortName);
      if sum != expected {
        return;
      }
      if !(forall id :: 1 <= id <= subentries ==> id in status) {
        return;
      }
      name[VSE_NAMELEN * subentries] := 0;
      present := true;
    }

    // The part of the name in an entry has been read.
    ghost predicate HasPart(target: seq<unit>, id: nat)
      requires Valid() && 1 <= id <= MAX_VFAT_SUBENTRIES
      reads this, name
    {
      forall p :: VSE_NAMELEN * (id - 1) <= p < VSE_NAMELEN * id ==> name[p] == UnitAt(target, p)
    }

    // What has been gathered after the entries of the target name with the numbers seen.
    ghost predicate Gathered(target: seq<unit>, s: nat, seen: set<nat>)
      requires Valid()
      reads this, name
    {
      && (seen == {} ==> sum != s || (status == {} && subentries == 0 && !present))
      && (seen != {} ==> sum == s && status == seen && !present && subentries == if EntryCount(|target|) in seen then EntryCount(|target|) else 0)
      && (forall id :: id in seen ==> 1 <= id <= EntryCount(|target|) && id <= MAX_VFAT_SUBENTRIES && HasPart(target, id))
    }

    lemma PartIsTarget(target: seq<unit>, s: nat, id: nat)
      requires Valid() && 1 <= id <= MAX_VFAT_SUBENTRIES && PartFrom(EntryFor(target, s, id), VSE_NAMELEN * (id - 1))
      ensures HasPart(target, id)
    {
      var c, vse := VSE_NAMELEN * (id - 1), EntryFor(target, s, id);
      TextIsTarget(target, c, 5, vse.text1);
      TextIsTarget(target, c + 5, 6, vse.text2);
      TextIsTarget(target, c + 11, 2, vse.text3);
    }

    lemma TextIsTarget(target: seq<unit>, first: nat, num: nat, text: seq<byte>)
      requires first + num <= name.Length && text == TextOf(target, first, num)
      requires forall p :: first <= p < first + num ==> name[p] == FromBytes(text[2 * (p - first)], text[2 * (p - first) + 1])
      ensures forall p :: first <= p < first + num ==> name[p] == UnitAt(target, p)
    {
      forall p | first <= p < first + num
        ensures name[p] == UnitAt(target, p)
      {
        TextRoundTrip(target, first, num, p - first);
      }
    }

    // Number and mark of an entry are told apart.
    static lemma EntryNumber(target: seq<unit>, s: nat, id: nat)
      requires 1 <= id <= MAX_VFAT_SUBENTRIES
      ensures var vse := EntryFor(target, s, id); vse.id % 32 == id && (vse.id / 64 % 2 == 1 <==> id == EntryCount(|target|))
    {
    }

    // One more entry of the name, perhaps seen before.
    method ParseOne(vse: Vse, ghost target: seq<unit>, ghost s: nat, ghost id: nat, ghost seen: set<nat>)
      requires id >= 1 && vse == EntryFor(target, s, id)
      requires Valid() && Gathered(target, s, seen) && 1 <= id <= EntryCount(|target|) <= MAX_VFAT_SUBENTRIES
      modifies this, name
      ensures Valid() && Gathered(target, s, seen + {id})
    {
      EntryNumber(target, s, id);
      ParseVses(vse);
      PartIsTarget(target, s, id);
      forall k | k in seen && k != id
        ensures HasPart(target, k)
      {
        assert old(HasPart(target, k));
        forall p | VSE_NAMELEN * (k - 1) <= p < VSE_NAMELEN * k
          ensures name[p] == old(name[p])
        {
        }
      }
    }

    // vfat.name as a string.
    function LongName(): seq<unit>
      requires Valid()
      reads this, name
    {
      CString(name[..])
    }

    // Entries of a name, met in any order, any number of times, bring the name back if and only
    // if none of them is missing.
    method ReadBack(vses: seq<Vse>, shortName: seq<byte>, ghost target: seq<unit>, ghost ids: seq<nat>)
      requires Valid() && 1 <= |target| <= 255 && ZeroFree(target) && |shortName| == 11 && |ids| == |vses|
      requires forall i :: 0 <= i < |ids| ==> 1 <= ids[i] <= EntryCount(|target|) && vses[i] == EntryFor(target, Sum(shortName), ids[i])
      requires !present && (sum != Sum(shortName) || (status == {} && subentries == 0))
      modifies this, name
      ensures present <==> forall id :: 1 <= id <= EntryCount(|target|) ==> id in ids
      ensures present ==> Valid() && LongName() == target
    {
      ghost var s, num := Sum(shortName), EntryCount(|target|);
      ghost var seen: set<nat> := {};
      for i := 0 to |vses|
        invariant Valid() && Gathered(target, s, seen) && (seen == {} ==> !present)
        invariant forall id :: id in seen <==> id in ids[..i]
      {
        ParseOne(vses[i], target, s, ids[i], seen);
        seen := seen + {ids[i]};
      }
      assert ids[..|ids|] == ids;
      Conclude(target, shortName, seen);
    }

    method Conclude(ghost target: seq<unit>, shortName: seq<byte>, ghost seen: set<nat>)
      requires Valid() && 1 <= |target| <= 255 && ZeroFree(target) && |shortName| == 11
      requires Gathered(target, Sum(shortName), seen) && !present
      modifies this`present, name
      ensures present <==> forall id :: 1 <= id <= EntryCount(|target|) ==> id in seen
      ensures present ==> Valid() && LongName() == target
    {
      ghost var num := EntryCount(|target|);
      label gathered:
      CheckVfat(shortName);
      assert present ==> seen != {} && subentries == num && status == seen;
      if forall id :: 1 <= id <= num ==> id in seen {
        assert num in seen;
      }
      if present {
        forall p | 0 <= p < VSE_NAMELEN * num
          ensures name[p] == UnitAt(target, p)
        {
          var id := p / VSE_NAMELEN + 1;
          assert id in seen && old@gathered(HasPart(target, id));
        }
        CStringIsPrefix(name[..], target);
      }
    }
  }

  // A name is written, and read from some of its entries in some order: the name comes back, or
  // an entry is missing. What was read before does not matter, unless it has the same checksum.
  method WriteThenRead(name: seq<unit>, shortName: seq<byte>, order: seq<nat>, v: VfatState) returns (found: bool, longName: seq<unit>)
    requires 1 <= |name| <= 255 && ZeroFree(name) && |shortName| == 11
    requires forall i :: 0 <= i < |order| ==> order[i] < EntryCount(|name|)
    requires v.Valid() && !v.present && (v.sum != Sum(shortName) || (v.status == {} && v.subentries == 0))
    modifies v, v.name
    ensures found <==> forall k :: 0 <= k < EntryCount(|name|) ==> k in order
    ensures found ==> longName == name
  {
    var entries := WriteVfat(name, shortName);
    var num := |entries|;
    var read := seq(|order|, i requires 0 <= i < |order| => entries[order[i]]);
    ghost var ids: seq<nat> := seq(|order|, i requires 0 <= i < |order| => num - order[i]);
    v.ReadBack(read, shortName, name, ids);
    found, longName := v.present, [];
    if found {
      longName := v.LongName();
      forall k | 0 <= k < num
        ensures k in order
      {
        assert num - k in ids;
      }
    } else {
      ghost var id: nat :| 1 <= id <= num && id !in ids;
      forall i | 0 <= i < |order|
        ensures order[i] != num - id
      {
        assert ids[i] in ids;
      }
      assert num - id !in order;
    }
  }

  // The string that ends before the first zero.
  function CString(buffer: seq<unit>): seq<unit> {
    if buffer == [] || buffer[0] == 0 then [] else [buffer[0]] + CString(buffer[1..])
  }

  lemma {:induction false} CStringIsPrefix(buffer: seq<unit>, target: seq<unit>)
    requires ZeroFree(target) && |target| < |buffer| && buffer[..|target|] == target && buffer[|target|] == 0
    ensures CString(buffer) == target
  {
    if target != [] {
      assert buffer[0] == buffer[..|target|][0];
      assert buffer[1..][..|target| - 1] == target[1..];
      CStringIsPrefix(buffer[1..], target[1..]);
    }
  }
}
