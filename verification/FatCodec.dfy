/**
 Entries of the file allocation table as they lie in its bytes (fat.c): 12 bits packed across
 byte borders, 16 bits, or 28 of 32 bits.
 */
module FatCodec {
  import opened Arith
  import opened Store

  type Bytes = seq<byte>

  datatype Width = Fat12 | Fat16 | Fat32

  // The first byte of an entry, and the number of bytes it touches.
  function Start(w: Width, num: nat): nat {
    match w
    case Fat12 => num * 3 / 2
    case Fat16 => 2 * num
    case Fat32 => 4 * num
  }

  function Span(w: Width): nat {
    if w == Fat32 then 4 else 2
  }

  function CodeLimit(w: Width): nat {
    match w
    case Fat12 => 0x1000
    case Fat16 => 0x1_0000
    case Fat32 => 0x1000_0000
  }

  // A code cut to the width of an entry.
  function Cut(w: Width, code: nat): (c: nat)
    ensures code < CodeLimit(w) ==> c == code
  {
    match w
    case Fat12 => code % 0x1000
    case Fat16 => code % 0x1_0000
    case Fat32 => code % 0x1000_0000
  }

  predicate Inside(w: Width, v: Bytes, num: nat) {
    Start(w, num) + Span(w) <= |v|
  }

  // Combining two bytes into a 12-bit code, by parity of the entry.
  function Join12(odd: bool, b0: byte, b1: byte): nat {
    if odd then b1 as nat * 16 + b0 as nat / 16 else (b1 as nat % 16) * 256 + b0 as nat
  }

  // The bytes after a 12-bit code has been put in; half of one byte belongs to the neighbour.
  function Split12(odd: bool, b0: byte, b1: byte, code: nat): (byte, byte) {
    if odd then ((b0 as nat % 16 + (code % 16) * 16) as byte, (code / 16 % 256) as byte)
    else ((code % 256) as byte, ((b1 as nat / 16) * 16 + code / 256 % 16) as byte)
  }

  function Word(b0: byte, b1: byte): nat {
    b0 as nat + 256 * b1 as nat
  }

  function Dword(b0: byte, b1: byte, b2: byte, b3: byte): nat {
    Word(b0, b1) + 0x1_0000 * Word(b2, b3)
  }

  function Entry(w: Width, v: Bytes, num: nat): nat
    requires Inside(w, v, num)
  {
    var s := Start(w, num);
    match w
    case Fat12 => Join12(num % 2 == 1, v[s], v[s + 1])
    case Fat16 => Word(v[s], v[s + 1])
    case Fat32 => Dword(v[s], v[s + 1], v[s + 2], v[s + 3]) % 0x1000_0000
  }

  // Where the digits of an entry lie: two 12-bit entries share three bytes, least significant
  // digits first; wider entries lie one behind the other.
  lemma EntryLayout(w: Width, v: Bytes, num: nat)
    requires Inside(w, v, num)
    ensures w == Fat12 && num % 2 == 0 ==>
      && 3 * (num / 2) + 1 < |v|
      && Entry(w, v, num) == v[3 * (num / 2)] as nat + 0x100 * (v[3 * (num / 2) + 1] as nat % 0x10)
    ensures w == Fat12 && num % 2 == 1 ==>
      && 3 * (num / 2) + 2 < |v|
      && Entry(w, v, num) == v[3 * (num / 2) + 1] as nat / 0x10 + 0x10 * v[3 * (num / 2) + 2] as nat
    ensures w == Fat16 ==> 2 * num + 1 < |v| && Entry(w, v, num) == v[2 * num] as nat + 0x100 * v[2 * num + 1] as nat
    ensures w == Fat32 ==>
      && 4 * num + 3 < |v|
      && Entry(w, v, num) == v[4 * num] as nat + 0x100 * v[4 * num + 1] as nat + 0x1_0000 * v[4 * num + 2] as nat + 0x100_0000 * (v[4 * num + 3] as nat % 0x10)
  {
    match w
    case Fat12 =>
      if num % 2 == 0 {
        Layout12Even(v, num, num / 2);
      } else {
        Layout12Odd(v, num, num / 2);
      }
    case Fat16 =>
    case Fat32 => Layout32(v, num);
  }

  lemma Layout12Even(v: Bytes, num: nat, k: nat)
    requires num == 2 * k && Inside(Fat12, v, num)
    ensures 3 * k + 1 < |v| && Entry(Fat12, v, num) == v[3 * k] as nat + 0x100 * (v[3 * k + 1] as nat % 0x10)
  {
    assert Start(Fat12, num) == 3 * k;
  }

  lemma Layout12Odd(v: Bytes, num: nat, k: nat)
    requires num == 2 * k + 1 && Inside(Fat12, v, num)
    ensures 3 * k + 2 < |v| && Entry(Fat12, v, num) == v[3 * k + 1] as nat / 0x10 + 0x10 * v[3 * k + 2] as nat
  {
    HalfOfOdd(num, k);
    assert Start(Fat12, num) == 3 * k + 1;
    var b0, b1 := v[3 * k + 1], v[3 * k + 2];
    assert Entry(Fat12, v, num) == Join12(true, b0, b1);
  }

  lemma HalfOfOdd(num: nat, k: nat)
    requires num == 2 * k + 1
    ensures num % 2 == 1 && num * 3 / 2 == 3 * k + 1
  {
  }

  lemma Layout32(v: Bytes, num: nat)
    requires Inside(Fat32, v, num)
    ensures Entry(Fat32, v, num)
      == v[4 * num] as nat + 0x100 * v[4 * num + 1] as nat + 0x1_0000 * v[4 * num + 2] as nat + 0x100_0000 * (v[4 * num + 3] as nat % 0x10)
  {
    var low, top := Dword(v[4 * num], v[4 * num + 1], v[4 * num + 2], 0), v[4 * num + 3] as nat;
    TopDigit(low, top);
  }

  lemma TopDigit(low: nat, top: nat)
    requires low < 0x100_0000
    ensures (low + 0x100_0000 * top) % 0x1000_0000 == low + 0x100_0000 * (top % 0x10)
  {
    var q := top / 0x10;
    assert low + 0x100_0000 * top == low + 0x100_0000 * (top % 0x10) + 0x1000_0000 * q;
  }

  // A number of the table, from the bytes it is made of.
  lemma DecodedSpelled(w: Width, v: Bytes, num: nat, numClus: nat)
    requires num <= numClus + 1 && Inside(w, v, numClus + 1)
    ensures w == Fat12 && num >= 2 && num % 2 == 0 ==>
      && 3 * (num / 2) + 1 < |v|
      && Decoded(w, v, numClus)[num] == v[3 * (num / 2)] as nat + 0x100 * (v[3 * (num / 2) + 1] as nat % 0x10)
    ensures w == Fat12 && num >= 2 && num % 2 == 1 ==>
      && 3 * (num / 2) + 2 < |v|
      && Decoded(w, v, numClus)[num] == v[3 * (num / 2) + 1] as nat / 0x10 + 0x10 * v[3 * (num / 2) + 2] as nat
    ensures w == Fat16 ==>
      && 2 * num + 1 < |v|
      && Decoded(w, v, numClus)[num] == v[2 * num] as nat + 0x100 * v[2 * num + 1] as nat
    ensures w == Fat32 ==>
      && 4 * num + 3 < |v|
      && Decoded(w, v, numClus)[num] == v[4 * num] as nat + 0x100 * v[4 * num + 1] as nat + 0x1_0000 * v[4 * num + 2] as nat + 0x100_0000 * (v[4 * num + 3] as nat % 0x10)
  {
    InsideBelow(w, v, num, numClus + 1);
    EntryLayout(w, v, num);
  }

  // A pair of 12-bit entries is a number of three bytes.
  lemma PairLayout(v: Bytes, num: nat)
    requires num % 2 == 0 && Inside(Fat12, v, num + 1)
    ensures Inside(Fat12, v, num) && 3 * (num / 2) + 2 < |v|
    ensures Entry(Fat12, v, num) < 0x1000 && Entry(Fat12, v, num + 1) < 0x1000
    ensures Entry(Fat12, v, num) + 0x1000 * Entry(Fat12, v, num + 1)
      == v[3 * (num / 2)] as nat + 0x100 * v[3 * (num / 2) + 1] as nat + 0x1_0000 * v[3 * (num / 2) + 2] as nat
  {
    EntryLayout(Fat12, v, num);
    EntryLayout(Fat12, v, num + 1);
    assert (num + 1) / 2 == num / 2;
  }

  // The beginning of the table of a floppy: cluster 2 leads to 3, and 3 to 4.
  lemma FloppyTable()
    ensures var v: Bytes := [0xf0, 0xff, 0xff, 0x03, 0x40, 0x00, 0xff, 0x0f]; Inside(Fat12, v, 4) && Decoded(Fat12, v, 3) == [1, 1, 3, 4, 0xfff]
  {
    var v: Bytes := [0xf0, 0xff, 0xff, 0x03, 0x40, 0x00, 0xff, 0x0f];
    EntryLayout(Fat12, v, 2);
    EntryLayout(Fat12, v, 3);
    EntryLayout(Fat12, v, 4);
  }

  // The four reserved bits above a 28-bit entry.
  function Reserved(v: Bytes, num: nat): nat
    requires Inside(Fat32, v, num)
  {
    var s := Start(Fat32, num);
    Dword(v[s], v[s + 1], v[s + 2], v[s + 3]) / 0x1000_0000
  }

  // The bytes with an entry replaced.
  function Encoded(w: Width, v: Bytes, num: nat, code: nat): (u: Bytes)
    requires Inside(w, v, num)
    ensures |u| == |v|
    ensures forall i :: 0 <= i < |v| && !(Start(w, num) <= i < Start(w, num) + Span(w)) ==> u[i] == v[i]
  {
    var s := Start(w, num);
    match w
    case Fat12 =>
      var pair := Split12(num % 2 == 1, v[s], v[s + 1], code);
      v[s := pair.0][s + 1 := pair.1]
    case Fat16 =>
      v[s := (code % 256) as byte][s + 1 := (code / 256 % 256) as byte]
    case Fat32 =>
      WithDword(v, s, Mixed(Dword(v[s], v[s + 1], v[s + 2], v[s + 3]), code))
  }

  // The code with the four highest bits of a double word.
  function Mixed(d: nat, code: nat): nat {
    code % 0x1000_0000 + d / 0x1000_0000 * 0x1000_0000
  }

  function WithDword(v: Bytes, start: nat, d: nat): (u: Bytes)
    requires start + 4 <= |v|
    ensures |u| == |v|
    ensures forall i :: 0 <= i < |v| && !(start <= i < start + 4) ==> u[i] == v[i]
  {
    v[start := ByteOf(d, 0)][start + 1 := ByteOf(d, 1)][start + 2 := ByteOf(d, 2)][start + 3 := ByteOf(d, 3)]
  }

  // The k-th byte of a double word, least significant first.
  function ByteOf(d: nat, k: nat): byte {
    var w := if k < 2 then d % 0x1_0000 else d / 0x1_0000 % 0x1_0000;
    (if k % 2 == 0 then w % 256 else w / 256) as byte
  }

  lemma WordSplit(w: nat)
    requires w < 0x1_0000
    ensures w / 256 < 256 && Word((w % 256) as byte, (w / 256) as byte) == w
  {
  }

  lemma DwordOfBytes(d: nat)
    requires d < 0x1_0000_0000
    ensures Dword(ByteOf(d, 0), ByteOf(d, 1), ByteOf(d, 2), ByteOf(d, 3)) == d
  {
    var low, high := d % 0x1_0000, d / 0x1_0000;
    assert high < 0x1_0000 && high % 0x1_0000 == high;
    WordSplit(low);
    WordSplit(high);
    assert Word(ByteOf(d, 0), ByteOf(d, 1)) == low && Word(ByteOf(d, 2), ByteOf(d, 3)) == high;
  }

  // Taking a code apart into nybble and byte, in either order.
  lemma CodeParts(code: nat)
    ensures code % 16 + 16 * (code / 16 % 256) == code % 0x1000
    ensures code % 256 + 256 * (code / 256 % 16) == code % 0x1000
  {
    var q := code / 0x1000;
    assert code / 16 / 256 == q && code / 256 / 16 == q;
  }

  lemma Nybbles(low: nat, high: nat)
    requires low < 16
    ensures (low + high * 16) / 16 == high && (low + high * 16) % 16 == low
  {
  }

  // A 12-bit code comes back, and the neighbour's half byte stays.
  lemma Split12Keeps(odd: bool, b0: byte, b1: byte, code: nat)
    ensures var pair := Split12(odd, b0, b1, code);
      && Join12(odd, pair.0, pair.1) == code % 0x1000
      && if odd then pair.0 as nat % 16 == b0 as nat % 16 else pair.1 as nat / 16 == b1 as nat / 16
  {
    CodeParts(code);
    if odd {
      Nybbles(b0 as nat % 16, code % 16);
    } else {
      Nybbles(code / 256 % 16, b1 as nat / 16);
    }
  }

  // Encoding an entry replaces it by the code, cut to the width, and leaves every other entry
  // and the reserved bits of 32-bit entries as they were.
  lemma EncodedEntry(w: Width, v: Bytes, num: nat, code: nat, m: nat)
    requires Inside(w, v, num) && Inside(w, v, m)
    ensures Entry(w, Encoded(w, v, num, code), m) == if m == num then Cut(w, code) else Entry(w, v, m)
    ensures w == Fat32 ==> Reserved(Encoded(w, v, num, code), m) == Reserved(v, m)
  {
    match w
    case Fat12 => Encoded12Entry(v, num, code, m);
    case Fat16 => Encoded16Entry(v, num, code, m);
    case Fat32 => Encoded32Entry(v, num, code, m);
  }

  lemma Encoded12Entry(v: Bytes, num: nat, code: nat, m: nat)
    requires Inside(Fat12, v, num) && Inside(Fat12, v, m)
    ensures Entry(Fat12, Encoded(Fat12, v, num, code), m) == if m == num then code % 0x1000 else Entry(Fat12, v, m)
  {
    var s, t, odd := Start(Fat12, num), Start(Fat12, m), num % 2 == 1;
    var u, pair := Encoded(Fat12, v, num, code), Split12(odd, v[s], v[s + 1], code);
    Split12Keeps(odd, v[s], v[s + 1], code);
    Starts12(num, m);
    Starts12(m, num);
    if m != num {
      SameJoin(m % 2 == 1, u[t], u[t + 1], v[t], v[t + 1]);
    } else {
      assert u[s] == pair.0 && u[s + 1] == pair.1;
    }
  }

  // Only half of one byte matters.
  lemma SameJoin(odd: bool, b0: byte, b1: byte, c0: byte, c1: byte)
    requires if odd then b0 as nat / 16 == c0 as nat / 16 && b1 == c1 else b0 == c0 && b1 as nat % 16 == c1 as nat % 16
    ensures Join12(odd, b0, b1) == Join12(odd, c0, c1)
  {
  }

  // Two entries share a byte only if they are a pair.
  lemma Starts12(num: nat, m: nat)
    ensures m > num ==> Start(Fat12, m) >= Start(Fat12, num) + 2 || (m % 2 == 1 && num % 2 == 0 && Start(Fat12, m) == Start(Fat12, num) + 1)
  {
    var j, k := num / 2, m / 2;
    assert num * 3 / 2 == 3 * j + num % 2 && m * 3 / 2 == 3 * k + m % 2;
  }

  lemma WordOfBytes(code: nat)
    ensures code % 256 + 256 * (code / 256 % 256) == code % 0x1_0000
  {
    var q := code / 0x1_0000;
    assert code / 256 / 256 == q;
  }

  lemma Encoded16Entry(v: Bytes, num: nat, code: nat, m: nat)
    requires Inside(Fat16, v, num) && Inside(Fat16, v, m)
    ensures Entry(Fat16, Encoded(Fat16, v, num, code), m) == if m == num then code % 0x1_0000 else Entry(Fat16, v, m)
  {
    if m == num {
      WordOfBytes(code);
    } else {
      assert Start(Fat16, m) + 2 <= Start(Fat16, num) || Start(Fat16, num) + 2 <= Start(Fat16, m);
    }
  }

  lemma TopBits(low: nat, high: nat)
    requires low < 0x1000_0000
    ensures (low + high * 0x1000_0000) / 0x1000_0000 == high && (low + high * 0x1000_0000) % 0x1000_0000 == low
  {
  }

  lemma Encoded32Entry(v: Bytes, num: nat, code: nat, m: nat)
    requires Inside(Fat32, v, num) && Inside(Fat32, v, m)
    ensures Entry(Fat32, Encoded(Fat32, v, num, code), m) == if m == num then code % 0x1000_0000 else Entry(Fat32, v, m)
    ensures Reserved(Encoded(Fat32, v, num, code), m) == Reserved(v, m)
  {
    var d := code % 0x1000_0000 + Reserved(v, num) * 0x1000_0000;
    if m == num {
      DwordOfBytes(d);
      TopBits(code % 0x1000_0000, Reserved(v, num));
    } else {
      assert Start(Fat32, m) + 4 <= Start(Fat32, num) || Start(Fat32, num) + 4 <= Start(Fat32, m);
    }
  }

  // The decoded table; the two reserved entries of a 12-bit table are not readable.
  function Decoded(w: Width, v: Bytes, numClus: nat): (t: seq<nat>)
    requires Inside(w, v, numClus + 1)
    ensures |t| == numClus + 2
  {
    seq(numClus + 2, num requires 0 <= num < numClus + 2 =>
      InsideBelow(w, v, num, numClus + 1);
      if w == Fat12 && num < 2 then 1 else Entry(w, v, num))
  }

  lemma InsideBelow(w: Width, v: Bytes, num: nat, most: nat)
    requires num <= most && Inside(w, v, most)
    ensures Inside(w, v, num)
  {
  }

  // To the layer above, encoding is the update of one number of the table.
  lemma EncodedTable(w: Width, v: Bytes, numClus: nat, num: nat, code: nat)
    requires Inside(w, v, numClus + 1) && 2 <= num <= numClus + 1 && code < CodeLimit(w)
    ensures Inside(w, v, num)
    ensures Decoded(w, Encoded(w, v, num, code), numClus) == Decoded(w, v, numClus)[num := code]
  {
    forall m | 0 <= m < numClus + 2
      ensures Decoded(w, Encoded(w, v, num, code), numClus)[m] == Decoded(w, v, numClus)[num := code][m]
    {
      EncodedTableAt(w, v, numClus, num, code, m);
    }
  }

  lemma EncodedTableAt(w: Width, v: Bytes, numClus: nat, num: nat, code: nat, m: nat)
    requires Inside(w, v, numClus + 1) && Inside(w, v, num) && num <= numClus + 1 && 2 <= num && code < CodeLimit(w)
    requires m < numClus + 2
    ensures Decoded(w, Encoded(w, v, num, code), numClus)[m] == if m == num then code else Decoded(w, v, numClus)[m]
  {
    InsideBelow(w, v, m, numClus + 1);
    EncodedEntry(w, v, num, code, m);
  }
}
