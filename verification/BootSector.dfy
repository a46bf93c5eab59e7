/**
 The file system parameters in the boot sector: stored by mformat.c, read by parseFsParams in
 init.c. Field offsets are those of struct bootsector_s in msdos.h.
 */
module BootSector {
  import opened Arith
  import opened FatCodec
  import opened FatLen
  import opened FormatParams
  import opened Store

  const SECSIZ: nat := 11
  const CLSIZ: nat := 13
  const NRSVSECT: nat := 14
  const NFAT: nat := 16
  const DIRENTS: nat := 17
  const PSECT: nat := 19
  const FATLEN: nat := 22
  const NSECT: nat := 24
  const NHEADS: nat := 26
  const NHS: nat := 28
  const BIGSECT: nat := 32
  const OLD_LABEL: nat := 36
  const BIGFAT: nat := 36
  const EXTFLAGS: nat := 40
  const FSVERSION: nat := 42
  const ROOTCLUSTER: nat := 44
  const INFOSECTOR: nat := 48
  const BACKUPBOOT: nat := 50
  const FAT32_LABEL: nat := 64
  const LABEL_SIZE: nat := 26
  const MAX_SECTOR: nat := 8192
  const BOOT_FIELDS: nat := 90         // up to here parameters are stored

  predicate PowerOfTwoSize(s: nat) {
    s in {1, 2, 4, 8, 16, 32, 64, 128, 256, 512, 1024, 2048, 4096, 8192}
  }

  function WordAt(b: seq<byte>, at: nat): (w: nat)
    requires at + 2 <= |b|
    ensures w < 0x1_0000
  {
    Word(b[at], b[at + 1])
  }

  function DwordAt(b: seq<byte>, at: nat): (d: nat)
    requires at + 4 <= |b|
    ensures d < 0x1_0000_0000
  {
    Dword(b[at], b[at + 1], b[at + 2], b[at + 3])
  }

  // The number bytes stand for, least significant byte first.
  function LittleEndian(bytes: seq<byte>): nat {
    if bytes == [] then 0 else bytes[0] as nat + 0x100 * LittleEndian(bytes[1..])
  }

  lemma LastByte(x: byte)
    ensures LittleEndian([x]) == x as nat
  {
    assert [x][1..] == [];
  }

  lemma WordSpelled(b: seq<byte>, at: nat)
    requires at + 2 <= |b|
    ensures LittleEndian(b[at..at + 2]) == b[at] as nat + 0x100 * b[at + 1] as nat == WordAt(b, at)
  {
    assert b[at..at + 2] == [b[at], b[at + 1]] && b[at..at + 2][1..] == [b[at + 1]];
    LastByte(b[at + 1]);
  }

  lemma DwordSpelled(b: seq<byte>, at: nat)
    requires at + 4 <= |b|
    ensures LittleEndian(b[at..at + 4]) == b[at] as nat + 0x100 * b[at + 1] as nat + 0x1_0000 * b[at + 2] as nat + 0x100_0000 * b[at + 3] as nat == DwordAt(b, at)
  {
    var c := b[at..at + 4];
    assert c[1..] == [b[at + 1], b[at + 2], b[at + 3]] && c[1..][1..] == [b[at + 2], b[at + 3]] && c[1..][1..][1..] == [b[at + 3]];
    assert LittleEndian(c) == b[at] as nat + 0x100 * LittleEndian(c[1..]);
    assert LittleEndian(c[1..]) == b[at + 1] as nat + 0x100 * LittleEndian(c[1..][1..]);
    LastByte(b[at + 3]);
    assert LittleEndian(c[1..][1..]) == b[at + 2] as nat + 0x100 * b[at + 3] as nat;
  }

  // set_word and set_dword, with the casts of the source.
  method SetWord(boot: array<byte>, at: nat, x: nat)
    requires at + 2 <= boot.Length
    modifies boot
    ensures WordAt(boot[..], at) == U16(x)
    ensures forall i :: 0 <= i < boot.Length && !(at <= i < at + 2) ==> boot[i] == old(boot[i])
  {
    var w := U16(x);
    boot[at], boot[at + 1] := (w % 256) as byte, (w / 256) as byte;
  }

  method SetDword(boot: array<byte>, at: nat, x: nat)
    requires at + 4 <= boot.Length
    modifies boot
    ensures DwordAt(boot[..], at) == U32(x)
    ensures forall i :: 0 <= i < boot.Length && !(at <= i < at + 4) ==> boot[i] == old(boot[i])
  {
    var d := U32(x);
    DwordOfBytes(d);
    boot[at], boot[at + 1] := ByteOf(d, 0), ByteOf(d, 1);
    boot[at + 2], boot[at + 3] := ByteOf(d, 2), ByteOf(d, 3);
  }

  datatype FsParams = FsParams(totSectors: nat, sectorSize: nat, clusterSize: nat, fatStart: nat, fatLen: nat, dirLen: nat,
                               numFat: nat, fatBits: nat, clusStart: nat, numClus: nat)

  datatype Option<T> = None | Some(value: T)

  function StoredTotal(b: seq<byte>): nat
    requires |b| >= BOOT_FIELDS
  {
    if WordAt(b, PSECT) != 0 then WordAt(b, PSECT) else DwordAt(b, BIGSECT)
  }

  function StoredFatLen(b: seq<byte>): nat
    requires |b| >= BOOT_FIELDS
  {
    if WordAt(b, FATLEN) != 0 then WordAt(b, FATLEN) else DwordAt(b, BIGFAT)
  }

  // The first cluster sector follows from the stored lengths.
  function StoredStart(b: seq<byte>, dirLen: nat): nat
    requires |b| >= BOOT_FIELDS
  {
    U32(WordAt(b, NRSVSECT) + Times(b[NFAT] as nat, StoredFatLen(b)) + dirLen)
  }

  // The parameters a boot sector stands for.
  ghost predicate Represents(b: seq<byte>, fs: FsParams) {
    && |b| >= BOOT_FIELDS && PowerOfTwoSize(fs.sectorSize) && fs.clusterSize > 0
    && fs.sectorSize == WordAt(b, SECSIZ) && fs.clusterSize == b[CLSIZ] as nat
    && fs.fatStart == WordAt(b, NRSVSECT) && fs.numFat == b[NFAT] as nat
    && fs.dirLen == Div(32 * WordAt(b, DIRENTS), fs.sectorSize)
    && fs.totSectors == StoredTotal(b) && fs.fatLen == StoredFatLen(b) && fs.clusStart == StoredStart(b, fs.dirLen)
    && fs.totSectors > fs.clusStart && fs.numClus == Div(fs.totSectors - fs.clusStart, fs.clusterSize)
    && fs.fatBits == FatWidth(fs.numClus, WordAt(b, FATLEN) == 0)
  }

  // The fields as parseFsParams reads them.
  method ParseFields(b: seq<byte>) returns (r: Option<FsParams>)
    requires |b| >= BOOT_FIELDS && b[CLSIZ] > 0
    ensures r.Some? ==> Represents(b, r.value)
    ensures r.None? && PowerOfTwoSize(WordAt(b, SECSIZ)) ==> StoredTotal(b) <= StoredStart(b, Div(32 * WordAt(b, DIRENTS), WordAt(b, SECSIZ)))
  {
    var sectorSize := WordAt(b, SECSIZ);
    if sectorSize > MAX_SECTOR || !PowerOfTwoSize(sectorSize) {
      return None;
    }
    var totSectors := WordAt(b, PSECT);
    if totSectors == 0 {
      totSectors := DwordAt(b, BIGSECT);
    }
    var clusterSize := b[CLSIZ] as nat;
    var fatStart := WordAt(b, NRSVSECT);
    var fatLen := WordAt(b, FATLEN);
    var dirLen := Div(32 * WordAt(b, DIRENTS), sectorSize);
    var numFat := b[NFAT] as nat;
    var haveBigFatLen := false;
    if fatLen == 0 {
      fatLen := DwordAt(b, BIGFAT);
      haveBigFatLen := true;
    }
    var clusStart := U32(fatStart + Times(numFat, fatLen) + dirLen);
    if totSectors <= clusStart {
      return None;
    }
    var numClus := Div(totSectors - clusStart, clusterSize);
    r := Some(FsParams(totSectors, sectorSize, clusterSize, fatStart, fatLen, dirLen, numFat, FatWidth(numClus, haveBigFatLen), clusStart, numClus));
  }

  lemma FieldsSpelled(b: seq<byte>)
    requires |b| >= 90
    ensures WordAt(b, 11) == LittleEndian(b[11..13]) && WordAt(b, 14) == LittleEndian(b[14..16]) && WordAt(b, 17) == LittleEndian(b[17..19])
    ensures WordAt(b, 19) == LittleEndian(b[19..21]) && WordAt(b, 22) == LittleEndian(b[22..24])
    ensures DwordAt(b, 32) == LittleEndian(b[32..36]) && DwordAt(b, 36) == LittleEndian(b[36..40])
  {
    WordSpelled(b, 11);
    WordSpelled(b, 14);
    WordSpelled(b, 17);
    WordSpelled(b, 19);
    WordSpelled(b, 22);
    DwordSpelled(b, 32);
    DwordSpelled(b, 36);
  }

  // parseFsParams, for a boot sector with a parameter block: where the parameters come from, and
  // what follows from them.
  method ParseFsParams(boot: array<byte>) returns (r: Option<FsParams>)
    requires boot.Length >= 90 && boot[13] > 0
    ensures r.Some? ==> Represents(boot[..], r.value) == true
    ensures r.None? && PowerOfTwoSize(WordAt(boot[..], SECSIZ)) ==>
      StoredTotal(boot[..]) <= StoredStart(boot[..], Div(32 * WordAt(boot[..], DIRENTS), WordAt(boot[..], SECSIZ)))
    ensures r.None? && PowerOfTwoSize(LittleEndian(boot[11..13])) ==>
      (if LittleEndian(boot[19..21]) != 0 then LittleEndian(boot[19..21]) else LittleEndian(boot[32..36]))
        <= U32(LittleEndian(boot[14..16]) + Times(boot[16] as nat, if LittleEndian(boot[22..24]) != 0 then LittleEndian(boot[22..24]) else LittleEndian(boot[36..40]))
          + Div(32 * LittleEndian(boot[17..19]), LittleEndian(boot[11..13])))
    ensures r.Some? ==> r.value.sectorSize == LittleEndian(boot[11..13]) > 0 && r.value.clusterSize == boot[13] as nat
    ensures r.Some? ==> r.value.fatStart == LittleEndian(boot[14..16]) && r.value.numFat == boot[16] as nat
    ensures r.Some? ==> r.value.dirLen == Div(32 * LittleEndian(boot[17..19]), LittleEndian(boot[11..13]))
    ensures r.Some? ==> r.value.totSectors == if LittleEndian(boot[19..21]) != 0 then LittleEndian(boot[19..21]) else LittleEndian(boot[32..36])
    ensures r.Some? ==> r.value.fatLen == if LittleEndian(boot[22..24]) != 0 then LittleEndian(boot[22..24]) else LittleEndian(boot[36..40])
    ensures r.Some? ==> r.value.clusStart == U32(r.value.fatStart + Times(r.value.numFat, r.value.fatLen) + r.value.dirLen) < r.value.totSectors
    ensures r.Some? ==> r.value.numClus == Div(r.value.totSectors - r.value.clusStart, boot[13] as nat)
    ensures r.Some? ==> r.value.fatBits == if LittleEndian(boot[22..24]) == 0 then 32 else if r.value.numClus < 4085 then 12 else if r.value.numClus < 65525 then 16 else 32
  {
    ghost var b := boot[..];
    r := ParseFields(boot[..]);
    FieldsSpelled(b);
    assert b[11..13] == boot[11..13] && b[14..16] == boot[14..16] && b[17..19] == boot[17..19] && b[19..21] == boot[19..21];
    assert b[22..24] == boot[22..24] && b[32..36] == boot[32..36] && b[36..40] == boot[36..40];
  }

  // What mformat leaves in the fields for the parameters it has found.
  ghost predicate Stored(b: seq<byte>, p: Params, tot: nat)
    reads p
  {
    && |b| >= BOOT_FIELDS
    && WordAt(b, SECSIZ) == p.sectorSize && b[CLSIZ] as nat == p.clusterSize
    && WordAt(b, NRSVSECT) == p.fatStart && b[NFAT] as nat == p.numFat
    && WordAt(b, DIRENTS) == (if p.fatBits == 32 then 0 else U16(Times(p.dirLen, p.sectorSize / 32)))
    && StoredTotal(b) == tot
    && (if p.fatBits == 32 then WordAt(b, FATLEN) == 0 && DwordAt(b, BIGFAT) == p.fatLen else WordAt(b, FATLEN) == U16(p.fatLen))
  }

  method StoreBytes(boot: array<byte>, at: nat, bytes: seq<byte>)
    requires at + |bytes| <= boot.Length
    modifies boot
    ensures forall i :: 0 <= i < boot.Length && !(at <= i < at + |bytes|) ==> boot[i] == old(boot[i])
  {
    for k := 0 to |bytes|
      invariant forall i :: 0 <= i < boot.Length && !(at <= i < at + k) ==> boot[i] == old(boot[i])
    {
      boot[at + k] := bytes[k];
    }
  }

  // The fields that only 32-bit tables have; the root directory begins at cluster 2.
  ghost predicate StoredFat32(b: seq<byte>, p: Params, fsVersion: nat)
    requires |b| >= BOOT_FIELDS
    reads p
  {
    && WordAt(b, EXTFLAGS) == 0 && WordAt(b, FSVERSION) == U16(fsVersion)
    && DwordAt(b, ROOTCLUSTER) == 2 && WordAt(b, INFOSECTOR) == 1 && WordAt(b, BACKUPBOOT) == U16(p.backupBoot)
  }

  // The numbers of sectors and of hidden sectors, in short fields or in long ones.
  ghost predicate StoredNumbers(b: seq<byte>, tot: nat, hidden: nat)
    requires |b| >= BOOT_FIELDS
  {
    var short := tot <= 0xffff && hidden <= 0xffff;
    && WordAt(b, PSECT) == (if short then tot else 0) && DwordAt(b, BIGSECT) == (if short then 0 else tot)
    && hidden == if short then WordAt(b, NHS) else DwordAt(b, NHS)
  }

  // The table length and, for 32-bit tables, the fields that only they have.
  method StoreLengths(boot: array<byte>, p: Params, fsVersion: nat, labelBlock: seq<byte>)
    requires p.Valid() && boot.Length >= BOOT_FIELDS && |labelBlock| == LABEL_SIZE
    modifies boot
    ensures if p.fatBits == 32 then WordAt(boot[..], FATLEN) == 0 && DwordAt(boot[..], BIGFAT) == p.fatLen else WordAt(boot[..], FATLEN) == U16(p.fatLen)
    ensures p.fatBits == 32 ==> StoredFat32(boot[..], p, fsVersion)
    ensures forall i :: 0 <= i < boot.Length && !(FATLEN <= i < FATLEN + 2) && !(OLD_LABEL <= i < BOOT_FIELDS) ==> boot[i] == old(boot[i])
  {
    if p.fatBits == 32 {
      SetWord(boot, EXTFLAGS, 0);
      SetWord(boot, FSVERSION, fsVersion);
      SetDword(boot, ROOTCLUSTER, 2);
      SetWord(boot, INFOSECTOR, 1);
      SetWord(boot, BACKUPBOOT, p.backupBoot);
      StoreBytes(boot, FAT32_LABEL, labelBlock);
      SetWord(boot, FATLEN, 0);
      SetDword(boot, BIGFAT, p.fatLen);
    } else {
      StoreBytes(boot, OLD_LABEL, labelBlock);
      SetWord(boot, FATLEN, p.fatLen);
    }
  }

  // The number of sectors goes to a field of 16 bits or, if it or the number of hidden
  // sectors is too large, to one of 32 bits.
  method StoreGeometry(boot: array<byte>, tot: nat, hidden: nat, sectors: nat, heads: nat)
    requires boot.Length >= BOOT_FIELDS && 0 < tot < TWO32 && hidden < TWO32
    modifies boot
    ensures StoredTotal(boot[..]) == tot && WordAt(boot[..], NSECT) == U16(sectors) && WordAt(boot[..], NHEADS) == U16(heads)
    ensures StoredNumbers(boot[..], tot, hidden)
    ensures forall i :: 0 <= i < boot.Length && !(PSECT <= i < PSECT + 2) && !(NSECT <= i < OLD_LABEL) ==> boot[i] == old(boot[i])
  {
    SetWord(boot, NSECT, sectors);
    SetWord(boot, NHEADS, heads);
    if tot <= 0xffff && hidden <= 0xffff {
      SetWord(boot, PSECT, tot);
      SetDword(boot, BIGSECT, 0);
      SetWord(boot, NHS, hidden);
    } else {
      SetWord(boot, PSECT, 0);
      SetDword(boot, BIGSECT, tot);
      SetDword(boot, NHS, hidden);
    }
  }

  method StoreSizes(boot: array<byte>, p: Params)
    requires p.Valid() && boot.Length >= BOOT_FIELDS
    modifies boot
    ensures WordAt(boot[..], SECSIZ) == p.sectorSize && boot[CLSIZ] as nat == p.clusterSize && WordAt(boot[..], NRSVSECT) == p.fatStart
    ensures forall i :: 0 <= i < boot.Length && !(SECSIZ <= i < NRSVSECT + 2) ==> boot[i] == old(boot[i])
  {
    SetWord(boot, SECSIZ, p.sectorSize);
    boot[CLSIZ] := p.clusterSize as byte;
    SetWord(boot, NRSVSECT, p.fatStart);
  }

  method StoreFields(boot: array<byte>, p: Params, tot: nat, hidden: nat, sectors: nat, heads: nat, fsVersion: nat, labelBlock: seq<byte>)
    requires p.Valid() && p.numFat <= 255 && boot.Length >= BOOT_FIELDS && |labelBlock| == LABEL_SIZE
    requires 0 < tot < TWO32 && hidden < TWO32
    modifies boot
    ensures Stored(boot[..], p, tot) == true && StoredNumbers(boot[..], tot, hidden) == true
    ensures WordAt(boot[..], NSECT) == U16(sectors) && WordAt(boot[..], NHEADS) == U16(heads)
    ensures p.fatBits == 32 ==> StoredFat32(boot[..], p, fsVersion) == true
  {
    boot[NFAT] := p.numFat as byte;
    StoreLengths(boot, p, fsVersion, labelBlock);
    StoreSizes(boot, p);
    StoreGeometry(boot, tot, hidden, sectors, heads);
    SetWord(boot, DIRENTS, if p.fatBits == 32 then 0 else Times(p.dirLen, p.sectorSize / 32));
  }

  lemma StoredSpelled(b: seq<byte>, p: Params, tot: nat)
    requires p.Valid() && Stored(b, p, tot)
    ensures |b| >= 90 && LittleEndian(b[11..13]) == p.sectorSize && b[13] as nat == p.clusterSize && LittleEndian(b[14..16]) == p.fatStart
    ensures b[16] as nat == p.numFat && LittleEndian(b[17..19]) == if p.fatBits == 32 then 0 else U16(Times(p.dirLen, p.sectorSize / 32))
    ensures LittleEndian(b[22..24]) == if p.fatBits == 32 then 0 else U16(p.fatLen)
    ensures p.fatBits == 32 ==> LittleEndian(b[36..40]) == p.fatLen
  {
    FieldsSpelled(b);
  }

  lemma NumbersSpelled(b: seq<byte>, tot: nat, hidden: nat)
    requires |b| >= 90 && StoredNumbers(b, tot, hidden)
    ensures if tot <= 0xffff && hidden <= 0xffff
      then LittleEndian(b[19..21]) == tot && LittleEndian(b[32..36]) == 0 && LittleEndian(b[28..30]) == hidden
      else LittleEndian(b[19..21]) == 0 && LittleEndian(b[32..36]) == tot && LittleEndian(b[28..32]) == hidden
  {
    FieldsSpelled(b);
    WordSpelled(b, 28);
    DwordSpelled(b, 28);
  }

  lemma Fat32Spelled(b: seq<byte>, p: Params, fsVersion: nat)
    requires |b| >= 90 && StoredFat32(b, p, fsVersion)
    ensures LittleEndian(b[40..42]) == 0 && LittleEndian(b[42..44]) == U16(fsVersion)
    ensures LittleEndian(b[44..48]) == 2 && LittleEndian(b[48..50]) == 1 && LittleEndian(b[50..52]) == U16(p.backupBoot)
  {
    WordSpelled(b, 40);
    WordSpelled(b, 42);
    DwordSpelled(b, 44);
    WordSpelled(b, 48);
    WordSpelled(b, 50);
  }

  // The boot sector as mformat writes it, at the end with the number of root directory entries:
  // what its bytes stand for.
  method StoreParameters(boot: array<byte>, p: Params, tot: nat, hidden: nat, sectors: nat, heads: nat, fsVersion: nat, labelBlock: seq<byte>)
    requires p.Valid() && p.numFat <= 255 && boot.Length >= 90 && |labelBlock| == LABEL_SIZE
    requires 0 < tot < TWO32 && hidden < TWO32
    modifies boot
    ensures Stored(boot[..], p, tot) == true
    ensures LittleEndian(boot[11..13]) == p.sectorSize && boot[13] as nat == p.clusterSize && LittleEndian(boot[14..16]) == p.fatStart
    ensures boot[16] as nat == p.numFat && LittleEndian(boot[17..19]) == if p.fatBits == 32 then 0 else U16(Times(p.dirLen, p.sectorSize / 32))
    ensures LittleEndian(boot[22..24]) == if p.fatBits == 32 then 0 else U16(p.fatLen)
    ensures LittleEndian(boot[24..26]) == U16(sectors) && LittleEndian(boot[26..28]) == U16(heads)
    ensures if tot <= 0xffff && hidden <= 0xffff
      then LittleEndian(boot[19..21]) == tot && LittleEndian(boot[32..36]) == 0 && LittleEndian(boot[28..30]) == hidden
      else LittleEndian(boot[19..21]) == 0 && LittleEndian(boot[32..36]) == tot && LittleEndian(boot[28..32]) == hidden
    ensures p.fatBits == 32 ==> LittleEndian(boot[36..40]) == p.fatLen && LittleEndian(boot[40..42]) == 0 && LittleEndian(boot[42..44]) == U16(fsVersion)
    ensures p.fatBits == 32 ==> LittleEndian(boot[44..48]) == 2 && LittleEndian(boot[48..50]) == 1 && LittleEndian(boot[50..52]) == U16(p.backupBoot)
  {
    StoreFields(boot, p, tot, hidden, sectors, heads, fsVersion, labelBlock);
    ghost var b := boot[..];
    assert forall i, j {:trigger boot[i..j]} :: 0 <= i <= j <= boot.Length ==> b[i..j] == boot[i..j];
    StoredSpelled(b, p, tot);
    NumbersSpelled(b, tot, hidden);
    WordSpelled(b, 24);
    WordSpelled(b, 26);
    if p.fatBits == 32 {
      Fat32Spelled(b, p, fsVersion);
    }
  }

  function Found(p: Params, tot: nat): FsParams
    reads p
  {
    FsParams(tot, p.sectorSize, p.clusterSize, p.fatStart, p.fatLen, p.dirLen, p.numFat, p.fatBits, p.clusStart, p.numClus)
  }

  // Whether the lengths fit into the 16-bit fields they have for 12-bit and 16-bit tables.
  predicate FitsFields(p: Params)
    reads p
  {
    p.fatBits == 32 || (p.fatLen < 0x1_0000 && Times(p.dirLen, p.sectorSize / 32) < 0x1_0000)
  }

  lemma {:induction false} TimesScale(n: nat, e: nat)
    ensures Times(n, 32 * e) == 32 * Times(n, e)
  {
    if n > 0 {
      TimesScale(n - 1, e);
    }
  }

  // The root directory in entries and back in sectors.
  lemma DirectoryLength(dirLen: nat, sectorSize: nat, entries: nat)
    requires PowerOfTwoSize(sectorSize) && sectorSize >= 32
    requires entries <= Times(dirLen, sectorSize / 32)
    ensures Div(32 * entries, sectorSize) == dirLen <==> entries == Times(dirLen, sectorSize / 32)
  {
    TimesScale(dirLen, sectorSize / 32);
    assert 32 * (sectorSize / 32) == sectorSize;
    DivShift(dirLen, 0, sectorSize);
    DivBound(32 * entries, dirLen, sectorSize);
  }

  // What is derived from the number of clusters comes out the same.
  lemma CountReadsBack(p: Params, tot: nat)
    requires p.Consistent(tot) && 0 < tot < TWO32
    ensures tot > p.clusStart && p.numClus == Div(tot - p.clusStart, p.clusterSize) && p.fatLen > 0
    ensures p.fatBits == FatWidth(p.numClus, p.fatBits == 32)
  {
    DivShift(p.numClus, tot - p.clusStart - Times(p.numClus, p.clusterSize), p.clusterSize);
    TimesMono(1, p.numClus + 2, p.fatBits / 4);
  }

  // Reading gives back what was found if and only if the fields are wide enough.
  lemma ReadsBack(b: seq<byte>, p: Params, tot: nat)
    requires p.Consistent(tot) && 0 < tot < TWO32 && PowerOfTwoSize(p.sectorSize) && Stored(b, p, tot)
    ensures Represents(b, Found(p, tot)) <==> FitsFields(p)
  {
    CountReadsBack(p, tot);
    if p.fatBits != 32 {
      DirectoryLength(p.dirLen, p.sectorSize, WordAt(b, DIRENTS));
    }
  }

  // The boot sector of a consistent parameter set, written and read.
  method FormatThenRead(boot: array<byte>, p: Params, tot: nat, hidden: nat, sectors: nat, heads: nat, fsVersion: nat, labelBlock: seq<byte>)
    returns (r: Option<FsParams>)
    requires p.Consistent(tot) && PowerOfTwoSize(p.sectorSize) && boot.Length >= BOOT_FIELDS && |labelBlock| == LABEL_SIZE
    requires 0 < tot < TWO32 && hidden < TWO32
    modifies boot
    ensures r == Some(Found(p, tot)) <==> FitsFields(p)
  {
    StoreParameters(boot, p, tot, hidden, sectors, heads, fsVersion, labelBlock);
    ReadsBack(boot[..], p, tot);
    r := ParseFsParams(boot);
    if FitsFields(p) {
      RepresentsOne(boot[..], Found(p, tot), r);
    }
  }

  lemma RepresentsOne(b: seq<byte>, fs: FsParams, r: Option<FsParams>)
    requires Represents(b, fs) && (r.Some? ==> Represents(b, r.value))
    requires r.None? && PowerOfTwoSize(WordAt(b, SECSIZ)) ==>
      StoredTotal(b) <= StoredStart(b, Div(32 * WordAt(b, DIRENTS), WordAt(b, SECSIZ)))
    ensures r == Some(fs)
  {
  }

  // A root directory of 65536 entries, a number its 16-bit field cannot hold.
  method LongDirectory() returns (p: Params)
    ensures fresh(p) && p.Consistent(20937) && p.sectorSize == 512 && p.dirLen == 4096 && p.fatBits == 16
  {
    p := new Params(512, 2, 16, 4, 1, 20, 4096);
    TimesIsProduct(2, 20);
    var ok := p.CalcNumClus(20937);
    TimesIsProduct(p.numClus, 4);
    TimesIsProduct(p.numClus + 2, 4);
    TimesIsProduct(20, 1024);
  }

  // It is not read back from the boot sector.
  method LongDirectoryIsLost(boot: array<byte>, labelBlock: seq<byte>) returns (p: Params, r: Option<FsParams>)
    requires boot.Length >= BOOT_FIELDS && |labelBlock| == LABEL_SIZE
    modifies boot
    ensures p.Consistent(20937) && !FitsFields(p) && r != Some(Found(p, 20937))
  {
    p := LongDirectory();
    TimesIsProduct(4096, 16);
    r := FormatThenRead(boot, p, 20937, 0, 32, 16, 0, labelBlock);
  }

  lemma Spelled2(x: byte, y: byte)
    ensures LittleEndian([x, y]) == x as nat + 0x100 * y as nat
  {
    assert [x, y][0..2] == [x, y];
    WordSpelled([x, y], 0);
  }

  lemma Spelled4(x: byte, y: byte, z: byte, w: byte)
    ensures LittleEndian([x, y, z, w]) == x as nat + 0x100 * y as nat + 0x1_0000 * z as nat + 0x100_0000 * w as nat
  {
    assert [x, y, z, w][0..4] == [x, y, z, w];
    DwordSpelled([x, y, z, w], 0);
  }

  // A field among known bytes.
  lemma WordFrom(boot: array<byte>, lo: nat, bytes: seq<byte>, at: nat)
    requires lo <= at && at + 2 <= lo + |bytes| <= boot.Length && boot[lo..lo + |bytes|] == bytes
    ensures LittleEndian(boot[at..at + 2]) == bytes[at - lo] as nat + 0x100 * bytes[at - lo + 1] as nat
  {
    assert boot[at..at + 2] == bytes[at - lo..at - lo + 2] == [bytes[at - lo], bytes[at - lo + 1]];
    Spelled2(bytes[at - lo], bytes[at - lo + 1]);
  }

  lemma DwordFrom(boot: array<byte>, lo: nat, bytes: seq<byte>, at: nat)
    requires lo <= at && at + 4 <= lo + |bytes| <= boot.Length && boot[lo..lo + |bytes|] == bytes
    ensures LittleEndian(boot[at..at + 4]) == bytes[at - lo] as nat + 0x100 * bytes[at - lo + 1] as nat
      + 0x1_0000 * bytes[at - lo + 2] as nat + 0x100_0000 * bytes[at - lo + 3] as nat
  {
    var k := at - lo;
    assert boot[at..at + 4] == bytes[k..k + 4] == [bytes[k], bytes[k + 1], bytes[k + 2], bytes[k + 3]];
    Spelled4(bytes[k], bytes[k + 1], bytes[k + 2], bytes[k + 3]);
  }

  lemma HeadFields(boot: array<byte>, head: seq<byte>)
    requires boot.Length >= 90 && |head| == 13 && boot[11..24] == head
    ensures LittleEndian(boot[11..13]) == head[0] as nat + 0x100 * head[1] as nat && boot[13] == head[2]
    ensures LittleEndian(boot[14..16]) == head[3] as nat + 0x100 * head[4] as nat && boot[16] == head[5]
    ensures LittleEndian(boot[17..19]) == head[6] as nat + 0x100 * head[7] as nat
    ensures LittleEndian(boot[19..21]) == head[8] as nat + 0x100 * head[9] as nat
    ensures LittleEndian(boot[22..24]) == head[11] as nat + 0x100 * head[12] as nat
  {
    assert boot[13] == boot[11..24][2] && boot[16] == boot[11..24][5];
    WordFrom(boot, 11, head, 11);
    WordFrom(boot, 11, head, 14);
    WordFrom(boot, 11, head, 17);
    WordFrom(boot, 11, head, 19);
    WordFrom(boot, 11, head, 22);
  }

  // What the numbers in the fields of a boot sector, in their order, amount to.
  ghost predicate Yields(fs: FsParams, secsiz: nat, clsiz: nat, nrsvsect: nat, nfat: nat, dirents: nat, psect: nat, bigsect: nat, fatlen: nat, bigFat: nat) {
    && PowerOfTwoSize(secsiz) && clsiz > 0
    && fs.sectorSize == secsiz && fs.clusterSize == clsiz && fs.fatStart == nrsvsect && fs.numFat == nfat && fs.dirLen == Div(32 * dirents, secsiz)
    && fs.totSectors == (if psect != 0 then psect else bigsect) && fs.fatLen == (if fatlen != 0 then fatlen else bigFat)
    && fs.clusStart == U32(nrsvsect + Times(nfat, fs.fatLen) + fs.dirLen) < fs.totSectors
    && fs.numClus == Div(fs.totSectors - fs.clusStart, clsiz)
    && fs.fatBits == if fatlen == 0 then 32 else if fs.numClus < 4085 then 12 else if fs.numClus < 65525 then 16 else 32
  }

  method ReadKnown(boot: array<byte>, ghost fs: FsParams) returns (r: Option<FsParams>)
    requires boot.Length >= 90 && Yields(fs, LittleEndian(boot[11..13]), boot[13] as nat, LittleEndian(boot[14..16]), boot[16] as nat, LittleEndian(boot[17..19]),
      LittleEndian(boot[19..21]), LittleEndian(boot[32..36]), LittleEndian(boot[22..24]), LittleEndian(boot[36..40]))
    ensures r == Some(fs)
  {
    r := ParseFsParams(boot);
  }

  // The boot sector of a floppy of 1440 KiB.
  lemma FloppyFields(bigTotal: nat, bigFatLen: nat)
    ensures Yields(FsParams(2880, 512, 1, 1, 9, 14, 2, 12, 33, 2847), 512, 1, 1, 2, 224, 2880, bigTotal, 9, bigFatLen)
  {
    TimesIsProduct(2, 9);
    Quotient(7168, 512, 14, 0);
    Quotient(2847, 1, 2847, 0);
  }

  method ReadFloppy(boot: array<byte>) returns (r: Option<FsParams>)
    requires boot.Length >= 90 && boot[11..24] == [0x00, 0x02, 0x01, 0x01, 0x00, 0x02, 0xe0, 0x00, 0x40, 0x0b, 0xf0, 0x09, 0x00]
    ensures r == Some(FsParams(2880, 512, 1, 1, 9, 14, 2, 12, 33, 2847))
  {
    ghost var head: seq<byte> := [0x00, 0x02, 0x01, 0x01, 0x00, 0x02, 0xe0, 0x00, 0x40, 0x0b, 0xf0, 0x09, 0x00];
    HeadFields(boot, head);
    FloppyFields(LittleEndian(boot[32..36]), LittleEndian(boot[36..40]));
    r := ReadKnown(boot, FsParams(2880, 512, 1, 1, 9, 14, 2, 12, 33, 2847));
  }

  // That of a disk of 128 MiB with 16-bit entries.
  lemma MediumDiskFields(bigFatLen: nat)
    ensures Yields(FsParams(262144, 512, 4, 1, 256, 32, 2, 16, 545, 65399), 512, 4, 1, 2, 512, 0, 262144, 256, bigFatLen)
  {
    TimesIsProduct(2, 256);
    Quotient(16384, 512, 32, 0);
    Quotient(261599, 4, 65399, 3);
  }

  method ReadMediumDisk(boot: array<byte>) returns (r: Option<FsParams>)
    requires boot.Length >= 90 && boot[11..24] == [0x00, 0x02, 0x04, 0x01, 0x00, 0x02, 0x00, 0x02, 0x00, 0x00, 0xf8, 0x00, 0x01] && boot[32..36] == [0x00, 0x00, 0x04, 0x00]
    ensures r == Some(FsParams(262144, 512, 4, 1, 256, 32, 2, 16, 545, 65399))
  {
    ghost var head: seq<byte> := [0x00, 0x02, 0x04, 0x01, 0x00, 0x02, 0x00, 0x02, 0x00, 0x00, 0xf8, 0x00, 0x01];
    HeadFields(boot, head);
    ghost var more: seq<byte> := [0x00, 0x00, 0x04, 0x00];
    DwordFrom(boot, 32, more, 32);
    MediumDiskFields(LittleEndian(boot[36..40]));
    r := ReadKnown(boot, FsParams(262144, 512, 4, 1, 256, 32, 2, 16, 545, 65399));
  }

  // That of a disk of 1 GiB with 32-bit entries.
  lemma LargeDiskFields()
    ensures Yields(FsParams(2097152, 512, 8, 32, 2048, 0, 2, 32, 4128, 261628), 512, 8, 32, 2, 0, 0, 2097152, 0, 2048)
  {
    TimesIsProduct(2, 2048);
    Quotient(0, 512, 0, 0);
    Quotient(2093024, 8, 261628, 0);
  }

  method ReadLargeDisk(boot: array<byte>) returns (r: Option<FsParams>)
    requires boot.Length >= 90 && boot[11..24] == [0x00, 0x02, 0x08, 0x20, 0x00, 0x02, 0x00, 0x00, 0x00, 0x00, 0xf8, 0x00, 0x00] && boot[32..40] == [0x00, 0x00, 0x20, 0x00, 0x00, 0x08, 0x00, 0x00]
    ensures r == Some(FsParams(2097152, 512, 8, 32, 2048, 0, 2, 32, 4128, 261628))
  {
    ghost var head: seq<byte> := [0x00, 0x02, 0x08, 0x20, 0x00, 0x02, 0x00, 0x00, 0x00, 0x00, 0xf8, 0x00, 0x00];
    HeadFields(boot, head);
    ghost var more: seq<byte> := [0x00, 0x00, 0x20, 0x00, 0x00, 0x08, 0x00, 0x00];
    DwordFrom(boot, 32, more, 32);
    DwordFrom(boot, 32, more, 36);
    LargeDiskFields();
    r := ReadKnown(boot, FsParams(2097152, 512, 8, 32, 2048, 0, 2, 32, 4128, 261628));
  }

  lemma Quotient(x: nat, n: nat, q: nat, r: nat)
    requires n > 0 && x == q * n + r && r < n
    ensures Div(x, n) == q
  {
    TimesIsProduct(q, n);
    DivShift(q, r, n);
  }
}
