/**
 Files read and written through the buffer (file.c over buffer.c): the bytes of a file are those
 the buffer shows at the addresses of its clusters, and a flush brings them to the device.
 */
module FileStack {
  import opened Arith
  import opened DiskLayout
  import opened FileMap
  import opened FatTable
  import opened Store
  import Below = Buffer

  class BufferedFile {
    const file: File
    const buffer: Below.Buffer

    ghost predicate Valid()
      reads file, file.fs, buffer, buffer.buf, buffer.next
    {
      file.Valid() && buffer.Valid()
    }

    constructor (file: File, buffer: Below.Buffer)
      requires file.Valid() && buffer.Valid()
      ensures Valid() && this.file == file && this.buffer == buffer
    {
      this.file, this.buffer := file, buffer;
    }

    // Byte p of the file with the given chain, as the buffer shows it.
    ghost function Shown(c: seq<nat>, p: nat): byte
      requires buffer.Valid() && file.fs.layout.clusBytes > 0 && file.fs.layout.Holds(c, p)
      reads buffer, buffer.buf, buffer.next
    {
      buffer.View(file.fs.layout.Address(c, p))
    }

    // These are the bytes of this file from a position on.
    ghost predicate ShownFrom(where: nat, data: seq<byte>)
      requires file.Valid() && buffer.Valid()
      reads file, file.fs, buffer, buffer.buf, buffer.next
    {
      forall p :: where <= p < where + |data| ==> file.fs.layout.Holds(file.Chain(), p) && data[p - where] == Shown(file.Chain(), p)
    }

    method Read(ilen: nat) returns (ret: int, data: seq<byte>)
      requires Valid() && file.where <= file.fileSize < TWO32 && ilen < TWO32
      requires file.FalseStart(Div(file.where, file.fs.layout.clusBytes)) ==> file.MediaIsEnd()
      modifies file`where, file`previousRelCluNr, file`previousAbsCluNr, file`loopDetectRel, file`loopDetectAbs, file`firstAbsCluNr
      modifies file.fs, buffer, buffer.buf, buffer.next
      ensures Valid() == true && file.Chain() == old(file.Chain()) && buffer.SameView() == true
      ensures ret <= ilen && |data| == (if ret > 0 then ret else 0) && file.where == old(file.where) + |data| <= file.fileSize
      ensures ShownFrom(old(file.where), data) == true
      ensures ret >= 0 || (ret == Below.ERROR && !buffer.next.reliable) || ret == Below.EXIT
        || (ret == HALT && old(file.FalseStart(Div(file.where, file.fs.layout.clusBytes))) && Div(old(file.where), file.fs.layout.clusBytes) == UNSET)
      ensures !old(HasMore(ilen)) ==> ret == 0 || ret == HALT
      ensures old(HasMore(ilen)) ==> Why(old(file.where), old(file.Wanted(file.where, ilen, true)), ret) == true
    {
      var m := file.NormalMap(file.where, ilen, true);
      ret, data := if m.Halt? then HALT else 0, [];
      if m.Mapped? {
        ret, data := ReadMapped(m.res, m.len);
      }
    }

    // The mapped part of a read.
    method ReadMapped(res: nat, len: nat) returns (ret: int, data: seq<byte>)
      requires Valid() && file.fs.layout.IsExtent(file.Chain(), file.where, len, res) && file.where + len <= file.fileSize
      modifies file`where, buffer, buffer.buf, buffer.next
      ensures Valid() == true && buffer.SameView() == true && ret <= len && |data| == if ret > 0 then ret else 0
      ensures file.where == old(file.where) + |data| && ShownFrom(old(file.where), data) == true
      ensures ret >= 0 || (ret == Below.ERROR && !buffer.next.reliable) || ret == Below.EXIT
      ensures len == 0 ==> ret == 0
      ensures len > 0 ==> file.fs.layout.Holds(file.Chain(), old(file.where)) && file.fs.layout.Address(file.Chain(), old(file.where)) == res
      ensures ret == 0 ==> len == 0 || res >= |buffer.next.bytes|
      ensures ret == Below.EXIT ==> res > |buffer.next.bytes| && !Aligned(res, buffer.sectorSize)
    {
      ret, data := ReadExtent(res, len);
      if ret > 0 {
        ghost var from := file.where;
        label Moved:
        file.where := file.where + ret;
        assert ShownFrom(from, data) by {
          assert old@Moved(ShownFrom(from, data)) && file.Chain() == old@Moved(file.Chain());
        }
      }
    }

    // The bytes of a mapped extent.
    method ReadExtent(res: nat, len: nat) returns (ret: int, data: seq<byte>)
      requires Valid() && file.fs.layout.IsExtent(file.Chain(), file.where, len, res)
      modifies buffer, buffer.buf, buffer.next
      ensures Valid() == true && buffer.SameView() == true && ret <= len && |data| == if ret > 0 then ret else 0
      ensures ShownFrom(file.where, data) == true
      ensures ret >= 0 || (ret == Below.ERROR && !buffer.next.reliable) || ret == Below.EXIT
      ensures len == 0 ==> ret == 0
      ensures len > 0 ==> file.fs.layout.Holds(file.Chain(), file.where) && file.fs.layout.Address(file.Chain(), file.where) == res
      ensures ret == 0 ==> len == 0 || res >= |buffer.next.bytes|
      ensures ret == Below.EXIT ==> res > |buffer.next.bytes| && !Aligned(res, buffer.sectorSize)
    {
      assert len > 0 ==> file.fs.layout.Holds(file.Chain(), file.where) && file.fs.layout.Address(file.Chain(), file.where) == res;
      ret, data := buffer.BufPRead(res, len);
    }

    // There is something to read, a cluster that holds it, and a way to get there.
    ghost predicate HasMore(ilen: nat)
      requires file.Valid()
      reads file, file.fs
    {
      0 < ilen && file.where < file.fileSize && file.fs.layout.Holds(file.Chain(), file.where) && !file.FalseStart(Div(file.where, file.fs.layout.clusBytes))
    }

    // Nothing is read then only where the mapping stalls, at the end of the device, or after an
    // error; the program stops only beyond that end.
    ghost predicate Why(where: nat, wanted: nat, ret: int)
      requires file.Valid() && file.fs.layout.Holds(file.Chain(), where) && wanted > 0 && buffer.sectorSize > 0
      reads file, file.fs, buffer, buffer.next
    {
      var stalls, address := Stalls(file.Chain(), where, wanted, file.fs.layout.clusBytes), file.fs.layout.Address(file.Chain(), where);
      && (stalls ==> ret == 0) && (ret == 0 ==> stalls || address >= |buffer.next.bytes|)
      && (ret == Below.EXIT ==> address > |buffer.next.bytes| && !Aligned(address, buffer.sectorSize))
    }

    // Stores bytes in a mapped extent; no other byte of any file changes.
    method StoreExtent(res: nat, data: seq<byte>) returns (ret: int)
      requires Valid() && file.firstAbsCluNr >= 2 && file.fs.layout.IsExtent(file.Chain(), file.where, |data|, res)
      modifies buffer, buffer.buf, buffer.next
      ensures Valid() && -1 <= ret <= |data| && (data != [] ==> ret != 0) && (buffer.next.reliable ==> ret >= 0)
      ensures forall h: nat, p: nat :: h in file.fs.files && file.fs.layout.Holds(file.fs.files[h], p) ==>
        var a := file.fs.layout.Address(file.fs.files[h], p);
        buffer.View(a) == if h == file.firstAbsCluNr && file.where <= p < file.where + ret then data[p - file.where] else old(buffer.View(a))
    {
      forall h: nat, q: nat | h in file.fs.files && file.fs.layout.Holds(file.fs.files[h], q)
        && res <= file.fs.layout.Address(file.fs.files[h], q) < res + |data|
        ensures h == file.firstAbsCluNr && file.fs.layout.Address(file.fs.files[h], q) == res + q - file.where
      {
        file.ExtentOwner(file.where, |data|, res, h, q);
      }
      ret := buffer.BufPWrite(res, data);
    }

    // Exactly the bytes written change, of all bytes of all files.
    method Write(data: seq<byte>) returns (ret: int)
      requires Valid() && file.where < TWO32
      requires file.TruePoint(file.Chain()) || Div(file.where, file.fs.layout.clusBytes) < UNSET
      modifies file, file.fs, buffer, buffer.buf, buffer.next
      ensures Valid() && file.Grown() && ret <= |data| && file.where == old(file.where) + (if ret > 0 then ret else 0)
      ensures ret == -2 ==> file.OutOfSpace()
      ensures old(file.Covered() && file.fs.Readable()) && old(file.where) + |data| <= file.preallocatedSize < TWO32 ==> ret != -2
      ensures -2 <= ret && (ret == -1 ==> !buffer.next.reliable)
      ensures ret == 0 && data != [] && old(file.where) < TWO32 - 1 ==>
        Stalls(file.Chain(), old(file.where), Least(|data|, TWO32 - 1 - old(file.where)), file.fs.layout.clusBytes)
      ensures forall p: nat :: old(file.where) <= p < old(file.where) + ret ==> file.fs.layout.Holds(file.Chain(), p)
      ensures forall h: nat, p: nat :: h in file.fs.files && file.fs.layout.Holds(file.fs.files[h], p) ==>
        var a := file.fs.layout.Address(file.fs.files[h], p);
        buffer.View(a)
          == if h == file.firstAbsCluNr && old(file.where) <= p < old(file.where) + ret then data[p - old(file.where)] else old(buffer.View(a))
    {
      var len := Least(|data|, TWO32 - 1 - file.where);
      var m := file.MapToWrite(len);
      match m
      case Nothing => ret := 0;
      case Full => ret := -2;
      case Mapped(res, mapped) =>
        ret := StoreMapped(res, data[..mapped]);
    }

    // The mapped part of a write.
    method StoreMapped(res: nat, data: seq<byte>) returns (ret: int)
      requires Valid() && file.firstAbsCluNr >= 2 && file.fs.layout.IsExtent(file.Chain(), file.where, |data|, res)
      modifies file`where, file`fileSize, file`preallocatedClusters, file.fs`preallocatedClusters, file.fs`fatError, buffer, buffer.buf, buffer.next
      ensures Valid() && -1 <= ret <= |data| && (data != [] ==> ret != 0) && (buffer.next.reliable ==> ret >= 0)
      ensures file.where == old(file.where) + if ret > 0 then ret else 0
      ensures forall h: nat, p: nat :: h in file.fs.files && file.fs.layout.Holds(file.fs.files[h], p) ==>
        var a := file.fs.layout.Address(file.fs.files[h], p);
        buffer.View(a) == if h == file.firstAbsCluNr && old(file.where) <= p < old(file.where) + ret then data[p - old(file.where)] else old(buffer.View(a))
    {
      ret := StoreExtent(res, data);
      if ret >= 0 {
        file.Advance(ret);
      }
    }

    // After a flush every byte of every file is on the device.
    method Flush() returns (ok: bool)
      requires Valid()
      modifies buffer, buffer.buf, buffer.next
      ensures Valid() && buffer.SameView() && (buffer.next.reliable ==> ok)
      ensures ok ==> forall h: nat, p: nat :: h in file.fs.files && file.fs.layout.Holds(file.fs.files[h], p) ==>
        Extended(buffer.next.bytes, file.fs.layout.Address(file.fs.files[h], p)) == Shown(file.fs.files[h], p)
    {
      var ret := buffer.BufFlush();
      ok := ret == 0;
      assert forall a: nat :: buffer.next.At(a) == Extended(buffer.next.bytes, a);
    }
  }
}
