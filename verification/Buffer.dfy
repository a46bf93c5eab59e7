/**
 The write-back buffer of buffer.c, and the driver of force_io.c that repeats short transfers.
 One window of the lower stream is held in memory, with a dirty stretch inside it. Through the
 buffer the lower stream looks like a flat array of bytes, continued by zeros.
 */
module Buffer {
  import opened Arith
  import opened Store

  const ERROR: int := -1
  const EXIT: int := -2   // the source gives up with exit(1)

  datatype Position = Outside | Append | Inside | Failed

  // Repeat writing until all is written or no progress is made.
  method ForcePWriteStore(next: Store, start: nat, data: seq<byte>) returns (ret: int)
    requires next.Valid() && Aligned(start, next.grain) && Aligned(|data|, next.grain)
    modifies next
    ensures next.Valid() && ret <= |data| && (next.reliable ==> ret == |data|)
    ensures forall i: nat :: next.At(i) == if start <= i < start + ret then data[i - start] else old(next.At(i))
  {
    var done := 0;
    while done < |data|
      invariant 0 <= done <= |data| && next.Valid() && Aligned(done, next.grain)
      invariant forall i: nat :: next.At(i) == if start <= i < start + done then data[i - start] else old(next.At(i))
    {
      AlignedSum(start, done, next.grain);
      AlignedSum(|data|, done, next.grain);
      ret := next.PWrite(start + done, data[done..]);
      if ret <= 0 {
        return if done > 0 then done else ret;
      }
      AlignedSum(done, ret, next.grain);
      done := done + ret;
    }
    ret := done;
  }

  class Buffer {
    const next: Store
    const size: nat            // of the window
    const sectorSize: nat      // all operations on the lower stream are in multiples of this
    const cylinderSize: nat    // preferred alignment
    var dirty: bool
    var everDirty: bool
    var dirtyPos: nat
    var dirtyEnd: nat
    var current: nat           // position of the window
    var curSize: nat           // its filled part
    const buf: array<byte>

    ghost predicate Sizes()
      reads this, next
    {
      && next.Valid() && next.grain == sectorSize
      && sectorSize > 0 && cylinderSize > 0 && size > 0
      && Aligned(cylinderSize, sectorSize) && Aligned(size, cylinderSize)
      && buf.Length == size
    }

    ghost predicate Valid()
      reads this, buf, next
    {
      && Sizes()
      && curSize <= size && Aligned(curSize, sectorSize) && Aligned(current, sectorSize)
      && (dirty ==> everDirty && dirtyPos < dirtyEnd <= curSize && Aligned(dirtyPos, sectorSize) && Aligned(dirtyEnd, sectorSize))
      && (!dirty ==> dirtyPos == dirtyEnd == 0)
      && forall i: nat {:trigger next.At(i)} :: current <= i < current + curSize && !(current + dirtyPos <= i < current + dirtyEnd) ==>
        buf[i - current] == next.At(i)
    }

    // What the buffer and the stream below amount to together.
    ghost function View(i: nat): byte
      requires curSize <= buf.Length
      reads this, buf, next
    {
      if current <= i < current + curSize then buf[i - current] else next.At(i)
    }

    twostate predicate SameView()
      requires old(curSize) <= buf.Length && curSize <= buf.Length
      reads this, buf, next
    {
      forall i: nat {:trigger View(i)} {:trigger old(View(i))} :: View(i) == old(View(i))
    }

    constructor (next: Store, size: nat, cylinderSize: nat, sectorSize: nat)
      requires next.Valid() && next.grain == sectorSize && size > 0 && cylinderSize > 0
      requires Aligned(size, cylinderSize) && Aligned(cylinderSize, sectorSize)
      ensures Valid() && fresh(buf) && this.next == next
      ensures forall i: nat :: View(i) == next.At(i)
    {
      this.next, this.size, this.cylinderSize, this.sectorSize := next, size, cylinderSize, sectorSize;
      dirty, everDirty, dirtyPos, dirtyEnd, current, curSize := false, false, 0, 0, 0, 0;
      buf := new byte[size](_ => 0);
    }

    // Hands the dirty stretch to the stream below.
    method WriteDirty() returns (ret: int)
      requires Valid() && dirty
      modifies next
      ensures Valid() && SameView() && (next.reliable ==> ret == dirtyEnd - dirtyPos)
      ensures ret == dirtyEnd - dirtyPos ==>
        forall i: nat {:trigger next.At(i)} :: current <= i < current + curSize ==> buf[i - current] == next.At(i)
    {
      AlignedSum(dirtyEnd, dirtyPos, sectorSize);
      AlignedSum(current, dirtyPos, sectorSize);
      ret := ForcePWriteStore(next, current + dirtyPos, buf[dirtyPos..dirtyEnd]);
    }

    method MtBufFlush() returns (ret: int)
      requires Valid()
      modifies this`dirty, this`dirtyPos, this`dirtyEnd, next
      ensures Valid() && SameView()
      ensures ret == 0 <==> !dirty
      ensures ret == 0 || (ret == ERROR && !next.reliable)
      ensures ret == 0 ==> forall i: nat {:trigger next.At(i)} :: next.At(i) == View(i)
    {
      if !dirty {
        return 0;
      }
      ret := WriteDirty();
      if ret != dirtyEnd - dirtyPos {
        return ERROR;
      }
      dirty, dirtyEnd, dirtyPos := false, 0, 0;
      ret := 0;
    }

    // Empties the window and moves it to the sector that holds start.
    method InvalidateBuffer(start: nat) returns (ret: int)
      requires Valid()
      modifies this`dirty, this`dirtyPos, this`dirtyEnd, this`current, this`curSize, next
      ensures Valid() && SameView()
      ensures ret == 0 || (ret == ERROR && !next.reliable)
      ensures ret == 0 ==> !dirty && curSize == 0 && current == RoundDown(start, sectorSize)
      ensures ret != 0 ==> current == old(current) && curSize == old(curSize)
    {
      ret := MtBufFlush();
      if ret < 0 {
        return ERROR;
      }
      current := RoundDown(start, sectorSize);
      curSize := 0;
    }

    // Distance to the next cylinder boundary; a full cylinder on a boundary.
    function ToNextCylinder(pos: nat): (d: nat)
      requires cylinderSize > 0
      ensures 0 < d <= cylinderSize
    {
      cylinderSize - Mod(pos, cylinderSize)
    }

    lemma CylinderDistanceAligned(pos: nat)
      requires sectorSize > 0 && cylinderSize > 0 && Aligned(cylinderSize, sectorSize) && Aligned(pos, sectorSize)
      ensures Aligned(ToNextCylinder(pos), sectorSize)
    {
      var base := RoundDown(pos, cylinderSize);
      AlignedTransitive(base, cylinderSize, sectorSize);
      AlignedSum(pos, base, sectorSize);
      AlignedSum(cylinderSize, pos - base, sectorSize);
      RoundDownIsRemainder(pos, cylinderSize);
    }

    // Where a request falls, and how much of it can be served at once. A request outside the
    // window moves the window.
    method IsInBuffer(start: nat, reqLen: nat) returns (p: Position, len: nat)
      requires Valid() && reqLen > 0
      modifies this`dirty, this`dirtyPos, this`dirtyEnd, this`current, this`curSize, next
      ensures Valid() && SameView()
      ensures p == Failed ==> !next.reliable
      ensures p != Failed ==> 0 < len <= reqLen && current <= start
      ensures p == Inside ==> start + len <= current + curSize
      ensures p == Append ==> start == current + curSize && Aligned(len, sectorSize) && len <= size - curSize
      ensures p == Outside ==> curSize == 0 && !dirty && current == RoundDown(start, sectorSize)
      ensures p == Outside ==> start - current + len <= cylinderSize && len <= ToNextCylinder(current)
    {
      len := reqLen;
      if current <= start < current + curSize {
        len := Least(len, curSize - (start - current));
        return Inside, len;
      } else if start == current + curSize && curSize < size && len >= sectorSize {
        len := Least(len, size - curSize);
        AlignedTransitive(size, cylinderSize, sectorSize);
        AlignedSum(size, curSize, sectorSize);
        SectorFits(len, size - curSize);
        len := RoundDown(len, sectorSize);
        return Append, len;
      }
      var r := InvalidateBuffer(start);
      if r < 0 {
        return Failed, len;
      }
      SectorFits(cylinderSize, cylinderSize);
      len := Least(len, cylinderSize - (start - current));
      len := Least(len, ToNextCylinder(current));
      p := Outside;
    }

    // A full sector survives rounding down.
    lemma SectorFits(x: nat, limit: nat)
      requires sectorSize > 0 && 0 < x && (x >= sectorSize || x == limit) && Aligned(limit, sectorSize)
      ensures x >= sectorSize && RoundDown(x, sectorSize) >= sectorSize
    {
      if x == limit {
        AlignedGap(0, limit, sectorSize);
      }
    }

    method Memcpy(offset: nat, data: seq<byte>)
      requires offset + |data| <= buf.Length
      modifies buf
      ensures forall k {:trigger buf[k]} :: 0 <= k < buf.Length ==>
        buf[k] == if offset <= k < offset + |data| then data[k - offset] else old(buf[k])
    {
      forall k | 0 <= k < |data| {
        buf[offset + k] := data[k];
      }
    }

    // Reads on behind the filled part, length bytes at most.
    method Fetch(length: nat) returns (ret: int)
      requires Valid() && 0 < length <= size - curSize && Aligned(length, sectorSize) && Aligned(current + curSize, sectorSize)
      modifies this`curSize, buf
      ensures Valid() && SameView()
      ensures ret < 0 ==> curSize == old(curSize) && !next.reliable
      ensures ret >= 0 ==> curSize == old(curSize) + ret
      ensures ret == 0 ==> current + curSize >= |next.bytes|
    {
      var data;
      ret, data := next.PRead(current + curSize, length);
      if ret > 0 {
        AlignedSum(curSize, ret, sectorSize);
        Memcpy(curSize, data);
        curSize := curSize + ret;
      }
    }

    // Reads on to the end of the cylinder.
    method Load() returns (ret: int)
      requires Valid() && curSize < size
      modifies this`curSize, buf
      ensures Valid() && SameView()
      ensures ret < 0 ==> curSize == old(curSize) && !next.reliable
      ensures ret >= 0 ==> curSize == old(curSize) + ret
      ensures ret == 0 ==> current + curSize >= |next.bytes|
    {
      AlignedSum(current, curSize, sectorSize);
      CylinderDistanceAligned(current + curSize);
      AlignedTransitive(size, cylinderSize, sectorSize);
      AlignedSum(size, curSize, sectorSize);
      ret := Fetch(Least(ToNextCylinder(current + curSize), size - curSize));
    }

    method BufPRead(start: nat, reqLen: nat) returns (ret: int, data: seq<byte>)
      requires Valid()
      modifies this, buf, next
      ensures Valid() && SameView()
      ensures ret <= reqLen && |data| == (if ret > 0 then ret else 0)
      ensures forall k :: 0 <= k < ret ==> data[k] == View(start + k)
      ensures ret == 0 ==> reqLen == 0 || start >= |next.bytes|
      ensures reqLen == 0 ==> ret == 0
      ensures ret == EXIT ==> start > |next.bytes| && !Aligned(start, sectorSize)
      ensures ret >= 0 || (ret == ERROR && !next.reliable) || ret == EXIT
    {
      if reqLen == 0 {
        return 0, [];
      }
      var p, len := IsInBuffer(start, reqLen);
      if p == Failed {
        return ERROR, [];
      }
      if p != Inside {
        var r := Load();
        if r < 0 {
          return ERROR, [];
        }
        if current + curSize < start {
          return EXIT, [];
        }
      }
      var offset := start - current;
      len := Least(len, curSize - offset);
      ret, data := len, buf[offset..offset + len];
    }

    // Stores data in the window, which may grow to a full sector, and marks it dirty.
    method Put(offset: nat, data: seq<byte>)
      requires Valid() && offset <= curSize && 0 < |data| && offset + |data| <= size && everDirty
      requires offset + |data| <= curSize || Aligned(offset + |data|, sectorSize)
      modifies this`curSize, this`dirty, this`dirtyPos, this`dirtyEnd, buf
      ensures Valid() && dirty
      ensures forall i: nat {:trigger View(i)} ::
        View(i) == if current + offset <= i < current + offset + |data| then data[i - current - offset] else old(View(i))
    {
      var from, upto := DirtyRange(offset, |data|);
      if offset + |data| > curSize {
        curSize := offset + |data|;
      }
      Memcpy(offset, data);
      dirtyPos, dirtyEnd := from, upto;
      if dirtyEnd > curSize {
        assert false;
      }
      dirty := true;
      forall i: nat | current <= i < current + curSize && !(current + dirtyPos <= i < current + dirtyEnd)
        ensures buf[i - current] == next.At(i)
      {
        assert buf[i - current] == old(buf[i - current]);
      }
    }

    // The dirty stretch, widened to whole sectors around a write.
    method DirtyRange(offset: nat, len: nat) returns (from: nat, upto: nat)
      requires Valid() && offset <= curSize && 0 < len
      requires offset + len <= curSize || Aligned(offset + len, sectorSize)
      ensures from <= offset && offset + len <= upto && Aligned(from, sectorSize) && Aligned(upto, sectorSize)
      ensures dirty ==> from <= dirtyPos && dirtyEnd <= upto
      ensures upto <= curSize || upto == offset + len
    {
      from, upto := dirtyPos, dirtyEnd;
      if offset + len <= curSize {
        RoundingKeeps(offset + len, curSize, sectorSize);
      } else {
        RoundingKeeps(offset + len, offset + len, sectorSize);
      }
      if !dirty || offset < dirtyPos {
        from := RoundDown(offset, sectorSize);
      }
      if !dirty || offset + len > dirtyEnd {
        upto := RoundUp(offset + len, sectorSize);
      }
    }

    // Fills an empty window up to the end of the cylinder, with zeros at the end of the stream.
    method FillForWrite() returns (ret: int)
      requires Valid() && curSize == 0
      modifies this`curSize, buf
      ensures Valid() && SameView()
      ensures if ret >= 0 then curSize >= sectorSize else !next.reliable
    {
      var readSize := ToNextCylinder(current);
      CylinderDistanceAligned(current);
      AlignedGap(0, size, cylinderSize);
      ret := Fetch(readSize);
      if ret < 0 {
        return;
      }
      if curSize == 0 {
        Memcpy(0, seq(readSize, _ => 0));
        curSize := readSize;
      }
      AlignedGap(0, curSize, sectorSize);
    }

    // Makes room for a write, and says where it goes and how much of it is taken.
    method PlaceWrite(start: nat, reqLen: nat) returns (ret: int, offset: nat, len: nat)
      requires Valid() && reqLen > 0
      modifies this`dirty, this`dirtyPos, this`dirtyEnd, this`current, this`curSize, buf, next
      ensures Valid() && SameView()
      ensures ret == 0 || (ret == ERROR && !next.reliable)
      ensures ret == 0 ==> start == current + offset && offset <= curSize && 0 < len <= reqLen && offset + len <= size
      ensures ret == 0 ==> offset + len <= curSize || Aligned(offset + len, sectorSize)
    {
      var p;
      p, len := IsInBuffer(start, reqLen);
      if p == Failed {
        return ERROR, 0, 0;
      }
      offset := start - current;
      AlignedGap(0, size, cylinderSize);
      if p == Outside && (Mod(start, cylinderSize) != 0 || len < sectorSize) {
        var r := FillForWrite();
        if r < 0 {
          return ERROR, 0, 0;
        }
        if offset + len > curSize {
          RoundingKeeps(offset + len, curSize, sectorSize);
          len := len - Mod(offset + len, sectorSize);
        }
      } else if p == Inside {
        len := Least(len, curSize - offset);
      } else {
        if p == Outside {
          AlignedTransitive(start, cylinderSize, sectorSize);
          RoundingKeeps(len, sectorSize, sectorSize);
        }
        AlignedSum(offset, RoundDown(len, sectorSize), sectorSize);
        len := RoundDown(len, sectorSize);
        len := Least(len, size - offset);
      }
      ret := 0;
    }

    method BufPWrite(start: nat, data: seq<byte>) returns (ret: int)
      requires Valid()
      modifies this, buf, next
      ensures Valid()
      ensures ret <= |data| && (ret >= 0 || (ret == ERROR && !next.reliable))
      ensures data != [] ==> ret != 0
      ensures forall i: nat {:trigger View(i)} :: View(i) == if start <= i < start + ret then data[i - start] else old(View(i))
    {
      if data == [] {
        return 0;
      }
      everDirty := true;
      var r, offset, len := PlaceWrite(start, |data|);
      if r < 0 {
        return ERROR;
      }
      Put(offset, data[..len]);
      ret := len;
    }

    // After a flush the stream below holds all that was written.
    method BufFlush() returns (ret: int)
      requires Valid()
      modifies this`dirty, this`dirtyPos, this`dirtyEnd, this`everDirty, next
      ensures Valid() && SameView()
      ensures ret == 0 || (ret == ERROR && !next.reliable)
      ensures ret == 0 ==> forall i: nat {:trigger next.At(i)} :: next.At(i) == View(i)
    {
      if !everDirty {
        return 0;
      }
      ret := MtBufFlush();
      if ret == 0 {
        everDirty := false;
      }
    }
  }

  // force_pread over the buffer: short answers are repeated. It stops short only on an error
  // or at the end of the stream.
  method ForcePRead(b: Buffer, start: nat, len: nat) returns (ret: int, data: seq<byte>, ghost failed: bool)
    requires b.Valid()
    modifies b, b.buf, b.next
    ensures b.Valid() && b.SameView()
    ensures ret <= len && |data| == (if ret > 0 then ret else 0)
    ensures forall k :: 0 <= k < |data| ==> data[k] == b.View(start + k)
    ensures !failed && |data| < len ==> start + |data| >= |b.next.bytes|
    ensures failed && b.next.reliable ==> start + |data| > |b.next.bytes|
  {
    data, failed := [], false;
    while |data| < len
      invariant |data| <= len && b.Valid() && b.SameView()
      invariant forall k :: 0 <= k < |data| ==> data[k] == b.View(start + k)
    {
      var part;
      ret, part := b.BufPRead(start + |data|, len - |data|);
      if ret <= 0 {
        failed := ret < 0;
        return if data != [] then |data| else ret, data, failed;
      }
      data := data + part;
    }
    ret := |data|;
  }

  // force_pwrite over the buffer: without an error it is complete, because every write makes
  // progress.
  method ForcePWrite(b: Buffer, start: nat, data: seq<byte>) returns (ret: int, ghost failed: bool)
    requires b.Valid()
    modifies b, b.buf, b.next
    ensures b.Valid() && ret <= |data|
    ensures forall i: nat {:trigger b.View(i)} :: b.View(i) == if start <= i < start + ret then data[i - start] else old(b.View(i))
    ensures !failed ==> ret == |data|
    ensures b.next.reliable ==> !failed
  {
    var done := 0;
    failed := false;
    while done < |data|
      invariant 0 <= done <= |data| && b.Valid()
      invariant forall i: nat {:trigger b.View(i)} :: b.View(i) == if start <= i < start + done then data[i - start] else old(b.View(i))
    {
      ret := b.BufPWrite(start + done, data[done..]);
      if ret <= 0 {
        failed := true;
        return if done > 0 then done else ret, failed;
      }
      done := done + ret;
    }
    ret := done;
  }

  // Whole runs: whatever is read, written and flushed, the buffer acts as one flat array.

  datatype Op = PRead(start: nat, len: nat) | PWrite(start: nat, data: seq<byte>) | Flush

  datatype Done = Done(ret: int, data: seq<byte>)

  // The array with data stored at start, and zeros in a gap before it.
  function Overlay(img: seq<byte>, start: nat, data: seq<byte>): (r: seq<byte>)
    ensures forall i: nat :: Extended(r, i) == if start <= i < start + |data| then data[i - start] else Extended(img, i)
  {
    if data == [] then img
    else
      var wide := if |img| < start + |data| then img + seq(start + |data| - |img|, _ => 0) else img;
      wide[..start] + data + wide[start + |data|..]
  }

  // The array after the first operations, given how much of each write was taken.
  ghost function Image(img: seq<byte>, ops: seq<Op>, dones: seq<Done>): seq<byte>
    requires |dones| == |ops|
  {
    if ops == [] then img
    else
      var n := |ops| - 1;
      var before := Image(img, ops[..n], dones[..n]);
      if ops[n].PWrite? && 0 < dones[n].ret <= |ops[n].data| then Overlay(before, ops[n].start, ops[n].data[..dones[n].ret]) else before
  }

  // An answer is what the flat array would give, in whole or in part, or an error.
  ghost predicate Explained(reliable: bool, img: seq<byte>, op: Op, d: Done) {
    match op
    case PRead(start, len) => d.ret <= len && |d.data| == (if d.ret > 0 then d.ret else 0)
      && forall k :: 0 <= k < d.ret ==> d.data[k] == Extended(img, start + k)
    case PWrite(start, data) => d.ret <= |data| && (data != [] ==> d.ret != 0) && (reliable ==> d.ret >= 0)
    case Flush => d.ret == 0 || (d.ret == ERROR && !reliable)
  }

  // The buffer shows the array.
  ghost predicate Shows(b: Buffer, img: seq<byte>)
    requires b.curSize <= b.buf.Length
    reads b, b.buf, b.next
  {
    forall i: nat {:trigger b.View(i)} :: b.View(i) == Extended(img, i)
  }

  method Run(b: Buffer, ops: seq<Op>, ghost img: seq<byte>) returns (dones: seq<Done>)
    requires b.Valid() && Shows(b, img)
    modifies b, b.buf, b.next
    ensures b.Valid() && |dones| == |ops|
    ensures Shows(b, Image(img, ops, dones))
    ensures forall j :: 0 <= j < |ops| ==> Explained(b.next.reliable, Image(img, ops[..j], dones[..j]), ops[j], dones[j])
  {
    dones := [];
    for n := 0 to |ops|
      invariant b.Valid() && |dones| == n
      invariant Shows(b, Image(img, ops[..n], dones))
      invariant forall j :: 0 <= j < n ==> Explained(b.next.reliable, Image(img, ops[..j], dones[..j]), ops[j], dones[j])
    {
      ghost var before := dones;
      var d := RunOne(b, ops[n], Image(img, ops[..n], dones));
      dones := dones + [d];
      assert ops[..n + 1][..n] == ops[..n] && dones[..n] == before;
      assert forall j :: 0 <= j < n ==> dones[..j] == before[..j];
    }
    assert ops[..|ops|] == ops;
  }

  method RunOne(b: Buffer, op: Op, ghost img: seq<byte>) returns (d: Done)
    requires b.Valid() && Shows(b, img)
    modifies b, b.buf, b.next
    ensures b.Valid() && Explained(b.next.reliable, img, op, d)
    ensures var after := if op.PWrite? && 0 < d.ret <= |op.data| then Overlay(img, op.start, op.data[..d.ret]) else img;
      Shows(b, after)
  {
    match op
    case PRead(start, len) =>
      var ret, data := b.BufPRead(start, len);
      d := Done(ret, data);
    case PWrite(start, data) =>
      var ret := b.BufPWrite(start, data);
      d := Done(ret, []);
    case Flush =>
      var ret := b.BufFlush();
      d := Done(ret, []);
  }
}
