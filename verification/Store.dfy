/**
 The stream below: a growing array of bytes that may fail, and may transfer less than it was
 asked for. It stands for the devices and image files the source reaches through PREADS and
 PWRITES.
 */
module Store {
  import opened Arith

  newtype byte = x: int | 0 <= x < 256

  // Contents continued by zeros.
  function Extended(bytes: seq<byte>, i: nat): byte {
    if i < |bytes| then bytes[i] else 0
  }

  class Store {
    const grain: nat          // sectors of this size are transferred whole
    const reliable: bool      // never fails
    var bytes: seq<byte>

    ghost predicate Valid()
      reads this
    {
      grain > 0 && Aligned(|bytes|, grain)
    }

    ghost function At(i: nat): byte
      reads this
    {
      Extended(bytes, i)
    }

    constructor (grain: nat, reliable: bool, bytes: seq<byte>)
      requires grain > 0 && Aligned(|bytes|, grain)
      ensures Valid() && this.grain == grain && this.reliable == reliable && this.bytes == bytes
    {
      this.grain, this.reliable, this.bytes := grain, reliable, bytes;
    }

    // A negative answer is an error. An answer of 0 is given only at the end of the contents.
    method PRead(start: nat, len: nat) returns (ret: int, data: seq<byte>)
      requires Valid()
      ensures -1 <= ret <= len && |data| == (if ret > 0 then ret else 0) && (reliable ==> ret >= 0)
      ensures ret > 0 ==> start + ret <= |bytes|
      ensures forall i: nat {:trigger At(i)} :: start <= i < start + ret ==> data[i - start] == At(i)
      ensures ret == 0 ==> len == 0 || start >= |bytes|
      ensures Aligned(start, grain) && Aligned(len, grain) && ret > 0 ==> Aligned(ret, grain)
    {
      var fail :| fail ==> !reliable;
      if fail {
        return -1, [];
      }
      if start >= |bytes| || len == 0 {
        return 0, [];
      }
      var left := |bytes| - start;
      ghost var most := if len < left then len else left;
      if Aligned(start, grain) && Aligned(len, grain) {
        AlignedSum(|bytes|, start, grain);
      }
      assert 0 < most <= len && most <= left && (Aligned(start, grain) && Aligned(len, grain) ==> Aligned(most, grain));
      ret :| 0 < ret <= len && ret <= left
        && (Aligned(start, grain) && Aligned(len, grain) ==> Aligned(ret, grain));
      data := bytes[start..start + ret];
    }

    // Writing behind the end fills the gap with zeros.
    method PWrite(start: nat, data: seq<byte>) returns (ret: int)
      requires Valid()
      modifies this
      ensures -1 <= ret <= |data| && (reliable ==> ret >= 0)
      ensures ret <= 0 ==> unchanged(this)
      ensures ret == 0 ==> data == []
      ensures ret > 0 ==> |bytes| == if start + ret > old(|bytes|) then start + ret else old(|bytes|)
      ensures forall i: nat {:trigger At(i)} :: At(i) == if start <= i < start + ret then data[i - start] else old(At(i))
      ensures ret > 0 && Aligned(start, grain) && Aligned(|data|, grain) ==> Aligned(ret, grain)
      ensures old(Valid()) && Aligned(start, grain) && Aligned(|data|, grain) ==> Valid()
    {
      var fail :| fail ==> !reliable;
      if fail {
        return -1;
      }
      if data == [] {
        return 0;
      }
      ret := |data|;
      ret :| 0 < ret <= |data| && (Aligned(start, grain) && Aligned(|data|, grain) ==> Aligned(ret, grain));
      if start > |bytes| {
        bytes := bytes + seq(start - |bytes|, _ => 0);
      }
      var end := start + ret;
      bytes := bytes[..start] + data[..ret] + (if end < |bytes| then bytes[end..] else []);
      if Aligned(start, grain) && Aligned(ret, grain) {
        AlignedSum(start, ret, grain);
      }
    }
  }
}
