/** The resizable byte buffer (src/buffer.c). Its size is the length of its
    data; allocation is taken to succeed. */
module Buffers {
  import opened Common

  const SIZE_MOD: int := SIZE_MAX + 1

  class Buffer {
    var data: seq<byte>

    /** buffer_new: `size` bytes copied from `init`, or `size` zero bytes when
        it is NULL. */
    constructor (size: nat, init: Option<seq<byte>>)
      requires init.Some? ==> |init.value| == size
      ensures data == Initial(size, init)
    {
      data := Initial(size, init);
    }

    /** buffer_get_size. */
    function GetSize(): (size: nat)
      reads this
      ensures size == |data|
    {
      |data|
    }

    /** buffer_get_data. */
    function GetData(): (r: seq<byte>)
      reads this
      ensures |r| == GetSize()
    {
      data
    }

    /** buffer_set_size: the size becomes `size`; growing keeps the old bytes
        and zero-fills the new tail, shrinking keeps the prefix. */
    method SetSize(size: nat) returns (ret: int)
      modifies this
      ensures ret == 0 && data == Resized(old(data), size)
    {
      if size == |data| {
        return 0;
      }
      if size > |data| {
        data := data + Zeros(size - |data|);
      } else {
        data := data[..size];
      }
      ret := 0;
    }

    /** buffer_set: resizes to `size`, then copies `bytes` in, or zeroes the
        buffer when `bytes` is NULL. */
    method Set(size: nat, bytes: Option<seq<byte>>) returns (ret: int)
      requires bytes.Some? ==> |bytes.value| == size
      modifies this
      ensures ret == 0 && data == Initial(size, bytes)
    {
      ret := SetSize(size);
      if ret != 0 {
        return -1;
      }
      data := Initial(size, bytes);
    }

    /** buffer_set_data: writes `bytes` at `offset`, first growing the buffer
        to offset + |bytes| when it is shorter. A sum that wraps around
        size_t (the only way the test can hold) fails with -ERANGE. */
    method SetData(offset: nat, bytes: seq<byte>) returns (ret: int)
      requires offset <= SIZE_MAX && |bytes| <= SIZE_MAX
      modifies this
      ensures offset + |bytes| > SIZE_MAX ==> ret == -ERANGE && data == old(data)
      ensures offset + |bytes| <= SIZE_MAX ==> ret == 0 && data == Overlay(old(data), offset, bytes)
    {
      var size := |bytes|;
      var s := (offset + size) % SIZE_MOD;
      WrappedSum(offset, size);
      if s < offset && s < size {
        return -ERANGE;
      }
      if s > |data| {
        ret := SetSize(s);
        if ret != 0 {
          return -1;
        }
      }
      data := data[..offset] + bytes + data[offset + size..];
      ret := 0;
    }
  }

  /** buffer_new_copy: a new buffer holding the same bytes. */
  method NewCopy(buffer: Buffer) returns (r: Buffer)
    ensures fresh(r) && r.data == buffer.data
  {
    r := new Buffer(|buffer.data|, Some(buffer.data));
  }

  /** The contents buffer_new(size, init) and buffer_set(size, init) leave. */
  function Initial(size: nat, init: Option<seq<byte>>): (r: seq<byte>)
    requires init.Some? ==> |init.value| == size
    ensures |r| == size
    ensures init.None? ==> forall k :: 0 <= k < size ==> r[k] == 0
    ensures init.Some? ==> r == init.value
  {
    if init.None? then Zeros(size) else init.value
  }

  /** The contents after buffer_set_size(size): the old bytes up to `size`,
      then zeros. */
  function Resized(d: seq<byte>, size: nat): (r: seq<byte>)
    ensures |r| == size
    ensures forall k :: 0 <= k < size && k < |d| ==> r[k] == d[k]
    ensures forall k :: |d| <= k < size ==> r[k] == 0
  {
    if size <= |d| then d[..size] else d + Zeros(size - |d|)
  }

  /** The contents after buffer_set_data(offset, bytes): `bytes` at `offset`,
      every other old byte where it was, and zeros in any gap the growth
      opened between the old end and `offset`. */
  function Overlay(d: seq<byte>, offset: nat, bytes: seq<byte>): (r: seq<byte>)
    ensures |r| == Max(|d|, offset + |bytes|)
    ensures forall k :: 0 <= k < |bytes| ==> r[offset + k] == bytes[k]
    ensures forall k :: 0 <= k < |r| && !(offset <= k < offset + |bytes|) ==>
      r[k] == (if k < |d| then d[k] else 0)
  {
    var g := Resized(d, Max(|d|, offset + |bytes|));
    g[..offset] + bytes + g[offset + |bytes|..]
  }

  /** The overflow test of buffer_set_data on the size_t sum: it fires
      exactly when the mathematical sum exceeds SIZE_MAX, and otherwise the
      sum is exact. */
  lemma {:induction false} WrappedSum(offset: nat, size: nat)
    requires offset <= SIZE_MAX && size <= SIZE_MAX
    ensures var s := (offset + size) % SIZE_MOD;
      (s < offset && s < size <==> offset + size > SIZE_MAX)
      && (offset + size <= SIZE_MAX ==> s == offset + size)
  {
    if offset + size > SIZE_MAX {
      assert (offset + size) % SIZE_MOD == offset + size - SIZE_MOD;
    }
  }

  /** Resizing to the current size changes nothing; growing and shrinking back
      restores the buffer. */
  lemma {:induction false} ResizedBack(d: seq<byte>, size: nat)
    requires size >= |d|
    ensures Resized(d, |d|) == d
    ensures Resized(Resized(d, size), |d|) == d
  {
    assert d[..|d|] == d;
  }

  /** Writing at offset 0 a run as long as the buffer replaces it; writing
      bytes already there changes nothing. */
  lemma {:induction false} OverlayProperties(d: seq<byte>, offset: nat, bytes: seq<byte>)
    ensures |bytes| == |d| && offset == 0 ==> Overlay(d, offset, bytes) == bytes
    ensures offset + |bytes| <= |d| && d[offset..offset + |bytes|] == bytes ==>
      Overlay(d, offset, bytes) == d
  {
    var r := Overlay(d, offset, bytes);
    if offset + |bytes| <= |d| && d[offset..offset + |bytes|] == bytes {
      assert forall k :: 0 <= k < |d| ==> r[k] == d[k] by {
        forall k | 0 <= k < |d|
          ensures r[k] == d[k]
        {
          if offset <= k < offset + |bytes| {
            assert r[offset + (k - offset)] == bytes[k - offset];
          }
        }
      }
    }
  }

  /** tests/buffer.c: new, size, set with the data and with NULL, resize to
      the same size and to 0; every step succeeds. */
  method Scenario(size: nat, init: Option<seq<byte>>) returns (ret: int)
    requires init.Some? ==> |init.value| == size
    ensures ret == 0
  {
    var buffer := new Buffer(size, init);
    ret := 0;
    if buffer.GetSize() != size {
      ret := 3;
    }
    var r1 := buffer.Set(size, init);
    var r2 := buffer.Set(size, None);
    if r1 != 0 || r2 != 0 {
      ret := 5;
    }
    r1 := buffer.SetSize(size);
    r2 := buffer.SetSize(0);
    if r1 != 0 || r2 != 0 {
      ret := 6;
    }
  }
}
