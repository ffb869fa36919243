/** The growable array of fixed-size elements (src/array.c). Each element is
    `size` bytes in C; here it is one value of the type parameter, and the
    element whose bytes are all zero, which growth fills in, is `zero`. */
module Arrays {
  import opened Common

  /** The array: its element size and the elements, in index order. The
      element count is `|items|`. */
  class Array<T> {
    const size: nat
    const zero: T
    var items: seq<T>

    constructor (size: nat, zero: T)
      requires size <= UINT32_MAX
      ensures this.size == size && this.zero == zero && items == []
    {
      this.size := size;
      this.zero := zero;
      items := [];
    }

    /** array_count: the number of elements. */
    function Count(): (n: nat)
      reads this
      ensures n == |items|
    {
      |items|
    }

    /** array_get: the element at `pos`, or NULL past the end. */
    method Get(pos: nat) returns (r: Option<T>)
      ensures pos < |items| ==> r == Some(items[pos])
      ensures pos >= |items| ==> r == None
    {
      if pos >= |items| {
        return None;
      }
      r := Some(items[pos]);
    }

    /** array_get_copy: copies the element at `pos` into the destination and
        returns 0, or returns 1 past the end and leaves the destination. */
    method GetCopy(pos: nat, dest: T) returns (ret: int, value: T)
      ensures pos < |items| ==> ret == 0 && value == items[pos]
      ensures pos >= |items| ==> ret == 1 && value == dest
    {
      if pos >= |items| {
        return 1, dest;
      }
      value := items[pos];
      ret := 0;
    }

    /** array_set: positions from UINT32_MAX on are refused with -1; otherwise
        the array grows to hold `pos`, with zero elements in between, and the
        element at `pos` becomes `value`. */
    method Set(pos: nat, value: T) returns (ret: int)
      modifies this
      ensures pos >= UINT32_MAX ==> ret == -1 && items == old(items)
      ensures pos < UINT32_MAX ==> ret == 0 && items == Stored(old(items), pos, value, zero)
    {
      if pos >= UINT32_MAX {
        return -1;
      }
      if |items| < pos + 1 {
        // grow the array, zero-filling from the old count up to pos
        items := items + Fill(pos + 1 - |items|, zero);
      }
      items := items[pos := value];
      ret := 0;
    }

    /** array_append: the value becomes the new last element. */
    method Append(value: T) returns (ret: int)
      modifies this
      ensures ret == 0 && items == old(items) + [value]
    {
      items := items + [value];
      ret := 0;
    }

    /** array_remove_pos: deletes the element at `pos`, moving the later ones
        down by one; a position past the end fails with ERANGE (the code
        negates -ERANGE) and changes nothing. */
    method RemovePos(pos: nat) returns (ret: int)
      modifies this
      ensures pos >= |old(items)| ==> ret == ERANGE && items == old(items)
      ensures pos < |old(items)| ==> ret == 0 && items == Removed(old(items), pos)
    {
      if pos >= |items| {
        return ERANGE;
      }
      items := items[..pos] + items[pos + 1..];
      ret := 0;
    }

    /** array_foreach: calls `func` on every element in index order, threading
        the caller's data through the calls. */
    method Foreach<D>(func: (T, D) -> D, data: D) returns (r: D)
      ensures r == Fold(func, items, data)
    {
      var i := 0;
      r := data;
      while i < |items|
        invariant 0 <= i <= |items|
        invariant Fold(func, items[i..], r) == Fold(func, items, data)
      {
        assert items[i..] == [items[i]] + items[i + 1..];
        r := func(items[i], r);
        i := i + 1;
      }
      assert items[i..] == [];
    }
  }

  /** array_new: an element size above UINT32_MAX is refused (NULL); any other
      gives an empty array. */
  method New<T>(size: nat, zero: T) returns (r: Option<Array<T>>)
    ensures size > UINT32_MAX ==> r.None?
    ensures size <= UINT32_MAX ==>
      r.Some? && fresh(r.value) && r.value.size == size && r.value.items == []
  {
    if size > UINT32_MAX {
      return None;
    }
    var a := new Array(size, zero);
    r := Some(a);
  }

  /** `n` copies of `x`. */
  function Fill<T>(n: nat, x: T): (r: seq<T>)
    ensures |r| == n && forall k :: 0 <= k < n ==> r[k] == x
  {
    seq(n, _ => x)
  }

  /** The elements after array_set(pos, value): the array holds at least
      pos + 1 elements, `value` is at `pos`, every old element elsewhere is
      kept, and every new one other than `pos` is the zero element. */
  function Stored<T>(items: seq<T>, pos: nat, value: T, zero: T): (r: seq<T>)
    ensures |r| == Max(|items|, pos + 1)
    ensures r[pos] == value
    ensures forall k :: 0 <= k < |r| && k != pos ==>
      r[k] == (if k < |items| then items[k] else zero)
  {
    if pos < |items| then items[pos := value]
    else items + Fill(pos - |items|, zero) + [value]
  }

  /** The elements after array_remove_pos(pos): one fewer, the ones before
      `pos` in place and the ones after it shifted down by one. */
  function Removed<T>(items: seq<T>, pos: nat): (r: seq<T>)
    requires pos < |items|
    ensures |r| == |items| - 1
    ensures forall k :: 0 <= k < pos ==> r[k] == items[k]
    ensures forall k :: pos <= k < |r| ==> r[k] == items[k + 1]
  {
    items[..pos] + items[pos + 1..]
  }

  /** Calling `func` on each element from the first to the last. */
  function Fold<T, D>(func: (T, D) -> D, items: seq<T>, data: D): (r: D)
    ensures items == [] ==> r == data
    decreases |items|
  {
    if items == [] then data else Fold(func, items[1..], func(items[0], data))
  }

  /** The index order of array_foreach: the last element is visited last. */
  lemma {:induction false} FoldLast<T, D>(func: (T, D) -> D, items: seq<T>, x: T, data: D)
    ensures Fold(func, items + [x], data) == func(x, Fold(func, items, data))
    decreases |items|
  {
    if items == [] {
      assert [] + [x] == [x];
      assert [x][1..] == [];
    } else {
      assert (items + [x])[1..] == items[1..] + [x];
      FoldLast(func, items[1..], x, func(items[0], data));
    }
  }

  /** Removing an element and appending it back only moves it to the end. */
  lemma {:induction false} RemoveThenAppend<T>(items: seq<T>, pos: nat)
    requires pos < |items|
    ensures multiset(Removed(items, pos) + [items[pos]]) == multiset(items)
  {
    assert items == items[..pos] + [items[pos]] + items[pos + 1..];
    calc {
      multiset(Removed(items, pos) + [items[pos]]);
      multiset(items[..pos]) + multiset(items[pos + 1..]) + multiset([items[pos]]);
      multiset(items[..pos] + [items[pos]] + items[pos + 1..]);
    }
  }

  // The scenario of tests/array.c: integer elements of four bytes.

  function Add(v: int, acc: int): int { acc + v }

  /** Summing the run m, m + 1, ..., m + n - 1 onto `d`. */
  lemma {:induction false} FoldAddRun(n: nat, m: int, d: int)
    ensures Fold(Add, seq(n, k => m + k), d) == d + n * m + n * (n - 1) / 2
    decreases n
  {
    var s := seq(n, k => m + k);
    if n > 0 {
      assert s[1..] == seq(n - 1, k => (m + 1) + k);
      FoldAddRun(n - 1, m + 1, d + m);
      RunSumStep(n, m);
    }
  }

  /** The arithmetic of one step of FoldAddRun. */
  lemma {:induction false} RunSumStep(n: nat, m: int)
    requires n > 0
    ensures (n - 1) * (m + 1) + (n - 1) * (n - 2) / 2 + m == n * m + n * (n - 1) / 2
  {
    assert (n - 1) * (m + 1) == n * m - m + n - 1;
    assert n * (n - 1) == (n - 1) * (n - 2) + 2 * (n - 1);
  }

  /** tests/array.c: set 0 to 0, read it back over a non-zero destination,
      store each index 0..1023 at its own position and read them back, check
      the count and element 512, sum all elements with array_foreach, remove
      element 512 and find 513 in its place. Each failing step returns its
      own non-zero code; every step succeeds. */
  method Scenario() returns (code: int)
    ensures code == 0
  {
    var o := New(4, 0);
    if o.None? {
      return 2;
    }
    var a := o.value;
    var g := a.Get(0);
    if g.Some? {
      return 2;
    }
    var ret := a.Set(0, 0);
    if ret != 0 {
      return 3;
    }
    var j;
    ret, j := a.GetCopy(0, 0xffffffff);
    if ret != 0 || j != 0 {
      return 4;
    }
    code := SetIndices(a);
    if code != 0 {
      return code;
    }
    code := ReadIndices(a);
    if code != 0 {
      return code;
    }
    if a.Count() != 1024 {
      return 8;
    }
    g := a.Get(512);
    if g != Some(512) {
      return 9;
    }
    var sum := a.Foreach(Add, 0);
    assert a.items == seq(1024, k => 0 + k);
    FoldAddRun(1024, 0, 0);
    if sum != 523776 {
      return 10;
    }
    ret := a.RemovePos(512);
    if ret != 0 {
      return 11;
    }
    g := a.Get(512);
    if g != Some(513) {
      return 12;
    }
    code := 0;
  }

  /** The store loop of tests/array.c: each index 0..1023 at its own
      position; a failing array_set gives 5. */
  method SetIndices(a: Array<int>) returns (code: int)
    requires a.items == [0]
    modifies a
    ensures code == 0 && a.items == seq(1024, k => k)
  {
    var i := 0;
    while i < 1024
      invariant 0 <= i <= 1024
      invariant a.items == seq(Max(i, 1), k => k)
    {
      var ret := a.Set(i, i);
      if ret != 0 {
        return 5;
      }
      i := i + 1;
    }
    code := 0;
  }

  /** The read-back loop of tests/array.c: array_get_copy at each index
      gives 0 and the index, or the test fails with 6 or 7. */
  method ReadIndices(a: Array<int>) returns (code: int)
    requires a.items == seq(1024, k => k)
    ensures code == 0
  {
    var i := 0;
    while i < 1024
      invariant 0 <= i <= 1024
    {
      var ret, j := a.GetCopy(i, 0);
      if ret != 0 {
        return 6;
      } else if j != i {
        return 7;
      }
      i := i + 1;
    }
    code := 0;
  }

  // 32-bit element offsets (src/array.c:122, 137).

  /** The byte offset array_append writes at, as written: size and count are
      both uint32_t, so their product is taken modulo 2^32 before it is
      widened to the 64-bit offset. array_set computes the offset it
      zero-fills from after growth (`curpos`) with the same product. The
      methods of Array keep elements as values, not bytes at offsets, so
      they use the exact offsets and this wrap shows only here. */
  function AppendOffsetAsWritten(size: nat, count: nat): (offset: nat)
    requires size <= UINT32_MAX && count <= UINT32_MAX
    ensures offset <= UINT32_MAX
  {
    (size * count) % (UINT32_MAX + 1)
  }

  /** With 65536 elements of 65536 bytes, the offset wraps to 0, so the new
      element is written over the first one (and the storage is reallocated
      down to one element). */
  lemma {:induction false} AppendOffsetWraps()
    ensures AppendOffsetAsWritten(0x1_0000, 0x1_0000) == 0
    ensures AppendOffset(0x1_0000, 0x1_0000) == 0x1_0000_0000
  {
  }

  /** The offset computed in 64 bits: the new element's bytes start right
      after those of the `count` elements already stored, so they overlap
      none of them. */
  function AppendOffset(size: nat, count: nat): (offset: nat)
    requires size <= UINT32_MAX && count <= UINT32_MAX
    ensures offset <= SIZE_MAX - size
    ensures forall k :: 0 <= k < count ==> k * size + size <= offset
  {
    ProductFits(size, count);
    forall k | 0 <= k < count
      ensures k * size + size <= count * size
    {
      ElementBefore(size, count, k);
    }
    count * size
  }

  /** Two 32-bit factors leave room in 64 bits for one more element. */
  lemma {:induction false} ProductFits(size: nat, count: nat)
    requires size <= UINT32_MAX && count <= UINT32_MAX
    ensures count * size <= SIZE_MAX - size
  {
    MulMonotone(count, UINT32_MAX, size);
    MulMonotone(size, UINT32_MAX, UINT32_MAX);
  }

  /** Element `k` of `count` ends no later than the bytes of all of them. */
  lemma {:induction false} ElementBefore(size: nat, count: nat, k: nat)
    requires k < count
    ensures k * size + size <= count * size
  {
    MulMonotone(k + 1, count, size);
    assert (k + 1) * size == k * size + size;
  }

  lemma {:induction false} MulMonotone(a: nat, b: nat, c: nat)
    requires a <= b
    ensures a * c <= b * c
  {
  }

  /** The wrapped offset is the intended one exactly when the product fits in
      32 bits. */
  lemma {:induction false} AppendOffsetAgrees(size: nat, count: nat)
    requires size <= UINT32_MAX && count <= UINT32_MAX
    ensures AppendOffsetAsWritten(size, count) == AppendOffset(size, count)
      <==> size * count <= UINT32_MAX
  {
  }
}
