/** Definitions shared by every model in this project: an optional value,
    C's byte and size limits, the errno values the library returns, and the
    C string as its character contents (a NUL-terminated buffer without its
    terminator). */
module Common {

  /** A pointer that may be NULL, or a result that may be absent. */
  datatype Option<+T> = None | Some(value: T) {
    function GetOr(default: T): T {
      match this
      case Some(v) => v
      case None => default
    }
  }

  /** One byte of memory. */
  type byte = x: int | 0 <= x < 256

  /** A C `unsigned int` (32 bits). */
  type uint32 = x: int | 0 <= x < 0x1_0000_0000

  /** `x + 1` on an unsigned int: it wraps to 0 after UINT32_MAX. */
  function Inc32(x: uint32): (r: uint32)
    ensures x < 0xFFFF_FFFF ==> r == x + 1
    ensures x == 0xFFFF_FFFF ==> r == 0
  {
    (x + 1) % 0x1_0000_0000
  }

  /** The contents of a C string: the characters before its NUL terminator.
      Each character stands for one C `char` (a byte). */
  type String = s: seq<char> | '\0' !in s

  /** The bytes of the characters of a string, each character a C char. */
  function BytesOf(s: String): (r: seq<byte>)
    ensures |r| == |s|
  {
    seq(|s|, k requires 0 <= k < |s| => (s[k] as int) % 256)
  }

  /** A file as `fopen` sees it: missing or unreadable (with the errno that
      `fopen` sets), or present with its text. */
  datatype File = Unreadable(errno: nat) | Readable(text: seq<char>)

  const UINT32_MAX: int := 0xFFFF_FFFF
  const SIZE_MAX: int := 0xFFFF_FFFF_FFFF_FFFF   // 64-bit size_t
  const LONG_MAX: int := 0x7FFF_FFFF_FFFF_FFFF   // 64-bit long

  /** errno values (as on Linux and the BSDs). */
  const EPERM: int := 1
  const ENOENT: int := 2
  const EINVAL: int := 22
  const ERANGE: int := 34

  /** The C end-of-file marker returned by fgetc and the scanners. */
  const EOF: int := -1

  /** `n` zero bytes, as memset(p, 0, n) leaves them. */
  function Zeros(n: nat): (r: seq<byte>)
    ensures |r| == n && forall i :: 0 <= i < n ==> r[i] == 0
  {
    seq(n, _ => 0)
  }

  /** Concatenation is associative (stated once, for any element type). */
  lemma {:induction false} AppendAssoc<X>(a: seq<X>, b: seq<X>, c: seq<X>)
    ensures a + (b + c) == (a + b) + c
  {
  }

  /** Four elements added one by one are the four added at once. */
  lemma {:induction false} Snoc4<X>(p: seq<X>, a: X, b: X, c: X, d: X)
    ensures p + [a] + [b] + [c] + [d] == p + [a, b, c, d]
  {
  }

  /** A property holds of every element of a sequence exactly when it
      holds of every element but the last, and of the last. */
  lemma {:induction false} AllSnoc<X>(p: X -> bool, s: seq<X>, front: seq<X>, last: X)
    requires |s| > 0 && front == s[..|s| - 1] && last == s[|s| - 1]
    ensures (forall i :: 0 <= i < |s| ==> p(s[i])) <==> (forall i :: 0 <= i < |front| ==> p(front[i])) && p(last)
  {
    assert forall i :: 0 <= i < |front| ==> s[i] == front[i];
  }

  /** An element is in a sequence exactly when it is in all but the last
      or is the last. */
  lemma {:induction false} InSnoc<X>(x: X, s: seq<X>, front: seq<X>, last: X)
    requires |s| > 0 && front == s[..|s| - 1] && last == s[|s| - 1]
    ensures x in s <==> x in front || x == last
  {
    assert s == front + [last];
  }

  /** `s[i]` has the property `p` and no later element has it. */
  ghost predicate IsLast<X>(p: X -> bool, s: seq<X>, i: int) {
    0 <= i < |s| && p(s[i]) && forall k :: i < k < |s| ==> !p(s[k])
  }

  /** The last element with a property is the last element when that has
      it, and otherwise the last such element of the front. */
  lemma {:induction false} IsLastSnoc<X>(p: X -> bool, s: seq<X>, front: seq<X>, last: X, i: int)
    requires |s| > 0 && front == s[..|s| - 1] && last == s[|s| - 1]
    ensures p(last) ==> (IsLast(p, s, i) <==> i == |s| - 1)
    ensures !p(last) ==> (IsLast(p, s, i) <==> IsLast(p, front, i))
  {
    assert forall k :: 0 <= k < |front| ==> s[k] == front[k];
  }

  /** The prefix one longer ends with the next element. */
  lemma {:induction false} TakeOneMore<X>(s: seq<X>, i: nat)
    requires i < |s|
    ensures s[..i + 1][..i] == s[..i] && s[..i + 1][i] == s[i] && |s[..i + 1]| == i + 1
  {
  }

  /** The whole prefix, and the suffix from 0, are the sequence. */
  lemma {:induction false} TakeAll<X>(s: seq<X>)
    ensures s[..|s|] == s && s[0..] == s
  {
  }

  /** The pieces `f(x)` of the elements of `s`, one after the other. */
  function Flat<X, Y>(f: X -> seq<Y>, s: seq<X>): seq<Y>
    decreases |s|
  {
    if s == [] then [] else f(s[0]) + Flat(f, s[1..])
  }

  /** Element `j` of the piece of element `i` sits right after the pieces of
      the elements before `i`. */
  lemma {:induction false} FlatAt<X, Y>(f: X -> seq<Y>, s: seq<X>, i: nat, j: nat)
    requires i < |s| && j < |f(s[i])|
    ensures |Flat(f, s[..i])| + j < |Flat(f, s)|
    ensures Flat(f, s)[|Flat(f, s[..i])| + j] == f(s[i])[j]
    decreases i
  {
    if i > 0 {
      FlatAt(f, s[1..], i - 1, j);
      assert s[..i][1..] == s[1..][..i - 1];
    } else {
      assert s[..i] == [];
    }
  }

  /** Dropping the head shifts every index down by one. */
  lemma {:induction false} DropIndex<X>(s: seq<X>, i: nat)
    requires 0 < i < |s|
    ensures s[1..][i - 1] == s[i]
  {
  }

  /** Dropping twice is dropping once. */
  lemma {:induction false} DropDrop<X>(s: seq<X>, i: nat, n: nat)
    requires i + n <= |s|
    ensures s[i..][n..] == s[i + n..]
  {
  }

  /** Moving the head of the middle part of a split onto its front. */
  lemma {:induction false} CutStep<X>(front: seq<X>, whole: seq<X>, mid: seq<X>, x: X, tail: seq<X>)
    requires front + mid == whole && mid == [x] + tail
    ensures (front + [x]) + tail == whole
  {
    AppendAssoc(front, [x], tail);
  }

  /** Where each element of a sequence ends up once element `i` is cut out. */
  lemma {:induction false} RemovedAt<X>(s: seq<X>, i: nat, r: seq<X>)
    requires i < |s| && r == s[..i] + s[i + 1..]
    ensures |r| == |s| - 1
    ensures forall k :: 0 <= k < |r| ==> r[k] == s[if k < i then k else k + 1]
  {
  }

  function Max(a: int, b: int): int { if a >= b then a else b }
  function Min(a: int, b: int): int { if a <= b then a else b }
}
