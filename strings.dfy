/** The string utilities of src/string.c.

    A C string is modelled by its contents (`Common.String`, the characters
    before the NUL terminator).  Functions that scan a raw `char` buffer up to
    its first NUL (`string_get_length`, the in-place trims) take the whole
    buffer; `string_compare` and friends read the terminator as byte 0, which
    `At` supplies past the end of the contents. */
module Strings {
  import opened Common

  // ---------------------------------------------------------------------
  // Lengths

  /** string_get_length: the number of characters before the first NUL. */
  function GetLength(buffer: seq<char>): (length: nat)
    requires '\0' in buffer
    ensures length < |buffer| && buffer[length] == '\0'
    ensures '\0' !in buffer[..length]
    ensures forall k :: 0 <= k < length ==> buffer[k] != '\0'
  {
    LengthFrom(buffer, 0)
  }

  function LengthFrom(buffer: seq<char>, i: nat): (length: nat)
    requires i <= |buffer| && '\0' in buffer && '\0' !in buffer[..i]
    ensures i <= length < |buffer| && buffer[length] == '\0'
    ensures '\0' !in buffer[..length]
    ensures forall k :: 0 <= k < length ==> buffer[k] != '\0'
    decreases |buffer| - i
  {
    assert buffer[..|buffer|] == buffer;
    assert forall k :: 0 <= k < i ==> buffer[..i][k] == buffer[k];
    if buffer[i] == '\0' then i
    else
      assert buffer[..i + 1] == buffer[..i] + [buffer[i]];
      LengthFrom(buffer, i + 1)
  }

  /** The C string held by a NUL-terminated buffer. */
  function Contents(buffer: seq<char>): String
    requires '\0' in buffer
  {
    buffer[..GetLength(buffer)]
  }

  /** string_get_size: the bytes the string occupies, terminator included. */
  function GetSize(buffer: seq<char>): (size: nat)
    requires '\0' in buffer
    ensures 0 < size <= |buffer| && buffer[size - 1] == '\0'
    ensures '\0' !in buffer[..size - 1]
  {
    GetLength(buffer) + 1
  }

  /** string_set: the destination receives a copy of the source's contents
      and a terminator (realloc failure is not modelled). */
  function Set(source: seq<char>): (r: String)
    requires '\0' in source
    ensures |r| + 1 == GetSize(source)
    ensures r + ['\0'] == source[..|r| + 1]
  {
    Contents(source)
  }

  // ---------------------------------------------------------------------
  // Comparison

  /** The byte at position `k` of a C string, reading its terminator (0)
      at and after the end; the bytes are compared as unsigned char. */
  function At(s: String, k: nat): int {
    if k < |s| then s[k] as int else 0
  }

  lemma {:induction false} AtPositive(s: String, k: nat)
    requires k < |s|
    ensures At(s, k) != 0
  {
    assert s[k] != '\0';
  }

  /** string_compare: the difference of the first differing bytes. */
  function Compare(s: String, t: String): (r: int)
    ensures r == 0 <==> s == t
  {
    CompareFrom(s, t, 0)
  }

  function CompareFrom(s: String, t: String, k: nat): (r: int)
    requires k <= |s| && k <= |t| && s[..k] == t[..k]
    ensures r == 0 <==> s == t
    decreases |s| - k
  {
    if k < |s| && k < |t| && s[k] == t[k] then
      assert s[..k + 1] == s[..k] + [s[k]] && t[..k + 1] == t[..k] + [t[k]];
      CompareFrom(s, t, k + 1)
    else
      assert k < |s| ==> At(s, k) != 0 by { if k < |s| { AtPositive(s, k); } }
      assert k < |t| ==> At(t, k) != 0 by { if k < |t| { AtPositive(t, k); } }
      assert k < |s| && k < |t| ==> s != t by {
        if k < |s| && k < |t| { assert s[k] != t[k]; }
      }
      assert k == |s| && k < |t| ==> s != t;
      assert k == |t| && k < |s| ==> s != t;
      assert k == |s| && k == |t| ==> s == t by {
        if k == |s| && k == |t| { assert s == s[..k] && t == t[..k]; }
      }
      At(s, k) - At(t, k)
  }

  /** Swapping the operands negates string_compare. */
  lemma {:induction false} CompareAntisymmetric(s: String, t: String)
    ensures Compare(t, s) == -Compare(s, t)
  {
    CompareFromAntisymmetric(s, t, 0);
  }

  lemma {:induction false} CompareFromAntisymmetric(s: String, t: String, k: nat)
    requires k <= |s| && k <= |t| && s[..k] == t[..k]
    ensures CompareFrom(t, s, k) == -CompareFrom(s, t, k)
    decreases |s| - k
  {
    if k < |s| && k < |t| && s[k] == t[k] {
      assert s[..k + 1] == s[..k] + [s[k]] && t[..k + 1] == t[..k] + [t[k]];
      CompareFromAntisymmetric(s, t, k + 1);
    }
  }

  /** The first `n` characters of a string, or all of it when shorter. */
  function Prefix(s: String, n: nat): String {
    s[..Min(n, |s|)]
  }

  /** string_compare_length: string_compare limited to `length` bytes. */
  function CompareLength(s: String, t: String, length: nat): (r: int)
    ensures length == 0 ==> r == 0
    ensures r == 0 <==> Prefix(s, length) == Prefix(t, length)
  {
    if length == 0 then 0 else CompareLengthFrom(s, t, 0, length - 1)
  }

  /** The loop of string_compare_length at position `k`, with `left` the
      counter after its pre-decrement. */
  function CompareLengthFrom(s: String, t: String, k: nat, left: nat): (r: int)
    requires k <= |s| && k <= |t| && s[..k] == t[..k]
    ensures r == 0 <==> Prefix(s, k + left + 1) == Prefix(t, k + left + 1)
    decreases left
  {
    if left > 0 && k < |s| && k < |t| && s[k] == t[k] then
      assert s[..k + 1] == s[..k] + [s[k]] && t[..k + 1] == t[..k] + [t[k]];
      CompareLengthFrom(s, t, k + 1, left - 1)
    else
      PrefixStep(s, t, k, left);
      At(s, k) - At(t, k)
  }

  /** Why the loop can stop at `k`: the prefixes agree exactly when the
      bytes at `k` do. */
  lemma {:induction false} PrefixStep(s: String, t: String, k: nat, left: nat)
    requires k <= |s| && k <= |t| && s[..k] == t[..k]
    requires !(left > 0 && k < |s| && k < |t| && s[k] == t[k])
    ensures (At(s, k) == At(t, k)) <==> Prefix(s, k + left + 1) == Prefix(t, k + left + 1)
  {
    var n := k + left + 1;
    if k < |s| { AtPositive(s, k); }
    if k < |t| { AtPositive(t, k); }
    if k < |s| && k < |t| {
      if s[k] == t[k] {
        assert left == 0;
        assert Prefix(s, n) == s[..k + 1] == s[..k] + [s[k]];
        assert Prefix(t, n) == t[..k + 1] == t[..k] + [t[k]];
      } else {
        assert Prefix(s, n)[k] != Prefix(t, n)[k];
      }
    } else if k == |s| && k == |t| {
      assert Prefix(s, n) == s[..k] && Prefix(t, n) == t[..k];
    } else {
      assert |Prefix(s, n)| != |Prefix(t, n)|;
    }
  }

  // ---------------------------------------------------------------------
  // Searching

  /** `key` occurs in `s` starting at `i`. */
  predicate OccursAt(s: String, key: String, i: nat) {
    i + |key| <= |s| && s[i..i + |key|] == key
  }

  lemma {:induction false} CompareLengthAt(s: String, key: String, i: nat)
    requires 0 < |key| && i + |key| <= |s|
    ensures (CompareLength(s[i..], key, |key|) == 0) <==> OccursAt(s, key, i)
  {
    assert Prefix(s[i..], |key|) == s[i..i + |key|];
    assert Prefix(key, |key|) == key;
  }

  /** The smallest position where `key` occurs in `s`, -1 when it does not
      occur, the length of `s` when `key` is empty. */
  function First(s: String, key: String): (r: int)
    ensures key == "" ==> r == |s|
    ensures key != "" ==> -1 <= r && (r >= 0 ==> r <= |s| - |key|)
    ensures key != "" && r >= 0 ==> OccursAt(s, key, r)
    ensures key != "" && r >= 0 ==> forall k :: 0 <= k < r ==> !OccursAt(s, key, k)
    ensures key != "" && r < 0 ==> forall k :: 0 <= k <= |s| ==> !OccursAt(s, key, k)
  {
    if key == "" then |s| else FirstFrom(s, key, 0)
  }

  /** The first occurrence at or after `i`, none being before it. */
  function FirstFrom(s: String, key: String, i: nat): (r: int)
    requires key != "" && forall k :: 0 <= k < i ==> !OccursAt(s, key, k)
    ensures r >= -1
    ensures r >= 0 ==> i <= r <= |s| - |key| && OccursAt(s, key, r)
    ensures r >= 0 ==> forall k :: 0 <= k < r ==> !OccursAt(s, key, k)
    ensures r < 0 ==> forall k :: 0 <= k <= |s| ==> !OccursAt(s, key, k)
    decreases |s| - i
  {
    if i + |key| > |s| then -1
    else if OccursAt(s, key, i) then i
    else FirstFrom(s, key, i + 1)
  }

  /** The largest position where `key` occurs in `s`, -1 when it does not
      occur, the length of `s` when `key` is empty. */
  function Last(s: String, key: String): (r: int)
    ensures key == "" ==> r == |s|
    ensures key != "" ==> -1 <= r && (r >= 0 ==> r <= |s| - |key|)
    ensures key != "" && r >= 0 ==> OccursAt(s, key, r)
    ensures key != "" && r >= 0 ==> forall k :: r < k <= |s| ==> !OccursAt(s, key, k)
    ensures key != "" && r < 0 ==> forall k :: 0 <= k <= |s| ==> !OccursAt(s, key, k)
  {
    if key == "" then |s| else LastFrom(s, key, |s| - |key|)
  }

  /** The last occurrence at or before `i`, none being after it. */
  function LastFrom(s: String, key: String, i: int): (r: int)
    requires key != "" && i <= |s| - |key|
    requires forall k :: 0 <= k <= |s| && i < k ==> !OccursAt(s, key, k)
    ensures r == -1 || 0 <= r <= i
    ensures r >= 0 ==> OccursAt(s, key, r)
    ensures r >= 0 ==> forall k :: r < k <= |s| ==> !OccursAt(s, key, k)
    ensures r < 0 ==> forall k :: 0 <= k <= |s| ==> !OccursAt(s, key, k)
    decreases i + 1
  {
    if i < 0 then -1
    else if OccursAt(s, key, i) then i
    else LastFrom(s, key, i - 1)
  }

  /** string_index: tries every position from the left with
      string_compare_length. */
  method Index(s: String, key: String) returns (r: int)
    ensures r == First(s, key)
  {
    var len, keylen := |s|, |key|;
    if keylen == 0 {
      return len;
    }
    if keylen > len {
      return -1;
    }
    var i := 0;
    while i <= len - keylen
      invariant 0 <= i <= len - keylen + 1
      invariant forall k :: 0 <= k < i ==> !OccursAt(s, key, k)
      invariant FirstFrom(s, key, i) == First(s, key)
    {
      CompareLengthAt(s, key, i);
      if CompareLength(s[i..], key, keylen) == 0 {
        return i;
      }
      i := i + 1;
    }
    r := -1;
  }

  /** string_rindex: tries every position from the right with
      string_compare_length. */
  method RIndex(s: String, key: String) returns (r: int)
    ensures r == Last(s, key)
  {
    var len, keylen := |s|, |key|;
    if keylen == 0 {
      return len;
    }
    if keylen > len {
      return -1;
    }
    var i: int := len - keylen;
    while i >= 0
      invariant -1 <= i <= len - keylen
      invariant forall k :: i < k <= |s| ==> !OccursAt(s, key, k)
      invariant LastFrom(s, key, i) == Last(s, key)
      decreases i + 1
    {
      CompareLengthAt(s, key, i);
      if CompareLength(s[i..], key, keylen) == 0 {
        return i;
      }
      i := i - 1;
    }
    r := -1;
  }

  /** string_find: the tail of `s` that starts at the first occurrence of
      `key`, or NULL. */
  method Find(s: String, key: String) returns (r: Option<String>)
    ensures r.None? <==> First(s, key) < 0
    ensures r.Some? ==> |r.value| <= |s| && key <= r.value && s[|s| - |r.value|..] == r.value
    ensures r.Some? && key != "" ==> forall k :: 0 <= k < |s| - |r.value| ==> !OccursAt(s, key, k)
  {
    var i := Index(s, key);
    if i < 0 {
      return None;
    }
    assert key != "" ==> s[i..][..|key|] == s[i..i + |key|];
    r := Some(s[i..]);
  }

  // ---------------------------------------------------------------------
  // Building strings

  /** string_append on `*string` (NULL as None): a NULL suffix fails with
      -EINVAL, an empty one changes nothing (a NULL string stays NULL), any
      other is concatenated (a NULL string counts as empty). */
  function Append(s: Option<String>, suffix: Option<String>): (r: (int, Option<String>))
  {
    match suffix
    case None => (-EINVAL, s)
    case Some(a) => if a == "" then (0, s) else (0, Some(s.GetOr("") + a))
  }

  /** string_append gives the concatenation whenever it succeeds, and it
      fails only for a NULL suffix. */
  lemma {:induction false} AppendConcatenates(s: Option<String>, suffix: Option<String>)
    ensures Append(s, suffix).0 == 0 <==> suffix.Some?
    ensures suffix.Some? ==> Append(s, suffix).1.GetOr("") == s.GetOr("") + suffix.value
    ensures suffix.Some? && suffix.value != "" ==> Append(s, suffix).1.Some?
    ensures suffix.None? || suffix.value == "" ==> Append(s, suffix).1 == s
  {
  }

  /** string_new_length: at most `length` characters of the string (NULL is
      read as ""), failing with ERANGE for length SIZE_MAX. */
  function NewLength(s: Option<String>, length: nat): (r: Option<String>)
    requires length <= SIZE_MAX
    ensures r.None? <==> length == SIZE_MAX
    ensures r.Some? ==> |r.value| <= length && r.value <= s.GetOr("")
    ensures r.Some? && |r.value| < length ==> r.value == s.GetOr("")
  {
    if length == SIZE_MAX then None
    else Some(s.GetOr("")[..Min(length, |s.GetOr("")|)])
  }

  /** The strings of a list, one after the other. */
  function Concat(ss: seq<String>): String
    decreases |ss|
  {
    if ss == [] then "" else Concat(ss[..|ss| - 1]) + ss[|ss| - 1]
  }

  /** string_new_append: the first string followed by the others (the
      variadic list is the sequence of arguments before its NULL); a NULL
      first argument gives "". */
  method NewAppend(first: Option<String>, rest: seq<String>) returns (r: String)
    ensures first.None? ==> r == ""
    ensures first.Some? ==> r == first.value + Concat(rest)
  {
    if first.None? {
      return "";
    }
    var ret := first;
    var i := 0;
    assert first.value + Concat(rest[..0]) == first.value;
    while i < |rest|
      invariant 0 <= i <= |rest|
      invariant ret == Some(first.value + Concat(rest[..i]))
    {
      assert rest[..i + 1][..i] == rest[..i];
      assert Concat(rest[..i + 1]) == Concat(rest[..i]) + rest[i];
      assert first.value + Concat(rest[..i + 1]) == first.value + Concat(rest[..i]) + rest[i];
      if rest[i] == "" {
        assert Concat(rest[..i]) + rest[i] == Concat(rest[..i]);
      }
      ret := Append(ret, Some(rest[i])).1;
      i := i + 1;
    }
    assert rest[..i] == rest;
    r := ret.value;
  }

  // ---------------------------------------------------------------------
  // Explode and replace

  /** The pieces string_explode cuts `s` into: the text before each
      left-to-right, non-overlapping occurrence of `sep`, then the rest. */
  function Pieces(s: String, sep: String): (r: seq<String>)
    requires sep != ""
    ensures |r| >= 1
    decreases |s|
  {
    var j := First(s, sep);
    if j < 0 then [s] else [s[..j]] + Pieces(s[j + |sep|..], sep)
  }

  /** The number of left-to-right, non-overlapping occurrences of `sep`. */
  function Occurrences(s: String, sep: String): nat
    requires sep != ""
    decreases |s|
  {
    var j := First(s, sep);
    if j < 0 then 0 else 1 + Occurrences(s[j + |sep|..], sep)
  }

  /** The strings of a list with `sep` between each two. */
  function Join(ss: seq<String>, sep: String): String
    decreases |ss|
  {
    if ss == [] then "" else if |ss| == 1 then ss[0] else ss[0] + sep + Join(ss[1..], sep)
  }

  /** string_explode: NULL for a NULL or empty separator, otherwise the
      pieces (the NULL terminator of the C array is not part of the list). */
  method Explode(s: String, separator: Option<String>) returns (r: Option<seq<String>>)
    ensures separator.None? || separator.value == "" ==> r.None?
    ensures separator.Some? && separator.value != "" ==> r == Some(Pieces(s, separator.value))
  {
    if separator.None? || |separator.value| == 0 {
      return None;
    }
    var sep := separator.value;
    var l := |sep|;
    var ret: seq<String> := [];
    var i := 0;
    while true
      invariant 0 <= i <= |s|
      invariant ret + Pieces(s[i..], sep) == Pieces(s, sep)
      decreases |s| - i
    {
      var rest := s[i..];
      var j := Index(rest, sep);
      if j < 0 {
        ret := ret + [rest];
        return Some(ret);
      }
      ExplodeStep(s, sep, i, j, ret, rest);
      ret := ret + [rest[..j]];   // string_new_length(s, j)
      i := i + j + l;
    }
  }

  /** One cut of the loop of string_explode: `rest` is the text from
      position `i` of `s` and its first separator is at `j`. */
  lemma {:induction false} ExplodeStep(s: String, sep: String, i: nat, j: int, ret: seq<String>, rest: String)
    requires sep != "" && i <= |s| && rest == s[i..] && j == First(rest, sep) && j >= 0
    requires ret + Pieces(rest, sep) == Pieces(s, sep)
    ensures i + j + |sep| <= |s|
    ensures (ret + [rest[..j]]) + Pieces(s[i + j + |sep|..], sep) == Pieces(s, sep)
  {
    PiecesUnfold(rest, sep, j);
    DropDrop(s, i, j + |sep|);
    CutStep(ret, Pieces(s, sep), Pieces(rest, sep), rest[..j], Pieces(s[i + j + |sep|..], sep));
  }

  /** The pieces of a text with a separator at `j`. */
  lemma {:induction false} PiecesUnfold(s: String, sep: String, j: int)
    requires sep != "" && j == First(s, sep) && j >= 0
    ensures Pieces(s, sep) == [s[..j]] + Pieces(s[j + |sep|..], sep)
  {
  }

  /** Joining a list of two or more strings. */
  lemma {:induction false} JoinCons(x: String, ps: seq<String>, sep: String)
    requires |ps| >= 1
    ensures Join([x] + ps, sep) == x + sep + Join(ps, sep)
  {
    assert ([x] + ps)[1..] == ps;
  }

  /** One cut of string_explode: the text before the first separator and the
      text after it. */
  lemma {:induction false} PiecesCut(s: String, sep: String)
    requires sep != "" && First(s, sep) >= 0
    ensures var j := First(s, sep);
      Pieces(s, sep) == [s[..j]] + Pieces(s[j + |sep|..], sep)
      && s == s[..j] + sep + s[j + |sep|..]
  {
    var j := First(s, sep);
    assert s[j..j + |sep|] == sep;
    assert s == s[..j] + s[j..j + |sep|] + s[j + |sep|..];
  }

  /** Joining the pieces with the separator gives back the string. */
  lemma {:induction false} JoinPieces(s: String, sep: String)
    requires sep != ""
    ensures Join(Pieces(s, sep), sep) == s
    decreases |s|
  {
    var j := First(s, sep);
    if j >= 0 {
      var rest := s[j + |sep|..];
      PiecesCut(s, sep);
      JoinPieces(rest, sep);
      JoinCons(s[..j], Pieces(rest, sep), sep);
    }
  }

  /** There is one piece more than there are occurrences of the separator. */
  lemma {:induction false} PiecesCount(s: String, sep: String)
    requires sep != ""
    ensures |Pieces(s, sep)| == Occurrences(s, sep) + 1
    decreases |s|
  {
    var j := First(s, sep);
    if j >= 0 {
      PiecesCount(s[j + |sep|..], sep);
    }
  }

  /** No piece contains the separator. */
  lemma {:induction false} PiecesFree(s: String, sep: String)
    requires sep != ""
    ensures forall p :: p in Pieces(s, sep) ==> First(p, sep) < 0
    decreases |s|
  {
    var j := First(s, sep);
    if j >= 0 {
      PiecesCut(s, sep);
      PiecesFree(s[j + |sep|..], sep);
      var p := s[..j];
      forall k | 0 <= k <= |p|
        ensures !OccursAt(p, sep, k)
      {
        if k + |sep| <= |p| {
          assert !OccursAt(s, sep, k);
          assert p[k..k + |sep|] == s[..j][k..k + |sep|] == s[k..k + |sep|];
        }
      }
    }
  }

  /** An occurrence with none before it is the first one. */
  lemma {:induction false} FirstIs(s: String, key: String, r: nat)
    requires key != "" && OccursAt(s, key, r)
    requires forall k :: 0 <= k < r ==> !OccursAt(s, key, k)
    ensures First(s, key) == r
  {
  }

  /** A one-character separator between two texts is found in the first
      text, or else at the join. */
  lemma {:induction false} FirstAround(a: String, b: String, sep: String)
    requires |sep| == 1
    ensures First(a + sep + b, sep) == if First(a, sep) >= 0 then First(a, sep) else |a|
  {
    var s := a + sep + b;
    var j := First(a, sep);
    forall k | 0 <= k < |a|
      ensures OccursAt(s, sep, k) == OccursAt(a, sep, k)
    {
      assert s[k..k + 1] == a[k..k + 1];
    }
    assert s[|a|..|a| + 1] == sep;
    FirstIs(s, sep, if j >= 0 then j else |a|);
  }

  /** Cutting at a one-character separator splits a join into the pieces
      of both sides (a longer separator could straddle the join). */
  lemma {:induction false} PiecesAround(a: String, b: String, sep: String)
    requires |sep| == 1
    ensures Pieces(a + sep + b, sep) == Pieces(a, sep) + Pieces(b, sep)
    decreases |a|
  {
    var s := a + sep + b;
    var j := First(a, sep);
    FirstAround(a, b, sep);
    if j >= 0 {
      var rest := a[j + 1..];
      PiecesUnfold(s, sep, j);
      PiecesUnfold(a, sep, j);
      assert s[..j] == a[..j];
      assert s[j + 1..] == rest + sep + b;
      PiecesAround(rest, b, sep);
      AppendAssoc([a[..j]], Pieces(rest, sep), Pieces(b, sep));
    } else {
      PiecesUnfold(s, sep, |a|);
      assert s[..|a|] == a && s[|a| + 1..] == b;
    }
  }

  /** What string_replace is meant to compute: every left-to-right,
      non-overlapping occurrence of `what` replaced by `replacement`. */
  function ReplaceAll(s: String, what: String, replacement: String): (r: String)
    requires what != ""
    ensures First(s, what) < 0 ==> r == s
    ensures First(s, what) >= 0 ==> s[..First(s, what)] + replacement <= r
    decreases |s|
  {
    var j := First(s, what);
    if j < 0 then s else s[..j] + replacement + ReplaceAll(s[j + |what|..], what, replacement)
  }

  /** Replacing is joining the pieces with the replacement. */
  lemma {:induction false} ReplaceAllIsJoin(s: String, what: String, replacement: String)
    requires what != ""
    ensures ReplaceAll(s, what, replacement) == Join(Pieces(s, what), replacement)
    decreases |s|
  {
    var j := First(s, what);
    if j >= 0 {
      var rest := s[j + |what|..];
      ReplaceAllIsJoin(rest, what, replacement);
      ReplaceAllStep(s, what, replacement, j, rest);
    }
  }

  /** One occurrence: replaced, and cut, before the rest. */
  lemma {:induction false} ReplaceAllStep(s: String, what: String, replacement: String, j: int, rest: String)
    requires what != "" && j == First(s, what) && j >= 0 && rest == s[j + |what|..]
    requires ReplaceAll(rest, what, replacement) == Join(Pieces(rest, what), replacement)
    ensures ReplaceAll(s, what, replacement) == Join(Pieces(s, what), replacement)
  {
    ReplaceAllUnfold(s, what, replacement, j);
    PiecesUnfold(s, what, j);
    JoinCons(s[..j], Pieces(rest, what), replacement);
  }

  /** The replacement of a text whose first occurrence is at `j`. */
  lemma {:induction false} ReplaceAllUnfold(s: String, what: String, replacement: String, j: int)
    requires what != "" && j == First(s, what) && j >= 0
    ensures ReplaceAll(s, what, replacement) == s[..j] + replacement + ReplaceAll(s[j + |what|..], what, replacement)
  {
  }

  /** Without an occurrence the string is left as it is; replacing a string
      by itself changes nothing. */
  lemma {:induction false} ReplaceAllProperties(s: String, what: String, replacement: String)
    requires what != ""
    ensures First(s, what) < 0 ==> ReplaceAll(s, what, replacement) == s
    ensures ReplaceAll(s, what, what) == s
  {
    ReplaceAllIsJoin(s, what, what);
    JoinPieces(s, what);
  }

  /** The loop of string_replace as written: `ret` starts NULL and grows by
      string_append, so it stays NULL while everything appended is empty;
      the second component is the unmatched tail `p`. */
  function ReplaceLoop(p: String, what: String, replacement: String, ret: Option<String>)
    : (Option<String>, String)
    requires what != ""
    decreases |p|
  {
    var j := First(p, what);
    if j < 0 then (ret, p)
    else
      var q := p[..j];   // string_new_length(p, index)
      ReplaceLoop(p[j + |what|..], what, replacement, Append(Append(ret, Some(q)).1, Some(replacement)).1)
  }

  /** One turn of the loop of string_replace, at the occurrence `j`. */
  lemma {:induction false} ReplaceLoopUnfold(p: String, what: String, replacement: String, ret: Option<String>, j: int)
    requires what != "" && j == First(p, what) && j >= 0
    ensures ReplaceLoop(p, what, replacement, ret)
         == ReplaceLoop(p[j + |what|..], what, replacement, Append(Append(ret, Some(p[..j])).1, Some(replacement)).1)
  {
  }

  /** string_replace as written: the string is replaced only when `ret` is
      no longer NULL after the loop. */
  function ReplaceAsWritten(s: String, what: String, replacement: String): (r: String)
    requires what != ""
    ensures First(s, what) < 0 ==> r == s
  {
    ReplaceLoopNull(s, what, replacement, None);
    var (ret, p) := ReplaceLoop(s, what, replacement, None);
    if ret.Some? then Append(ret, Some(p)).1.value else s
  }

  /** string_replace, on a non-empty `what` (allocation failures are not
      modelled). A NULL `by` makes string_append fail at the first
      occurrence, so the result is -1 and the string stays; without an
      occurrence nothing is appended and the result is 0. Otherwise the
      result is 0 and `r` is the new `*string`. */
  method Replace(s: String, what: String, replacement: Option<String>) returns (ret: int, r: String)
    requires what != ""
    ensures replacement.None? ==> r == s && (ret == -1 <==> First(s, what) >= 0) && (ret == 0 || ret == -1)
    ensures replacement.Some? ==> ret == 0 && r == ReplaceAsWritten(s, what, replacement.value)
  {
    var acc: Option<String> := None;
    var p := s;
    var index := Index(p, what);
    while index >= 0
      invariant index == First(p, what)
      invariant replacement.Some? ==>
        ReplaceLoop(p, what, replacement.value, acc) == ReplaceLoop(s, what, replacement.value, None)
      invariant replacement.None? ==> p == s && acc.None?
      decreases |p|
    {
      var q := p[..index];   // string_new_length(p, index)
      ghost var before := acc;
      acc := Append(acc, Some(q)).1;
      var e;
      e, acc := Append(acc, replacement).0, Append(acc, replacement).1;
      if e != 0 {
        return -1, s;
      }
      ReplaceLoopUnfold(p, what, replacement.value, before, index);
      p := p[index + |what|..];
      index := Index(p, what);
    }
    if acc.Some? {
      r := Append(acc, Some(p)).1.value;
    } else {
      r := s;
    }
    ret := 0;
  }

  /** The text the loop accumulates, followed by its tail, is the prefix it
      started from followed by the full replacement. */
  lemma {:induction false} ReplaceLoopSound(p: String, what: String, replacement: String, ret: Option<String>)
    requires what != ""
    ensures ReplaceLoop(p, what, replacement, ret).0.GetOr("") + ReplaceLoop(p, what, replacement, ret).1
         == ret.GetOr("") + ReplaceAll(p, what, replacement)
    decreases |p|
  {
    var j := First(p, what);
    if j >= 0 {
      var rest := p[j + |what|..];
      var ret' := ReplaceStep(p, what, replacement, ret);
      ReplaceLoopSound(rest, what, replacement, ret');
      Associative(ret.GetOr(""), p[..j], replacement, ReplaceAll(rest, what, replacement));
    }
  }

  lemma {:induction false} Associative(a: seq<char>, b: seq<char>, c: seq<char>, d: seq<char>)
    ensures a + b + c + d == a + (b + c + d)
  {
  }

  /** The value of `ret` after one turn of the loop of string_replace. */
  function ReplaceStep(p: String, what: String, replacement: String, ret: Option<String>): (r: Option<String>)
    requires what != "" && First(p, what) >= 0
    ensures r.GetOr("") == ret.GetOr("") + p[..First(p, what)] + replacement
    ensures ReplaceLoop(p, what, replacement, ret) == ReplaceLoop(p[First(p, what) + |what|..], what, replacement, r)
    ensures ReplaceAll(p, what, replacement)
         == p[..First(p, what)] + replacement + ReplaceAll(p[First(p, what) + |what|..], what, replacement)
  {
    var q := p[..First(p, what)];
    AppendConcatenates(ret, Some(q));
    AppendConcatenates(Append(ret, Some(q)).1, Some(replacement));
    Append(Append(ret, Some(q)).1, Some(replacement)).1
  }

  /** `ret` is still NULL after the loop only if it was NULL before and
      either nothing matched or the replacement is empty. */
  lemma {:induction false} ReplaceLoopNull(p: String, what: String, replacement: String, ret: Option<String>)
    requires what != ""
    ensures ReplaceLoop(p, what, replacement, ret).0.None? ==>
      ret.None? && (First(p, what) < 0 || replacement == "")
    ensures First(p, what) < 0 ==> ReplaceLoop(p, what, replacement, ret) == (ret, p)
    decreases |p|
  {
    var j := First(p, what);
    if j >= 0 {
      var q := p[..j];
      var ret' := Append(Append(ret, Some(q)).1, Some(replacement)).1;
      AppendConcatenates(ret, Some(q));
      AppendConcatenates(Append(ret, Some(q)).1, Some(replacement));
      assert ret.Some? || replacement != "" ==> ret'.Some?;
      ReplaceLoopNull(p[j + |what|..], what, replacement, ret');
    }
  }

  /** As written, string_replace does what it should whenever `replacement` is not
      empty. */
  lemma {:induction false} ReplaceAsWrittenAgrees(s: String, what: String, replacement: String)
    requires what != "" && replacement != ""
    ensures ReplaceAsWritten(s, what, replacement) == ReplaceAll(s, what, replacement)
  {
    ReplaceLoopNull(s, what, replacement, None);
    var loop := ReplaceLoop(s, what, replacement, None);
    if First(s, what) >= 0 {
      ReplaceLoopSound(s, what, replacement, None);
      AppendConcatenates(loop.0, Some(loop.1));
      assert loop.0.value + loop.1 == ReplaceAll(s, what, replacement);
    } else {
      ReplaceAllProperties(s, what, replacement);
    }
  }

  /** As written, replacing "a" by "" in "aab" leaves "aab": the pieces
      before the last occurrence are empty, so `ret` is still NULL. */
  lemma {:induction false} ReplaceAsWrittenKeepsString()
    ensures ReplaceAsWritten("aab", "a", "") == "aab"
    ensures ReplaceAll("aab", "a", "") == "b"
  {
    assert OccursAt("aab", "a", 0);
    assert First("aab", "a") == 0;
    assert OccursAt("ab", "a", 0);
    assert First("ab", "a") == 0;
    assert "b"[0..1][0] != "a"[0];
    assert !OccursAt("b", "a", 0);
    assert FirstFrom("b", "a", 1) == -1;
    assert First("b", "a") == -1;
    assert "aab"[1..] == "ab" && "ab"[1..] == "b";
  }

  // ---------------------------------------------------------------------
  // In-place trimming

  /** isspace in the C locale: space, \t, \n, \v, \f and \r. */
  predicate IsSpace(c: char) {
    c == ' ' || (9 <= c as int <= 13)
  }

  /** A character the trims remove: one of `which`, or whitespace when
      `which` is NULL. */
  predicate Trimmed(c: char, which: Option<String>) {
    if which.None? then IsSpace(c) else c in which.value
  }

  /** The length of the leading run of trimmed characters. */
  function LeadingRun(s: seq<char>, which: Option<String>): (n: nat)
    ensures n <= |s|
    ensures forall k :: 0 <= k < n ==> Trimmed(s[k], which)
    ensures n < |s| ==> !Trimmed(s[n], which)
    decreases |s|
  {
    if s == [] || !Trimmed(s[0], which) then 0 else 1 + LeadingRun(s[1..], which)
  }

  /** The length of the trailing run of trimmed characters. */
  function TrailingRun(s: seq<char>, which: Option<String>): (n: nat)
    ensures n <= |s|
    ensures forall k :: |s| - n <= k < |s| ==> Trimmed(s[k], which)
    ensures n < |s| ==> !Trimmed(s[|s| - n - 1], which)
    decreases |s|
  {
    if s == [] || !Trimmed(s[|s| - 1], which) then 0
    else 1 + TrailingRun(s[..|s| - 1], which)
  }

  lemma {:induction false} LeadingRunUnique(s: seq<char>, which: Option<String>, n: nat)
    requires n <= |s| && (forall k :: 0 <= k < n ==> Trimmed(s[k], which))
    requires n < |s| ==> !Trimmed(s[n], which)
    ensures n == LeadingRun(s, which)
  {
  }

  lemma {:induction false} TrailingRunUnique(s: seq<char>, which: Option<String>, n: nat)
    requires n <= |s| && (forall k :: |s| - n <= k < |s| ==> Trimmed(s[k], which))
    requires n < |s| ==> !Trimmed(s[|s| - n - 1], which)
    ensures n == TrailingRun(s, which)
  {
  }

  /** A buffer whose first NUL is at `n` holds a string of length `n`. */
  lemma {:induction false} LengthIs(buffer: seq<char>, n: nat)
    requires n < |buffer| && buffer[n] == '\0'
    requires forall k :: 0 <= k < n ==> buffer[k] != '\0'
    ensures '\0' in buffer && GetLength(buffer) == n
  {
    assert buffer[n] in buffer;
  }

  /** `n` NUL characters. */
  function Nuls(n: nat): (r: seq<char>)
    ensures |r| == n && forall k :: 0 <= k < n ==> r[k] == '\0'
  {
    seq(n, _ => '\0')
  }

  /** The buffer string_ltrim leaves: the contents shifted left by `n`, a
      terminator, and the old bytes after it. It holds the shortened string. */
  function Shifted(b: seq<char>, n: nat): (r: seq<char>)
    requires '\0' in b && n <= GetLength(b)
    ensures |r| == |b| && '\0' in r && Contents(r) == Contents(b)[n..]
  {
    var len := GetLength(b);
    var r := b[n..len] + ['\0'] + b[len - n + 1..];
    assert r[len - n] == '\0';
    assert forall k :: 0 <= k < len - n ==> r[k] == b[k + n];
    LengthIs(r, len - n);
    assert r[..len - n] == b[n..len];
    r
  }

  /** A buffer that agrees with Nulled(b, n) at every index is it. */
  lemma {:induction false} NulledIs(b: seq<char>, n: nat, c: seq<char>)
    requires '\0' in b && n <= GetLength(b) && |c| == |b|
    requires forall k :: 0 <= k < GetLength(b) - n ==> c[k] == b[k]
    requires forall k :: GetLength(b) - n <= k < GetLength(b) ==> c[k] == '\0'
    requires forall k :: GetLength(b) <= k < |c| ==> c[k] == b[k]
    ensures c == Nulled(b, n)
  {
    var len := GetLength(b);
    assert c == b[..len - n] + Nuls(n) + b[len..];
  }

  /** A buffer that agrees with Shifted(b, n) at every index is it. */
  lemma {:induction false} ShiftedIs(b: seq<char>, n: nat, c: seq<char>)
    requires '\0' in b && n <= GetLength(b) && |c| == |b|
    requires forall k :: 0 <= k < GetLength(b) - n ==> c[k] == b[k + n]
    requires c[GetLength(b) - n] == '\0'
    requires forall k :: GetLength(b) - n < k < |c| ==> c[k] == b[k]
    ensures c == Shifted(b, n)
  {
    var len := GetLength(b);
    assert c == b[n..len] + ['\0'] + b[len - n + 1..];
  }

  /** The buffer string_rtrim leaves: the last `n` characters of the
      contents overwritten with NULs. It holds the shortened string. */
  function Nulled(b: seq<char>, n: nat): (r: seq<char>)
    requires '\0' in b && n <= GetLength(b)
    ensures |r| == |b| && '\0' in r && Contents(r) == Contents(b)[..GetLength(b) - n]
  {
    var len := GetLength(b);
    var r := b[..len - n] + Nuls(n) + b[len..];
    assert r[len - n] == '\0';
    assert forall k :: 0 <= k < len - n ==> r[k] == b[k];
    LengthIs(r, len - n);
    assert r[..len - n] == b[..len - n];
    r
  }

  /** string_clear: every character before the terminator becomes NUL. */
  method Clear(a: array<char>)
    requires '\0' in a[..]
    modifies a
    ensures var b := old(a[..]); var len := GetLength(b);
      a[..] == Nuls(len) + b[len..]
  {
    ghost var b := a[..];
    ghost var len := GetLength(a[..]);
    var s := 0;
    while a[s] != '\0'
      invariant 0 <= s <= len
      invariant forall k :: 0 <= k < s ==> a[k] == '\0'
      invariant forall k :: s <= k < a.Length ==> a[k] == b[k]
      decreases len - s
    {
      a[s] := '\0';
      s := s + 1;
    }
    assert a[..] == Nuls(len) + b[len..];
  }

  /** string_ltrim: removes the leading run of trimmed characters by shifting
      the rest of the string left in place and returns how many it removed;
      the bytes after the new terminator are left as they were. */
  method LTrim(a: array<char>, which: Option<String>) returns (n: nat)
    requires '\0' in a[..]
    modifies a
    ensures var b := old(a[..]); var len := GetLength(b);
      n == LeadingRun(Contents(b), which) && n <= len
      && a[..] == Shifted(b, n)
  {
    ghost var b := a[..];
    ghost var len := GetLength(a[..]);
    ghost var s := a[..len];
    var i := 0;
    while a[i] != '\0'
      invariant 0 <= i <= len
      invariant forall k :: 0 <= k < i ==> Trimmed(s[k], which)
      decreases len - i
    {
      if !Trimmed(a[i], which) {
        break;
      }
      i := i + 1;
    }
    assert i < len ==> s[i] == a[i];
    LeadingRunUnique(s, which, i);
    var j := i;
    while a[j] != '\0'
      invariant i <= j <= len
      invariant forall k :: 0 <= k < j - i ==> a[k] == b[k + i]
      invariant forall k :: j - i <= k < a.Length ==> a[k] == b[k]
      decreases len - j
    {
      a[j - i] := a[j];
      j := j + 1;
    }
    a[j - i] := '\0';
    n := i;
    ShiftedIs(b, n, a[..]);
  }

  /** string_rtrim: overwrites the trailing run of trimmed characters with
      NULs and returns how many it overwrote. */
  method RTrim(a: array<char>, which: Option<String>) returns (n: nat)
    requires '\0' in a[..]
    modifies a
    ensures var b := old(a[..]); var len := GetLength(b);
      n == TrailingRun(Contents(b), which) && n <= len
      && a[..] == Nulled(b, n)
  {
    ghost var b := a[..];
    var len := GetLength(a[..]);
    ghost var s := a[..len];
    var ret := 0;
    var i := len;
    while i > 0
      invariant 0 <= i <= len && ret == len - i
      invariant forall k :: i <= k < len ==> Trimmed(s[k], which)
      invariant forall k :: 0 <= k < i ==> a[k] == b[k]
      invariant forall k :: i <= k < len ==> a[k] == '\0'
      invariant forall k :: len <= k < a.Length ==> a[k] == b[k]
    {
      if !Trimmed(a[i - 1], which) {
        break;
      }
      a[i - 1] := '\0';
      ret := ret + 1;
      i := i - 1;
    }
    TrailingRunUnique(s, which, ret);
    n := ret;
    NulledIs(b, n, a[..]);
  }

  /** The string string_trim leaves: `s` without its leading run and then
      without the trailing run of what remains. What is kept is a contiguous
      part of `s` that neither starts nor ends with a trimmed character, and
      every character cut off is a trimmed one. */
  function TrimString(s: String, which: Option<String>): (t: String)
    ensures var l := LeadingRun(s, which);
      l + |t| <= |s| && t == s[l..l + |t|]
      && (forall k :: 0 <= k < |s| && !(l <= k < l + |t|) ==> Trimmed(s[k], which))
    ensures t != [] ==> !Trimmed(t[0], which) && !Trimmed(t[|t| - 1], which)
  {
    var l := LeadingRun(s, which);
    var r := TrailingRun(s[l..], which);
    TrimCut(s, which, l, r);
    TrimEnds(s, which, l, r);
    s[l..|s| - r]
  }

  /** Everything outside the two runs is kept; everything in them is a
      trimmed character. */
  lemma {:induction false} TrimCut(s: String, which: Option<String>, l: nat, r: nat)
    requires l == LeadingRun(s, which) && r == TrailingRun(s[l..], which)
    ensures l + r <= |s|
    ensures var t := s[l..|s| - r];
      l + |t| <= |s| && t == s[l..l + |t|]
      && forall k :: 0 <= k < |s| && !(l <= k < l + |t|) ==> Trimmed(s[k], which)
  {
    assert forall k :: |s| - r <= k < |s| ==> s[k] == s[l..][k - l];
  }

  /** What is kept neither starts nor ends with a trimmed character. */
  lemma {:induction false} TrimEnds(s: String, which: Option<String>, l: nat, r: nat)
    requires l == LeadingRun(s, which) && r == TrailingRun(s[l..], which)
    ensures l + r <= |s|
    ensures var t := s[l..|s| - r];
      t != [] ==> !Trimmed(t[0], which) && !Trimmed(t[|t| - 1], which)
  {
    var t := s[l..|s| - r];
    if t != [] {
      assert t[0] == s[l];
      assert s[l..][|s[l..]| - r - 1] == s[|s| - r - 1] == t[|t| - 1];
    }
  }

  /** TrimString cuts the leading run and then the trailing run of the rest. */
  lemma {:induction false} TrimStringIs(s: String, which: Option<String>, l: nat, r: nat)
    requires l == LeadingRun(s, which) && r == TrailingRun(s[l..], which)
    ensures l + r <= |s| && TrimString(s, which) == s[l..|s| - r]
  {
  }

  /** Trimming twice trims nothing more. */
  lemma {:induction false} TrimStringIdempotent(s: String, which: Option<String>)
    ensures TrimString(TrimString(s, which), which) == TrimString(s, which)
  {
    var t := TrimString(s, which);
    LeadingRunUnique(t, which, 0);
    assert t[0..] == t;
    TrailingRunUnique(t, which, 0);
    assert t[..|t|] == t;
  }

  /** string_ltrim followed by string_rtrim, on buffer values: the result
      holds the string with both runs cut off. */
  lemma {:induction false} TrimmedContents(b: seq<char>, mid: seq<char>, fin: seq<char>, which: Option<String>, l: nat, r: nat)
    requires '\0' in b && l <= GetLength(b) && l == LeadingRun(Contents(b), which)
    requires mid == Shifted(b, l)
    requires r <= GetLength(mid) && r == TrailingRun(Contents(mid), which)
    requires fin == Nulled(mid, r)
    ensures '\0' in fin
    ensures r == TrailingRun(Contents(b)[l..], which)
    ensures Contents(fin) == TrimString(Contents(b), which)
  {
    var s, m, c := Contents(b), Contents(mid), Contents(fin);
    assert m == s[l..];
    assert c == m[..|m| - r];
    TrimOfCut(s, m, c, which, l, r);
  }

  /** Cutting the trailing run off the string left after the leading run. */
  lemma {:induction false} TrimOfCut(s: String, m: String, c: String, which: Option<String>, l: nat, r: nat)
    requires l == LeadingRun(s, which) && m == s[l..]
    requires r == TrailingRun(m, which) && c == m[..|m| - r]
    ensures c == TrimString(s, which)
  {
    TrimStringIs(s, which, l, r);
    assert forall k :: 0 <= k < |c| ==> c[k] == s[l + k];
  }

  /** string_trim: string_ltrim then string_rtrim, returning the sum; the
      buffer then holds the string without its leading and trailing runs. */
  method Trim(a: array<char>, which: Option<String>) returns (n: nat)
    requires '\0' in a[..]
    modifies a
    ensures '\0' in a[..]
    ensures Contents(a[..]) == TrimString(Contents(old(a[..])), which)
    ensures n == |Contents(old(a[..]))| - |Contents(a[..])|
  {
    ghost var b := a[..];
    var l := LTrim(a, which);
    ghost var mid := a[..];
    var r := RTrim(a, which);
    TrimmedContents(b, mid, a[..], which, l, r);
    n := l + r;
  }
}
