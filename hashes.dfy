/** The hash table (src/hash.c): an insertion-ordered list of entries, each
    holding the hash of its key, the key and a value, searched linearly.
    The hash function may be NULL, in which case every hash is 0; the
    comparison function may not. A NULL value is never stored: setting a key
    to NULL removes it, so a value here is always present and NULL is the
    absent `Option`. */
module Hashes {
  import opened Common
  import Strings
  import Arrays

  datatype Entry<K, V> = Entry(hash: bv32, key: K, value: V)

  /** The hash hash_get and hash_set compute for a key. */
  function HashOf<K>(func: Option<K -> bv32>, key: K): bv32 {
    if func.None? then 0 else func.value(key)
  }

  /** The test every scan applies to an entry: same stored hash, and a
      comparison result of 0. */
  predicate Matches<K, V>(e: Entry<K, V>, h: bv32, key: K, compare: (K, K) -> int) {
    e.hash == h && compare(e.key, key) == 0
  }

  /** What makes a comparison function and a hash function fit together: the
      comparison's 0 is an equivalence and equivalent keys hash equally. The
      string functions are such a pair (Mutators.StringFunctionsFit). */
  ghost predicate Fit<K(!new)>(func: Option<K -> bv32>, compare: (K, K) -> int) {
    (forall a :: compare(a, a) == 0)
    && (forall a, b :: compare(a, b) == 0 ==> compare(b, a) == 0)
    && (forall a, b, c :: compare(a, b) == 0 && compare(b, c) == 0 ==> compare(a, c) == 0)
    && (forall a, b :: compare(a, b) == 0 ==> HashOf(func, a) == HashOf(func, b))
  }

  /** The invariants hash_set keeps: each stored hash is that of its key, and
      no entry's key matches an earlier entry. */
  ghost predicate WellFormed<K, V>(entries: seq<Entry<K, V>>, func: Option<K -> bv32>, compare: (K, K) -> int) {
    (forall i :: 0 <= i < |entries| ==> entries[i].hash == HashOf(func, entries[i].key))
    && (forall i, j :: 0 <= i < j < |entries| ==>
          !Matches(entries[i], entries[j].hash, entries[j].key, compare))
  }

  /** The index of the last matching entry (the reverse scan of hash_get and
      hash_get_key), or -1. */
  function LastMatch<K, V>(entries: seq<Entry<K, V>>, h: bv32, key: K, compare: (K, K) -> int): (r: int)
    ensures -1 <= r < |entries|
    ensures r >= 0 ==> Matches(entries[r], h, key, compare)
    ensures forall k :: r < k < |entries| ==> !Matches(entries[k], h, key, compare)
    decreases |entries|
  {
    if entries == [] then -1
    else if Matches(entries[|entries| - 1], h, key, compare) then |entries| - 1
    else LastMatch(entries[..|entries| - 1], h, key, compare)
  }

  /** The index of the first matching entry (the forward scan of hash_set),
      or -1. */
  function FirstMatch<K, V>(entries: seq<Entry<K, V>>, h: bv32, key: K, compare: (K, K) -> int): (r: int)
    ensures -1 <= r < |entries|
    ensures r >= 0 ==> Matches(entries[r], h, key, compare)
    ensures forall k :: 0 <= k < |entries| && (r < 0 || k < r) ==> !Matches(entries[k], h, key, compare)
    decreases |entries|
  {
    if entries == [] then -1
    else if Matches(entries[0], h, key, compare) then 0
    else
      var r := FirstMatch(entries[1..], h, key, compare);
      if r < 0 then -1 else r + 1
  }

  /** The value hash_get returns. */
  function Lookup<K, V>(entries: seq<Entry<K, V>>, h: bv32, key: K, compare: (K, K) -> int): (r: Option<V>)
    ensures r.None? <==> forall k :: 0 <= k < |entries| ==> !Matches(entries[k], h, key, compare)
    ensures r.Some? ==> exists k :: 0 <= k < |entries| && Matches(entries[k], h, key, compare) && entries[k].value == r.value
  {
    var i := LastMatch(entries, h, key, compare);
    if i < 0 then None else Some(entries[i].value)
  }

  /** The entries after hash_set(key, value): a matching entry has its value
      replaced, or is removed when the value is NULL; without one, a non-NULL
      value is appended as a new entry and a NULL one changes nothing. */
  function Assigned<K, V>(entries: seq<Entry<K, V>>, h: bv32, key: K, value: Option<V>,
                          compare: (K, K) -> int): (r: seq<Entry<K, V>>)
  {
    var i := FirstMatch(entries, h, key, compare);
    if i >= 0 then
      if value.None? then entries[..i] + entries[i + 1..]
      else entries[i := entries[i].(value := value.value)]
    else if value.None? then entries
    else entries + [Entry(h, key, value.value)]
  }

  /** The call hash_foreach makes for one entry: the caller's function on its
      key and value. */
  function Visitor<K, V, D>(f: (K, V, D) -> D): (Entry<K, V>, D) -> D {
    (e: Entry<K, V>, d: D) => f(e.key, e.value, d)
  }

  class Hash<K, V> {
    const func: Option<K -> bv32>
    const compare: (K, K) -> int
    var entries: seq<Entry<K, V>>

    ghost predicate Valid()
      reads this
    {
      WellFormed(entries, func, compare)
    }

    constructor (func: Option<K -> bv32>, compare: (K, K) -> int, entries: seq<Entry<K, V>>)
      ensures this.func == func && this.compare == compare && this.entries == entries
    {
      this.func := func;
      this.compare := compare;
      this.entries := entries;
    }

    /** hash_count. */
    function Count(): (n: nat)
      reads this
      ensures n == |entries|
    {
      |entries|
    }

    /** hash_get: the value of the last entry whose key matches, scanning
        from the end, or NULL ("Key not found"). */
    method Get(key: K) returns (r: Option<V>)
      ensures r == Lookup(entries, HashOf(func, key), key, compare)
    {
      var i := Find(key);
      r := if i < 0 then None else Some(entries[i].value);
    }

    /** hash_get_key: the stored key of that entry, or NULL. */
    method GetKey(key: K) returns (r: Option<K>)
      ensures var i := LastMatch(entries, HashOf(func, key), key, compare);
        r == if i < 0 then None else Some(entries[i].key)
    {
      var i := Find(key);
      r := if i < 0 then None else Some(entries[i].key);
    }

    /** The reverse scan shared by hash_get and hash_get_key. */
    method Find(key: K) returns (r: int)
      ensures r == LastMatch(entries, HashOf(func, key), key, compare)
    {
      var h := HashOf(func, key);
      var i := |entries|;
      while i > 0
        invariant 0 <= i <= |entries|
        invariant forall k :: i <= k < |entries| ==> !Matches(entries[k], h, key, compare)
      {
        var e := entries[i - 1];
        if e.hash == h && compare(e.key, key) == 0 {
          LastMatchUnique(entries, h, key, compare, i - 1);
          return i - 1;
        }
        i := i - 1;
      }
      LastMatchUnique(entries, h, key, compare, -1);
      r := -1;
    }

    /** hash_set: the forward scan for a matching entry, then overwrite,
        remove, append or nothing, as Assigned describes; it returns 0. */
    method Set(key: K, value: Option<V>) returns (ret: int)
      modifies this
      ensures ret == 0
      ensures entries == Assigned(old(entries), HashOf(func, key), key, value, compare)
    {
      var h := HashOf(func, key);
      var i := 0;
      var cnt := |entries|;
      while i < cnt
        invariant 0 <= i <= cnt == |entries|
        invariant forall k :: 0 <= k < i ==> !Matches(entries[k], h, key, compare)
      {
        var p := entries[i];
        if p.hash != h {
          i := i + 1;
          continue;
        }
        if compare(p.key, key) != 0 {
          i := i + 1;
          continue;
        }
        FirstMatchUnique(entries, h, key, compare, i);
        if value.None? {
          entries := entries[..i] + entries[i + 1..];
          return 0;
        }
        entries := entries[i := p.(value := value.value)];
        return 0;
      }
      FirstMatchUnique(entries, h, key, compare, -1);
      if value.None? {
        return 0;
      }
      entries := entries + [Entry(h, key, value.value)];
      ret := 0;
    }

    /** hash_foreach: calls `f` on each key and value in insertion order,
        threading the caller's data through (array_foreach over the
        entries). */
    method Foreach<D>(f: (K, V, D) -> D, data: D) returns (r: D)
      ensures r == Arrays.Fold(Visitor(f), entries, data)
    {
      var g := Visitor(f);
      var i := 0;
      r := data;
      while i < |entries|
        invariant 0 <= i <= |entries|
        invariant Arrays.Fold(g, entries[i..], r) == Arrays.Fold(g, entries, data)
      {
        assert entries[i..] == [entries[i]] + entries[i + 1..];
        r := g(entries[i], r);
        i := i + 1;
      }
      assert entries[i..] == [];
    }

    /** hash_reset: removes the first entry until none is left. */
    method Reset() returns (ret: int)
      modifies this
      ensures ret == 0 && entries == []
    {
      while |entries| > 0
        decreases |entries|
      {
        entries := entries[1..];
      }
      ret := 0;
    }
  }

  /** hash_new: refused (NULL) without a comparison function; otherwise an
      empty table. */
  method New<K, V>(func: Option<K -> bv32>, compare: Option<(K, K) -> int>) returns (r: Option<Hash<K, V>>)
    ensures compare.None? <==> r.None?
    ensures r.Some? ==>
      fresh(r.value) && r.value.Valid() && r.value.entries == []
      && r.value.func == func && r.value.compare == compare.value
  {
    if compare.None? {
      return None;
    }
    var h := new Hash(func, compare.value, []);
    r := Some(h);
  }

  /** hash_new_copy: a new table with the same functions and entries. */
  method NewCopy<K, V>(from: Hash<K, V>) returns (r: Hash<K, V>)
    ensures fresh(r) && r.func == from.func && r.compare == from.compare
      && r.entries == from.entries
  {
    r := new Hash(from.func, from.compare, from.entries);
  }

  lemma {:induction false} LastMatchUnique<K, V>(entries: seq<Entry<K, V>>, h: bv32, key: K, compare: (K, K) -> int, r: int)
    requires -1 <= r < |entries|
    requires r >= 0 ==> Matches(entries[r], h, key, compare)
    requires forall k :: r < k < |entries| ==> !Matches(entries[k], h, key, compare)
    ensures r == LastMatch(entries, h, key, compare)
  {
  }

  lemma {:induction false} FirstMatchUnique<K, V>(entries: seq<Entry<K, V>>, h: bv32, key: K, compare: (K, K) -> int, r: int)
    requires -1 <= r < |entries|
    requires r >= 0 ==> Matches(entries[r], h, key, compare)
    requires forall k :: 0 <= k < |entries| && (r < 0 || k < r) ==> !Matches(entries[k], h, key, compare)
    ensures r == FirstMatch(entries, h, key, compare)
  {
  }

  /** In a well-formed table with fitting functions, no two entries match
      the same key. */
  lemma {:induction false} AtMostOneMatch<K(!new), V>(entries: seq<Entry<K, V>>, func: Option<K -> bv32>,
                                   compare: (K, K) -> int, key: K)
    requires WellFormed(entries, func, compare) && Fit(func, compare)
    ensures var h := HashOf(func, key);
      forall i, j :: 0 <= i < j < |entries| ==>
        !(Matches(entries[i], h, key, compare) && Matches(entries[j], h, key, compare))
  {
    var h := HashOf(func, key);
    forall i, j | 0 <= i < j < |entries|
      ensures !(Matches(entries[i], h, key, compare) && Matches(entries[j], h, key, compare))
    {
      var a, b := entries[i], entries[j];
      assert Matches(b, h, key, compare) ==> compare(key, b.key) == 0;
      assert Matches(a, h, key, compare) && Matches(b, h, key, compare) ==>
        compare(a.key, b.key) == 0 && a.hash == b.hash;
    }
  }

  /** In a well-formed table with fitting functions, at most one entry
      matches a key, so the forward scan of hash_set and the reverse scan of
      hash_get find the same entry. */
  lemma {:induction false} ScansAgree<K(!new), V>(entries: seq<Entry<K, V>>, func: Option<K -> bv32>,
                                            compare: (K, K) -> int, key: K)
    requires WellFormed(entries, func, compare) && Fit(func, compare)
    ensures var h := HashOf(func, key);
      FirstMatch(entries, h, key, compare) == LastMatch(entries, h, key, compare)
  {
    var h := HashOf(func, key);
    var i := FirstMatch(entries, h, key, compare);
    var j := LastMatch(entries, h, key, compare);
    AtMostOneMatch(entries, func, compare, key);
  }

  /** In a well-formed table with fitting functions, an entry that matches a
      key is the one hash_get finds. */
  lemma {:induction false} LookupFinds<K(!new), V>(entries: seq<Entry<K, V>>, func: Option<K -> bv32>,
                                             compare: (K, K) -> int, key: K, k: nat)
    requires WellFormed(entries, func, compare) && Fit(func, compare)
    requires k < |entries| && compare(entries[k].key, key) == 0
    ensures Lookup(entries, HashOf(func, key), key, compare) == Some(entries[k].value)
  {
    var h := HashOf(func, key);
    assert Matches(entries[k], h, key, compare);
    var j := LastMatch(entries, h, key, compare);
    AtMostOneMatch(entries, func, compare, key);
  }

  /** hash_set keeps the table well formed. */
  lemma {:induction false} AssignedWellFormed<K, V>(entries: seq<Entry<K, V>>, func: Option<K -> bv32>,
                                                    compare: (K, K) -> int, key: K, value: Option<V>)
    requires WellFormed(entries, func, compare)
    ensures WellFormed(Assigned(entries, HashOf(func, key), key, value, compare), func, compare)
  {
    var h := HashOf(func, key);
    var i := FirstMatch(entries, h, key, compare);
    var r := Assigned(entries, h, key, value, compare);
    if i >= 0 && value.None? {
      RemovedAt(entries, i, r);
    } else if i < 0 && value.Some? {
      assert forall k :: 0 <= k < |entries| ==> r[k] == entries[k];
    }
  }

  /** How hash_set changes the count: one more for a new key with a value,
      one fewer for a present key set to NULL, the same otherwise. */
  lemma {:induction false} AssignedCount<K, V>(entries: seq<Entry<K, V>>, h: bv32, key: K, value: Option<V>, compare: (K, K) -> int)
    ensures var present := FirstMatch(entries, h, key, compare) >= 0;
      |Assigned(entries, h, key, value, compare)|
        == if present && value.None? then |entries| - 1
           else if !present && value.Some? then |entries| + 1
           else |entries|
  {
  }

  /** Setting then getting: after hash_set(key, value), hash_get of a key
      equivalent to `key` returns `value`, and hash_get of any other key
      returns what it returned before. */
  lemma {:induction false} AssignedLookup<K(!new), V>(entries: seq<Entry<K, V>>, func: Option<K -> bv32>,
                                                      compare: (K, K) -> int, key: K, value: Option<V>, other: K)
    requires WellFormed(entries, func, compare) && Fit(func, compare)
    ensures var r := Assigned(entries, HashOf(func, key), key, value, compare);
      Lookup(r, HashOf(func, other), other, compare)
        == if compare(other, key) == 0 then value
           else Lookup(entries, HashOf(func, other), other, compare)
  {
    var h := HashOf(func, key);
    var i := FirstMatch(entries, h, key, compare);
    if compare(other, key) == 0 {
      SameKeyMatches(entries, func, compare, key, other);
    } else {
      OtherKeyMatches(entries, func, compare, key, other);
    }
    if i >= 0 && value.Some? {
      LookupOverwritten(entries, func, compare, key, value.value, other);
    } else if i >= 0 {
      LookupRemoved(entries, func, compare, key, other);
    } else if value.Some? {
      LookupAppended(entries, func, compare, key, value.value, other);
    } else if compare(other, key) == 0 {
      LastMatchUnique(entries, HashOf(func, other), other, compare, -1);
    }
  }

  /** With fitting functions, an entry matches a key exactly when it
      matches any equivalent key. */
  lemma {:induction false} SameKeyMatches<K(!new), V>(entries: seq<Entry<K, V>>, func: Option<K -> bv32>,
                                   compare: (K, K) -> int, key: K, other: K)
    requires Fit(func, compare) && compare(other, key) == 0
    ensures HashOf(func, other) == HashOf(func, key)
    ensures forall k :: 0 <= k < |entries| ==>
      (Matches(entries[k], HashOf(func, other), other, compare)
       <==> Matches(entries[k], HashOf(func, key), key, compare))
  {
    assert compare(key, other) == 0;
  }

  /** With fitting functions, no entry matches two keys that are not
      equivalent. */
  lemma {:induction false} OtherKeyMatches<K(!new), V>(entries: seq<Entry<K, V>>, func: Option<K -> bv32>,
                                    compare: (K, K) -> int, key: K, other: K)
    requires Fit(func, compare) && compare(other, key) != 0
    ensures forall k :: 0 <= k < |entries| && Matches(entries[k], HashOf(func, key), key, compare) ==>
      !Matches(entries[k], HashOf(func, other), other, compare)
  {
  }

  /** AssignedLookup when the key is present and gets a new value. */
  lemma {:induction false} LookupOverwritten<K(!new), V>(entries: seq<Entry<K, V>>, func: Option<K -> bv32>,
                                                         compare: (K, K) -> int, key: K, value: V, other: K)
    requires WellFormed(entries, func, compare) && Fit(func, compare)
    requires FirstMatch(entries, HashOf(func, key), key, compare) >= 0
    requires compare(other, key) == 0 ==>
      HashOf(func, other) == HashOf(func, key)
      && forall k :: 0 <= k < |entries| ==>
        (Matches(entries[k], HashOf(func, other), other, compare)
         <==> Matches(entries[k], HashOf(func, key), key, compare))
    requires compare(other, key) != 0 ==>
      forall k :: 0 <= k < |entries| && Matches(entries[k], HashOf(func, key), key, compare) ==>
        !Matches(entries[k], HashOf(func, other), other, compare)
    ensures var r := Assigned(entries, HashOf(func, key), key, Some(value), compare);
      Lookup(r, HashOf(func, other), other, compare)
        == if compare(other, key) == 0 then Some(value)
           else Lookup(entries, HashOf(func, other), other, compare)
  {
    var h := HashOf(func, key);
    var ho := HashOf(func, other);
    var i := FirstMatch(entries, h, key, compare);
    var r := Assigned(entries, h, key, Some(value), compare);
    var j := LastMatch(entries, ho, other, compare);
    assert forall k :: 0 <= k < |r| ==> r[k].hash == entries[k].hash && r[k].key == entries[k].key;
    LastMatchUnique(r, ho, other, compare, j);
    if compare(other, key) == 0 {
      ScansAgree(entries, func, compare, key);
    }
  }

  /** AssignedLookup when the key is present and its value is NULL. */
  lemma {:induction false} LookupRemoved<K(!new), V>(entries: seq<Entry<K, V>>, func: Option<K -> bv32>,
                                                     compare: (K, K) -> int, key: K, other: K)
    requires WellFormed(entries, func, compare) && Fit(func, compare)
    requires FirstMatch(entries, HashOf(func, key), key, compare) >= 0
    requires compare(other, key) == 0 ==>
      HashOf(func, other) == HashOf(func, key)
      && forall k :: 0 <= k < |entries| ==>
        (Matches(entries[k], HashOf(func, other), other, compare)
         <==> Matches(entries[k], HashOf(func, key), key, compare))
    requires compare(other, key) != 0 ==>
      forall k :: 0 <= k < |entries| && Matches(entries[k], HashOf(func, key), key, compare) ==>
        !Matches(entries[k], HashOf(func, other), other, compare)
    ensures var r := Assigned(entries, HashOf(func, key), key, None, compare);
      Lookup(r, HashOf(func, other), other, compare)
        == if compare(other, key) == 0 then None
           else Lookup(entries, HashOf(func, other), other, compare)
  {
    var h := HashOf(func, key);
    var ho := HashOf(func, other);
    var i := FirstMatch(entries, h, key, compare);
    var r := Assigned(entries, h, key, None, compare);
    AssignedWellFormed(entries, func, compare, key, None);
    var j := LastMatch(entries, ho, other, compare);
    RemovedAt(entries, i, r);
    if compare(other, key) == 0 {
      ScansAgree(entries, func, compare, key);
      LastMatchUnique(r, ho, other, compare, -1);
    } else if j >= 0 {
      var j' := if j < i then j else j - 1;
      assert r[j'] == entries[j];
      LookupFinds(r, func, compare, other, j');
      LookupFinds(entries, func, compare, other, j);
    } else {
      LastMatchUnique(r, ho, other, compare, -1);
    }
  }

  /** AssignedLookup when the key is absent and gets a value. */
  lemma {:induction false} LookupAppended<K(!new), V>(entries: seq<Entry<K, V>>, func: Option<K -> bv32>,
                                                      compare: (K, K) -> int, key: K, value: V, other: K)
    requires Fit(func, compare)
    requires FirstMatch(entries, HashOf(func, key), key, compare) < 0
    ensures var r := Assigned(entries, HashOf(func, key), key, Some(value), compare);
      Lookup(r, HashOf(func, other), other, compare)
        == if compare(other, key) == 0 then Some(value)
           else Lookup(entries, HashOf(func, other), other, compare)
  {
    var h := HashOf(func, key);
    var ho := HashOf(func, other);
    var r := Assigned(entries, h, key, Some(value), compare);
    var n := |entries|;
    assert r[n] == Entry(h, key, value);
    if compare(other, key) == 0 {
      assert compare(key, other) == 0;
      LastMatchUnique(r, ho, other, compare, n);
    } else {
      assert compare(key, other) != 0;
      assert forall k :: 0 <= k < n ==> r[k] == entries[k];
      LastMatchUnique(r, ho, other, compare, LastMatch(entries, ho, other, compare));
    }
  }

  // hash_func_string and hash_compare_string

  /** A C `char` (signed on the usual targets) converted to int and then to
      unsigned int, as the shift in hash_func_string sees it: bytes from 128 on
      are sign-extended. */
  function SignExtended(c: char): (r: bv32)
    ensures r & 0xFF == ((c as int) % 256) as bv32
    ensures r >> 8 == if (c as int) % 256 < 128 then 0 else 0xFF_FFFF
  {
    var b := ((c as int) % 256) as bv8;
    if b < 128 then b as bv32 else (b as bv32) | 0xFFFF_FF00
  }

  /** hash_func_string: the characters ORed in, the one at position i
      shifted left by 8 * i; the loop stops after the fourth, so only the first
      four count. */
  function HashString(s: String): bv32
    decreases |s|, 1
  {
    if |s| > 4 then HashString(s[..4]) else HashUpTo(s)
  }

  /** The hash of a string of at most four characters: that of all but the
      last one, with the last one ORed in at its position. */
  function HashUpTo(s: String): bv32
    requires |s| <= 4
    decreases |s|, 0
  {
    if s == [] then 0 else HashString(s[..|s| - 1]) | (SignExtended(s[|s| - 1]) << (8 * (|s| - 1)))
  }

  /** hash_func_string reads no further than the fourth character. */
  lemma {:induction false} HashStringPrefix(s: String, t: String)
    requires Strings.Prefix(s, 4) == Strings.Prefix(t, 4)
    ensures HashString(s) == HashString(t)
  {
    HashStringIsPrefix(s);
    HashStringIsPrefix(t);
  }

  /** The hash of a string is that of its first four characters at most. */
  lemma {:induction false} HashStringIsPrefix(s: String)
    ensures |Strings.Prefix(s, 4)| <= 4 && HashString(s) == HashUpTo(Strings.Prefix(s, 4))
  {
    if |s| <= 4 {
      assert s[..|s|] == s;
    }
  }

  /** The string hash of one character: an ASCII one is its own code, one from
      128 on fills the upper bits with ones. */
  lemma {:induction false} HashStringOne(c: char)
    requires c != '\0'
    ensures HashString([c]) == SignExtended(c)
  {
    assert [c][..0] == [];
    assert HashString([c]) == HashUpTo([c]) == HashString([]) | (SignExtended(c) << 0);
  }

  /** hash_compare_string. */
  function CompareString(s: String, t: String): (r: int)
    ensures r == 0 <==> s == t
  {
    Strings.Compare(s, t)
  }
}
