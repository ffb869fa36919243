/** The mutator (src/mutator.c): a hash table keyed by C strings, with
    hash_func_string and hash_compare_string. Every operation forwards to the
    matching hash table operation. */
module Mutators {
  import opened Common
  import opened Hashes
  import Arrays

  type Mutator<V> = Hash<String, V>

  /** A table built by mutator_new. */
  ghost predicate IsMutator<V>(m: Mutator<V>)
    reads m
  {
    m.func == Some(HashString) && m.compare == CompareString && m.Valid()
  }

  /** The value a mutator holds for a key, as mutator_get returns it: the
      value of the entry whose key is that string, or NULL when there is
      none. */
  function Value<V>(entries: seq<Entry<String, V>>, key: String): (r: Option<V>)
    requires WellFormed(entries, Some(HashString), CompareString)
    ensures r.Some? ==> exists i :: 0 <= i < |entries| && entries[i].key == key && entries[i].value == r.value
    ensures r.None? <==> forall i :: 0 <= i < |entries| ==> entries[i].key != key
  {
    var i := LastMatch(entries, HashString(key), key, CompareString);
    assert forall k :: 0 <= k < |entries| && entries[k].key == key ==>
      Matches(entries[k], HashString(key), key, CompareString);
    if i < 0 then None else Some(entries[i].value)
  }

  /** The string functions fit: string equality is an equivalence and equal
      strings hash equally. */
  lemma {:induction false} StringFunctionsFit()
    ensures Fit(Some(HashString), CompareString)
  {
  }

  /** In a mutator no two entries have the same key, so the count is the
      number of keys. */
  lemma {:induction false} DistinctKeys<V>(entries: seq<Entry<String, V>>)
    requires WellFormed(entries, Some(HashString), CompareString)
    ensures forall i, j :: 0 <= i < j < |entries| ==> entries[i].key != entries[j].key
  {
    forall i, j | 0 <= i < j < |entries|
      ensures entries[i].key != entries[j].key
    {
      var a, b := entries[i], entries[j];
      assert a.key == b.key ==> a.hash == b.hash && CompareString(a.key, b.key) == 0;
    }
  }

  /** What mutator_set does to the held values: `key` now holds `value`
      (nothing when it is NULL), every other string what it held, and the
      table stays well formed. */
  lemma {:induction false} AssignedValue<V>(entries: seq<Entry<String, V>>, key: String, value: Option<V>)
    requires WellFormed(entries, Some(HashString), CompareString)
    ensures var r := Assigned(entries, HashString(key), key, value, CompareString);
      WellFormed(r, Some(HashString), CompareString)
      && forall other :: Value(r, other) == if other == key then value else Value(entries, other)
  {
    var r := Assigned(entries, HashString(key), key, value, CompareString);
    AssignedWellFormed(entries, Some(HashString), CompareString, key, value);
    StringFunctionsFit();
    forall other
      ensures Value(r, other) == if other == key then value else Value(entries, other)
    {
      AssignedLookup(entries, Some(HashString), CompareString, key, value, other);
    }
  }

  /** mutator_new. */
  method New<V>() returns (m: Mutator<V>)
    ensures fresh(m) && IsMutator(m) && m.entries == []
  {
    var o := Hashes.New<String, V>(Some(HashString), Some(CompareString));
    m := o.value;
  }

  /** mutator_get: the value stored under the string `key`, or NULL. */
  method Get<V>(m: Mutator<V>, key: String) returns (r: Option<V>)
    requires IsMutator(m)
    ensures r == Value(m.entries, key)
  {
    r := m.Get(key);
  }

  /** mutator_set: afterwards the mutator holds `value` under `key` (nothing
      when it is NULL) and what it held under every other string. */
  method Set<V>(m: Mutator<V>, key: String, value: Option<V>) returns (ret: int)
    requires IsMutator(m)
    modifies m
    ensures ret == 0 && IsMutator(m)
    ensures Value(m.entries, key) == value
    ensures forall other :: other != key ==> Value(m.entries, other) == Value(old(m.entries), other)
  {
    AssignedValue(m.entries, key, value);
    ret := m.Set(key, value);
  }

  /** mutator_count: the number of keys. */
  method Count<V>(m: Mutator<V>) returns (n: nat)
    requires IsMutator(m)
    ensures n == |m.entries|
    ensures forall i, j :: 0 <= i < j < n ==> m.entries[i].key != m.entries[j].key
  {
    DistinctKeys(m.entries);
    n := m.Count();
  }

  /** mutator_foreach: every key and value in insertion order. */
  method Foreach<V, D>(m: Mutator<V>, f: (String, V, D) -> D, data: D) returns (r: D)
    ensures r == Arrays.Fold(Visitor(f), m.entries, data)
  {
    r := m.Foreach(f, data);
  }

  /** mutator_reset: afterwards no key has a value. */
  method Reset<V>(m: Mutator<V>) returns (ret: int)
    requires IsMutator(m)
    modifies m
    ensures ret == 0 && IsMutator(m) && m.entries == []
    ensures forall key :: Value(m.entries, key) == None
  {
    ret := m.Reset();
  }
}
