/** The `[section.]key[=value]` argument of the configuration tools
    (tools/configctl.c and tools/config.c split it the same way): the
    argument is cut in place at its first '.', and, when writing, what follows
    is cut again at its first '='; each cut overwrites the separator with a
    NUL so that the pieces become C strings of their own. */
module Arguments {
  import opened Common
  import Strings

  /** An argument once split: the section (NULL without a '.'), the key,
      and the value (NULL unless writing and an '=' follows the key). */
  datatype Argument = Argument(section: Option<String>, key: String, value: Option<String>)

  /** strchr on a C string, for a character other than NUL: the position of
      its first occurrence, or NULL. */
  function Chr(s: String, c: char): (r: Option<nat>)
    ensures r.None? <==> c !in s
    ensures r.Some? ==> r.value < |s| && s[r.value] == c && c !in s[..r.value]
    decreases |s|
  {
    if |s| == 0 then None
    else if s[0] == c then Some(0)
    else
      var t := Chr(s[1..], c);
      assert s == [s[0]] + s[1..];
      if t.None? then None
      else
        assert s[..t.value + 1] == [s[0]] + s[1..][..t.value];
        Some(t.value + 1)
  }

  /** Chr finds the first occurrence. */
  lemma {:induction false} ChrIs(s: String, c: char, k: nat)
    requires k < |s| && s[k] == c && c !in s[..k]
    ensures Chr(s, c) == Some(k)
  {
    assert s[k] in s;
  }

  /** The text a section contributes to an argument: nothing for NULL,
      otherwise the name and the '.' after it. */
  function Before(section: Option<String>): String {
    if section.None? then "" else section.value + "."
  }

  /** The text of the key and the value: the key alone for a NULL value,
      otherwise the key, '=' and the value. */
  function After(key: String, value: Option<String>): String {
    if value.None? then key else key + "=" + value.value
  }

  /** The argument an Argument is split from. */
  function Joined(a: Argument): String {
    Before(a.section) + After(a.key, a.value)
  }

  /** The argument cut at its first '.': the section (NULL without one)
      and what follows it. */
  function SectionPart(arg: String): (r: (Option<String>, String))
    ensures r.0.Some? <==> '.' in arg
    ensures r.0.Some? ==> '.' !in r.0.value
    ensures arg == Before(r.0) + r.1
  {
    var d := Chr(arg, '.');
    if d.None? then
      assert "" + arg == arg;
      (None, arg)
    else
      var k := d.value;
      CutAt(arg, k);
      var section: String := Piece(arg, 0, k);
      var rest: String := Piece(arg, k + 1, |arg|);
      assert [arg[k]] == "." && '.' !in section && '.' in arg;
      assert Before(Some(section)) + rest == section + "." + rest;
      (Some(section), rest)
  }

  /** What follows the section, cut at its first '=' only when writing: the
      key and the value (NULL without one). */
  function ValuePart(rest: String, write: bool): (r: (String, Option<String>))
    ensures r.1.Some? ==> write
    ensures write ==> '=' !in r.0
    ensures rest == After(r.0, r.1)
  {
    var e := if write then Chr(rest, '=') else None;
    if e.None? then (rest, None)
    else
      var k := e.value;
      CutAt(rest, k);
      var key: String := Piece(rest, 0, k);
      var value: String := Piece(rest, k + 1, |rest|);
      assert [rest[k]] == "=";
      assert After(key, Some(value)) == key + "=" + value;
      (key, Some(value))
  }

  /** The characters from i to j of a string, which is a string. */
  function Piece(s: String, i: nat, j: nat): (r: String)
    requires i <= j <= |s|
    ensures r == s[i..j]
  {
    assert forall c :: c in s[i..j] ==> c in s;
    s[i..j]
  }

  /** A string is what precedes position `k`, the character there, and what
      follows. */
  lemma {:induction false} CutAt(s: String, k: nat)
    requires k < |s|
    ensures s == s[..k] + [s[k]] + s[k + 1..]
  {
  }

  /** The argument split at its first '.' and, when `write`, the rest at
      its first '='. */
  function Split(arg: String, write: bool): (r: Argument)
    ensures Joined(r) == arg
    ensures r.section.Some? <==> '.' in arg
    ensures r.section.Some? ==> '.' !in r.section.value
    ensures write ==> '=' !in r.key
    ensures !write ==> r.value.None?
  {
    var (section, rest) := SectionPart(arg);
    var (key, value) := ValuePart(rest, write);
    Argument(section, key, value)
  }

  /** The arguments Split gives back unchanged: no '.' in the section, no
      '.' anywhere when there is no section, no '=' in the key when writing
      and no value when not. */
  predicate Canonical(a: Argument, write: bool) {
    (a.section.Some? ==> '.' !in a.section.value)
    && (a.section.None? ==> '.' !in a.key && (a.value.Some? ==> '.' !in a.value.value))
    && (write ==> '=' !in a.key)
    && (!write ==> a.value.None?)
  }

  /** Cutting at the first '.' gives back a section without one. */
  lemma {:induction false} SectionPartOf(section: Option<String>, rest: String)
    requires section.Some? ==> '.' !in section.value
    requires section.None? ==> '.' !in rest
    ensures SectionPart(Before(section) + rest) == (section, rest)
  {
    var arg := Before(section) + rest;
    if section.Some? {
      var s := section.value;
      assert arg == s + "." + rest;
      assert arg[|s|] == '.' && arg[..|s|] == s;
      ChrIs(arg, '.', |s|);
      assert arg[|s| + 1..] == rest;
    } else {
      assert arg == rest;
    }
  }

  /** Cutting at the first '=' gives back a key without one. */
  lemma {:induction false} ValuePartOf(key: String, value: Option<String>, write: bool)
    requires write ==> '=' !in key
    requires !write ==> value.None?
    ensures ValuePart(After(key, value), write) == (key, value)
  {
    var rest := After(key, value);
    if value.Some? {
      assert rest == key + "=" + value.value;
      assert rest[|key|] == '=' && rest[..|key|] == key;
      ChrIs(rest, '=', |key|);
      assert rest[|key| + 1..] == value.value;
    }
  }

  /** Splitting undoes joining for every canonical argument. */
  lemma {:induction false} SplitJoined(a: Argument, write: bool)
    requires Canonical(a, write)
    ensures Split(Joined(a), write) == a
  {
    var rest := After(a.key, a.value);
    if a.section.None? && a.value.Some? {
      var v := a.value.value;
      assert rest == a.key + "=" + v;
      assert forall k :: 0 <= k < |rest| ==> rest[k] == if k < |a.key| then a.key[k] else if k == |a.key| then '=' else v[k - |a.key| - 1];
    }
    SectionPartOf(a.section, rest);
    ValuePartOf(a.key, a.value, write);
  }

  /** The C string starting at position `p` of the buffer `b` is `s`. */
  predicate Holds(b: seq<char>, p: nat, s: String) {
    p + |s| < |b| && b[p..p + |s|] == s && b[p + |s|] == '\0'
  }

  /** strchr on the C string at `from` in the array, whose terminator is at
      `n`: the position of the first `c`, or NULL. */
  method Strchr(a: array<char>, from: nat, ghost n: nat, c: char) returns (r: Option<nat>)
    requires from <= n < a.Length && a[n] == '\0' && c != '\0'
    requires forall k :: from <= k < n ==> a[k] != '\0'
    ensures r.None? ==> c !in a[from..n]
    ensures r.Some? ==> from <= r.value < n && a[r.value] == c && c !in a[from..r.value]
  {
    var i := from;
    while a[i] != '\0' && a[i] != c
      invariant from <= i <= n
      invariant c !in a[from..i]
      decreases n - i
    {
      assert a[from..i + 1] == a[from..i] + [a[i]];
      i := i + 1;
    }
    if a[i] == '\0' {
      return None;
    }
    r := Some(i);
  }

  /** The C string at `p` stays where it is when only characters past its
      terminator change. */
  lemma {:induction false} HoldsKept(b: seq<char>, c: seq<char>, p: nat, s: String, m: nat)
    requires Holds(b, p, s) && p + |s| < m <= |b| == |c| && b[..m] == c[..m]
    ensures Holds(c, p, s)
  {
    assert b[p..p + |s|] == b[..m][p..p + |s|];
    assert c[p..p + |s|] == c[..m][p..p + |s|];
    assert b[p + |s|] == b[..m][p + |s|];
    assert c[p + |s|] == c[..m][p + |s|];
  }

  /** The first cut of the split: with a '.' the argument's first '.' is
      overwritten by a NUL and the key starts after it, otherwise the key is
      the whole argument. */
  method CutSection(a: array<char>, ghost arg: String) returns (section: Option<nat>, key: nat)
    requires a[..] == arg + ['\0']
    modifies a
    ensures var r := SectionPart(arg);
      (section.Some? <==> r.0.Some?)
      && (section.Some? ==> section.value == 0 && Holds(a[..], 0, r.0.value) && key == |r.0.value| + 1)
      && (section.None? ==> key == 0)
      && key <= |arg| && a[key..] == r.1 + ['\0']
  {
    ghost var n := |arg|;
    assert forall k :: 0 <= k < n ==> a[k] == arg[k];
    var d := Strchr(a, 0, n, '.');
    if d.None? {
      assert a[0..n] == arg;
      return None, 0;
    }
    assert a[0..d.value] == arg[..d.value];
    ChrIs(arg, '.', d.value);
    a[d.value] := '\0';
    section, key := Some(0), d.value + 1;
    assert a[0..d.value] == arg[..d.value];
    assert a[key..] == arg[key..] + ['\0'];
  }

  /** A buffer holding `rest` and its terminator from `key` on holds the C
      string `rest` there. */
  lemma {:induction false} HoldsRest(b: seq<char>, key: nat, rest: String)
    requires key <= |b| && b[key..] == rest + ['\0']
    ensures Holds(b, key, rest)
    ensures forall k :: key <= k < key + |rest| ==> b[k] != '\0'
  {
    assert b[key..key + |rest|] == b[key..][..|rest|];
    assert b[key + |rest|] == b[key..][|rest|];
    forall k | key <= k < key + |rest|
      ensures b[k] != '\0'
    {
      assert b[k] == rest[k - key];
    }
  }

  /** Overwriting position `j` of `rest` with a NUL leaves two C strings:
      what precedes it at `key`, what follows it after it. */
  lemma {:induction false} CutHolds(b: seq<char>, key: nat, rest: String, j: nat, c: seq<char>)
    requires key <= |b| && b[key..] == rest + ['\0'] && j < |rest| && c == b[key + j := '\0']
    ensures Holds(c, key, rest[..j]) && Holds(c, key + j + 1, rest[j + 1..])
    ensures c[..key] == b[..key]
  {
    assert c[key..key + j] == b[key..][..j] == rest[..j];
    assert c[key + j + 1..key + |rest|] == b[key..][j + 1..|rest|] == rest[j + 1..];
    assert c[key + |rest|] == b[key..][|rest|];
  }

  /** The second cut, only when writing: the key's first '=' is overwritten
      by a NUL and the value starts after it. Nothing before the key
      changes. */
  method CutValue(a: array<char>, key: nat, ghost rest: String, write: bool) returns (value: Option<nat>)
    requires key <= a.Length && a[key..] == rest + ['\0']
    modifies a
    ensures a[..key] == old(a[..key])
    ensures var r := ValuePart(rest, write);
      Holds(a[..], key, r.0)
      && (value.Some? <==> r.1.Some?)
      && (value.Some? ==> Holds(a[..], value.value, r.1.value))
  {
    ghost var b := a[..];
    ghost var n := key + |rest|;
    HoldsRest(b, key, rest);
    if !write {
      return None;
    }
    assert a[key..n] == rest;
    var e := Strchr(a, key, n, '=');
    if e.None? {
      return None;
    }
    ghost var j := e.value - key;
    assert a[key..e.value] == rest[..j];
    ChrIs(rest, '=', j);
    a[e.value] := '\0';
    value := Some(e.value + 1);
    CutHolds(b, key, rest, j, a[..]);
  }

  /** The split as the tools do it, on the argument's own characters: the
      section (when there is one) is the C string at 0, the key the one at
      `key`, the value (when there is one) the one at `value`. */
  method SplitInPlace(a: array<char>, ghost arg: String, write: bool)
    returns (section: Option<nat>, key: nat, value: Option<nat>)
    requires a[..] == arg + ['\0']
    modifies a
    ensures var r := Split(arg, write);
      (section.Some? <==> r.section.Some?)
      && (section.Some? ==> section.value == 0 && Holds(a[..], 0, r.section.value))
      && Holds(a[..], key, r.key)
      && (value.Some? <==> r.value.Some?)
      && (value.Some? ==> Holds(a[..], value.value, r.value.value))
  {
    ghost var p := SectionPart(arg);
    section, key := CutSection(a, arg);
    ghost var b := a[..];
    value := CutValue(a, key, p.1, write);
    if section.Some? {
      HoldsKept(b, a[..], 0, p.0.value, key);
    }
  }

  /** The C string `s` at `p` is what reading the buffer from `p` up to
      its first NUL gives. */
  lemma {:induction false} HoldsRead(b: seq<char>, p: nat, s: String)
    requires Holds(b, p, s)
    ensures '\0' in b[p..] && Strings.Contents(b[p..]) == s
  {
    var c := b[p..];
    assert c[|s|] == '\0';
    var n := Strings.GetLength(c);
    assert forall k :: 0 <= k < |s| ==> c[k] == s[k];
    assert c[..n] == s;
  }

  /** The split argument as the tools use it: the C strings the cuts leave
      in the argument's characters. */
  method SplitArgument(a: array<char>, ghost arg: String, write: bool) returns (r: Argument)
    requires a[..] == arg + ['\0']
    modifies a
    ensures r == Split(arg, write)
  {
    ghost var parts := Split(arg, write);
    var section, key, value := SplitInPlace(a, arg, write);
    var b := a[..];
    HoldsRead(b, key, parts.key);
    if section.Some? {
      HoldsRead(b, 0, parts.section.value);
      assert b[0..] == b;
    }
    if value.Some? {
      HoldsRead(b, value.value, parts.value.value);
    }
    r := Argument(if section.None? then None else Some(Strings.Contents(b)),
                  Strings.Contents(b[key..]),
                  if value.None? then None else Some(Strings.Contents(b[value.value..])));
  }
}
