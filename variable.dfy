/** Typed variables (src/variable.c): a type tag with an integer of one of
    eight widths or a string, built from a pointer to the value, copied, and
    serialised into a Buffer. The integer encoding is the machine's own
    (native byte order); it is modelled as little-endian two's complement,
    one fixed-width encoding among others. Allocation is taken to succeed. */
module Variables {
  import opened Common
  import Buffers

  /** VariableType, in the order of its enumeration (codes 0 to 10). */
  datatype VarType = VT_NULL | VT_INT8 | VT_UINT8 | VT_INT16 | VT_UINT16 | VT_INT32 | VT_UINT32
                   | VT_INT64 | VT_UINT64 | VT_BUFFER | VT_STRING

  /** The enumeration value of a type, as the serialised type byte holds it. */
  function Code(t: VarType): (c: byte)
    ensures c <= 10
  {
    match t
    case VT_NULL => 0 case VT_INT8 => 1 case VT_UINT8 => 2 case VT_INT16 => 3 case VT_UINT16 => 4
    case VT_INT32 => 5 case VT_UINT32 => 6 case VT_INT64 => 7 case VT_UINT64 => 8
    case VT_BUFFER => 9 case VT_STRING => 10
  }

  /** The type with a given code, if any. */
  function TypeOf(c: byte): (r: Option<VarType>)
    ensures r.Some? <==> c <= 10
    ensures r.Some? ==> Code(r.value) == c
  {
    if c == 0 then Some(VT_NULL) else if c == 1 then Some(VT_INT8) else if c == 2 then Some(VT_UINT8)
    else if c == 3 then Some(VT_INT16) else if c == 4 then Some(VT_UINT16)
    else if c == 5 then Some(VT_INT32) else if c == 6 then Some(VT_UINT32)
    else if c == 7 then Some(VT_INT64) else if c == 8 then Some(VT_UINT64)
    else if c == 9 then Some(VT_BUFFER) else if c == 10 then Some(VT_STRING) else None
  }

  /** The codes identify the types. */
  lemma {:induction false} CodeReadsBack(t: VarType)
    ensures TypeOf(Code(t)) == Some(t)
  {
  }

  predicate IsInteger(t: VarType) {
    !(t.VT_NULL? || t.VT_BUFFER? || t.VT_STRING?)
  }

  predicate IsSigned(t: VarType) {
    t.VT_INT8? || t.VT_INT16? || t.VT_INT32? || t.VT_INT64?
  }

  /** The payload width of an integer type, in bytes. */
  function Width(t: VarType): (w: nat)
    ensures IsInteger(t) <==> w > 0
    ensures w == 0 || w == 1 || w == 2 || w == 4 || w == 8
  {
    if t.VT_INT8? || t.VT_UINT8? then 1
    else if t.VT_INT16? || t.VT_UINT16? then 2
    else if t.VT_INT32? || t.VT_UINT32? then 4
    else if t.VT_INT64? || t.VT_UINT64? then 8
    else 0
  }

  /** 256 to the power w. */
  function Pow256(w: nat): (r: nat)
    ensures r > 0
  {
    if w == 0 then 1 else 256 * Pow256(w - 1)
  }

  /** The values an integer type holds. */
  predicate Fits(t: VarType, n: int)
    requires IsInteger(t)
  {
    var half: int := Pow256(Width(t)) / 2;
    if IsSigned(t) then -half <= n < half else 0 <= n < Pow256(Width(t))
  }

  /** A variable: its type, and the member of its union that its type
      uses; the others stay as memset left them. */
  datatype Variable = Variable(vtype: VarType, number: int, text: String)

  /** A variable as variable_new leaves it. */
  predicate Well(v: Variable) {
    (IsInteger(v.vtype) ==> Fits(v.vtype, v.number) && v.text == "")
    && (!IsInteger(v.vtype) ==> v.number == 0)
    && (!v.vtype.VT_STRING? ==> v.text == "")
  }

  /** What the `value` pointer of variable_new points to: an integer of
      the requested type or a string. */
  datatype Pointee = Number(n: int) | Chars(s: String)

  /** The pointee a caller must supply for a type: an integer of that type
      for the integer types and a string for VT_STRING. */
  predicate Points(t: VarType, p: Pointee) {
    (IsInteger(t) ==> p.Number? && Fits(t, p.n)) && (t.VT_STRING? ==> p.Chars?)
  }

  /** variable_new: VT_NULL when the pointer is NULL, whatever the type;
      otherwise the requested type, with the integer read through the
      pointer or a copy of the string. VT_BUFFER has no case and keeps the
      zeroed union. */
  function New(t: VarType, value: Option<Pointee>): (r: Variable)
    requires value.Some? ==> Points(t, value.value)
    ensures Well(r)
    ensures value.None? ==> r.vtype == VT_NULL
    ensures value.Some? ==> r.vtype == t
    ensures value.Some? && IsInteger(t) ==> r.number == value.value.n
    ensures value.Some? && t.VT_STRING? ==> r.text == value.value.s
  {
    if value.None? then Variable(VT_NULL, 0, "")
    else if IsInteger(t) then Variable(t, value.value.n, "")
    else if t.VT_STRING? then Variable(t, 0, value.value.s)
    else Variable(t, 0, "")
  }

  /** What `&variable->u` points to, read as the variable's own type asks. */
  function Union(v: Variable): (p: Pointee)
    requires Well(v)
    ensures Points(v.vtype, p)
  {
    if v.vtype.VT_STRING? then Chars(v.text) else Number(v.number)
  }

  /** variable_new_copy as written: &variable->u is passed as the value,
      which for VT_STRING points to the union's `string` member, the
      pointer, and not to the string; string_new then copies the bytes of
      memory from there, `memory`, up to the first NUL. */
  function NewCopyAsWritten(v: Variable, memory: seq<byte>): (r: Variable)
    requires Well(v)
    ensures v.vtype.VT_STRING? ==> r == Variable(VT_STRING, 0, CharsUpTo(memory))
    ensures !v.vtype.VT_STRING? ==> r == v
  {
    if v.vtype.VT_STRING? then Variable(VT_STRING, 0, CharsUpTo(memory)) else New(v.vtype, Some(Union(v)))
  }

  /** The bytes of `memory` before its first NUL, as characters. */
  function CharsUpTo(memory: seq<byte>): (s: String)
    ensures |s| <= |memory|
    ensures forall k :: 0 <= k < |s| ==> s[k] as int == memory[k]
    decreases |memory|
  {
    if memory == [] || memory[0] == 0 then "" else [memory[0] as char] + CharsUpTo(memory[1..])
  }

  /** As written, the copy of a string variable holds the bytes of the
      pointer and not the string: "abc" stored at address 0x4010 copies as
      the two characters 0x10 and 0x40. */
  lemma {:induction false} CopyLosesString()
    ensures var v := New(VT_STRING, Some(Chars("abc")));
      NewCopyAsWritten(v, [0x10, 0x40, 0, 0, 0, 0, 0, 0]).text == [0x10 as char, 0x40 as char]
      && NewCopyAsWritten(v, [0x10, 0x40, 0, 0, 0, 0, 0, 0]) != v
  {
    var m: seq<byte> := [0x10, 0x40, 0, 0, 0, 0, 0, 0];
    assert CharsUpTo(m[1..][1..]) == "";
    assert CharsUpTo(m) == [0x10 as char] + CharsUpTo(m[1..]);
  }

  /** variable_new_copy as evidently intended: the same type and value. */
  function NewCopy(v: Variable): (r: Variable)
    requires Well(v)
    ensures r == v
  {
    New(v.vtype, Some(Union(v)))
  }

  // ---------------------------------------------------------------------
  // Serialisation (variable_serialize)

  /** The `w` bytes of `x`, least significant first. */
  function LittleEndian(x: nat, w: nat): (r: seq<byte>)
    ensures |r| == w
    decreases w
  {
    if w == 0 then [] else [x % 256] + LittleEndian(x / 256, w - 1)
  }

  /** The number `bs` encodes, least significant byte first. */
  function Unsigned(bs: seq<byte>): (r: nat)
    ensures r < Pow256(|bs|)
    decreases |bs|
  {
    if bs == [] then 0 else bs[0] + 256 * Unsigned(bs[1..])
  }

  /** Reading back the bytes of x gives x modulo 256^w. */
  lemma {:induction false} UnsignedLittleEndian(x: nat, w: nat)
    ensures Unsigned(LittleEndian(x, w)) == x % Pow256(w)
    decreases w
  {
    if w > 0 {
      UnsignedLittleEndian(x / 256, w - 1);
      var r := LittleEndian(x, w);
      assert r[1..] == LittleEndian(x / 256, w - 1);
      DivMod256(x, Pow256(w - 1));
    }
  }

  /** x mod 256p, split into its low byte and the rest. */
  lemma {:induction false} DivMod256(x: nat, p: nat)
    requires p > 0
    ensures x % (256 * p) == x % 256 + 256 * ((x / 256) % p)
  {
    var q := x / 256;
    assert x == 256 * q + x % 256;
    assert q == p * (q / p) + q % p;
    assert x == (256 * p) * (q / p) + (x % 256 + 256 * (q % p));
    assert 0 <= x % 256 + 256 * (q % p) < 256 * p by {
      assert q % p <= p - 1;
      assert 256 * (q % p) <= 256 * p - 256;
    }
    ModUnique(x, 256 * p, q / p, x % 256 + 256 * (q % p));
  }

  /** The remainder is the only one in range. */
  lemma {:induction false} ModUnique(x: int, m: int, q: int, r: int)
    requires m > 0 && x == m * q + r && 0 <= r < m
    ensures x % m == r
  {
    assert m * (q - x / m) == x % m - r;
    MulSign(m, q - x / m);
  }

  /** A non-zero multiple of m is at least m away from 0. */
  lemma {:induction false} MulSign(m: int, k: int)
    requires m > 0
    ensures k >= 1 ==> m * k >= m
    ensures k <= -1 ==> m * k <= -m
  {
    if k >= 1 {
      assert m * k == m * (k - 1) + m;
    } else if k <= -1 {
      assert m * k == m * (k + 1) - m;
    }
  }

  /** The bytes variable_serialize writes after the type byte: the integer's
      width in two's complement, or the string without its terminator. */
  function Payload(v: Variable): (r: seq<byte>)
    requires Well(v)
    ensures IsInteger(v.vtype) ==> |r| == Width(v.vtype)
    ensures v.vtype.VT_STRING? ==> |r| == |v.text|
    ensures v.vtype.VT_NULL? || v.vtype.VT_BUFFER? ==> r == []
  {
    if IsInteger(v.vtype) then LittleEndian(v.number % Pow256(Width(v.vtype)), Width(v.vtype))
    else if v.vtype.VT_STRING? then BytesOf(v.text)
    else []
  }

  /** variable_serialize into a buffer holding `d`, with the type byte when
      `flag` is non-zero: the result and the buffer's bytes. An empty
      payload with the flag fails with -1 and leaves the buffer. */
  function Serialized(v: Variable, flag: int, d: seq<byte>): (r: (int, seq<byte>))
    requires Well(v)
    ensures r.0 == 0 || r.0 == -1
    ensures r.0 == -1 <==> flag != 0 && |Payload(v)| == 0
    ensures r.0 == -1 ==> r.1 == d
    ensures r.0 == 0 && flag != 0 ==> |r.1| == 1 + |Payload(v)| && r.1[0] == Code(v.vtype) && r.1[1..] == Payload(v)
    ensures r.0 == 0 && flag == 0 ==> r.1 == Payload(v)
  {
    var p := Payload(v);
    if |p| == 0 && flag != 0 then (-1, d)
    else if flag != 0 then (0, [Code(v.vtype)] + p)
    else (0, p)
  }

  /** variable_serialize: buffer_set with the type byte and buffer_set_data
      with the payload after it, or buffer_set with the payload alone. */
  method Serialize(v: Variable, buffer: Buffers.Buffer, flag: int) returns (ret: int)
    requires Well(v) && |Payload(v)| < SIZE_MAX
    modifies buffer
    ensures (ret, buffer.data) == Serialized(v, flag, old(buffer.data))
  {
    var p := Payload(v);
    if |p| == 0 && flag != 0 {
      return -1;
    }
    if flag != 0 {
      ret := buffer.Set(1, Some([Code(v.vtype)]));
      if ret != 0 {
        return -1;
      }
      ret := buffer.SetData(1, p);
      assert buffer.data == [Code(v.vtype)] + p by {
        OverlayAfter(Code(v.vtype), p);
      }
    } else {
      ret := buffer.Set(|p|, Some(p));
    }
  }

  /** Writing after a one-byte buffer appends. */
  lemma {:induction false} OverlayAfter(b: byte, p: seq<byte>)
    ensures Buffers.Overlay([b], 1, p) == [b] + p
  {
    var r := Buffers.Overlay([b], 1, p);
    assert |r| == 1 + |p|;
    assert forall k :: 0 <= k < |r| ==> r[k] == ([b] + p)[k] by {
      forall k | 0 <= k < |r|
        ensures r[k] == ([b] + p)[k]
      {
        if k >= 1 {
          assert r[1 + (k - 1)] == p[k - 1];
        }
      }
    }
  }

  // ---------------------------------------------------------------------
  // Deserialisation

  /** variable_new_deserialize_type as written: not implemented, it gives
      NULL and leaves *size. */
  function DeserializeTypeAsWritten(t: byte, data: seq<byte>): (r: (Option<Variable>, nat))
    ensures r == (None, |data|)
  {
    (None, |data|)
  }

  /** variable_new_deserialize as written: the result and the size it
      reports, 1 on empty input and otherwise what the type's
      deserialiser leaves, plus the type byte. */
  function DeserializeAsWritten(data: seq<byte>): (r: (Option<Variable>, nat))
    ensures r.0 == None
    ensures data == [] ==> r.1 == 1
    ensures data != [] ==> r.1 == |data|
  {
    if |data| < 1 then (None, 1)
    else
      var (v, s) := DeserializeTypeAsWritten(data[0], data[1..]);
      if v.None? then (None, s + 1) else (v, |data|)
  }

  /** As written, what variable_serialize writes is never read back: an
      int8 of value -1 with its type byte gives NULL. */
  lemma {:induction false} SerializedNotRead()
    ensures var v := New(VT_INT8, Some(Number(-1)));
      Serialized(v, 1, []) == (0, [1, 255]) && DeserializeAsWritten([1, 255]).0 == None
  {
    var v := New(VT_INT8, Some(Number(-1)));
    assert Pow256(1) == 256 * Pow256(0) == 256;
    assert LittleEndian(255, 1) == [255] + LittleEndian(0, 0);
    assert Payload(v) == [255];
    assert Serialized(v, 1, []).1 == [1] + [255] == [1, 255];
  }

  /** The integer of type `t` that `bs` encodes. */
  function Decoded(t: VarType, bs: seq<byte>): (n: int)
    requires IsInteger(t) && |bs| == Width(t)
    ensures Fits(t, n)
    ensures n % Pow256(Width(t)) == Unsigned(bs)
  {
    var u := Unsigned(bs);
    var m := Pow256(Width(t));
    PowEven(Width(t));
    if IsSigned(t) && u >= m / 2 then
      ModUnique(u - m, m, -1, u);
      u - m
    else
      ModUnique(u, m, 0, u);
      u
  }

  /** 256^w is even for w > 0. */
  lemma {:induction false} PowEven(w: nat)
    requires w > 0
    ensures Pow256(w) == 2 * (Pow256(w) / 2)
  {
    var p := Pow256(w - 1);
    assert Pow256(w) == 2 * (128 * p);
  }

  /** Only characters that stand for single bytes. */
  predicate ByteChars(s: String) {
    forall k :: 0 <= k < |s| ==> s[k] as int < 256
  }

  /** The string whose characters are the bytes, if none is NUL. */
  function CharsOf(bs: seq<byte>): (r: Option<String>)
    ensures r.Some? <==> 0 !in bs
    ensures r.Some? ==> ByteChars(r.value) && BytesOf(r.value) == bs
  {
    if 0 in bs then None
    else
      var s: seq<char> := seq(|bs|, k requires 0 <= k < |bs| => bs[k] as char);
      assert forall k :: 0 <= k < |s| ==> s[k] != '\0';
      Some(s)
  }

  /** variable_new_deserialize_type as evidently intended, after the type
      byte: the variable and the bytes it takes, or NULL and the bytes it
      needs. Integers take their width; a string, which is written without
      its terminator or its length, takes the rest of the data. */
  function DeserializeType(c: byte, data: seq<byte>): (r: (Option<Variable>, nat))
    ensures r.0.Some? ==> Well(r.0.value) && r.1 <= |data| && Code(r.0.value.vtype) == c
    ensures r.0.None? && TypeOf(c).Some? && IsInteger(TypeOf(c).value) ==> |data| < r.1 == Width(TypeOf(c).value)
  {
    match TypeOf(c)
    case None => (None, |data|)
    case Some(t) =>
      if t.VT_NULL? then (Some(Variable(VT_NULL, 0, "")), 0)
      else if IsInteger(t) then
        if |data| < Width(t) then (None, Width(t)) else (Some(Variable(t, Decoded(t, data[..Width(t)]), "")), Width(t))
      else if t.VT_STRING? then
        var s := CharsOf(data);
        if s.None? then (None, |data|) else (Some(Variable(VT_STRING, 0, s.value)), |data|)
      else (None, |data|)
  }

  /** variable_new_deserialize on the evidently intended deserialiser: 1
      byte needed on empty input, the type byte counted otherwise. */
  function Deserialize(data: seq<byte>): (r: (Option<Variable>, nat))
    ensures data == [] ==> r == (None, 1)
  {
    if |data| < 1 then (None, 1)
    else
      var (v, s) := DeserializeType(data[0], data[1..]);
      (v, s + 1)
  }

  /** Reading back what variable_serialize writes with the type byte gives
      the variable and consumes every byte, for every type but VT_BUFFER
      (and strings of single-byte characters). */
  lemma {:induction false} DeserializeSerialized(v: Variable)
    requires Well(v) && !v.vtype.VT_BUFFER? && ByteChars(v.text)
    ensures Deserialize([Code(v.vtype)] + Payload(v)) == (Some(v), 1 + |Payload(v)|)
  {
    var data := [Code(v.vtype)] + Payload(v);
    assert data[0] == Code(v.vtype) && data[1..] == Payload(v);
    CodeReadsBack(v.vtype);
    if IsInteger(v.vtype) {
      IntegerReadsBack(v);
    } else if v.vtype.VT_STRING? {
      BytesOfChars(v.text);
    }
  }

  /** The payload of an integer variable decodes as its value. */
  lemma {:induction false} IntegerReadsBack(v: Variable)
    requires Well(v) && IsInteger(v.vtype)
    ensures Payload(v)[..Width(v.vtype)] == Payload(v)
    ensures Decoded(v.vtype, Payload(v)) == v.number
  {
    var w := Width(v.vtype);
    var m := Pow256(w);
    var x := v.number % m;
    var bs := LittleEndian(x, w);
    UnsignedLittleEndian(x, w);
    ModUnique(x, m, 0, x);
    assert Payload(v) == bs;
    DecodedUnique(v.vtype, v.number, Decoded(v.vtype, bs));
  }

  /** Two values of a type with the same residue are equal. */
  lemma {:induction false} DecodedUnique(t: VarType, a: int, b: int)
    requires IsInteger(t) && Fits(t, a) && Fits(t, b) && a % Pow256(Width(t)) == b % Pow256(Width(t))
    ensures a == b
  {
    var m := Pow256(Width(t));
    assert m % 2 == 0 by {
      assert Pow256(Width(t)) == 256 * Pow256(Width(t) - 1);
    }
    var d := a - b;
    assert d % m == 0 by {
      ModDiff(a, b, m);
    }
    assert -m < d < m;
    ZeroMultiple(d, m);
  }

  /** Equal residues differ by a multiple. */
  lemma {:induction false} ModDiff(a: int, b: int, m: int)
    requires m > 0 && a % m == b % m
    ensures (a - b) % m == 0
  {
    assert a == m * (a / m) + a % m;
    assert b == m * (b / m) + b % m;
    assert a - b == m * (a / m - b / m);
    ModUnique(a - b, m, a / m - b / m, 0);
  }

  /** The only multiple of m strictly between -m and m is 0. */
  lemma {:induction false} ZeroMultiple(d: int, m: int)
    requires m > 0 && d % m == 0 && -m < d < m
    ensures d == 0
  {
    assert d == m * (d / m);
    MulSign(m, d / m);
  }

  /** The bytes of a string of single-byte characters read back as it. */
  lemma {:induction false} BytesOfChars(s: String)
    requires ByteChars(s)
    ensures CharsOf(BytesOf(s)) == Some(s)
  {
    var bs := BytesOf(s);
    assert 0 !in bs by {
      forall k | 0 <= k < |bs|
        ensures bs[k] != 0
      {
        assert s[k] != '\0';
      }
    }
    var r := CharsOf(bs).value;
    assert forall k :: 0 <= k < |s| ==> r[k] == s[k] by {
      forall k | 0 <= k < |s|
        ensures r[k] == s[k]
      {
        assert r[k] as int == bs[k] == s[k] as int;
      }
    }
    assert |r| == |s|;
    assert r == s;
  }
}
