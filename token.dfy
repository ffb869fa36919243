/** The token record (src/token.c): a code, an optional string and the
    line and column it was read at, updated in place by its setters. */
module Tokens {
  import opened Common

  /** TC_NULL: the code that ends a token set. */
  const TC_NULL: uint32 := 0

  /** The unsigned TokenCode as the int token_get_code returns: codes from
      2^31 on come back negative. */
  function AsInt(code: uint32): (r: int)
    ensures -0x8000_0000 <= r < 0x8000_0000
    ensures r % 0x1_0000_0000 == code
  {
    if code < 0x8000_0000 then code else code - 0x1_0000_0000
  }

  /** The int given to token_set_code as the unsigned TokenCode it is
      stored as. */
  function AsCode(value: int): (code: uint32)
    ensures (code - value) % 0x1_0000_0000 == 0
    ensures 0 <= value <= UINT32_MAX ==> code == value
  {
    value % 0x1_0000_0000
  }

  /** Every int code is read back as it was set. */
  lemma {:induction false} CodeReadsBack(value: int)
    requires -0x8000_0000 <= value < 0x8000_0000
    ensures AsInt(AsCode(value)) == value
  {
    if value < 0 {
      assert AsCode(value) == value + 0x1_0000_0000;
    }
  }

  class Token {
    var code: uint32
    var str: Option<String>
    var line: uint32
    var col: uint32

    /** token_new: code 0, no string, and the given position. */
    constructor (line: uint32, col: uint32)
      ensures code == 0 && str == None && this.line == line && this.col == col
    {
      code := 0;
      str := None;
      this.line := line;
      this.col := col;
    }

    /** token_get_code. */
    function GetCode(): (r: int)
      reads this
      ensures -0x8000_0000 <= r < 0x8000_0000
      ensures AsCode(r) == code
    {
      AsInt(code)
    }

    /** token_set_code: the code reads back as set; nothing else changes. */
    method SetCode(value: int)
      modifies this
      ensures code == AsCode(value) && str == old(str) && line == old(line) && col == old(col)
      ensures -0x8000_0000 <= value < 0x8000_0000 ==> GetCode() == value
    {
      code := AsCode(value);
      if -0x8000_0000 <= value < 0x8000_0000 {
        CodeReadsBack(value);
      }
    }

    /** token_set_col. */
    method SetCol(col: uint32)
      modifies this
      ensures this.col == col && code == old(code) && str == old(str) && line == old(line)
    {
      this.col := col;
    }

    /** token_set_line. */
    method SetLine(line: uint32)
      modifies this
      ensures this.line == line && code == old(code) && str == old(str) && col == old(col)
    {
      this.line := line;
    }

    /** token_set_string: the previous string is released and replaced by
      a copy of `s`; when strdup fails (`outOfMemory`) the token is left
      without a string and the result is 1. */
    method SetString(s: String, outOfMemory: bool) returns (ret: int)
      modifies this
      ensures outOfMemory ==> ret == 1 && str == None
      ensures !outOfMemory ==> ret == 0 && str == Some(s)
      ensures code == old(code) && line == old(line) && col == old(col)
    {
      if outOfMemory {
        str := None;
        return 1;
      }
      str := Some(s);
      return 0;
    }

    /** token_in_set: 1 exactly when the code occurs in the set `codes`
      before its TC_NULL terminator, so that TC_NULL is never in a set. */
    method InSet(codes: array<uint32>) returns (r: int)
      requires exists k :: 0 <= k < codes.Length && codes[k] == TC_NULL
      ensures r == 0 || r == 1
      ensures r == 1 <==> Member(code, codes[..])
    {
      ghost var t :| 0 <= t < codes.Length && codes[t] == TC_NULL;
      var i := 0;
      while codes[i] != TC_NULL
        invariant 0 <= i <= t
        invariant forall j :: 0 <= j < i ==> codes[j] != TC_NULL && codes[j] != code
        decreases t - i
      {
        if codes[i] == code {
          assert Before(codes[..], i);
          return 1;
        }
        i := i + 1;
      }
      NotMember(code, codes[..], i);
      return 0;
    }
  }

  /** No TC_NULL comes before position `k` of `codes`. */
  ghost predicate Before(codes: seq<uint32>, k: nat) {
    k < |codes| && forall j :: 0 <= j < k ==> codes[j] != TC_NULL
  }

  /** `code` is one of the codes of a TC_NULL-terminated set. */
  ghost predicate Member(code: uint32, codes: seq<uint32>) {
    code != TC_NULL && exists k: nat :: Before(codes, k) && codes[k] == code
  }

  /** A code not met before the terminator at `t` is not in the set. */
  lemma {:induction false} NotMember(code: uint32, codes: seq<uint32>, t: nat)
    requires t < |codes| && codes[t] == TC_NULL
    requires forall j :: 0 <= j < t ==> codes[j] != TC_NULL && codes[j] != code
    ensures !Member(code, codes)
  {
    if code != TC_NULL {
      forall k: nat | Before(codes, k)
        ensures codes[k] != code
      {
        assert k <= t;
      }
    }
  }
}
