/** The string parser (src/parser.c): a scanner over an in-memory copy of a
    string that tracks the line and column of each character, a chain of
    filters run on each character with a lookahead counter they can raise,
    and a list of callbacks tried in order to recognise a token.

    Filters and callbacks are C functions with a data pointer; here each
    is an identity (`fn`) with its data (`data`), and what it does is a
    parameter of the operations that run it: `run(fn, data, c)` gives a
    filter's result and the character it leaves, `answer(fn, data, c)` a
    callback's result. */
module Parsers {
  import opened Common
  import Tokens

  const NEWLINE: int := 10

  /** A byte of the string as the scanner delivers it: String is C's
      (signed) char, so bytes from 128 on come out negative, 255 as EOF. */
  function CharOf(b: byte): (c: int)
    ensures -128 <= c < 128
    ensures c == EOF <==> b == 255
    ensures b < 128 ==> c == b
  {
    if b < 128 then b else b - 256
  }

  /** Where the scanner stands: string_pos, line, col and last. */
  datatype Cursor = Cursor(pos: nat, line: uint32, col: uint32, last: int)

  /** A fresh parser's cursor: line 1, column 1, nothing read (EOF). */
  const Start := Cursor(0, 1, 1, EOF)

  /** The position of the character after `last`: the start of the next
      line after a newline, the next column after another character, and
      the same place as long as nothing was read (EOF). */
  function Advanced(s: Cursor): (r: Cursor)
    ensures r.pos == s.pos && r.last == s.last
    ensures s.last == NEWLINE ==> r.line == Inc32(s.line) && r.col == 1
    ensures s.last != NEWLINE && s.last != EOF ==> r.line == s.line && r.col == Inc32(s.col)
    ensures s.last == EOF ==> r == s
  {
    if s.last == NEWLINE then s.(line := Inc32(s.line), col := 1)
    else if s.last != EOF then s.(col := Inc32(s.col))
    else s
  }

  // ---------------------------------------------------------------------
  // The string scanner (_parser_scanner_string)

  /** _parser_scanner_string as written, for a call whose read stays
      inside the string: the next byte, or EOF at the end, and string_pos
      moves on in both cases. */
  function ReadAsWritten(text: seq<byte>, s: Cursor): (r: (Cursor, int))
    requires s.pos <= |text|
    ensures r.0.pos == s.pos + 1 && r.0.last == r.1
    ensures s.pos < |text| ==> r.1 == CharOf(text[s.pos])
    ensures s.pos == |text| ==> r.1 == EOF
    ensures r.0.line == Advanced(s).line && r.0.col == Advanced(s).col
  {
    var c := if s.pos == |text| then EOF else CharOf(text[s.pos]);
    (Advanced(s).(pos := s.pos + 1, last := c), c)
  }

  /** _parser_scanner_string as written on any cursor: a call made when
      string_pos is past the end reads outside the string (None). */
  function ScanAsWritten(text: seq<byte>, s: Cursor): (r: Option<(Cursor, int)>)
    ensures r.None? <==> s.pos > |text|
    ensures s.pos <= |text| ==> r == Some(ReadAsWritten(text, s))
  {
    if s.pos > |text| then None else Some(ReadAsWritten(text, s))
  }

  /** The first read at the end of a string gives EOF, and the next one
      reads past the end: on the empty string, the second call already. */
  lemma {:induction false} ScanPastEnd(text: seq<byte>)
    ensures var first := ScanAsWritten(text, Cursor(|text|, 1, 1, EOF));
      first.Some? && first.value.1 == EOF && ScanAsWritten(text, first.value.0).None?
    ensures var first := ScanAsWritten([], Start);
      first.Some? && ScanAsWritten([], first.value.0).None?
  {
  }

  /** _parser_scanner_string as evidently intended: the next byte, and EOF
      at the end of the string on this and every later call. */
  function Scan(text: seq<byte>, s: Cursor): (r: (Cursor, int))
    requires s.pos <= |text|
    ensures r.0.pos <= |text| && r.0.last == r.1
    ensures s.pos < |text| ==> r.1 == CharOf(text[s.pos]) && r.0.pos == s.pos + 1
    ensures s.pos == |text| ==> r.1 == EOF && r.0.pos == |text|
    ensures r.0.line == Advanced(s).line && r.0.col == Advanced(s).col
  {
    var c := if s.pos == |text| then EOF else CharOf(text[s.pos]);
    (Advanced(s).(pos := if s.pos == |text| then s.pos else s.pos + 1, last := c), c)
  }

  /** Inside the string the two scanners agree; at its end both give EOF. */
  lemma {:induction false} ScanAgrees(text: seq<byte>, s: Cursor)
    requires s.pos <= |text|
    ensures s.pos < |text| ==> ScanAsWritten(text, s) == Some(Scan(text, s))
    ensures ScanAsWritten(text, s).Some? && ScanAsWritten(text, s).value.1 == Scan(text, s).1
  {
  }

  /** `n` scans as written from the cursor `s`, as many as stay inside
      the string (the last of them the one that gives EOF): the cursor
      they leave and the characters they give, in order. */
  function Scans(text: seq<byte>, s: Cursor, n: nat): (r: (Cursor, seq<int>))
    requires s.pos + n <= |text| + 1
    ensures r.0.pos == s.pos + n && |r.1| == n
    decreases n
  {
    if n == 0 then (s, [])
    else
      var (u, cs) := Scans(text, s, n - 1);
      var (v, c) := ReadAsWritten(text, u);
      (v, cs + [c])
  }

  /** The scanner as written gives the bytes of the string in order, NULs
      included, and then EOF once; string_pos is then past the end, so the
      next call would read outside the string. */
  lemma {:induction false} ScansInOrder(text: seq<byte>, n: nat)
    requires n <= |text| + 1
    ensures var (u, cs) := Scans(text, Start, n);
      u.pos == n
      && (forall k :: 0 <= k < n ==> cs[k] == if k < |text| then CharOf(text[k]) else EOF)
      && (n == |text| + 1 ==> ScanAsWritten(text, u).None?)
    decreases n
  {
    if n > 0 {
      ScansInOrder(text, n - 1);
      var (u, cs) := Scans(text, Start, n - 1);
      assert Scans(text, Start, n).1 == cs + [ReadAsWritten(text, u).1];
    }
  }

  /** The line of the character that follows `bs`: one more than the
      number of newlines in it. */
  function LineAfter(bs: seq<byte>): nat
    decreases |bs|
  {
    if bs == [] then 1 else LineAfter(bs[..|bs| - 1]) + (if bs[|bs| - 1] == NEWLINE then 1 else 0)
  }

  /** The column of the character that follows `bs`: one more than the
      number of characters after its last newline. */
  function ColAfter(bs: seq<byte>): nat
    decreases |bs|
  {
    if bs == [] then 1 else if bs[|bs| - 1] == NEWLINE then 1 else ColAfter(bs[..|bs| - 1]) + 1
  }

  /** Neither count exceeds one more than the length. */
  lemma {:induction false} AfterBounds(bs: seq<byte>)
    ensures LineAfter(bs) <= |bs| + 1 && ColAfter(bs) <= |bs| + 1
    decreases |bs|
  {
    if bs != [] {
      AfterBounds(bs[..|bs| - 1]);
    }
  }

  /** After the scan that gives character `n`, the cursor holds its line
      and column, as long as no byte before it is 255 (which reads as EOF
      and does not advance the column) and the counts do not wrap. */
  lemma {:induction false} ScansTrackPosition(text: seq<byte>, n: nat)
    requires n < |text| < 0xFFFF_FFFF
    requires forall k :: 0 <= k < n ==> text[k] != 255
    ensures var u := Scans(text, Start, n + 1).0;
      u.line == LineAfter(text[..n]) && u.col == ColAfter(text[..n]) && u.last == CharOf(text[n])
    decreases n
  {
    ScansInOrder(text, n + 1);
    if n == 0 {
      assert text[..0] == [];
    } else {
      ScansTrackPosition(text, n - 1);
      AfterBounds(text[..n - 1]);
      assert text[..n][..n - 1] == text[..n - 1];
    }
  }

  // ---------------------------------------------------------------------
  // Filters (parser_scan_filter)

  /** A registered filter or callback: its function and its data. */
  datatype Registered = Registered(fn: nat, data: nat)

  /** The chain of filters from the character `c` and the lookahead
      `lookahead`: whether every filter gave a non-negative result, the
      character the chain leaves, and the lookahead with each result added
      (modulo 2^32, as an unsigned int) up to the first negative one. */
  function Chain(filters: seq<Registered>, run: (nat, nat, int) -> (int, int), c: int, lookahead: uint32)
    : (r: (bool, int, uint32))
    ensures filters == [] ==> r == (true, c, lookahead)
    decreases |filters|
  {
    if filters == [] then (true, c, lookahead)
    else
      var (l, d) := run(filters[0].fn, filters[0].data, c);
      if l < 0 then (false, d, lookahead)
      else Chain(filters[1..], run, d, (lookahead + l) % 0x1_0000_0000)
  }

  /** The state of a parser that scanning changes. */
  datatype State = State(cursor: Cursor, lookahead: uint32, error: bool)

  /** parser_scan_filter: with a lookahead pending, the last character
      again and one less lookahead; otherwise the next character of the
      string. Then the filters, in order, each adding its result to the
      lookahead; a negative one sets the error and gives EOF. */
  function Filtered(text: seq<byte>, s: State, filters: seq<Registered>, run: (nat, nat, int) -> (int, int))
    : (r: (State, int))
    requires Readable(text, s)
    ensures r.0.cursor.pos <= |text| + 1
    ensures r.0.error == (s.error || !Chain(filters, run, Delivered(text, s).1, Delivered(text, s).2).0)
    ensures r.0.error && !s.error ==> r.1 == EOF
    ensures !r.0.error || s.error ==> r.0.cursor.last == r.1 || r.1 == EOF
  {
    var (cursor, c, lookahead) := Delivered(text, s);
    var (ok, d, l) := Chain(filters, run, c, lookahead);
    if !ok then (State(cursor, l, true), EOF)
    else (State(cursor.(last := d), l, s.error), d)
  }

  /** The next parser_scan_filter reads inside the string: string_pos is
      at most one past its end, and a call that scans finds it at most at
      the end. */
  predicate Readable(text: seq<byte>, s: State) {
    s.cursor.pos <= |text| + 1 && (s.lookahead > 0 || s.cursor.pos <= |text|)
  }

  /** The character parser_scan_filter hands to the filters, with the
      cursor and lookahead it leaves. */
  function Delivered(text: seq<byte>, s: State): (r: (Cursor, int, uint32))
    requires Readable(text, s)
    ensures r.0.pos <= |text| + 1
    ensures s.lookahead == 0 ==> r.0.pos == s.cursor.pos + 1
  {
    if s.lookahead > 0 then (s.cursor, s.cursor.last, s.lookahead - 1)
    else
      var (u, c) := ReadAsWritten(text, s.cursor);
      (u, c, 0)
  }

  /** With a lookahead pending nothing is scanned: the position stays and
      the last character is delivered again, one lookahead used up. */
  lemma {:induction false} LookaheadRedelivers(text: seq<byte>, s: State, filters: seq<Registered>,
                                               run: (nat, nat, int) -> (int, int))
    requires s.cursor.pos <= |text| + 1 && s.lookahead > 0
    ensures var r := Filtered(text, s, filters, run);
      r.0.cursor.pos == s.cursor.pos && r.0.cursor.line == s.cursor.line && r.0.cursor.col == s.cursor.col
    ensures filters == [] ==> Filtered(text, s, filters, run) == (s.(lookahead := s.lookahead - 1), s.cursor.last)
  {
  }

  /** Without filters and lookahead, parser_scan_filter is the scanner. */
  lemma {:induction false} NoFilterScans(text: seq<byte>, s: State, run: (nat, nat, int) -> (int, int))
    requires s.cursor.pos <= |text| && s.lookahead == 0
    ensures Filtered(text, s, [], run) == (s.(cursor := ReadAsWritten(text, s.cursor).0), ReadAsWritten(text, s.cursor).1)
  {
  }

  /** A filter with a non-negative result adds it to the lookahead. */
  lemma {:induction false} FilterAddsLookahead(f: Registered, run: (nat, nat, int) -> (int, int), c: int, lookahead: uint32)
    requires run(f.fn, f.data, c).0 >= 0
    ensures Chain([f], run, c, lookahead)
      == (true, run(f.fn, f.data, c).1, (lookahead + run(f.fn, f.data, c).0) % 0x1_0000_0000)
  {
    assert [f][1..] == [];
  }

  /** A filter with a negative result stops the chain with a failure. */
  lemma {:induction false} FilterFails(filters: seq<Registered>, run: (nat, nat, int) -> (int, int), c: int,
                                       lookahead: uint32)
    requires filters != [] && run(filters[0].fn, filters[0].data, c).0 < 0
    ensures !Chain(filters, run, c, lookahead).0
  {
  }

  // ---------------------------------------------------------------------
  // Callbacks (parser_get_token)

  /** The loop of parser_get_token over the callbacks, from the result
      `ret`: the callbacks are tried in order until one gives a result of
      at most 0; the result is that one's, or the last one's when none does
      (`ret` when there is none), with the index where it stopped. */
  function Tried(cbs: seq<Registered>, answer: (nat, nat, int) -> int, c: int, ret: int): (r: (int, nat))
    ensures r.1 <= |cbs|
    ensures forall k :: 0 <= k < r.1 ==> answer(cbs[k].fn, cbs[k].data, c) > 0
    ensures r.1 < |cbs| ==> r.0 == answer(cbs[r.1].fn, cbs[r.1].data, c) && r.0 <= 0
    ensures r.1 == |cbs| ==> r.0 == if cbs == [] then ret else answer(cbs[|cbs| - 1].fn, cbs[|cbs| - 1].data, c)
    decreases |cbs|
  {
    if cbs == [] then (ret, 0)
    else
      var a := answer(cbs[0].fn, cbs[0].data, c);
      if a <= 0 then (a, 0)
      else
        var (r, i) := Tried(cbs[1..], answer, c, a);
        assert forall k :: 1 <= k <= i ==> cbs[k] == cbs[1..][k - 1];
        (r, i + 1)
  }

  /** The loop over the callbacks of parser_get_token. */
  method Ask(cbs: seq<Registered>, answer: (nat, nat, int) -> int, c: int) returns (ret: int, i: nat)
    ensures (ret, i) == Tried(cbs, answer, c, 0)
  {
    ret, i := 0, 0;
    while i < |cbs|
      invariant i <= |cbs|
      invariant Tried(cbs, answer, c, 0).0 == Tried(cbs[i..], answer, c, ret).0
      invariant Tried(cbs, answer, c, 0).1 == i + Tried(cbs[i..], answer, c, ret).1
    {
      TriedStep(cbs, i, answer, c, ret);
      ret := answer(cbs[i].fn, cbs[i].data, c);
      if ret <= 0 {
        return;
      }
      i := i + 1;
    }
    assert cbs[i..] == [];
  }

  /** Tried from callback i: it stops there on a result of at most 0, and
      otherwise goes on from i + 1 with that result. */
  lemma {:induction false} TriedStep(cbs: seq<Registered>, i: nat, answer: (nat, nat, int) -> int, c: int, ret: int)
    requires i < |cbs|
    ensures var a := answer(cbs[i].fn, cbs[i].data, c);
      var t := Tried(cbs[i..], answer, c, ret);
      (a <= 0 ==> t == (a, 0))
      && (a > 0 ==> t == (Tried(cbs[i + 1..], answer, c, a).0, Tried(cbs[i + 1..], answer, c, a).1 + 1))
  {
    assert cbs[i..][1..] == cbs[i + 1..] && cbs[i..][0] == cbs[i];
  }

  /** parser_get_token from the state `s`: its result, whether the token
      is kept, and the state left. When nothing was read yet, or at EOF,
      it first scans, and fails if that gives EOF with the error set. Then
      a callback with result 0 keeps the token and gives 0; otherwise the
      token is dropped and the result is 0 only at EOF and when no callback
      gave a negative result. */
  function Got(text: seq<byte>, s: State, filters: seq<Registered>, cbs: seq<Registered>,
               run: (nat, nat, int) -> (int, int), answer: (nat, nat, int) -> int): (r: (int, bool, State))
    requires s.cursor.pos <= |text| + 1 && (s.cursor.last != EOF || Readable(text, s))
    ensures r.0 == 0 || r.0 == -1
    ensures r.1 ==> r.0 == 0
    ensures r.2.cursor.pos <= |text| + 1
    ensures s.cursor.last != EOF ==> r.2 == s
  {
    var (u, failed) :=
      if s.cursor.last == EOF then
        var (v, c) := Filtered(text, s, filters, run);
        (v, c == EOF && v.error)
      else (s, false);
    if failed then (-1, false, u)
    else
      var (ret, i) := Tried(cbs, answer, u.cursor.last, 0);
      if ret == 0 && i != |cbs| then (0, true, u)
      else (if ret >= 0 && u.cursor.last == EOF then 0 else -1, false, u)
  }

  /** The token is kept exactly when the first callback with a result of at
      most 0 gives 0; when it is dropped, the result is 0 exactly at EOF
      with no callback giving a negative result. */
  lemma {:induction false} GotMeaning(text: seq<byte>, s: State, filters: seq<Registered>, cbs: seq<Registered>,
                                      run: (nat, nat, int) -> (int, int), answer: (nat, nat, int) -> int)
    requires s.cursor.pos <= |text| + 1 && s.cursor.last != EOF
    ensures var (ret, kept, _) := Got(text, s, filters, cbs, run, answer);
      var c := s.cursor.last;
      (kept <==> exists i :: 0 <= i < |cbs| && answer(cbs[i].fn, cbs[i].data, c) == 0
                   && forall k :: 0 <= k < i ==> answer(cbs[k].fn, cbs[k].data, c) > 0)
      && (!kept ==> ret == -1)
  {
    var c := s.cursor.last;
    var (r, i) := Tried(cbs, answer, c, 0);
    if exists j :: 0 <= j < |cbs| && answer(cbs[j].fn, cbs[j].data, c) == 0
                   && forall k :: 0 <= k < j ==> answer(cbs[k].fn, cbs[k].data, c) > 0 {
      var j :| 0 <= j < |cbs| && answer(cbs[j].fn, cbs[j].data, c) == 0
               && forall k :: 0 <= k < j ==> answer(cbs[k].fn, cbs[k].data, c) > 0;
      assert i == j;
    }
  }

  /** parser_get_token at the end of the string, with last EOF and no
      filter: it scans the EOF, and a first callback that accepts it keeps
      a token and gives 0. string_pos is then past the end with last still
      EOF, so the next parser_get_token scans again and reads outside the
      string. */
  lemma {:induction false} TokenPastEnd(text: seq<byte>, s: State, cbs: seq<Registered>,
                                        run: (nat, nat, int) -> (int, int), answer: (nat, nat, int) -> int)
    requires s.cursor.pos == |text| && s.cursor.last == EOF && s.lookahead == 0
    ensures var r := Got(text, s, [], cbs, run, answer);
      r.2.cursor.pos == |text| + 1 && r.2.cursor.last == EOF && r.2.lookahead == 0
      && !Readable(text, r.2) && ScanAsWritten(text, r.2.cursor).None?
    ensures !s.error && cbs != [] && answer(cbs[0].fn, cbs[0].data, EOF) == 0 ==>
      Got(text, s, [], cbs, run, answer).0 == 0 && Got(text, s, [], cbs, run, answer).1
  {
  }

  // ---------------------------------------------------------------------
  // Removing a filter or a callback

  /** The first entry registered with the function `fn`, or |entries|. */
  function FirstOf(entries: seq<Registered>, fn: nat): (i: nat)
    ensures i <= |entries|
    ensures forall k :: 0 <= k < i ==> entries[k].fn != fn
    ensures i < |entries| ==> entries[i].fn == fn
    decreases |entries|
  {
    if entries == [] then 0
    else if entries[0].fn == fn then 0
    else
      var i := FirstOf(entries[1..], fn);
      assert forall k :: 1 <= k <= i ==> entries[k] == entries[1..][k - 1];
      i + 1
  }

  /** parser_remove_callback and parser_remove_filter as written: the
      result and the number of entries left. The test is inverted: a
      registered function gives 1 and stays, an absent one gives 0 and the
      count drops by one, wrapping around (size_t) when it was 0. */
  function RemovedAsWritten(entries: seq<Registered>, fn: nat): (r: (int, nat))
    ensures r.0 == 1 <==> exists k :: 0 <= k < |entries| && entries[k].fn == fn
    ensures r.0 == 1 ==> r.1 == |entries|
    ensures r.0 == 0 && 0 < |entries| <= SIZE_MAX ==> r.1 == |entries| - 1
    ensures r.0 == 0 && entries == [] ==> r.1 == SIZE_MAX
  {
    var i := FirstOf(entries, fn);
    if i != |entries| then (1, |entries|)
    else (0, (|entries| - 1) % (SIZE_MAX + 1))
  }

  /** As written, removing a registered filter leaves it in place and
      reports a failure; removing an absent one from a list of one drops
      the entry there; from an empty list the count becomes SIZE_MAX. */
  lemma {:induction false} RemoveInverted(f: Registered, g: Registered)
    requires f.fn != g.fn
    ensures RemovedAsWritten([f], f.fn) == (1, 1)
    ensures RemovedAsWritten([f], g.fn) == (0, 0)
    ensures RemovedAsWritten([], g.fn) == (0, SIZE_MAX)
  {
    assert FirstOf([f], g.fn) == 1 by {
      assert FirstOf([f][1..], g.fn) == 0;
    }
  }

  /** parser_remove_callback and parser_remove_filter as written, on the
      list itself: a registered function gives 1 and the list stays; an
      absent one gives 0, and the memmove of no entry followed by the
      decrement drops the last entry. On an empty list the C count wraps
      to SIZE_MAX (RemovedAsWritten); the list here stays empty. */
  function RemovedListAsWritten(entries: seq<Registered>, fn: nat): (r: (int, seq<Registered>))
    ensures r.0 == RemovedAsWritten(entries, fn).0
    ensures 0 < |entries| <= SIZE_MAX ==> |r.1| == RemovedAsWritten(entries, fn).1
    ensures r.0 == 1 <==> exists k :: 0 <= k < |entries| && entries[k].fn == fn
    ensures r.0 == 1 ==> r.1 == entries
    ensures r.0 == 0 ==> r.1 == entries[..Max(|entries| - 1, 0)]
  {
    var i := FirstOf(entries, fn);
    if i != |entries| then (1, entries)
    else if entries == [] then (0, [])
    else (0, entries[..|entries| - 1])
  }

  /** The result as written is always the opposite of the intended one, and
      the lists agree only when the function is registered nowhere in an
      empty list. */
  lemma {:induction false} RemovedListInverted(entries: seq<Registered>, fn: nat)
    ensures RemovedListAsWritten(entries, fn).0 == 1 - Removed(entries, fn).0
    ensures RemovedListAsWritten(entries, fn).1 == Removed(entries, fn).1 <==> entries == []
  {
    var i := FirstOf(entries, fn);
    if i < |entries| {
      assert |Removed(entries, fn).1| == |entries| - 1;
    } else if entries != [] {
      assert |RemovedListAsWritten(entries, fn).1| == |entries| - 1;
    }
  }

  /** The removal as evidently intended: the first entry registered with
      `fn` is removed and the result is 0; without one, the result is 1 and
      nothing changes. */
  function Removed(entries: seq<Registered>, fn: nat): (r: (int, seq<Registered>))
    ensures r.0 == 1 <==> forall k :: 0 <= k < |entries| ==> entries[k].fn != fn
    ensures r.0 == 1 ==> r.1 == entries
    ensures r.0 == 0 ==> |r.1| == |entries| - 1
  {
    var i := FirstOf(entries, fn);
    if i == |entries| then (1, entries) else (0, entries[..i] + entries[i + 1..])
  }

  /** The removal takes out exactly one entry of `fn`, the first, and keeps
      the others in order; it fails exactly when `fn` is not registered. */
  lemma {:induction false} RemovedMeaning(entries: seq<Registered>, fn: nat)
    ensures var (ret, rest) := Removed(entries, fn);
      (ret == 1 <==> forall k :: 0 <= k < |entries| ==> entries[k].fn != fn)
      && (ret == 1 ==> rest == entries)
      && (ret == 0 ==>
            exists i :: 0 <= i < |entries| && entries[i].fn == fn
              && (forall k :: 0 <= k < i ==> entries[k].fn != fn)
              && rest == entries[..i] + entries[i + 1..])
  {
    var i := FirstOf(entries, fn);
    if i < |entries| {
      assert Removed(entries, fn) == (0, entries[..i] + entries[i + 1..]);
      assert entries[i].fn == fn && forall k :: 0 <= k < i ==> entries[k].fn != fn;
    } else {
      assert Removed(entries, fn) == (1, entries);
    }
  }

  // ---------------------------------------------------------------------
  // The parser object

  class Parser {
    /** The parser's own copy of the string. */
    const text: seq<byte>
    var pos: nat
    var line: uint32
    var col: uint32
    var last: int
    var lookahead: uint32
    var error: bool
    var filters: seq<Registered>
    var callbacks: seq<Registered>

    /** string_pos is at most one past the end: the scan that gives EOF
        at the end still moves it on. */
    ghost predicate Valid()
      reads this
    {
      pos <= |text| + 1
    }

    /** The state scanning changes. */
    function Now(): State
      reads this
    {
      State(Cursor(pos, line, col, last), lookahead, error)
    }

    /** parser_new_string (with _new_do): a copy of exactly the first
        `length` bytes of `str`, line 1, column 1, last EOF, no
        lookahead, no error, no filter and no callback. */
    constructor FromString(str: seq<byte>, length: nat)
      requires length <= |str|
      ensures Valid() && text == str[..length]
      ensures Now() == State(Start, 0, false) && filters == [] && callbacks == []
    {
      text := str[..length];
      pos, line, col, last := 0, 1, 1, EOF;
      lookahead, error := 0, false;
      filters, callbacks := [], [];
    }

    /** The string scanner on the parser's fields, as written. It reads
        inside the string only while string_pos is at most at its end. */
    method ScanString() returns (c: int)
      requires Valid() && pos <= |text|
      modifies this
      ensures Valid()
      ensures (Cursor(pos, line, col, last), c) == ReadAsWritten(text, old(Cursor(pos, line, col, last)))
      ensures lookahead == old(lookahead) && error == old(error)
      ensures filters == old(filters) && callbacks == old(callbacks)
    {
      if last == NEWLINE {
        line := Inc32(line);
        col := 1;
      } else if last != EOF {
        col := Inc32(col);
      }
      if pos == |text| {
        c := EOF;
      } else {
        c := CharOf(text[pos]);
      }
      pos := pos + 1;
      last := c;
    }

    /** parser_scan: the scanner alone, without lookahead or filters. */
    method ScanPlain() returns (c: int)
      requires Valid() && pos <= |text|
      modifies this
      ensures Valid()
      ensures (Cursor(pos, line, col, last), c) == ReadAsWritten(text, old(Cursor(pos, line, col, last)))
      ensures lookahead == old(lookahead) && error == old(error)
      ensures filters == old(filters) && callbacks == old(callbacks)
    {
      c := ScanString();
    }

    /** parser_scan_filter. */
    method ScanFilter(run: (nat, nat, int) -> (int, int)) returns (c: int)
      requires Valid() && (lookahead > 0 || pos <= |text|)
      modifies this
      ensures Valid() && filters == old(filters) && callbacks == old(callbacks)
      ensures (Now(), c) == Filtered(text, old(Now()), filters, run)
    {
      ghost var s := Now();
      c := last;
      if lookahead > 0 {
        lookahead := lookahead - 1;
      } else {
        c := ScanString();
      }
      assert (Cursor(pos, line, col, last), c, lookahead) == Delivered(text, s);
      var i := 0;
      while i < |filters|
        invariant i <= |filters| && Valid()
        invariant Chain(filters, run, Delivered(text, s).1, Delivered(text, s).2) == Chain(filters[i..], run, c, lookahead)
        invariant Cursor(pos, line, col, last) == Delivered(text, s).0 && error == s.error
        invariant filters == old(filters) && callbacks == old(callbacks)
      {
        var l, d := run(filters[i].fn, filters[i].data, c).0, run(filters[i].fn, filters[i].data, c).1;
        assert filters[i..][1..] == filters[i + 1..];
        if l < 0 {
          error := true;
          return EOF;
        }
        lookahead := (lookahead + l) % 0x1_0000_0000;
        c := d;
        i := i + 1;
      }
      last := c;
    }

    /** parser_get_token: a new token at the current line and column, kept
        and returned when a callback recognises it. */
    method GetToken(run: (nat, nat, int) -> (int, int), answer: (nat, nat, int) -> int)
      returns (ret: int, token: Tokens.Token?)
      requires Valid() && (last != EOF || lookahead > 0 || pos <= |text|)
      modifies this
      ensures Valid() && filters == old(filters) && callbacks == old(callbacks)
      ensures (ret, token != null, Now()) == Got(text, old(Now()), filters, callbacks, run, answer)
      ensures token != null ==> fresh(token)
      ensures token != null ==> token.line == old(line) && token.col == old(col) && token.code == 0 && token.str == None
    {
      ghost var s := Now();
      token := new Tokens.Token(line, col);
      if last == EOF {
        var c := ScanFilter(run);
        if c == EOF && error {
          return -1, null;
        }
      }
      var r, i := Try(answer);
      if r == 0 && i != |callbacks| {
        return 0, token;
      }
      ret := if r >= 0 && last == EOF then 0 else -1;
      token := null;
    }

    /** The callback loop of parser_get_token. */
    method Try(answer: (nat, nat, int) -> int) returns (ret: int, i: nat)
      ensures (ret, i) == Tried(callbacks, answer, last, 0)
    {
      ret, i := Ask(callbacks, answer, last);
    }


    /** parser_add_callback: appended after the others. */
    method AddCallback(fn: nat, data: nat) returns (ret: int)
      modifies this
      ensures ret == 0 && callbacks == old(callbacks) + [Registered(fn, data)]
      ensures Now() == old(Now()) && filters == old(filters)
    {
      callbacks := callbacks + [Registered(fn, data)];
      return 0;
    }

    /** parser_add_filter: appended after the others. */
    method AddFilter(fn: nat, data: nat) returns (ret: int)
      modifies this
      ensures ret == 0 && filters == old(filters) + [Registered(fn, data)]
      ensures Now() == old(Now()) && callbacks == old(callbacks)
    {
      filters := filters + [Registered(fn, data)];
      return 0;
    }

    /** parser_remove_callback as written. */
    method RemoveCallback(fn: nat) returns (ret: int)
      modifies this
      ensures (ret, callbacks) == RemovedListAsWritten(old(callbacks), fn)
      ensures Now() == old(Now()) && filters == old(filters)
    {
      var i := Find(callbacks, fn);
      if i != |callbacks| {
        return 1;
      }
      if |callbacks| > 0 {
        callbacks := callbacks[..|callbacks| - 1];
      }
      return 0;
    }

    /** parser_remove_filter as written. */
    method RemoveFilter(fn: nat) returns (ret: int)
      modifies this
      ensures (ret, filters) == RemovedListAsWritten(old(filters), fn)
      ensures Now() == old(Now()) && callbacks == old(callbacks)
    {
      var i := Find(filters, fn);
      if i != |filters| {
        return 1;
      }
      if |filters| > 0 {
        filters := filters[..|filters| - 1];
      }
      return 0;
    }
  }

  /** The search loop of the removals. */
  method Find(entries: seq<Registered>, fn: nat) returns (i: nat)
    ensures i == FirstOf(entries, fn)
  {
    i := 0;
    while i < |entries| && entries[i].fn != fn
      invariant i <= |entries|
      invariant FirstOf(entries, fn) == i + FirstOf(entries[i..], fn)
    {
      assert entries[i..][1..] == entries[i + 1..];
      i := i + 1;
    }
  }
}
