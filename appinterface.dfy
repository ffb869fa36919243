/** Application interfaces (src/appinterface.c): the call tables of the
    "Session" and "Hello" interfaces, and the marshalling of a call into a
    bounded buffer: the call's name, then each argument's bytes. The
    arguments are given as the bytes of their values. Allocation is taken
    to succeed. */
module AppInterfaces {
  import opened Common
  import Strings

  /** AppInterfaceCallType. */
  datatype CallType = AICT_VOID | AICT_BOOL | AICT_INT8 | AICT_UINT8 | AICT_INT16 | AICT_UINT16
                    | AICT_INT32 | AICT_UINT32 | AICT_INT64 | AICT_UINT64 | AICT_STRING | AICT_BUFFER

  /** The bytes an argument of a type takes in a message; 0 for the types
      appinterface_call cannot send. */
  function ArgWidth(t: CallType): (w: nat)
    ensures w == 0 || w == 1 || w == 2 || w == 4 || w == 8
    ensures w == 0 <==> t.AICT_VOID? || t.AICT_BOOL? || t.AICT_STRING? || t.AICT_BUFFER?
  {
    match t
    case AICT_INT8 => 1 case AICT_UINT8 => 1
    case AICT_INT16 => 2 case AICT_UINT16 => 2
    case AICT_INT32 => 4 case AICT_UINT32 => 4
    case AICT_INT64 => 8 case AICT_UINT64 => 8
    case _ => 0
  }

  /** AppInterfaceCall: a name, a return type and the argument types. */
  datatype Call = Call(name: String, rtype: CallType, args: seq<CallType>)

  /** The calls of the "Session" interface, in the order _new_session
      registers them. */
  const SessionCalls: seq<Call> := [Call("port", AICT_UINT16, [AICT_STRING]), Call("list", AICT_VOID, []),
                                    Call("start", AICT_BOOL, [AICT_STRING]), Call("stop", AICT_BOOL, [AICT_STRING])]

  /** The calls of the "Hello" interface. */
  const HelloCalls: seq<Call> := [Call("hello", AICT_VOID, [])]

  /** The names appinterface_new knows, in the order it tries them. */
  const Interfaces: seq<String> := ["Session", "Hello"]

  /** The first call named `name`, or |calls|. */
  function Named(calls: seq<Call>, name: String): (i: nat)
    ensures i <= |calls|
    ensures forall k :: 0 <= k < i ==> calls[k].name != name
    ensures i < |calls| ==> calls[i].name == name
    decreases |calls|
  {
    if calls == [] then 0
    else if calls[0].name == name then 0
    else
      var i := Named(calls[1..], name);
      assert forall k :: 1 <= k <= i ==> calls[k] == calls[1..][k - 1];
      i + 1
  }

  // ---------------------------------------------------------------------
  // Building the call tables

  /** _new_append as written: a name already registered gives 1 and
      changes nothing; otherwise the call is appended, and the result is 0
      only when its index happens to equal its number of arguments. */
  function AppendedAsWritten(calls: seq<Call>, c: Call): (r: (int, seq<Call>))
    ensures Named(calls, c.name) < |calls| ==> r == (1, calls)
    ensures Named(calls, c.name) == |calls| ==> r.1 == calls + [c] && (r.0 == 0 <==> |calls| == |c.args|)
  {
    if Named(calls, c.name) < |calls| then (1, calls)
    else (if |calls| == |c.args| then 0 else 1, calls + [c])
  }

  /** _new_append as evidently intended: the same table, and 0 whenever the
      call is appended. */
  function Appended(calls: seq<Call>, c: Call): (r: (int, seq<Call>))
    ensures r.0 == 0 || r.0 == 1
    ensures r.0 == 1 <==> exists k :: 0 <= k < |calls| && calls[k].name == c.name
    ensures r.0 == 1 ==> r.1 == calls
    ensures r.0 == 0 ==> r.1 == calls + [c]
  {
    if Named(calls, c.name) < |calls| then (1, calls) else (0, calls + [c])
  }

  /** The calls `defs` registered in order from an empty table, with the sum
      of the results (`ret +=` in _new_session). */
  function BuiltAsWritten(defs: seq<Call>): (r: (int, seq<Call>))
    decreases |defs|
  {
    if defs == [] then (0, [])
    else
      var (ret, calls) := BuiltAsWritten(defs[..|defs| - 1]);
      var (more, calls') := AppendedAsWritten(calls, defs[|defs| - 1]);
      (ret + more, calls')
  }

  /** The sum counts the registrations that report a failure: it lies
      between 0 and the number of calls, and the table holds at most one
      entry per call. */
  lemma {:induction false} BuiltAsWrittenCount(defs: seq<Call>)
    ensures 0 <= BuiltAsWritten(defs).0 <= |defs| && |BuiltAsWritten(defs).1| <= |defs|
    decreases |defs|
  {
    if defs != [] {
      BuiltAsWrittenCount(defs[..|defs| - 1]);
    }
  }

  function Built(defs: seq<Call>): (r: (int, seq<Call>))
    decreases |defs|
  {
    if defs == [] then (0, [])
    else
      var (ret, calls) := Built(defs[..|defs| - 1]);
      var (more, calls') := Appended(calls, defs[|defs| - 1]);
      (ret + more, calls')
  }

  /** No two calls share a name. */
  predicate Distinct(defs: seq<Call>) {
    forall i, j :: 0 <= i < j < |defs| ==> defs[i].name != defs[j].name
  }

  /** Calls with distinct names all register, in order. */
  lemma {:induction false} BuiltDistinct(defs: seq<Call>)
    requires Distinct(defs)
    ensures Built(defs) == (0, defs)
    decreases |defs|
  {
    if defs != [] {
      var front := defs[..|defs| - 1];
      BuiltDistinct(front);
      assert forall k :: 0 <= k < |front| ==> front[k].name != defs[|defs| - 1].name;
      assert front + [defs[|defs| - 1]] == defs;
    }
  }

  /** appinterface_new as written: the table of a known interface, unless
      building it failed; NULL for any other name. */
  function NewAsWritten(app: String): (r: Option<seq<Call>>)
    ensures app != "Session" && app != "Hello" ==> r.None?
  {
    if app == "Session" then
      var (ret, calls) := BuiltAsWritten(SessionCalls);
      if ret != 0 then None else Some(calls)
    else if app == "Hello" then
      var (ret, calls) := BuiltAsWritten(HelloCalls);
      if ret != 0 then None else Some(calls)
    else None
  }

  /** As written, "Session" cannot be built: no call of it has the index
      of its number of arguments ("port" is call 0 with one argument), so
      each of its four registrations reports a failure. "Hello" (call 0,
      no argument) builds. */
  lemma {:induction false} SessionFailsAsWritten()
    ensures BuiltAsWritten(SessionCalls).0 == 4
    ensures NewAsWritten("Session") == None
    ensures NewAsWritten("Hello") == Some(HelloCalls)
  {
    SessionCountAsWritten();
    HelloBuildsAsWritten();
  }

  /** Each of the four registrations of "Session" reports 1. */
  lemma {:induction false} SessionCountAsWritten()
    ensures BuiltAsWritten(SessionCalls) == (4, SessionCalls)
  {
    var d := SessionCalls;
    SessionDistinct();
    SessionHalfAsWritten();
    BuiltAsWrittenStep(d, 2);
    assert BuiltAsWritten(d[..3]) == (3, d[..3]);
    BuiltAsWrittenStep(d, 3);
    assert d[..4] == d;
  }

  /** The first two registrations of "Session" each report 1. */
  lemma {:induction false} SessionHalfAsWritten()
    ensures BuiltAsWritten(SessionCalls[..2]) == (2, SessionCalls[..2])
  {
    var d := SessionCalls;
    SessionDistinct();
    assert d[..0] == [];
    BuiltAsWrittenStep(d, 0);
    assert BuiltAsWritten(d[..1]) == (1, d[..1]);
    BuiltAsWrittenStep(d, 1);
  }

  /** The one registration of "Hello" reports 0. */
  lemma {:induction false} HelloBuildsAsWritten()
    ensures BuiltAsWritten(HelloCalls) == (0, HelloCalls)
  {
    assert HelloCalls[..0] == [] && HelloCalls[..1] == HelloCalls;
    BuiltAsWrittenStep(HelloCalls, 0);
  }


  /** Registering the next of distinct calls as written appends it, with 1
      exactly when its index differs from its number of arguments. */
  lemma {:induction false} BuiltAsWrittenStep(defs: seq<Call>, k: nat)
    requires Distinct(defs) && k < |defs| && BuiltAsWritten(defs[..k]).1 == defs[..k]
    ensures BuiltAsWritten(defs[..k + 1])
      == (BuiltAsWritten(defs[..k]).0 + (if k == |defs[k].args| then 0 else 1), defs[..k + 1])
  {
    assert defs[..k + 1][..k] == defs[..k] && defs[..k + 1][k] == defs[k];
    assert defs[..k] + [defs[k]] == defs[..k + 1];
    assert forall j :: 0 <= j < k ==> defs[..k][j].name != defs[k].name;
  }

  /** The calls of "Session" have distinct names. */
  lemma {:induction false} SessionDistinct()
    ensures Distinct(SessionCalls)
  {
    var d := SessionCalls;
    assert d[0].name[0] == 'p' && d[1].name[0] == 'l' && d[2].name[0] == 's' && d[3].name[0] == 's';
    assert d[2].name[2] == 'a' && d[3].name[2] == 'o';
  }

  /** appinterface_new as evidently intended. */
  function New(app: String): (r: Option<seq<Call>>)
    ensures r.Some? <==> app == "Session" || app == "Hello"
  {
    if app == "Session" then Some(Built(SessionCalls).1)
    else if app == "Hello" then Some(Built(HelloCalls).1)
    else None
  }

  /** Exactly the two known names give an interface, with all its calls. */
  lemma {:induction false} NewKnown(app: String)
    ensures New(app).Some? <==> app in Interfaces
    ensures app == "Session" ==> New(app) == Some(SessionCalls)
    ensures app == "Hello" ==> New(app) == Some(HelloCalls)
  {
    SessionDistinct();
    BuiltDistinct(SessionCalls);
    BuiltDistinct(HelloCalls);
    assert app in Interfaces <==> app == "Session" || app == "Hello";
  }

  // ---------------------------------------------------------------------
  // Marshalling a call (appinterface_call, _send_string, _send_buffer)

  /** `w` written over `d` from `pos` on. */
  function Spliced(d: seq<byte>, pos: nat, w: seq<byte>): (r: seq<byte>)
    requires pos + |w| <= |d|
    ensures |r| == |d|
    ensures forall k :: 0 <= k < |w| ==> r[pos + k] == w[k]
    ensures forall k :: 0 <= k < |d| && !(pos <= k < pos + |w|) ==> r[k] == d[k]
  {
    d[..pos] + w + d[pos + |w|..]
  }

  /** The arguments a caller must pass: the bytes of a value of each
      type that appinterface_call sends. */
  predicate Supplied(types: seq<CallType>, args: seq<seq<byte>>) {
    |args| >= |types| && forall k :: 0 <= k < |types| && ArgWidth(types[k]) > 0 ==> |args[k]| == ArgWidth(types[k])
  }

  /** The argument loop of appinterface_call with `room` bytes left:
      whether every argument was sent, and the bytes written. It stops at
      the first type it cannot send and at the first argument that does
      not fit. */
  function Sent(types: seq<CallType>, args: seq<seq<byte>>, room: int): (r: (bool, seq<byte>))
    requires Supplied(types, args)
    ensures |r.1| <= Max(room, 0)
    decreases |types|
  {
    if types == [] then (true, [])
    else if ArgWidth(types[0]) == 0 || ArgWidth(types[0]) > room then (false, [])
    else
      assert Supplied(types[1..], args[1..]) by {
        assert forall k :: 0 <= k < |types| - 1 ==> types[1..][k] == types[k + 1] && args[1..][k] == args[k + 1];
      }
      var (ok, w) := Sent(types[1..], args[1..], room - ArgWidth(types[0]));
      (ok, args[0] + w)
  }

  /** Every type can be sent. */
  predicate Sendable(types: seq<CallType>) {
    forall k :: 0 <= k < |types| ==> ArgWidth(types[k]) > 0
  }

  /** The bytes the arguments of `types` take. */
  function Total(types: seq<CallType>): nat
    decreases |types|
  {
    if types == [] then 0 else ArgWidth(types[0]) + Total(types[1..])
  }

  /** The arguments' bytes, one after the other. */
  function Concat(args: seq<seq<byte>>): seq<byte>
    decreases |args|
  {
    if args == [] then [] else args[0] + Concat(args[1..])
  }

  /** All arguments are sent exactly when every type can be sent and their
      bytes fit in the room; then the bytes written are the arguments' bytes
      in their declared order. */
  lemma {:induction false} SentMeaning(types: seq<CallType>, args: seq<seq<byte>>, room: int)
    requires Supplied(types, args) && room >= 0
    ensures Sent(types, args, room).0 <==> Sendable(types) && Total(types) <= room
    ensures Sent(types, args, room).0 ==> Sent(types, args, room).1 == Concat(args[..|types|])
    decreases |types|
  {
    if types == [] {
      assert args[..0] == [];
    } else if ArgWidth(types[0]) > 0 && ArgWidth(types[0]) <= room {
      assert Supplied(types[1..], args[1..]) by {
        assert forall k :: 0 <= k < |types| - 1 ==> types[1..][k] == types[k + 1] && args[1..][k] == args[k + 1];
      }
      SentMeaning(types[1..], args[1..], room - ArgWidth(types[0]));
      assert Sendable(types) <==> Sendable(types[1..]) by {
        assert forall k :: 1 <= k < |types| ==> types[k] == types[1..][k - 1];
      }
      assert args[..|types|][1..] == args[1..][..|types| - 1];
    }
  }

  /** appinterface_call into a buffer of `buflen` bytes: the result and the
      bytes written from the start of the buffer. An unknown call gives -1
      and writes nothing; a name longer than the buffer is written as far as
      it fits and gives -1; then the arguments are sent in order. */
  function Called(calls: seq<Call>, call: String, args: seq<seq<byte>>, buflen: int): (r: (int, seq<byte>))
    requires Named(calls, call) < |calls| ==> call != "" && Supplied(calls[Named(calls, call)].args, args)
    ensures r.0 == 0 || r.0 == -1
    ensures |r.1| <= Max(buflen, 0)
  {
    var i := Named(calls, call);
    if i == |calls| then (-1, [])
    else
      var name := BytesOf(call);
      if buflen < |name| then (-1, name[..Max(buflen, 0)])
      else
        var (ok, w) := Sent(calls[i].args, args, buflen - |name|);
        (if ok then 0 else -1, name + w)
  }

  /** The call succeeds exactly when it is registered, its argument types
      can all be sent and the message fits; the message is then the name's
      characters, without terminator, followed by every argument's bytes in
      declared order. */
  lemma {:induction false} CalledMeaning(calls: seq<Call>, call: String, args: seq<seq<byte>>, buflen: int)
    requires Named(calls, call) < |calls| ==> call != "" && Supplied(calls[Named(calls, call)].args, args)
    ensures var i := Named(calls, call);
      Called(calls, call, args, buflen).0 == 0 <==>
        i < |calls| && Sendable(calls[i].args) && |call| + Total(calls[i].args) <= buflen
    ensures var i := Named(calls, call);
      Called(calls, call, args, buflen).0 == 0 ==>
        Called(calls, call, args, buflen).1 == BytesOf(call) + Concat(args[..|calls[i].args|])
    ensures (forall k :: 0 <= k < |calls| ==> calls[k].name != call) ==> Called(calls, call, args, buflen) == (-1, [])
  {
    var i := Named(calls, call);
    if i < |calls| && |call| <= buflen {
      SentMeaning(calls[i].args, args, buflen - |call|);
    }
  }

  /** No call has an empty name. */
  predicate Named1(calls: seq<Call>) {
    forall k :: 0 <= k < |calls| ==> calls[k].name != ""
  }

  class AppInterface {
    var calls: seq<Call>

    ghost predicate Valid()
      reads this
    {
      Named1(calls)
    }

    /** An AppInterface with no call yet. */
    constructor ()
      ensures Valid() && calls == []
    {
      calls := [];
    }

    /** _new_append as written: the result compares the new call's index
        with its number of arguments. */
    method Append(rtype: CallType, name: String, args: seq<CallType>) returns (ret: int)
      requires Valid() && name != ""
      modifies this
      ensures Valid()
      ensures (ret, calls) == AppendedAsWritten(old(calls), Call(name, rtype, args))
    {
      var i := 0;
      while i < |calls|
        invariant i <= |calls|
        invariant forall k :: 0 <= k < i ==> calls[k].name != name
      {
        if Strings.Compare(calls[i].name, name) == 0 {
          return 1;
        }
        i := i + 1;
      }
      ret := if i == |args| then 0 else 1;
      calls := calls + [Call(name, rtype, args)];
    }

    /** _new_session: the four calls of "Session", with the sum of their
        results, which as written is 4 (SessionCountAsWritten). */
    method NewSession() returns (ret: int)
      requires Valid() && calls == []
      modifies this
      ensures Valid() && ret == 4 && calls == SessionCalls
    {
      var r1 := Append(AICT_UINT16, "port", [AICT_STRING]);
      var r2 := Append(AICT_VOID, "list", []);
      var r3 := Append(AICT_BOOL, "start", [AICT_STRING]);
      var r4 := Append(AICT_BOOL, "stop", [AICT_STRING]);
      ret := r1 + r2 + r3 + r4;
    }

    /** _new_hello: the call of "Hello". */
    method NewHello() returns (ret: int)
      requires Valid() && calls == []
      modifies this
      ensures Valid() && ret == 0 && calls == HelloCalls
    {
      ret := Append(AICT_VOID, "hello", []);
    }

    /** appinterface_call. */
    method CallInto(call: String, buf: array<byte>, buflen: int, args: seq<seq<byte>>) returns (ret: int)
      requires Valid() && buflen <= buf.Length
      requires Named(calls, call) < |calls| ==> Supplied(calls[Named(calls, call)].args, args)
      modifies buf
      ensures var (r, w) := Called(calls, call, args, buflen);
        ret == r && |w| <= buf.Length && buf[..] == Spliced(old(buf[..]), 0, w)
    {
      var i := 0;
      while i < |calls| && Strings.Compare(calls[i].name, call) != 0
        invariant i <= |calls|
        invariant forall k :: 0 <= k < i ==> calls[k].name != call
      {
        i := i + 1;
      }
      if i == |calls| {
        assert buf[..] == Spliced(old(buf[..]), 0, []);
        return -1;
      }
      var pos := 0;
      var r;
      r, pos := SendString(call, buf, buflen, pos);
      if r != 0 {
        return -1;
      }
      ghost var named := buf[..];
      var ok;
      ok, pos := SendArguments(calls[i].args, args, buf, buflen, pos);
      SplicedTwice(old(buf[..]), named, BytesOf(call), Sent(calls[i].args, args, buflen - |call|).1);
      ret := if ok then 0 else -1;
    }
  }

  /** The argument loop of appinterface_call, from `pos`. */
  method SendArguments(types: seq<CallType>, args: seq<seq<byte>>, buf: array<byte>, buflen: int, pos: nat)
    returns (ok: bool, pos': nat)
    requires Supplied(types, args) && pos <= buflen <= buf.Length
    modifies buf
    ensures ok == Sent(types, args, buflen - pos).0
    ensures pos' == pos + |Sent(types, args, buflen - pos).1| <= buflen
    ensures buf[..] == Spliced(old(buf[..]), pos, Sent(types, args, buflen - pos).1)
  {
    ghost var acc: seq<byte> := [];
    assert types[0..] == types && args[0..] == args;
    assert buf[..] == Spliced(old(buf[..]), pos, []);
    assert acc + Sent(types, args, buflen - pos).1 == Sent(types, args, buflen - pos).1;
    pos' := pos;
    var j := 0;
    while j < |types|
      invariant j <= |types| && pos' == pos + |acc| <= buflen
      invariant Supplied(types[j..], args[j..])
      invariant Sent(types, args, buflen - pos) ==
        (Sent(types[j..], args[j..], buflen - pos').0, acc + Sent(types[j..], args[j..], buflen - pos').1)
      invariant buf[..] == Spliced(old(buf[..]), pos, acc)
    {
      assert types[j..][1..] == types[j + 1..] && args[j..][1..] == args[j + 1..];
      if ArgWidth(types[j]) == 0 {
        assert acc + [] == acc;
        return false, pos';
      }
      ghost var before := pos';
      var r;
      r, pos' := SendBuffer(args[j], buf, buflen, pos');
      if r != 0 {
        assert acc + [] == acc;
        return false, pos';
      }
      ghost var rest := Sent(types[j + 1..], args[j + 1..], buflen - pos');
      assert Sent(types[j..], args[j..], buflen - before) == (rest.0, args[j] + rest.1);
      assert acc + (args[j] + rest.1) == (acc + args[j]) + rest.1;
      SplicedAppend(old(buf[..]), pos, acc, args[j]);
      acc := acc + args[j];
      j := j + 1;
    }
    assert Sent(types[j..], args[j..], buflen - pos') == (true, []);
    assert acc + [] == acc;
    ok := true;
  }

  /** A run spliced right after another extends it. */
  lemma {:induction false} SplicedAppend(d: seq<byte>, pos: nat, a: seq<byte>, b: seq<byte>)
    requires pos + |a| + |b| <= |d|
    ensures Spliced(Spliced(d, pos, a), pos + |a|, b) == Spliced(d, pos, a + b)
  {
  }

  /** The name and then the arguments, as one run from the start. */
  lemma {:induction false} SplicedTwice(d: seq<byte>, named: seq<byte>, a: seq<byte>, b: seq<byte>)
    requires |a| + |b| <= |d| && named == Spliced(d, 0, a)
    ensures Spliced(named, |a|, b) == Spliced(d, 0, a + b)
  {
    SplicedAppend(d, 0, a, b);
  }

  /** _send_string: the name's characters from `pos`, as far as the buffer
      goes; it fails when the buffer fills before the name is complete. */
  method SendString(s: String, buf: array<byte>, buflen: int, pos: nat)
    returns (ret: int, pos': nat)
    requires s != "" && buflen <= buf.Length && pos <= buf.Length
    modifies buf
    ensures ret == 0 || ret == 1
    ensures ret == 0 <==> pos + |s| <= buflen
    ensures pos' == pos + Fitting(|s|, buflen, pos) <= buf.Length
    ensures buf[..] == Spliced(old(buf[..]), pos, BytesOf(s)[..Fitting(|s|, buflen, pos)])
  {
    var bs := BytesOf(s);
    var i := 0;
    pos' := pos;
    while pos' < buflen
      invariant pos' == pos + i && i < |bs|
      invariant i > 0 ==> pos' <= buflen
      invariant buf[..] == Spliced(old(buf[..]), pos, bs[..i])
    {
      SplicedSnoc(buf[..], old(buf[..]), pos, bs, i);
      buf[pos'] := bs[i];
      i := i + 1;
      pos' := pos' + 1;
      if i == |bs| {
        assert bs[..i] == bs;
        return 0, pos';
      }
    }
    ret := 1;
  }

  /** The characters of a name of `len` characters that fit from `pos`
      before `buflen`. */
  function Fitting(len: nat, buflen: int, pos: nat): (n: nat)
    ensures n <= len
  {
    Min(len, Max(buflen - pos, 0))
  }

  /** Writing one more byte after a spliced run extends the run. */
  lemma {:induction false} SplicedSnoc(cur: seq<byte>, d: seq<byte>, pos: nat, w: seq<byte>, i: nat)
    requires i < |w| && pos + i < |d| && cur == Spliced(d, pos, w[..i])
    ensures cur[pos + i := w[i]] == Spliced(d, pos, w[..i + 1])
  {
    assert w[..i + 1] == w[..i] + [w[i]];
  }

  /** _send_buffer: the argument's bytes at `pos` when they fit before
      `buflen`; otherwise 1 and nothing written. */
  method SendBuffer(data: seq<byte>, buf: array<byte>, buflen: int, pos: nat) returns (ret: int, pos': nat)
    requires buflen <= buf.Length
    modifies buf
    ensures pos + |data| > buflen ==> ret == 1 && pos' == pos && buf[..] == old(buf[..])
    ensures pos + |data| <= buflen ==> ret == 0 && pos' == pos + |data| && buf[..] == Spliced(old(buf[..]), pos, data)
  {
    if pos + |data| > buflen {
      return 1, pos;
    }
    forall k | 0 <= k < |data| {
      buf[pos + k] := data[k];
    }
    assert buf[..] == Spliced(old(buf[..]), pos, data);
    return 0, pos + |data|;
  }

  /** appinterface_new as written: the interface named `app`, or null for
      a name it does not know and for one whose table fails to build, which
      leaves only "Hello". */
  method NewInterface(app: String) returns (ai: AppInterface?)
    ensures ai == null <==> NewAsWritten(app).None?
    ensures ai == null <==> app != "Hello"
    ensures ai != null ==> fresh(ai) && ai.Valid() && ai.calls == NewAsWritten(app).value == HelloCalls
  {
    SessionFailsAsWritten();
    var i := 0;
    while i < |Interfaces| && Strings.Compare(app, Interfaces[i]) != 0
      invariant i <= |Interfaces|
      invariant forall k :: 0 <= k < i ==> Interfaces[k] != app
    {
      i := i + 1;
    }
    if i == |Interfaces| {
      assert app != Interfaces[0] && app != Interfaces[1];
      return null;
    }
    ai := new AppInterface();
    var r;
    if i == 0 {
      r := ai.NewSession();
    } else {
      r := ai.NewHello();
    }
    if r != 0 {
      return null;
    }
  }
}
