/** The event loop's bookkeeping (src/event.c): the lists of file
    descriptors watched for reading and writing with their fd sets and the
    largest of them, the nested loop counter, and the list of timeouts with
    the wait until the soonest. select() and gettimeofday() are inputs: the
    current time and the ready descriptors. A callback is a function and
    its data; what it does is an outcome given as a parameter: its result,
    and whether it calls event_loop_quit. Times are (sec, usec) pairs that
    are compared field by field and added without normalising usec, as the
    code does; time_t overflow is not modelled. */
module Events {
  import opened Common

  datatype TimeVal = TimeVal(sec: int, usec: int)

  /** The "no timeout" sentinel: LONG_MAX seconds and microseconds. */
  const Never := TimeVal(LONG_MAX, LONG_MAX)

  const MILLION: int := 1000000

  /** `a` comes strictly before `b`, seconds first. */
  predicate Earlier(a: TimeVal, b: TimeVal) {
    a.sec < b.sec || (a.sec == b.sec && a.usec < b.usec)
  }

  /** The field-wise sum, as the code adds an interval to a time. */
  function Plus(a: TimeVal, b: TimeVal): TimeVal {
    TimeVal(a.sec + b.sec, a.usec + b.usec)
  }

  /** A time in microseconds. */
  function Micros(t: TimeVal): int {
    t.sec * MILLION + t.usec
  }

  /** The wait from `now` until `t` as _loop_timeout computes it: when the
      microseconds borrow a second, it takes now.usec - t.usec instead of
      one second less that difference. */
  function RemainingAsWritten(t: TimeVal, now: TimeVal): (r: TimeVal)
    ensures t.usec >= now.usec ==> Micros(r) == Micros(t) - Micros(now)
  {
    if t.usec >= now.usec then TimeVal(t.sec - now.sec, t.usec - now.usec)
    else TimeVal(t.sec - now.sec - 1, now.usec - t.usec)
  }

  /** As written, from 5.9 s to 10.1 s the wait comes out as 4.8 s and not
      4.2 s. */
  lemma {:induction false} RemainingBorrowWrong()
    ensures RemainingAsWritten(TimeVal(10, 100000), TimeVal(5, 900000)) == TimeVal(4, 800000)
    ensures Micros(TimeVal(10, 100000)) - Micros(TimeVal(5, 900000)) == 4200000
    ensures Remaining(TimeVal(10, 100000), TimeVal(5, 900000)) == TimeVal(4, 200000)
  {
  }

  /** The wait from `now` until `t` as evidently intended: the exact
      difference, with microseconds in range when both times have them. */
  function Remaining(t: TimeVal, now: TimeVal): (r: TimeVal)
    ensures Micros(r) == Micros(t) - Micros(now)
    ensures 0 <= t.usec < MILLION && 0 <= now.usec < MILLION ==> 0 <= r.usec < MILLION
    ensures t.usec >= now.usec ==> r == RemainingAsWritten(t, now)
  {
    if t.usec >= now.usec then TimeVal(t.sec - now.sec, t.usec - now.usec)
    else TimeVal(t.sec - now.sec - 1, MILLION + t.usec - now.usec)
  }

  /** An fd watched for reading or writing (EventIO). */
  datatype EventIO = EventIO(fd: int, fn: nat, data: nat)

  /** A timeout (EventTimeout): its interval, its next expiry, its callback. */
  datatype EventTimeout = EventTimeout(initial: TimeVal, timeout: TimeVal, fn: nat, data: nat)

  /** What a callback does: its result and whether it calls
      event_loop_quit. */
  datatype Outcome = Outcome(ret: int, quit: bool)

  /** The fields of an Event. */
  datatype State = State(loop: nat, fdmax: int, rfds: set<int>, wfds: set<int>,
                         readIO: seq<EventIO>, writeIO: seq<EventIO>,
                         timeouts: seq<EventTimeout>, timeout: TimeVal)

  /** A new Event: no loop running, no fd (fdmax -1), no timeout. */
  const Initial := State(0, -1, {}, {}, [], [], [], Never)

  /** event_loop_quit: one level less, never below 0. */
  function Quit(loop: nat): (r: nat)
    ensures loop > 0 ==> r == loop - 1
    ensures loop == 0 ==> r == 0
  {
    if loop > 0 then loop - 1 else 0
  }

  // ---------------------------------------------------------------------
  // The fd lists

  /** The fds of a list. */
  function FdsOf(list: seq<EventIO>): set<int> {
    set e | e in list :: e.fd
  }

  /** The largest fd of a list, -1 for none (the fdmax _unregister_io
      computes over the entries it keeps). */
  function MaxFd(list: seq<EventIO>): (m: int)
    ensures forall k :: 0 <= k < |list| ==> list[k].fd <= m
    ensures m >= -1
    decreases |list|
  {
    if list == [] then -1 else
      var m := MaxFd(list[..|list| - 1]);
      assert forall k :: 0 <= k < |list| - 1 ==> list[k] == list[..|list| - 1][k];
      Max(m, list[|list| - 1].fd)
  }

  /** The entries whose fd is not `fd`, in order. */
  function Kept(list: seq<EventIO>, fd: int): (r: seq<EventIO>)
    ensures |r| <= |list|
    decreases |list|
  {
    if list == [] then [] else (if list[0].fd == fd then [] else [list[0]]) + Kept(list[1..], fd)
  }

  /** The entries kept are those of the list for other fds. */
  lemma {:induction false} KeptMembers(list: seq<EventIO>, fd: int)
    ensures forall e :: e in Kept(list, fd) <==> e in list && e.fd != fd
    decreases |list|
  {
    if list != [] {
      KeptMembers(list[1..], fd);
      assert list == [list[0]] + list[1..];
    }
  }

  /** An entry for `fd` makes the list shorter. */
  lemma {:induction false} KeptShorter(list: seq<EventIO>, fd: int, i: nat)
    requires i < |list| && list[i].fd == fd
    ensures |Kept(list, fd)| < |list|
    decreases |list|
  {
    if i > 0 {
      KeptShorter(list[1..], fd, i - 1);
    }
  }

  /** Without an entry for `fd`, nothing is removed. */
  lemma {:induction false} KeptNone(list: seq<EventIO>, fd: int)
    requires forall k :: 0 <= k < |list| ==> list[k].fd != fd
    ensures Kept(list, fd) == list
    decreases |list|
  {
    if list != [] {
      KeptNone(list[1..], fd);
    }
  }

  /** Registered fds are not negative, the fd sets are those of the lists,
      and fdmax is the largest registered fd, or -1. */
  ghost predicate Consistent(s: State) {
    (forall e | e in s.readIO :: e.fd >= 0)
    && (forall e | e in s.writeIO :: e.fd >= 0)
    && s.rfds == FdsOf(s.readIO) && s.wfds == FdsOf(s.writeIO)
    && s.fdmax == Max(MaxFd(s.readIO), MaxFd(s.writeIO))
  }

  /** A new Event is consistent. */
  lemma {:induction false} InitialConsistent()
    ensures Consistent(Initial)
  {
  }

  /** event_register_io_read or _write: the entry appended to its list, the
      fd added to its set, fdmax raised to at least fd. */
  function Watched(s: State, reading: bool, e: EventIO): (r: State)
    ensures r.fdmax == Max(s.fdmax, e.fd) && r.fdmax >= e.fd
    ensures r.loop == s.loop && r.timeouts == s.timeouts && r.timeout == s.timeout
    ensures reading ==> r.readIO == s.readIO + [e] && r.rfds == s.rfds + {e.fd} && r.writeIO == s.writeIO && r.wfds == s.wfds
    ensures !reading ==> r.writeIO == s.writeIO + [e] && r.wfds == s.wfds + {e.fd} && r.readIO == s.readIO && r.rfds == s.rfds
  {
    if reading then s.(fdmax := Max(s.fdmax, e.fd), readIO := s.readIO + [e], rfds := s.rfds + {e.fd})
    else s.(fdmax := Max(s.fdmax, e.fd), writeIO := s.writeIO + [e], wfds := s.wfds + {e.fd})
  }

  /** Registering keeps the Event consistent. */
  lemma {:induction false} WatchedConsistent(s: State, reading: bool, e: EventIO)
    requires Consistent(s) && e.fd >= 0
    ensures Consistent(Watched(s, reading, e))
  {
    var list := if reading then s.readIO else s.writeIO;
    assert (list + [e])[..|list|] == list;
    assert MaxFd(list + [e]) == Max(MaxFd(list), e.fd);
    assert forall x :: x in list + [e] <==> x in list || x == e;
    assert FdsOf(list + [e]) == FdsOf(list) + {e.fd};
  }

  /** event_unregister_io_read (reading) or _write: every entry for `fd`
      leaves its list, and `fd` its set when there was one; the other list
      is scanned for fd -1 (which none has), and fdmax becomes the largest
      fd left in either list. */
  function Unwatched(s: State, reading: bool, fd: int): (r: State)
    ensures r.loop == s.loop && r.timeouts == s.timeouts && r.timeout == s.timeout
  {
    var list := if reading then s.readIO else s.writeIO;
    var other := if reading then s.writeIO else s.readIO;
    var fds := if reading then s.rfds else s.wfds;
    var kept := Kept(list, fd);
    var fds' := if |kept| < |list| then fds - {fd} else fds;
    var other' := Kept(other, -1);
    var fdmax := Max(MaxFd(kept), MaxFd(other'));
    if reading then s.(readIO := kept, rfds := fds', writeIO := other', fdmax := fdmax)
    else s.(writeIO := kept, wfds := fds', readIO := other', fdmax := fdmax)
  }

  /** Unregistering removes exactly the entries for `fd`, keeps the others
      in order and the other list as it was, and keeps the Event
      consistent; fdmax is then the largest fd still registered, or -1. */
  lemma {:induction false} UnwatchedMeaning(s: State, reading: bool, fd: int)
    requires Consistent(s)
    ensures var r := Unwatched(s, reading, fd);
      Consistent(r)
      && (reading ==> r.readIO == Kept(s.readIO, fd) && r.writeIO == s.writeIO)
      && (!reading ==> r.writeIO == Kept(s.writeIO, fd) && r.readIO == s.readIO)
  {
    if reading {
      KeptConsistent(s.readIO, s.rfds, fd);
      OtherKept(s.writeIO);
    } else {
      KeptConsistent(s.writeIO, s.wfds, fd);
      OtherKept(s.readIO);
    }
  }

  /** The list and fd set _unregister_io leaves agree. */
  lemma {:induction false} KeptConsistent(list: seq<EventIO>, fds: set<int>, fd: int)
    requires fds == FdsOf(list) && forall e | e in list :: e.fd >= 0
    ensures var kept := Kept(list, fd);
      (if |kept| < |list| then fds - {fd} else fds) == FdsOf(kept)
      && forall e | e in kept :: e.fd >= 0
  {
    KeptFds(list, fd);
    KeptMembers(list, fd);
  }

  /** Scanning the other list for fd -1 leaves it as it is. */
  lemma {:induction false} OtherKept(other: seq<EventIO>)
    requires forall e | e in other :: e.fd >= 0
    ensures Kept(other, -1) == other
  {
    assert forall k :: 0 <= k < |other| ==> other[k] in other;
    KeptNone(other, -1);
  }


  /** The fds left after removing `fd`; a list that keeps its length has
      lost nothing. */
  lemma {:induction false} KeptFds(list: seq<EventIO>, fd: int)
    ensures FdsOf(Kept(list, fd)) == FdsOf(list) - {fd}
    ensures |Kept(list, fd)| == |list| ==> Kept(list, fd) == list
  {
    KeptMembers(list, fd);
    if |Kept(list, fd)| == |list| {
      forall k | 0 <= k < |list|
        ensures list[k].fd != fd
      {
        if list[k].fd == fd {
          KeptShorter(list, fd, k);
        }
      }
      KeptNone(list, fd);
    }
  }

  // ---------------------------------------------------------------------
  // Timeouts

  /** event_register_timeout at time `now`: the timeout appended, expiring
      at now + interval, and the pending wait lowered to the interval when
      that is sooner. */
  function TimedOut(s: State, now: TimeVal, tv: TimeVal, fn: nat, data: nat): (r: State)
    ensures r.timeouts == s.timeouts + [EventTimeout(tv, Plus(now, tv), fn, data)]
    ensures r.timeout == if Earlier(tv, s.timeout) then tv else s.timeout
    ensures !Earlier(s.timeout, r.timeout)
    ensures r.(timeouts := s.timeouts, timeout := s.timeout) == s
  {
    s.(timeouts := s.timeouts + [EventTimeout(tv, Plus(now, tv), fn, data)],
       timeout := if Earlier(tv, s.timeout) then tv else s.timeout)
  }

  /** The time has come for an expiry. */
  predicate Reached(now: TimeVal, t: TimeVal) {
    now.sec > t.sec || (now.sec == t.sec && now.usec >= t.usec)
  }

  /** The timeout pass of _loop_timeout from entry `i` as evidently
      intended, with the wait found so far and the loop counter: an expired
      entry runs its callback and is removed when that gives non-zero, and
      is otherwise rescheduled at now + interval with its interval a
      candidate wait; a pending entry's exact remaining time is a candidate
      wait. The pass as written is TimeoutPassAsWritten. */
  function TimeoutPass(ts: seq<EventTimeout>, i: nat, now: TimeVal, answer: (nat, nat) -> Outcome,
                       wait: TimeVal, loop: nat): (r: (seq<EventTimeout>, TimeVal, nat))
    requires i <= |ts|
    ensures !Earlier(wait, r.1)
    decreases |ts| - i
  {
    if i == |ts| then (ts, wait, loop)
    else
      var et := ts[i];
      if Reached(now, et.timeout) then
        var o := answer(et.fn, et.data);
        var loop' := if o.quit then Quit(loop) else loop;
        if o.ret != 0 then TimeoutPass(ts[..i] + ts[i + 1..], i, now, answer, wait, loop')
        else
          TimeoutPass(ts[i := et.(timeout := Plus(et.initial, now))], i + 1, now, answer,
                      if Earlier(et.initial, wait) then et.initial else wait, loop')
      else
        var r := Remaining(et.timeout, now);
        TimeoutPass(ts, i + 1, now, answer, if Earlier(r, wait) then r else wait, loop)
  }

  /** What becomes of one timeout in a pass: nothing when it expires and
      its callback gives non-zero, rescheduled when it gives 0, unchanged
      when it is pending. */
  function Survivor(et: EventTimeout, now: TimeVal, answer: (nat, nat) -> Outcome): seq<EventTimeout> {
    if !Reached(now, et.timeout) then [et]
    else if answer(et.fn, et.data).ret != 0 then []
    else [et.(timeout := Plus(et.initial, now))]
  }

  /** What becomes of every timeout of a list, in order. */
  function Survivors(ts: seq<EventTimeout>, now: TimeVal, answer: (nat, nat) -> Outcome): seq<EventTimeout>
    decreases |ts|
  {
    if ts == [] then [] else Survivor(ts[0], now, answer) + Survivors(ts[1..], now, answer)
  }

  /** The candidate waits of a pass, in order. */
  function Candidates(ts: seq<EventTimeout>, now: TimeVal, answer: (nat, nat) -> Outcome): seq<TimeVal>
    decreases |ts|
  {
    if ts == [] then []
    else
      var et := ts[0];
      var c := if !Reached(now, et.timeout) then [Remaining(et.timeout, now)]
               else if answer(et.fn, et.data).ret != 0 then [] else [et.initial];
      c + Candidates(ts[1..], now, answer)
  }

  /** The timeout pass keeps the entries before `i` and treats each later
      one on its own, in order; the wait it leaves is the starting one or
      a candidate, and no candidate is sooner. */
  lemma {:induction false} TimeoutPassMeaning(ts: seq<EventTimeout>, i: nat, now: TimeVal,
                                              answer: (nat, nat) -> Outcome, wait: TimeVal, loop: nat)
    requires i <= |ts|
    ensures PassMeans(ts, i, now, answer, wait, loop)
    decreases |ts| - i, 1
  {
    if i == |ts| {
      assert ts[i..] == [] && ts[..i] == ts;
    } else if !Reached(now, ts[i].timeout) {
      PendingMeans(ts, i, now, answer, wait, loop);
    } else if answer(ts[i].fn, ts[i].data).ret != 0 {
      DroppedMeans(ts, i, now, answer, wait, loop);
    } else {
      RescheduledMeans(ts, i, now, answer, wait, loop);
    }
  }

  /** What TimeoutPassMeaning states. */
  ghost predicate PassMeans(ts: seq<EventTimeout>, i: nat, now: TimeVal,
                            answer: (nat, nat) -> Outcome, wait: TimeVal, loop: nat)
    requires i <= |ts|
  {
    var r := TimeoutPass(ts, i, now, answer, wait, loop);
    r.0 == ts[..i] + Survivors(ts[i..], now, answer)
    && (r.1 == wait || r.1 in Candidates(ts[i..], now, answer))
    && !Earlier(wait, r.1)
    && forall c :: c in Candidates(ts[i..], now, answer) ==> !Earlier(c, r.1)
  }

  /** TimeoutPassMeaning when entry `i` is pending. */
  lemma {:induction false} PendingMeans(ts: seq<EventTimeout>, i: nat, now: TimeVal,
                                        answer: (nat, nat) -> Outcome, wait: TimeVal, loop: nat)
    requires i < |ts| && !Reached(now, ts[i].timeout)
    ensures PassMeans(ts, i, now, answer, wait, loop)
    decreases |ts| - i, 0
  {
    var et := ts[i];
    assert ts[i..][1..] == ts[i + 1..] && ts[i..][0] == et;
    var c := Remaining(et.timeout, now);
    var w' := if Earlier(c, wait) then c else wait;
    assert TimeoutPass(ts, i, now, answer, wait, loop) == TimeoutPass(ts, i + 1, now, answer, w', loop);
    TimeoutPassMeaning(ts, i + 1, now, answer, w', loop);
    TakeStep(ts, i, Survivors(ts[i + 1..], now, answer));
    EarlierMin(c, wait, TimeoutPass(ts, i, now, answer, wait, loop).1);
  }

  /** TimeoutPassMeaning when entry `i` expires and its callback gives
      non-zero. */
  lemma {:induction false} DroppedMeans(ts: seq<EventTimeout>, i: nat, now: TimeVal,
                                        answer: (nat, nat) -> Outcome, wait: TimeVal, loop: nat)
    requires i < |ts| && Reached(now, ts[i].timeout) && answer(ts[i].fn, ts[i].data).ret != 0
    ensures PassMeans(ts, i, now, answer, wait, loop)
    decreases |ts| - i, 0
  {
    var et := ts[i];
    assert ts[i..][1..] == ts[i + 1..] && ts[i..][0] == et;
    var o := answer(et.fn, et.data);
    var loop' := if o.quit then Quit(loop) else loop;
    var ts' := ts[..i] + ts[i + 1..];
    assert TimeoutPass(ts, i, now, answer, wait, loop) == TimeoutPass(ts', i, now, answer, wait, loop');
    TimeoutPassMeaning(ts', i, now, answer, wait, loop');
    assert ts'[..i] == ts[..i] && ts'[i..] == ts[i + 1..];
  }

  /** TimeoutPassMeaning when entry `i` expires and its callback gives 0. */
  lemma {:induction false} RescheduledMeans(ts: seq<EventTimeout>, i: nat, now: TimeVal,
                                            answer: (nat, nat) -> Outcome, wait: TimeVal, loop: nat)
    requires i < |ts| && Reached(now, ts[i].timeout) && answer(ts[i].fn, ts[i].data).ret == 0
    ensures PassMeans(ts, i, now, answer, wait, loop)
    decreases |ts| - i, 0
  {
    var et := ts[i];
    assert ts[i..][1..] == ts[i + 1..] && ts[i..][0] == et;
    var o := answer(et.fn, et.data);
    var loop' := if o.quit then Quit(loop) else loop;
    var et' := et.(timeout := Plus(et.initial, now));
    var ts' := ts[i := et'];
    var w' := if Earlier(et.initial, wait) then et.initial else wait;
    assert TimeoutPass(ts, i, now, answer, wait, loop) == TimeoutPass(ts', i + 1, now, answer, w', loop');
    TimeoutPassMeaning(ts', i + 1, now, answer, w', loop');
    assert ts'[..i] == ts[..i] && ts'[i] == et' && ts'[i + 1..] == ts[i + 1..];
    TakeStep(ts', i, Survivors(ts[i + 1..], now, answer));
    EarlierMin(et.initial, wait, TimeoutPass(ts, i, now, answer, wait, loop).1);
  }

  /** When the smaller of a and b does not come after x, neither a nor b
      does. */
  lemma {:induction false} EarlierMin(a: TimeVal, b: TimeVal, x: TimeVal)
    ensures var m := if Earlier(a, b) then a else b;
      !Earlier(m, x) ==> !Earlier(a, x) && !Earlier(b, x)
  {
  }


  // The timeout pass as written

  /** The difference _loop_timeout compares with the wait: field by field,
      with microseconds that can be negative. */
  function Difference(t: TimeVal, now: TimeVal): (d: TimeVal)
    ensures Micros(d) == Micros(t) - Micros(now)
    ensures t.usec >= now.usec ==> d == Remaining(t, now)
  {
    TimeVal(t.sec - now.sec, t.usec - now.usec)
  }

  /** The pending branch of _loop_timeout as written: the wait becomes
      RemainingAsWritten(t, now) when the raw difference comes before it,
      and that value then comes before the old wait too. */
  function PendingAsWritten(t: TimeVal, now: TimeVal, wait: TimeVal): (r: TimeVal)
    ensures Earlier(Difference(t, now), wait) ==> r == RemainingAsWritten(t, now) && Earlier(r, wait)
    ensures !Earlier(Difference(t, now), wait) ==> r == wait
  {
    if Earlier(Difference(t, now), wait) then RemainingAsWritten(t, now) else wait
  }

  /** The timeout pass of _loop_timeout as written: TimeoutPass with the
      pending branch of PendingAsWritten. */
  function TimeoutPassAsWritten(ts: seq<EventTimeout>, i: nat, now: TimeVal, answer: (nat, nat) -> Outcome,
                                wait: TimeVal, loop: nat): (r: (seq<EventTimeout>, TimeVal, nat))
    requires i <= |ts|
    ensures !Earlier(wait, r.1)
    decreases |ts| - i
  {
    if i == |ts| then (ts, wait, loop)
    else
      var et := ts[i];
      if Reached(now, et.timeout) then
        var o := answer(et.fn, et.data);
        var loop' := if o.quit then Quit(loop) else loop;
        if o.ret != 0 then TimeoutPassAsWritten(ts[..i] + ts[i + 1..], i, now, answer, wait, loop')
        else
          TimeoutPassAsWritten(ts[i := et.(timeout := Plus(et.initial, now))], i + 1, now, answer,
                               if Earlier(et.initial, wait) then et.initial else wait, loop')
      else
        TimeoutPassAsWritten(ts, i + 1, now, answer, PendingAsWritten(et.timeout, now, wait), loop)
  }

  /** The pass as written treats the entries and the loop counter as the
      intended one does, whatever waits they start from: only the wait can
      differ. */
  lemma {:induction false} PassAsWrittenEntries(ts: seq<EventTimeout>, i: nat, now: TimeVal,
                                                answer: (nat, nat) -> Outcome, wait: TimeVal, wait2: TimeVal, loop: nat)
    requires i <= |ts|
    ensures var r := TimeoutPassAsWritten(ts, i, now, answer, wait, loop);
      var q := TimeoutPass(ts, i, now, answer, wait2, loop);
      r.0 == q.0 && r.2 == q.2
    ensures TimeoutPassAsWritten(ts, i, now, answer, wait, loop).0 == ts[..i] + Survivors(ts[i..], now, answer)
    decreases |ts| - i
  {
    TimeoutPassMeaning(ts, i, now, answer, wait2, loop);
    if i < |ts| {
      var et := ts[i];
      if !Reached(now, et.timeout) {
        var r := Remaining(et.timeout, now);
        PassAsWrittenEntries(ts, i + 1, now, answer, PendingAsWritten(et.timeout, now, wait),
                             if Earlier(r, wait2) then r else wait2, loop);
      } else {
        var o := answer(et.fn, et.data);
        var loop' := if o.quit then Quit(loop) else loop;
        if o.ret != 0 {
          PassAsWrittenEntries(ts[..i] + ts[i + 1..], i, now, answer, wait, wait2, loop');
        } else {
          PassAsWrittenEntries(ts[i := et.(timeout := Plus(et.initial, now))], i + 1, now, answer,
                               if Earlier(et.initial, wait) then et.initial else wait,
                               if Earlier(et.initial, wait2) then et.initial else wait2, loop');
        }
      }
    }
  }

  /** No pending entry from `i` on needs a borrow. */
  predicate Unborrowed(ts: seq<EventTimeout>, i: nat, now: TimeVal) {
    forall k :: i <= k < |ts| && !Reached(now, ts[k].timeout) ==> ts[k].timeout.usec >= now.usec
  }

  /** When no pending entry needs a borrow, the pass as written is the
      intended one, so TimeoutPassMeaning describes it. */
  lemma {:induction false} PassAsWrittenAgrees(ts: seq<EventTimeout>, i: nat, now: TimeVal,
                                               answer: (nat, nat) -> Outcome, wait: TimeVal, loop: nat)
    requires i <= |ts| && Unborrowed(ts, i, now)
    ensures TimeoutPassAsWritten(ts, i, now, answer, wait, loop) == TimeoutPass(ts, i, now, answer, wait, loop)
    decreases |ts| - i
  {
    if i < |ts| {
      var et := ts[i];
      if !Reached(now, et.timeout) {
        assert PendingAsWritten(et.timeout, now, wait)
          == (var r := Remaining(et.timeout, now); if Earlier(r, wait) then r else wait);
        PassAsWrittenAgrees(ts, i + 1, now, answer, PendingAsWritten(et.timeout, now, wait), loop);
      } else {
        var o := answer(et.fn, et.data);
        var loop' := if o.quit then Quit(loop) else loop;
        if o.ret != 0 {
          var ts' := ts[..i] + ts[i + 1..];
          assert Unborrowed(ts', i, now) by {
            assert forall k :: i <= k < |ts'| ==> ts'[k] == ts[k + 1];
          }
          PassAsWrittenAgrees(ts', i, now, answer, wait, loop');
        } else {
          var ts' := ts[i := et.(timeout := Plus(et.initial, now))];
          assert Unborrowed(ts', i + 1, now) by {
            assert forall k :: i + 1 <= k < |ts'| ==> ts'[k] == ts[k];
          }
          PassAsWrittenAgrees(ts', i + 1, now, answer,
                              if Earlier(et.initial, wait) then et.initial else wait, loop');
        }
      }
    }
  }

  /** As written, one timeout at 10.1 s seen at 5.9 s leaves a wait of
      4.8 s, where 4.2 s remain. */
  lemma {:induction false} PassBorrowWrong(answer: (nat, nat) -> Outcome, loop: nat)
    ensures var ts := [EventTimeout(TimeVal(1, 0), TimeVal(10, 100000), 0, 0)];
      TimeoutPassAsWritten(ts, 0, TimeVal(5, 900000), answer, Never, loop) == (ts, TimeVal(4, 800000), loop)
      && TimeoutPass(ts, 0, TimeVal(5, 900000), answer, Never, loop) == (ts, TimeVal(4, 200000), loop)
  {
    var ts := [EventTimeout(TimeVal(1, 0), TimeVal(10, 100000), 0, 0)];
    var now := TimeVal(5, 900000);
    assert TimeoutPassAsWritten(ts, 1, now, answer, TimeVal(4, 800000), loop) == (ts, TimeVal(4, 800000), loop);
    assert TimeoutPass(ts, 1, now, answer, TimeVal(4, 200000), loop) == (ts, TimeVal(4, 200000), loop);
  }

  /** As written, a wait of 3.9 s from a rescheduled interval is kept
      although a pending timeout at 9.1 s seen at 5.3 s comes 3.8 s later:
      the raw difference (4, -200000) does not come before (3, 900000). */
  lemma {:induction false} PassKeepsLaterWait(answer: (nat, nat) -> Outcome, loop: nat)
    requires answer(0, 0) == Outcome(0, false)
    ensures var now := TimeVal(5, 300000);
      var ts := [EventTimeout(TimeVal(3, 900000), TimeVal(0, 0), 0, 0),
                 EventTimeout(TimeVal(1, 0), TimeVal(9, 100000), 1, 0)];
      TimeoutPassAsWritten(ts, 0, now, answer, Never, loop).1 == TimeVal(3, 900000)
      && TimeoutPass(ts, 0, now, answer, Never, loop).1 == TimeVal(3, 800000)
      && Micros(TimeVal(9, 100000)) - Micros(now) == 3800000
  {
    var now := TimeVal(5, 300000);
    var ts := [EventTimeout(TimeVal(3, 900000), TimeVal(0, 0), 0, 0),
               EventTimeout(TimeVal(1, 0), TimeVal(9, 100000), 1, 0)];
    var ts1 := ts[0 := ts[0].(timeout := Plus(ts[0].initial, now))];
    assert TimeoutPassAsWritten(ts1, 2, now, answer, TimeVal(3, 900000), loop).1 == TimeVal(3, 900000);
    assert TimeoutPassAsWritten(ts1, 1, now, answer, TimeVal(3, 900000), loop).1 == TimeVal(3, 900000);
    assert TimeoutPass(ts1, 2, now, answer, TimeVal(3, 800000), loop).1 == TimeVal(3, 800000);
    assert TimeoutPass(ts1, 1, now, answer, TimeVal(3, 900000), loop).1 == TimeVal(3, 800000);
  }

  /** The wait event_unregister_timeout takes from an entry whose seconds
      have not passed: the field-by-field difference, and on a borrow
      max(0, sec - 1) seconds with the microseconds negated, so the
      borrow goes wrong as in RemainingAsWritten. */
  function EntryWait(t: TimeVal, now: TimeVal): (r: TimeVal)
    requires t.sec >= now.sec
    ensures r.sec >= 0
    ensures t.usec >= now.usec ==> r == Remaining(t, now)
    ensures t.usec < now.usec && t.sec > now.sec ==> r == RemainingAsWritten(t, now)
    ensures t.usec < now.usec && t.sec == now.sec ==> r == TimeVal(0, now.usec - t.usec)
  {
    var d := Difference(t, now);
    if d.usec >= 0 then d else TimeVal(Max(0, d.sec - 1), -d.usec)
  }

  /** event_unregister_timeout's recomputation of the wait, from entry `i`,
      as written: an entry whose expiry comes before the wait computed so
      far (the code compares the absolute expiry with that relative wait)
      gives the wait: 0 and the end of the scan when its seconds have
      passed, otherwise EntryWait. */
  function Rewait(ts: seq<EventTimeout>, i: nat, now: TimeVal, wait: TimeVal): (r: TimeVal)
    requires i <= |ts|
    ensures r == wait || r.sec >= 0
    decreases |ts| - i
  {
    if i == |ts| then wait
    else
      var t := ts[i].timeout;
      if !Earlier(t, wait) then Rewait(ts, i + 1, now, wait)
      else if t.sec - now.sec < 0 then TimeVal(0, 0)
      else Rewait(ts, i + 1, now, EntryWait(t, now))
  }

  /** The recomputed wait is the starting one, 0, or the wait of one of
      the entries scanned whose seconds have not passed. */
  lemma {:induction false} RewaitChoice(ts: seq<EventTimeout>, i: nat, now: TimeVal, wait: TimeVal)
    requires i <= |ts|
    ensures var r := Rewait(ts, i, now, wait);
      r == wait || r == TimeVal(0, 0)
      || exists k :: i <= k < |ts| && ts[k].timeout.sec >= now.sec && r == EntryWait(ts[k].timeout, now)
    decreases |ts| - i
  {
    if i < |ts| {
      var t := ts[i].timeout;
      if !Earlier(t, wait) {
        RewaitChoice(ts, i + 1, now, wait);
      } else if t.sec - now.sec >= 0 {
        RewaitChoice(ts, i + 1, now, EntryWait(t, now));
      }
    }
  }

  /** As written, unregistering leaves one timeout at 10.1 s seen at 5.9 s
      with a wait of 4.8 s, where 4.2 s remain. */
  lemma {:induction false} RewaitBorrowWrong()
    ensures var ts := [EventTimeout(TimeVal(1, 0), TimeVal(10, 100000), 0, 0)];
      Rewait(ts, 0, TimeVal(5, 900000), Never) == TimeVal(4, 800000)
      && Remaining(TimeVal(10, 100000), TimeVal(5, 900000)) == TimeVal(4, 200000)
  {
    var ts := [EventTimeout(TimeVal(1, 0), TimeVal(10, 100000), 0, 0)];
    assert Rewait(ts, 1, TimeVal(5, 900000), TimeVal(4, 800000)) == TimeVal(4, 800000);
  }

  /** The entries whose callback is not `fn`, in order. */
  function Unfn(ts: seq<EventTimeout>, fn: nat): (r: seq<EventTimeout>)
    ensures |r| <= |ts|
    ensures forall k :: 0 <= k < |r| ==> r[k].fn != fn
    decreases |ts|
  {
    if ts == [] then [] else (if ts[0].fn == fn then [] else [ts[0]]) + Unfn(ts[1..], fn)
  }

  /** The timeouts kept are those of other functions. */
  lemma {:induction false} UnfnMembers(ts: seq<EventTimeout>, fn: nat)
    ensures forall et :: et in Unfn(ts, fn) <==> et in ts && et.fn != fn
    decreases |ts|
  {
    if ts != [] {
      UnfnMembers(ts[1..], fn);
      assert ts == [ts[0]] + ts[1..];
    }
  }

  // ---------------------------------------------------------------------
  // The I/O passes

  /** The pass of _loop_io over the reads (reading) or the writes from
      entry `i`, with the fds select() found ready: an entry whose fd is at
      most fdmax and ready runs its callback; a non-zero result unregisters
      its fd, after which the entry now at `i` is the next one visited. */
  function IoPass(s: State, reading: bool, i: nat, ready: set<int>, answer: (int, nat, nat) -> Outcome): (r: State)
    ensures r.timeouts == s.timeouts && r.timeout == s.timeout
    decreases |if reading then s.readIO else s.writeIO| - i
  {
    var list := if reading then s.readIO else s.writeIO;
    if i >= |list| then s
    else
      var e := list[i];
      if e.fd <= s.fdmax && e.fd in ready then
        var o := answer(e.fd, e.fn, e.data);
        var s1 := if o.quit then s.(loop := Quit(s.loop)) else s;
        if o.ret != 0 then
          var s2 := Unwatched(s1, reading, e.fd);
          KeptShorter(list, e.fd, i);
          assert |if reading then s2.readIO else s2.writeIO| < |list|;
          IoPass(s2, reading, i, ready, answer)
        else IoPass(s1, reading, i + 1, ready, answer)
      else IoPass(s, reading, i + 1, ready, answer)
  }

  /** An I/O pass keeps the Event consistent. */
  lemma {:induction false} IoPassConsistent(s: State, reading: bool, i: nat, ready: set<int>,
                                            answer: (int, nat, nat) -> Outcome)
    requires Consistent(s)
    ensures Consistent(IoPass(s, reading, i, ready, answer))
    decreases |if reading then s.readIO else s.writeIO| - i, 1
  {
    var list := if reading then s.readIO else s.writeIO;
    if i < |list| {
      var e := list[i];
      if e.fd <= s.fdmax && e.fd in ready {
        var o := answer(e.fd, e.fn, e.data);
        if o.ret != 0 {
          IoDropConsistent(s, reading, i, ready, answer);
        } else {
          var s1 := if o.quit then s.(loop := Quit(s.loop)) else s;
          IoPassConsistent(s1, reading, i + 1, ready, answer);
        }
      } else {
        IoPassConsistent(s, reading, i + 1, ready, answer);
      }
    }
  }

  /** IoPassConsistent when the callback of entry `i` unregisters its fd. */
  lemma {:induction false} IoDropConsistent(s: State, reading: bool, i: nat, ready: set<int>,
                                            answer: (int, nat, nat) -> Outcome)
    requires Consistent(s) && i < |if reading then s.readIO else s.writeIO|
    requires var e := (if reading then s.readIO else s.writeIO)[i];
      e.fd <= s.fdmax && e.fd in ready && answer(e.fd, e.fn, e.data).ret != 0
    ensures Consistent(IoPass(s, reading, i, ready, answer))
    decreases |if reading then s.readIO else s.writeIO| - i, 0
  {
    var list := if reading then s.readIO else s.writeIO;
    var e := list[i];
    var o := answer(e.fd, e.fn, e.data);
    var s1 := if o.quit then s.(loop := Quit(s.loop)) else s;
    var s2 := Unwatched(s1, reading, e.fd);
    UnwatchedMeaning(s1, reading, e.fd);
    KeptShorter(list, e.fd, i);
    IoPassConsistent(s2, reading, i, ready, answer);
  }

  /** No fd of the list occurs twice. */
  predicate DistinctFds(list: seq<EventIO>) {
    forall j, k :: 0 <= j < k < |list| ==> list[j].fd != list[k].fd
  }

  /** Whether an entry of a pass is unregistered: its fd is ready and its
      callback gives non-zero. */
  predicate Dropped(e: EventIO, ready: set<int>, answer: (int, nat, nat) -> Outcome) {
    e.fd in ready && answer(e.fd, e.fn, e.data).ret != 0
  }

  /** The entries a pass keeps, in order. */
  function Staying(list: seq<EventIO>, ready: set<int>, answer: (int, nat, nat) -> Outcome): seq<EventIO>
    decreases |list|
  {
    if list == [] then [] else (if Dropped(list[0], ready, answer) then [] else [list[0]]) + Staying(list[1..], ready, answer)
  }

  /** On a consistent Event whose list has distinct fds, an I/O pass from
      `i` visits every later entry, unregisters exactly those whose fd is
      ready and whose callback gives non-zero, and keeps the others in
      order. */
  lemma {:induction false} IoPassDrops(s: State, reading: bool, i: nat, ready: set<int>,
                                       answer: (int, nat, nat) -> Outcome)
    requires Consistent(s)
    requires DistinctFds(if reading then s.readIO else s.writeIO)
    requires i <= |if reading then s.readIO else s.writeIO|
    ensures var list := if reading then s.readIO else s.writeIO;
      var r := IoPass(s, reading, i, ready, answer);
      (if reading then r.readIO else r.writeIO) == list[..i] + Staying(list[i..], ready, answer)
  {
    FencedDrops(s, reading, i, ready, answer);
  }

  /** Every fd of the list the pass visits is at most fdmax. */
  predicate Fenced(s: State, reading: bool) {
    var list := if reading then s.readIO else s.writeIO;
    forall k :: 0 <= k < |list| ==> list[k].fd <= s.fdmax
  }

  /** IoPassDrops, for a list fenced by fdmax. */
  lemma {:induction false} FencedDrops(s: State, reading: bool, i: nat, ready: set<int>,
                                       answer: (int, nat, nat) -> Outcome)
    requires Fenced(s, reading)
    requires DistinctFds(if reading then s.readIO else s.writeIO)
    requires i <= |if reading then s.readIO else s.writeIO|
    ensures var list := if reading then s.readIO else s.writeIO;
      var r := IoPass(s, reading, i, ready, answer);
      (if reading then r.readIO else r.writeIO) == list[..i] + Staying(list[i..], ready, answer)
    decreases |if reading then s.readIO else s.writeIO| - i, 1
  {
    var list := if reading then s.readIO else s.writeIO;
    if i == |list| {
      assert list[i..] == [] && list[..i] == list;
    } else if Dropped(list[i], ready, answer) {
      FencedDropped(s, reading, i, ready, answer);
    } else {
      FencedStays(s, reading, i, ready, answer);
    }
  }

  /** FencedDrops when entry `i` is unregistered. */
  lemma {:induction false} FencedDropped(s: State, reading: bool, i: nat, ready: set<int>,
                                         answer: (int, nat, nat) -> Outcome)
    requires Fenced(s, reading)
    requires DistinctFds(if reading then s.readIO else s.writeIO)
    requires i < |if reading then s.readIO else s.writeIO|
    requires Dropped((if reading then s.readIO else s.writeIO)[i], ready, answer)
    ensures var list := if reading then s.readIO else s.writeIO;
      var r := IoPass(s, reading, i, ready, answer);
      (if reading then r.readIO else r.writeIO) == list[..i] + Staying(list[i..], ready, answer)
    decreases |if reading then s.readIO else s.writeIO| - i, 0
  {
    var list := if reading then s.readIO else s.writeIO;
    assert list[i..][0] == list[i] && list[i..][1..] == list[i + 1..];
    assert Staying(list[i..], ready, answer) == Staying(list[i + 1..], ready, answer);
    var s2 := DroppedStep(s, reading, i, ready, answer);
    var l2 := list[..i] + list[i + 1..];
    FencedDrops(s2, reading, i, ready, answer);
    assert l2[..i] == list[..i] && l2[i..] == list[i + 1..];
  }

  /** FencedDrops when entry `i` stays. */
  lemma {:induction false} FencedStays(s: State, reading: bool, i: nat, ready: set<int>,
                                       answer: (int, nat, nat) -> Outcome)
    requires Fenced(s, reading)
    requires DistinctFds(if reading then s.readIO else s.writeIO)
    requires i < |if reading then s.readIO else s.writeIO|
    requires !Dropped((if reading then s.readIO else s.writeIO)[i], ready, answer)
    ensures var list := if reading then s.readIO else s.writeIO;
      var r := IoPass(s, reading, i, ready, answer);
      (if reading then r.readIO else r.writeIO) == list[..i] + Staying(list[i..], ready, answer)
    decreases |if reading then s.readIO else s.writeIO| - i, 0
  {
    var list := if reading then s.readIO else s.writeIO;
    var e := list[i];
    assert list[i..][0] == e && list[i..][1..] == list[i + 1..];
    var rest := Staying(list[i + 1..], ready, answer);
    assert Staying(list[i..], ready, answer) == [e] + rest;
    var s1 := StayStep(s, reading, i, ready, answer);
    FencedDrops(s1, reading, i + 1, ready, answer);
    TakeStep(list, i, rest);
  }

  /** The prefix up to `i` and then entry `i` is the prefix up to i + 1. */
  lemma {:induction false} TakeStep<X>(list: seq<X>, i: nat, rest: seq<X>)
    requires i < |list|
    ensures list[..i] + ([list[i]] + rest) == list[..i + 1] + rest
  {
    assert list[..i + 1] == list[..i] + [list[i]];
    AppendAssoc(list[..i], [list[i]], rest);
  }

  /** The step of FencedDrops that unregisters entry `i`: the state after
      it, whose list is the old one without that entry. */
  lemma {:induction false} DroppedStep(s: State, reading: bool, i: nat, ready: set<int>,
                                       answer: (int, nat, nat) -> Outcome) returns (s2: State)
    requires Fenced(s, reading)
    requires DistinctFds(if reading then s.readIO else s.writeIO)
    requires i < |if reading then s.readIO else s.writeIO|
    requires Dropped((if reading then s.readIO else s.writeIO)[i], ready, answer)
    ensures var list := if reading then s.readIO else s.writeIO;
      (if reading then s2.readIO else s2.writeIO) == list[..i] + list[i + 1..]
    ensures Fenced(s2, reading)
    ensures DistinctFds(if reading then s2.readIO else s2.writeIO)
    ensures IoPass(s, reading, i, ready, answer) == IoPass(s2, reading, i, ready, answer)
  {
    s2 := DropState(s, reading, i, answer);
    DroppedPass(s, reading, i, ready, answer);
    DroppedList(s, reading, i, answer);
  }

  /** The state after unregistering the fd of entry `i` of a pass, its
      callback having asked to quit or not. */
  function DropState(s: State, reading: bool, i: nat, answer: (int, nat, nat) -> Outcome): State
    requires i < |if reading then s.readIO else s.writeIO|
  {
    var e := (if reading then s.readIO else s.writeIO)[i];
    var s1 := if answer(e.fd, e.fn, e.data).quit then s.(loop := Quit(s.loop)) else s;
    Unwatched(s1, reading, e.fd)
  }

  /** The pass at an entry it unregisters goes on from DropState. */
  lemma {:induction false} DroppedPass(s: State, reading: bool, i: nat, ready: set<int>,
                                       answer: (int, nat, nat) -> Outcome)
    requires Fenced(s, reading)
    requires i < |if reading then s.readIO else s.writeIO|
    requires Dropped((if reading then s.readIO else s.writeIO)[i], ready, answer)
    ensures IoPass(s, reading, i, ready, answer) == IoPass(DropState(s, reading, i, answer), reading, i, ready, answer)
  {
    var e := (if reading then s.readIO else s.writeIO)[i];
    assert e.fd <= s.fdmax;
  }

  /** DropState's list is the old one without entry `i`, and stays fenced
      and distinct. */
  lemma {:induction false} DroppedList(s: State, reading: bool, i: nat, answer: (int, nat, nat) -> Outcome)
    requires DistinctFds(if reading then s.readIO else s.writeIO)
    requires i < |if reading then s.readIO else s.writeIO|
    ensures var list := if reading then s.readIO else s.writeIO;
      var s2 := DropState(s, reading, i, answer);
      (if reading then s2.readIO else s2.writeIO) == list[..i] + list[i + 1..]
      && Fenced(s2, reading) && DistinctFds(if reading then s2.readIO else s2.writeIO)
  {
    var list := if reading then s.readIO else s.writeIO;
    KeptDistinct(list, i);
    var kept := Kept(list, list[i].fd);
    var s2 := DropState(s, reading, i, answer);
    assert (if reading then s2.readIO else s2.writeIO) == kept;
    assert s2.fdmax >= MaxFd(kept);
  }

  /** The step of FencedDrops that keeps entry `i`: the state after it,
      with the same lists. */
  lemma {:induction false} StayStep(s: State, reading: bool, i: nat, ready: set<int>,
                                    answer: (int, nat, nat) -> Outcome) returns (s1: State)
    requires Fenced(s, reading)
    requires i < |if reading then s.readIO else s.writeIO|
    requires !Dropped((if reading then s.readIO else s.writeIO)[i], ready, answer)
    ensures s1 == s.(loop := s1.loop)
    ensures IoPass(s, reading, i, ready, answer) == IoPass(s1, reading, i + 1, ready, answer)
  {
    var list := if reading then s.readIO else s.writeIO;
    var e := list[i];
    assert e.fd <= s.fdmax;
    s1 := if e.fd in ready && answer(e.fd, e.fn, e.data).quit then s.(loop := Quit(s.loop)) else s;
  }

  /** In a list of distinct fds, removing the fd of entry i removes that
      entry only. */
  lemma {:induction false} KeptDistinct(list: seq<EventIO>, i: nat)
    requires DistinctFds(list) && i < |list|
    ensures Kept(list, list[i].fd) == list[..i] + list[i + 1..]
    ensures DistinctFds(list[..i] + list[i + 1..])
  {
    KeptOnly(list, i);
    RemovedDistinct(list, i);
  }

  /** The first half of KeptDistinct. */
  lemma {:induction false} KeptOnly(list: seq<EventIO>, i: nat)
    requires DistinctFds(list) && i < |list|
    ensures Kept(list, list[i].fd) == list[..i] + list[i + 1..]
    decreases i
  {
    var fd := list[i].fd;
    var t := list[1..];
    assert forall k :: 0 <= k < |t| ==> t[k] == list[k + 1];
    if i == 0 {
      KeptNone(t, fd);
      assert list[..0] + t == t;
    } else {
      assert DistinctFds(t);
      assert t[i - 1] == list[i] && list[0].fd != fd;
      KeptOnly(t, i - 1);
      assert t[..i - 1] == list[1..i] && t[i..] == list[i + 1..];
      assert [list[0]] + list[1..i] == list[..i];
      AppendAssoc([list[0]], list[1..i], list[i + 1..]);
    }
  }

  /** The second half of KeptDistinct. */
  lemma {:induction false} RemovedDistinct(list: seq<EventIO>, i: nat)
    requires DistinctFds(list) && i < |list|
    ensures DistinctFds(list[..i] + list[i + 1..])
  {
    var r := list[..i] + list[i + 1..];
    RemovedAt(list, i, r);
    forall j, k | 0 <= j < k < |r|
      ensures r[j].fd != r[k].fd
    {
      var j' := if j < i then j else j + 1;
      var k' := if k < i then k else k + 1;
      assert r[j] == list[j'] && r[k] == list[k'] && j' < k';
    }
  }


  // ---------------------------------------------------------------------
  // event_loop

  /** The errno a failed system call leaves, which is never 0. */
  type Errno = e: nat | e > 0 witness 1

  /** What gettimeofday() gives: the time, or a failure with its errno. */
  datatype Clock = Time(now: TimeVal) | ClockFails(errno: Errno)

  /** What select() and gettimeofday() give for one pass: select fails
      with an errno, or returns the ready fds and the clock is read. */
  datatype Wake = SelectFails(errno: Errno) | Woken(clock: Clock, rready: set<int>, wready: set<int>)

  /** One pass of event_loop after select(): _loop_timeout at `now` (which
      resets the wait), then _loop_io over the reads and over the writes
      with the fds ready among those select() watched. */
  function Pass(s: State, now: TimeVal, rready: set<int>, wready: set<int>,
                ta: (nat, nat) -> Outcome, ia: (int, nat, nat) -> Outcome): (r: State)
    ensures r.timeouts == Survivors(s.timeouts, now, ta)
  {
    PassAsWrittenEntries(s.timeouts, 0, now, ta, Never, Never, s.loop);
    assert s.timeouts[..0] + Survivors(s.timeouts[0..], now, ta) == Survivors(s.timeouts, now, ta);
    var (ts, wait, loop) := TimeoutPassAsWritten(s.timeouts, 0, now, ta, Never, s.loop);
    var s1 := s.(timeouts := ts, timeout := wait, loop := loop);
    var s2 := IoPass(s1, true, 0, rready, ia);
    IoPass(s2, false, 0, wready, ia)
  }

  /** The loop of event_loop: while the counter is not 0 and there is a
      timeout or an fd to wait for, one pass per wake, with the fd sets as
      they were before the pass (`rfds`, `wfds`). The result is 0 when the
      loop ends, -errno when select() fails, -1 when the clock fails, and
      None when the wakes run out first. */
  function Looped(s: State, waiting: bool, rfds: set<int>, wfds: set<int>, wakes: seq<Wake>,
                  ta: (nat, nat) -> Outcome, ia: (int, nat, nat) -> Outcome): (r: (Option<int>, State))
    ensures r.0 == Some(0) ==> r.1.loop == 0 || (r.1.fdmax == -1 && (r.1.timeout == Never || (r.1 == s && !waiting)))
    decreases |wakes|
  {
    if !(s.loop != 0 && (waiting || s.fdmax != -1)) then (Some(0), s)
    else if wakes == [] then (None, s)
    else
      match wakes[0]
      case SelectFails(errno) => (Some(-(errno as int)), s)
      case Woken(clock, rready, wready) =>
        if clock.ClockFails? then (Some(-1), s)
        else
          var s' := Pass(s, clock.now, rready * rfds, wready * wfds, ta, ia);
          Looped(s', s'.timeout != Never, s'.rfds, s'.wfds, wakes[1..], ta, ia)
  }

  /** event_loop: one level more, then the loop. */
  function Loop(s: State, wakes: seq<Wake>, ta: (nat, nat) -> Outcome, ia: (int, nat, nat) -> Outcome)
    : (r: (Option<int>, State))
    ensures r.0 == Some(0) ==> r.1.loop == 0 || (r.1.fdmax == -1 && r.1.timeout == Never)
  {
    Looped(s.(loop := s.loop + 1), s.timeout != Never, s.rfds, s.wfds, wakes, ta, ia)
  }

  /** A pass keeps the Event consistent. */
  lemma {:induction false} PassConsistent(s: State, now: TimeVal, rready: set<int>, wready: set<int>,
                                          ta: (nat, nat) -> Outcome, ia: (int, nat, nat) -> Outcome)
    requires Consistent(s)
    ensures Consistent(Pass(s, now, rready, wready, ta, ia))
  {
    var (ts, wait, loop) := TimeoutPassAsWritten(s.timeouts, 0, now, ta, Never, s.loop);
    var s1 := s.(timeouts := ts, timeout := wait, loop := loop);
    IoPassConsistent(s1, true, 0, rready, ia);
    IoPassConsistent(IoPass(s1, true, 0, rready, ia), false, 0, wready, ia);
  }

  /** event_loop keeps the Event consistent, however it ends. */
  lemma {:induction false} LoopedConsistent(s: State, waiting: bool, rfds: set<int>, wfds: set<int>, wakes: seq<Wake>,
                                            ta: (nat, nat) -> Outcome, ia: (int, nat, nat) -> Outcome)
    requires Consistent(s)
    ensures Consistent(Looped(s, waiting, rfds, wfds, wakes, ta, ia).1)
    decreases |wakes|
  {
    if s.loop != 0 && (waiting || s.fdmax != -1) && wakes != [] && wakes[0].Woken? && wakes[0].clock.Time? {
      var wk := wakes[0];
      var s' := Pass(s, wk.clock.now, wk.rready * rfds, wk.wready * wfds, ta, ia);
      PassConsistent(s, wk.clock.now, wk.rready * rfds, wk.wready * wfds, ta, ia);
      LoopedConsistent(s', s'.timeout != Never, s'.rfds, s'.wfds, wakes[1..], ta, ia);
    }
  }

  /** With nothing registered, event_loop returns 0 at once, leaving its
      level counted. */
  lemma {:induction false} LoopIdleReturns(wakes: seq<Wake>, ta: (nat, nat) -> Outcome, ia: (int, nat, nat) -> Outcome)
    ensures Loop(Initial, wakes, ta, ia) == (Some(0), Initial.(loop := 1))
  {
  }

  /** The loop ends after the pass in which the counter reaches 0. */
  lemma {:induction false} LoopStops(s: State, waiting: bool, rfds: set<int>, wfds: set<int>, wakes: seq<Wake>,
                                     ta: (nat, nat) -> Outcome, ia: (int, nat, nat) -> Outcome)
    requires s.loop == 0
    ensures Looped(s, waiting, rfds, wfds, wakes, ta, ia) == (Some(0), s)
  {
  }

  /** tests/event.c: an idle callback that quits, registered on a new
      Event at time t0, and one wake at a time not before t0: event_loop
      returns 0 after that pass, with the counter back at 0 and the idle
      timeout rescheduled at the wake's time. */
  lemma {:induction false} IdleQuits(t0: TimeVal, now: TimeVal, fn: nat, data: nat, wakes: seq<Wake>,
                                     ta: (nat, nat) -> Outcome, ia: (int, nat, nat) -> Outcome)
    requires !Earlier(now, t0) && ta(fn, data) == Outcome(0, true)
    ensures var s := TimedOut(Initial, t0, TimeVal(0, 0), fn, data);
      var r := Loop(s, [Woken(Time(now), {}, {})] + wakes, ta, ia);
      r.0 == Some(0) && r.1.loop == 0
      && r.1.timeouts == [EventTimeout(TimeVal(0, 0), Plus(TimeVal(0, 0), now), fn, data)]
  {
    var s := TimedOut(Initial, t0, TimeVal(0, 0), fn, data);
    var ts := s.timeouts;
    assert ts == [EventTimeout(TimeVal(0, 0), Plus(t0, TimeVal(0, 0)), fn, data)];
    assert s.timeout == TimeVal(0, 0);
    var ts1 := ts[0 := ts[0].(timeout := Plus(TimeVal(0, 0), now))];
    assert TimeoutPassAsWritten(ts1, 1, now, ta, TimeVal(0, 0), 0) == (ts1, TimeVal(0, 0), 0);
    assert TimeoutPassAsWritten(ts, 0, now, ta, Never, 1) == (ts1, TimeVal(0, 0), 0);
    var s1 := s.(loop := 1).(timeouts := ts1, timeout := TimeVal(0, 0), loop := 0);
    assert IoPass(s1, true, 0, {}, ia) == s1;
    assert IoPass(s1, false, 0, {}, ia) == s1;
    assert Pass(s.(loop := 1), now, {}, {}, ta, ia) == s1;
    var wakes' := [Woken(Time(now), {}, {})] + wakes;
    assert wakes'[0] == Woken(Time(now), {}, {}) && wakes'[1..] == wakes;
    assert Looped(s1, true, {}, {}, wakes, ta, ia) == (Some(0), s1);
    assert Loop(s, wakes', ta, ia) == Looped(s.(loop := 1), true, {}, {}, wakes', ta, ia);
  }

  // ---------------------------------------------------------------------
  // The Event object

  class Event {
    var loop: nat
    var fdmax: int
    var rfds: set<int>
    var wfds: set<int>
    var readIO: seq<EventIO>
    var writeIO: seq<EventIO>
    var timeouts: seq<EventTimeout>
    var timeout: TimeVal

    function Now(): State
      reads this
    {
      State(loop, fdmax, rfds, wfds, readIO, writeIO, timeouts, timeout)
    }

    /** event_new. */
    constructor ()
      ensures Now() == Initial && Consistent(Now())
    {
      loop, fdmax, rfds, wfds := 0, -1, {}, {};
      readIO, writeIO, timeouts := [], [], [];
      timeout := Never;
    }

    /** event_loop_quit. */
    method LoopQuit()
      modifies this
      ensures Now() == old(Now()).(loop := Quit(old(loop)))
    {
      if loop > 0 {
        loop := loop - 1;
      }
    }

    /** event_register_io_read. */
    method RegisterIoRead(fd: int, fn: nat, data: nat) returns (ret: int)
      requires fd >= 0
      modifies this
      ensures ret == 0 && Now() == Watched(old(Now()), true, EventIO(fd, fn, data))
    {
      fdmax := Max(fdmax, fd);
      readIO := readIO + [EventIO(fd, fn, data)];
      rfds := rfds + {fd};
      return 0;
    }

    /** event_register_io_write. */
    method RegisterIoWrite(fd: int, fn: nat, data: nat) returns (ret: int)
      requires fd >= 0
      modifies this
      ensures ret == 0 && Now() == Watched(old(Now()), false, EventIO(fd, fn, data))
    {
      fdmax := Max(fdmax, fd);
      writeIO := writeIO + [EventIO(fd, fn, data)];
      wfds := wfds + {fd};
      return 0;
    }

    /** event_register_timeout, with the clock's time or its failure. */
    method RegisterTimeout(clock: Clock, tv: TimeVal, fn: nat, data: nat)
      returns (ret: int)
      modifies this
      ensures clock.ClockFails? ==> ret == -(clock.errno as int) && Now() == old(Now())
      ensures clock.Time? ==> ret == 0 && Now() == TimedOut(old(Now()), clock.now, tv, fn, data)
    {
      if clock.ClockFails? {
        return -(clock.errno as int);
      }
      var now := clock.now;
      timeouts := timeouts + [EventTimeout(tv, Plus(now, tv), fn, data)];
      if Earlier(tv, timeout) {
        timeout := tv;
      }
      return 0;
    }

    /** event_register_idle: a timeout of (0, 0). */
    method RegisterIdle(clock: Clock, fn: nat, data: nat) returns (ret: int)
      modifies this
      ensures clock.ClockFails? ==> ret == -(clock.errno as int) && Now() == old(Now())
      ensures clock.Time? ==> ret == 0 && Now() == TimedOut(old(Now()), clock.now, TimeVal(0, 0), fn, data)
    {
      ret := RegisterTimeout(clock, TimeVal(0, 0), fn, data);
    }

    /** event_unregister_io_read. */
    method UnregisterIoRead(fd: int) returns (ret: int)
      modifies this
      ensures ret == 0 && Now() == Unwatched(old(Now()), true, fd)
    {
      var kept, m, found := UnregisterIo(readIO, fd);
      if found {
        rfds := rfds - {fd};
      }
      readIO := kept;
      var others, m', none := UnregisterIo(writeIO, -1);
      writeIO := others;
      fdmax := Max(m, m');
      return 0;
    }

    /** event_unregister_io_write. */
    method UnregisterIoWrite(fd: int) returns (ret: int)
      modifies this
      ensures ret == 0 && Now() == Unwatched(old(Now()), false, fd)
    {
      var kept, m, found := UnregisterIo(writeIO, fd);
      if found {
        wfds := wfds - {fd};
      }
      writeIO := kept;
      var others, m', none := UnregisterIo(readIO, -1);
      readIO := others;
      fdmax := Max(m, m');
      return 0;
    }

    /** event_unregister_timeout: every timeout of `fn` removed, then the
        wait recomputed at the clock's time. */
    method UnregisterTimeout(clock: Clock, fn: nat) returns (ret: int)
      modifies this
      ensures timeouts == Unfn(old(timeouts), fn)
      ensures clock.ClockFails? ==> ret == -(clock.errno as int) && Now() == old(Now()).(timeouts := timeouts)
      ensures clock.Time? ==> ret == 0
      ensures clock.Time? ==> Now() == old(Now()).(timeouts := timeouts, timeout := Rewait(timeouts, 0, clock.now, Never))
    {
      timeouts := UnregisterFn(timeouts, fn);
      if clock.ClockFails? {
        return -(clock.errno as int);
      }
      timeout := RewaitAll(timeouts, clock.now);
      return 0;
    }

    /** _loop_timeout, with the clock's time or its failure: the wait is
        reset, then the timeout pass as written. */
    method LoopTimeout(clock: Clock, answer: (nat, nat) -> Outcome) returns (ret: int)
      modifies this
      ensures clock.ClockFails? ==> ret == -(clock.errno as int) && Now() == old(Now())
      ensures clock.Time? ==> ret == 0
      ensures clock.Time? ==> (var (ts, wait, lp) := TimeoutPassAsWritten(old(timeouts), 0, clock.now, answer, Never, old(loop));
        Now() == old(Now()).(timeouts := ts, timeout := wait, loop := lp))
    {
      if clock.ClockFails? {
        return -(clock.errno as int);
      }
      var now := clock.now;
      ghost var ts0 := timeouts;
      timeout := Never;
      var i := 0;
      while i < |timeouts|
        invariant i <= |timeouts|
        invariant TimeoutPassAsWritten(ts0, 0, now, answer, Never, old(loop))
          == TimeoutPassAsWritten(timeouts, i, now, answer, timeout, loop)
        invariant Now() == old(Now()).(timeouts := timeouts, timeout := timeout, loop := loop)
        decreases |timeouts| - i
      {
        var et := timeouts[i];
        if Reached(now, et.timeout) {
          var o := answer(et.fn, et.data);
          if o.quit {
            LoopQuit();
          }
          if o.ret != 0 {
            timeouts := timeouts[..i] + timeouts[i + 1..];
            continue;
          }
          timeouts := timeouts[i := et.(timeout := Plus(et.initial, now))];
          if Earlier(et.initial, timeout) {
            timeout := et.initial;
          }
        } else {
          if et.timeout.sec - now.sec < timeout.sec
             || (et.timeout.sec - now.sec == timeout.sec && et.timeout.usec - now.usec < timeout.usec) {
            if et.timeout.usec >= now.usec {
              timeout := TimeVal(et.timeout.sec - now.sec, et.timeout.usec - now.usec);
            } else {
              timeout := TimeVal(et.timeout.sec - now.sec - 1, now.usec - et.timeout.usec);
            }
          }
        }
        i := i + 1;
      }
      return 0;
    }

    /** _loop_io over the reads (reading) or the writes, with the ready fds. */
    method LoopIo(reading: bool, ready: set<int>, answer: (int, nat, nat) -> Outcome)
      modifies this
      ensures Now() == IoPass(old(Now()), reading, 0, ready, answer)
    {
      var i := 0;
      while i < |if reading then readIO else writeIO|
        invariant IoPass(old(Now()), reading, 0, ready, answer) == IoPass(Now(), reading, i, ready, answer)
        decreases |if reading then readIO else writeIO| - i
      {
        var e := if reading then readIO[i] else writeIO[i];
        if e.fd <= fdmax && e.fd in ready {
          var o := answer(e.fd, e.fn, e.data);
          if o.quit {
            LoopQuit();
          }
          if o.ret != 0 {
            ghost var n := |if reading then readIO else writeIO|;
            KeptShorter(if reading then readIO else writeIO, e.fd, i);
            var r;
            if reading {
              r := UnregisterIoRead(e.fd);
            } else {
              r := UnregisterIoWrite(e.fd);
            }
            assert |if reading then readIO else writeIO| < n;
            continue;
          }
        }
        i := i + 1;
      }
    }

    /** event_loop, with one wake per pass. */
    method Run(wakes: seq<Wake>, ta: (nat, nat) -> Outcome, ia: (int, nat, nat) -> Outcome) returns (ret: Option<int>)
      modifies this
      ensures (ret, Now()) == Loop(old(Now()), wakes, ta, ia)
    {
      var waiting := timeout != Never;
      var r, w := rfds, wfds;
      loop := loop + 1;
      var k := 0;
      while loop != 0 && (waiting || fdmax != -1)
        invariant k <= |wakes|
        invariant Loop(old(Now()), wakes, ta, ia) == Looped(Now(), waiting, r, w, wakes[k..], ta, ia)
        decreases |wakes| - k
      {
        if k == |wakes| {
          return None;
        }
        assert wakes[k..][1..] == wakes[k + 1..];
        if wakes[k].SelectFails? {
          return Some(-(wakes[k].errno as int));
        }
        ghost var before := Now();
        var failed := Wakes(wakes[k], r, w, ta, ia);
        if failed {
          return Some(-1);
        }
        assert Looped(before, waiting, r, w, wakes[k..], ta, ia)
            == Looped(Now(), timeout != Never, rfds, wfds, wakes[k + 1..], ta, ia);
        waiting := timeout != Never;
        r, w := rfds, wfds;
        k := k + 1;
      }
      ret := Some(0);
    }

    /** The body of event_loop's loop after a select() that succeeded:
        _loop_timeout, which fails when the clock does, then _loop_io over
        the reads and the writes. */
    method Wakes(wake: Wake, r: set<int>, w: set<int>, ta: (nat, nat) -> Outcome, ia: (int, nat, nat) -> Outcome)
      returns (failed: bool)
      requires wake.Woken?
      modifies this
      ensures failed == wake.clock.ClockFails?
      ensures failed ==> Now() == old(Now())
      ensures !failed ==> Now() == Pass(old(Now()), wake.clock.now, wake.rready * r, wake.wready * w, ta, ia)
    {
      var t := LoopTimeout(wake.clock, ta);
      if t != 0 {
        return true;
      }
      LoopIo(true, wake.rready * r, ia);
      LoopIo(false, wake.wready * w, ia);
      return false;
    }

  }

  /** The search-and-remove loop of _unregister_io: the entries kept, the
      largest fd among them (-1 for none), and whether one was removed. */
  method UnregisterIo(list: seq<EventIO>, fd: int) returns (kept: seq<EventIO>, fdmax: int, found: bool)
    ensures kept == Kept(list, fd) && fdmax == MaxFd(kept) && found == (|kept| < |list|)
  {
    kept := list;
    fdmax := -1;
    found := false;
    var i := 0;
    while i < |kept|
      invariant i <= |kept| <= |list|
      invariant Kept(list, fd) == kept[..i] + Kept(kept[i..], fd)
      invariant fdmax == MaxFd(kept[..i])
      invariant found == (|kept| < |list|)
      decreases |kept| - i
    {
      if kept[i].fd != fd {
        KeptStep(kept, i, fd);
        fdmax := Max(fdmax, kept[i].fd);
        i := i + 1;
      } else {
        KeptDrop(kept, i, fd);
        kept := kept[..i] + kept[i + 1..];
        found := true;
      }
    }
    assert kept[..i] == kept && kept[i..] == [] && [] + [] == Kept(kept[i..], fd);
  }

  /** One more kept entry in the loop of _unregister_io. */
  lemma {:induction false} KeptStep(l: seq<EventIO>, i: nat, fd: int)
    requires i < |l| && l[i].fd != fd
    ensures l[..i] + Kept(l[i..], fd) == l[..i + 1] + Kept(l[i + 1..], fd)
    ensures MaxFd(l[..i + 1]) == Max(MaxFd(l[..i]), l[i].fd)
  {
    assert l[i..][1..] == l[i + 1..] && l[..i + 1][..i] == l[..i] && l[..i + 1] == l[..i] + [l[i]];
  }

  /** A removed entry in the loop of _unregister_io. */
  lemma {:induction false} KeptDrop(l: seq<EventIO>, i: nat, fd: int)
    requires i < |l| && l[i].fd == fd
    ensures Kept(l[i..], fd) == Kept(l[i + 1..], fd)
    ensures (l[..i] + l[i + 1..])[..i] == l[..i] && (l[..i] + l[i + 1..])[i..] == l[i + 1..]
  {
    assert l[i..][1..] == l[i + 1..];
  }

  /** The removal loop of event_unregister_timeout: every timeout of `fn`
      leaves the list. */
  method UnregisterFn(ts: seq<EventTimeout>, fn: nat) returns (kept: seq<EventTimeout>)
    ensures kept == Unfn(ts, fn)
  {
    kept := ts;
    var i := 0;
    while i < |kept|
      invariant i <= |kept|
      invariant Unfn(ts, fn) == kept[..i] + Unfn(kept[i..], fn)
      decreases |kept| - i
    {
      if kept[i].fn != fn {
        UnfnStep(kept, i, fn);
        i := i + 1;
      } else {
        UnfnDrop(kept, i, fn);
        kept := kept[..i] + kept[i + 1..];
      }
    }
    assert kept[..i] == kept && kept[i..] == [] && [] + [] == Unfn(kept[i..], fn);
  }

  /** One more kept timeout in the loop of event_unregister_timeout. */
  lemma {:induction false} UnfnStep(ts: seq<EventTimeout>, i: nat, fn: nat)
    requires i < |ts| && ts[i].fn != fn
    ensures ts[..i] + Unfn(ts[i..], fn) == ts[..i + 1] + Unfn(ts[i + 1..], fn)
  {
    assert ts[i..][1..] == ts[i + 1..] && ts[..i + 1] == ts[..i] + [ts[i]];
  }

  /** A removed timeout in the loop of event_unregister_timeout. */
  lemma {:induction false} UnfnDrop(ts: seq<EventTimeout>, i: nat, fn: nat)
    requires i < |ts| && ts[i].fn == fn
    ensures Unfn(ts[i..], fn) == Unfn(ts[i + 1..], fn)
    ensures (ts[..i] + ts[i + 1..])[..i] == ts[..i] && (ts[..i] + ts[i + 1..])[i..] == ts[i + 1..]
  {
    assert ts[i..][1..] == ts[i + 1..];
  }

  /** The second loop of event_unregister_timeout: the wait recomputed at
      `now`. */
  method RewaitAll(ts: seq<EventTimeout>, now: TimeVal) returns (wait: TimeVal)
    ensures wait == Rewait(ts, 0, now, Never)
  {
    wait := Never;
    var j := 0;
    while j < |ts|
      invariant j <= |ts|
      invariant Rewait(ts, 0, now, Never) == Rewait(ts, j, now, wait)
    {
      var t := ts[j].timeout;
      if Earlier(t, wait) {
        if t.sec - now.sec < 0 {
          wait := TimeVal(0, 0);
          return;
        }
        wait := EntryWait(t, now);
      }
      j := j + 1;
    }
  }
}
