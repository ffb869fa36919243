/** Loading what config_save wrote (src/config.c:224-348 and 461-532): when no
    section name holds a ']' or a newline, no key is empty, starts with '#'
    or '[' or holds a '=' or a newline, and no value holds a newline, then
    loading the saved text into an empty configuration succeeds and every
    section holds every variable it held before, with the same value.
    Sections without variables are not written back (a header alone creates
    nothing when loaded), but they hold no value anyway. */
module ConfigRoundTrip {
  import opened Common
  import opened Hashes
  import Mutators
  import opened Configs

  predicate GoodKey(k: String) {
    |k| >= 1 && k[0] != '#' && k[0] != '[' && '=' !in k && '\n' !in k
  }

  predicate GoodName(n: String) {
    ']' !in n && '\n' !in n
  }

  predicate GoodValue(v: String) {
    '\n' !in v
  }

  predicate GoodItem(x: Item) {
    match x
    case Line(k, v) => GoodKey(k) && GoodValue(v)
    case Header(n) => GoodName(n)
  }

  /** The restrictions under which saving and loading agree. */
  predicate Storable(t: Sections) {
    forall i :: 0 <= i < |t| ==> GoodName(t[i].key) && forall j :: 0 <= j < |t[i].value| ==>
      GoodKey(t[i].value[j].key) && GoodValue(t[i].value[j].value)
  }

  // The saved text, read from the front: each line with its newline, each
  // header with the blank line before it unless it comes first.

  /** An item without any separator. */
  function Body(x: Item): seq<char> {
    match x
    case Line(k, v) => k + "=" + v
    case Header(n) => "[" + n + "]"
  }

  function Lead(x: Item, first: bool): seq<char> {
    if x.Header? && !first then "\n" else ""
  }

  function Piece(x: Item, first: bool): seq<char> {
    Lead(x, first) + Body(x) + "\n"
  }

  function Pieces(items: seq<Item>, first: bool): seq<char>
    decreases |items|
  {
    if items == [] then "" else Piece(items[0], first) + Pieces(items[1..], false)
  }

  lemma {:induction false} PiecesStep(a: seq<Item>, x: Item, first: bool)
    ensures Pieces(a + [x], first) == Pieces(a, first) + Piece(x, first && a == [])
    decreases |a|
  {
    if a == [] {
      assert [] + [x] == [x];
    } else {
      assert (a + [x])[1..] == a[1..] + [x];
      PiecesStep(a[1..], x, false);
    }
  }

  /** ItemText is the separator, then the body. */
  lemma {:induction false} ItemTextBody(x: Item, started: bool)
    ensures ItemText(x, started) == (if started then "\n" + Lead(x, false) else "") + Body(x)
  {
    match x
    case Line(k, v) =>
      assert ItemText(x, started) == (if started then "\n" else "") + (k + "=" + v);
    case Header(n) =>
      assert ItemText(x, started) == (if started then "\n" + "\n" else "") + ("[" + n + "]");
  }

  lemma {:induction false} Regroup(t: seq<char>, lead: seq<char>, body: seq<char>)
    ensures t + (("\n" + lead) + body) + "\n" == (t + "\n") + (lead + body + "\n")
  {
  }

  /** The text config_save builds with its separator, and one final newline,
      is the pieces read from the front. */
  lemma {:induction false} TextPieces(items: seq<Item>)
    requires items != []
    ensures Text(items) + "\n" == Pieces(items, true)
    decreases |items|
  {
    var a, x := items[..|items| - 1], items[|items| - 1];
    assert items == a + [x];
    PiecesStep(a, x, true);
    if a == [] {
      assert Text(items) == ItemText(x, false);
      TextFirst(x);
    } else {
      TextPieces(a);
      assert Text(items) == Text(a) + ItemText(x, true);
      TextLater(Text(a), x);
    }
  }

  /** The first item's text, and the final newline, is its piece. */
  lemma {:induction false} TextFirst(x: Item)
    ensures ItemText(x, false) + "\n" == Piece(x, true)
  {
    ItemTextBody(x, false);
  }

  /** A later item's text, with the separator before it and the final
      newline, is the newline ending the text so far and then its piece. */
  lemma {:induction false} TextLater(t: seq<char>, x: Item)
    ensures t + ItemText(x, true) + "\n" == (t + "\n") + Piece(x, false)
  {
    ItemTextBody(x, true);
    Regroup(t, Lead(x, false), Body(x));
  }

  lemma {:induction false} RenderPieces(t: Sections)
    ensures Render(t) == Pieces(Items(t), true)
  {
    if Items(t) != [] {
      TextPieces(Items(t));
    }
  }

  // What loading the items does, item by item.

  /** The table (and current section) after loading the items in order:
      each line through config_set, each header changing the section. */
  function Replay(items: seq<Item>, section: Option<String>, acc: Sections): (r: (Sections, Option<String>))
    requires TableOk(acc)
    ensures TableOk(r.0)
    decreases |items|
  {
    if items == [] then (acc, section)
    else
      match items[0]
      case Line(k, v) =>
        Replay(items[1..], section, Stored(acc, section, k, Some(v)))
      case Header(n) => Replay(items[1..], Some(n), acc)
  }

  lemma {:induction false} ReplayConcat(a: seq<Item>, b: seq<Item>, section: Option<String>, acc: Sections)
    requires TableOk(acc)
    ensures var m := Replay(a, section, acc);
      Replay(a + b, section, acc) == Replay(b, m.1, m.0)
    decreases |a|
  {
    if a == [] {
      assert a + b == b;
    } else {
      assert (a + b)[0] == a[0] && (a + b)[1..] == a[1..] + b;
      match a[0]
      case Line(k, v) =>
        ReplayConcat(a[1..], b, section, Stored(acc, section, k, Some(v)));
      case Header(n) =>
        ReplayConcat(a[1..], b, Some(n), acc);
    }
  }

  /** The text holds `p` from position `i` on. */
  ghost predicate HoldsAt(text: seq<char>, i: nat, p: seq<char>)
    decreases |p|
  {
    if |p| == 0 then i <= |text| else i < |text| && text[i] == p[0] && HoldsAt(text, i + 1, p[1..])
  }

  lemma {:induction false} HoldsAtChars(text: seq<char>, i: nat, p: seq<char>)
    ensures HoldsAt(text, i, p) <==> i + |p| <= |text| && forall m :: 0 <= m < |p| ==> text[i + m] == p[m]
    decreases |p|
  {
    if |p| > 0 {
      var q := p[1..];
      HoldsAtChars(text, i + 1, q);
      if HoldsAt(text, i, p) {
        forall m | 0 <= m < |p|
          ensures text[i + m] == p[m]
        {
          if m > 0 {
            assert text[i + 1 + (m - 1)] == q[m - 1];
          }
        }
      }
      if i + |p| <= |text| && forall m :: 0 <= m < |p| ==> text[i + m] == p[m] {
        assert text[i + 0] == p[0];
        forall m | 0 <= m < |q|
          ensures text[i + 1 + m] == q[m]
        {
          assert text[i + (m + 1)] == p[m + 1];
        }
      }
    }
  }

  lemma {:induction false} HoldsAtConcat(text: seq<char>, i: nat, a: seq<char>, b: seq<char>)
    ensures HoldsAt(text, i, a + b) <==> HoldsAt(text, i, a) && HoldsAt(text, i + |a|, b)
  {
    HoldsAtChars(text, i, a + b);
    HoldsAtChars(text, i, a);
    HoldsAtChars(text, i + |a|, b);
    if HoldsAt(text, i, a) && HoldsAt(text, i + |a|, b) {
      forall m | 0 <= m < |a + b|
        ensures text[i + m] == (a + b)[m]
      {
        if m >= |a| {
          assert text[i + |a| + (m - |a|)] == b[m - |a|];
        }
      }
    }
    if HoldsAt(text, i, a + b) {
      assert forall m :: 0 <= m < |a| ==> (a + b)[m] == a[m];
      forall m | 0 <= m < |b|
        ensures text[i + |a| + m] == b[m]
      {
        assert text[i + (|a| + m)] == (a + b)[|a| + m];
      }
    }
  }

  lemma {:induction false} HoldsAtWhole(text: seq<char>)
    ensures HoldsAt(text, 0, text)
  {
    HoldsAtChars(text, 0, text);
  }

  /** The run of printable characters other than `stop` ends at `j` when
      `stop` is there. */
  lemma {:induction false} SpanAt(text: seq<char>, i: nat, j: nat, stop: char)
    requires i <= j < |text| && text[j] == stop
    requires forall m :: i <= m < j ==> IsPrint(text[m]) && text[m] != stop
    ensures Span(text, i, stop) == j
  {
  }

  lemma {:induction false} FirstAndRest(p: seq<char>, s: seq<char>)
    requires |p| >= 1
    ensures (p + s)[0] == p[0] && (p + s)[1..] == p[1..] + s && [p[0]] + p[1..] == p
  {
  }

  lemma {:induction false} HoldsAtHead(text: seq<char>, i: nat, p: seq<char>)
    requires HoldsAt(text, i, p) && |p| >= 1
    ensures i < |text| && text[i] == p[0] && HoldsAt(text, i + 1, p[1..])
  {
  }

  lemma {:induction false} TailNotIn(p: seq<char>, c: char)
    requires |p| >= 1 && c !in p
    ensures c !in p[1..]
  {
  }

  /** A run the text holds at `i`, read back as a slice. */
  lemma {:induction false} RunAt(text: seq<char>, i: nat, p: seq<char>, stop: char)
    requires HoldsAt(text, i, p + [stop])
    requires stop !in p && '\n' !in p && '\0' !in p
    ensures i + |p| < |text| && text[i + |p|] == stop
    ensures Span(text, i, stop) == i + |p| && Run(text, i, i + |p|, stop) == p
  {
    HoldsAtChars(text, i, p + [stop]);
    assert text[i + |p|] == (p + [stop])[|p|];
    forall m | 0 <= m < |p|
      ensures text[i + m] == p[m]
    {
      assert text[i + m] == (p + [stop])[m];
    }
    forall m | i <= m < i + |p|
      ensures IsPrint(text[m]) && text[m] != stop
    {
      assert text[i + (m - i)] == p[m - i];
      assert p[m - i] in p;
    }
    SpanAt(text, i, i + |p|, stop);
    assert forall m :: 0 <= m < |p| ==> text[i..i + |p|][m] == p[m];
  }

  // What each reader returns once its run is known.

  lemma {:induction false} ReadSectionFrom(text: seq<char>, i: nat, k: nat)
    requires i <= k < |text| && Span(text, i, ']') == k && text[k] == ']'
    ensures ReadSection(text, i) == Some((Run(text, i, k, ']'), k + 1))
  {
  }

  lemma {:induction false} ReadVariableFrom(text: seq<char>, i: nat, c: char, k: nat)
    requires IsPrint(c) && i <= k < |text| && Span(text, i, '=') == k && text[k] == '='
    ensures ReadVariable(text, i, c) == Some(([c] + Run(text, i, k, '='), k + 1))
  {
  }

  lemma {:induction false} ReadValueFrom(text: seq<char>, i: nat, k: nat)
    requires i <= k < |text| && Span(text, i, '\n') == k && text[k] == '\n'
    ensures ReadValue(text, i) == Some((Run(text, i, k, '\n'), k + 1))
  {
  }

  /** The readers over a text that holds the expected run and its stop
      character. */
  lemma {:induction false} ReadSectionAt(text: seq<char>, i: nat, p: seq<char>, e: nat)
    requires HoldsAt(text, i, p + "]") && e == i + |p| + 1
    requires ']' !in p && '\n' !in p && '\0' !in p
    ensures ReadSection(text, i) == Some((p, e))
  {
    RunAt(text, i, p, ']');
    ReadSectionFrom(text, i, i + |p|);
  }

  /** Here `p` includes the first character, which the parser has already
      taken when it calls the reader. */
  lemma {:induction false} ReadVariableAt(text: seq<char>, i: nat, p: seq<char>, e: nat)
    requires HoldsAt(text, i, p + "=") && |p| >= 1 && e == i + |p| + 1
    requires '=' !in p && '\n' !in p && '\0' !in p
    ensures i < |text| && text[i] == p[0] && IsPrint(text[i])
    ensures ReadVariable(text, i + 1, text[i]) == Some((p, e))
  {
    var q := p[1..];
    FirstAndRest(p, "=");
    HoldsAtHead(text, i, p + "=");
    assert p[0] in p;
    TailNotIn(p, '=');
    TailNotIn(p, '\n');
    TailNotIn(p, '\0');
    RunAt(text, i + 1, q, '=');
    ReadVariableFrom(text, i + 1, text[i], i + |p|);
    assert i + 1 + |q| == i + |p|;
    assert Run(text, i + 1, i + |p|, '=') == q;
    assert [text[i]] + q == p;
    assert [text[i]] + Run(text, i + 1, i + |p|, '=') == p;
    var r := ReadVariable(text, i + 1, text[i]);
    assert r.Some?;
    assert r.value.0 == p;
    assert r.value.1 == e;
    SomePair(r, p, e);
  }

  lemma {:induction false} SomePair(r: Option<(String, nat)>, a: String, n: nat)
    requires r.Some? && r.value.0 == a && r.value.1 == n
    ensures r == Some((a, n))
  {
  }

  lemma {:induction false} ReadValueAt(text: seq<char>, i: nat, p: seq<char>, e: nat)
    requires HoldsAt(text, i, p + "\n") && e == i + |p| + 1
    requires '\n' !in p && '\0' !in p
    ensures ReadValue(text, i) == Some((p, e))
  {
    RunAt(text, i, p, '\n');
    ReadValueFrom(text, i, i + |p|);
  }

  /** Parse over one assignment line. */
  lemma {:induction false} ParseAssignment(text: seq<char>, i: nat, section: Option<String>, acc: Sections,
                        name: String, k: nat, value: String, e: nat)
    requires i < |text| && TableOk(acc)
    requires text[i] != '#' && text[i] != '[' && IsPrint(text[i])
    requires ReadVariable(text, i + 1, text[i]) == Some((name, k))
    requires ReadValue(text, k) == Some((value, e))
    ensures Parse(text, i, section, acc) == Parse(text, e, section, Stored(acc, section, name, Some(value)))
  {
  }

  /** Parse over one section header. */
  lemma {:induction false} ParseHeader(text: seq<char>, i: nat, section: Option<String>, acc: Sections, name: String, e: nat)
    requires i < |text| && TableOk(acc) && text[i] == '['
    requires ReadSection(text, i + 1) == Some((name, e))
    ensures Parse(text, i, section, acc) == Parse(text, e, Some(name), acc)
  {
  }

  /** Parse over an empty line. */
  lemma {:induction false} ParseNewline(text: seq<char>, i: nat, j: nat, section: Option<String>, acc: Sections)
    requires i < |text| && TableOk(acc) && text[i] == '\n' && j == i + 1
    ensures Parse(text, i, section, acc) == Parse(text, j, section, acc)
  {
  }

  /** The readers over an assignment line. */
  lemma {:induction false} LineReaders(text: seq<char>, i: nat, k: String, v: String, m: nat, e: nat)
    requires GoodKey(k) && GoodValue(v) && m == i + |k| + 1 && e == m + |v| + 1
    requires HoldsAt(text, i, k + "=") && HoldsAt(text, m, v + "\n")
    ensures i < |text| && text[i] != '#' && text[i] != '[' && IsPrint(text[i]) && m <= |text|
    ensures ReadVariable(text, i + 1, text[i]) == Some((k, m)) && ReadValue(text, m) == Some((v, e))
  {
    ReadVariableAt(text, i, k, m);
    ReadValueAt(text, m, v, e);
  }

  /** What the parser meets where the text holds an item's piece: the
      readers' results, and the characters it branches on. */
  ghost predicate LineAt(text: seq<char>, i: nat, k: String, v: String) {
    i < |text| && text[i] != '#' && text[i] != '[' && IsPrint(text[i]) && i + |k| + 1 <= |text|
    && ReadVariable(text, i + 1, text[i]) == Some((k, i + |k| + 1))
    && ReadValue(text, i + |k| + 1) == Some((v, i + |k| + |v| + 2))
  }

  ghost predicate HeaderAt(text: seq<char>, i: nat, n: String, first: bool) {
    var h := i + |Lead(Header(n), first)|;
    (!first ==> i < |text| && text[i] == '\n') && HeaderLineAt(text, h, n)
  }

  ghost predicate HeaderLineAt(text: seq<char>, h: nat, n: String) {
    h + |n| + 2 < |text| && text[h] == '[' && text[h + |n| + 2] == '\n'
    && ReadSection(text, h + 1) == Some((n, h + |n| + 2))
  }

  /** The text holds each item's piece in turn, up to its end. */
  ghost predicate HoldsAll(text: seq<char>, i: nat, items: seq<Item>, first: bool)
    decreases |items|
  {
    if items == [] then i == |text|
    else
      i <= |text| && GoodItem(items[0]) && HoldsAt(text, i, Piece(items[0], first))
      && HoldsAll(text, i + |Piece(items[0], first)|, items[1..], false)
  }

  lemma {:induction false} LineReads(text: seq<char>, i: nat, k: String, v: String, first: bool)
    requires GoodKey(k) && GoodValue(v) && HoldsAt(text, i, Piece(Line(k, v), first))
    ensures |Piece(Line(k, v), first)| == |k| + |v| + 2
    ensures LineAt(text, i, k, v)
  {
    assert Piece(Line(k, v), first) == (k + "=") + (v + "\n");
    HoldsAtConcat(text, i, k + "=", v + "\n");
    LineReaders(text, i, k, v, i + |k| + 1, i + |k| + |v| + 2);
  }

  lemma {:induction false} HeaderReaders(text: seq<char>, h: nat, n: String)
    requires GoodName(n) && HoldsAt(text, h, "[" + (n + "]") + "\n")
    ensures HeaderLineAt(text, h, n)
  {
    HoldsAtConcat(text, h, "[" + (n + "]"), "\n");
    HoldsAtConcat(text, h, "[", n + "]");
    HoldsAtHead(text, h, "[");
    HoldsAtHead(text, h + |n| + 2, "\n");
    ReadSectionAt(text, h + 1, n, h + |n| + 2);
  }

  lemma {:induction false} HeaderReads(text: seq<char>, i: nat, n: String, first: bool)
    requires GoodName(n) && HoldsAt(text, i, Piece(Header(n), first))
    ensures |Piece(Header(n), first)| == |Lead(Header(n), first)| + |n| + 3
    ensures HeaderAt(text, i, n, first)
  {
    var lead := Lead(Header(n), first);
    assert Piece(Header(n), first) == lead + ("[" + (n + "]") + "\n");
    HoldsAtConcat(text, i, lead, "[" + (n + "]") + "\n");
    if !first {
      HoldsAtHead(text, i, lead);
    }
    HeaderReaders(text, i + |lead|, n);
  }

  /** Where the text holds two runs one after the other, it holds each. */
  lemma {:induction false} HoldsAtSplit(text: seq<char>, i: nat, p: seq<char>, a: seq<char>, b: seq<char>)
    requires p == a + b && HoldsAt(text, i, p)
    ensures HoldsAt(text, i, a) && HoldsAt(text, i + |a|, b) && |p| == |a| + |b|
  {
    HoldsAtConcat(text, i, a, b);
  }

  /** A text holding the saved pieces from `i` to its end holds each of them. */
  lemma {:induction false} PiecesHoldAll(text: seq<char>, i: nat, items: seq<Item>, first: bool)
    requires HoldsAt(text, i, Pieces(items, first)) && i + |Pieces(items, first)| == |text|
    requires forall k :: 0 <= k < |items| ==> GoodItem(items[k])
    ensures HoldsAll(text, i, items, first)
    decreases |items|
  {
    if items == [] {
      assert Pieces(items, first) == [];
    } else {
      var e := i + |Piece(items[0], first)|;
      assert Pieces(items, first) == Piece(items[0], first) + Pieces(items[1..], false);
      HoldsAtSplit(text, i, Pieces(items, first), Piece(items[0], first), Pieces(items[1..], false));
      var rest := items[1..];
      assert forall k :: 0 <= k < |rest| ==> rest[k] == items[k + 1];
      PiecesHoldAll(text, e, rest, false);
      assert GoodItem(items[0]);
    }
  }

  /** Parse over one assignment line. */
  lemma {:induction false} LineStep(text: seq<char>, i: nat, k: String, v: String,
                                    section: Option<String>, acc: Sections, e: nat)
    requires TableOk(acc) && LineAt(text, i, k, v) && e == i + |k| + |v| + 2 && e <= |text|
    ensures Parse(text, i, section, acc) == Parse(text, e, section, Stored(acc, section, k, Some(v)))
  {
    ParseAssignment(text, i, section, acc, k, i + |k| + 1, v, e);
  }

  /** Parse over a header line. */
  lemma {:induction false} HeaderLine(text: seq<char>, h: nat, n: String, section: Option<String>, acc: Sections, e: nat)
    requires TableOk(acc) && HeaderLineAt(text, h, n) && e == h + |n| + 3
    ensures Parse(text, h, section, acc) == Parse(text, e, Some(n), acc)
  {
    ParseHeader(text, h, section, acc, n, h + |n| + 2);
    ParseNewline(text, h + |n| + 2, e, Some(n), acc);
  }

  /** Parse over a header with the blank line before it. */
  lemma {:induction false} HeaderStep(text: seq<char>, i: nat, n: String, first: bool,
                                      section: Option<String>, acc: Sections, e: nat)
    requires TableOk(acc) && HeaderAt(text, i, n, first) && e == i + |Lead(Header(n), first)| + |n| + 3
    ensures Parse(text, i, section, acc) == Parse(text, e, Some(n), acc)
  {
    if first {
      assert Lead(Header(n), first) == "";
      HeaderLine(text, i, n, section, acc, e);
    } else {
      assert Lead(Header(n), first) == "\n";
      BlankThenHeader(text, i, n, section, acc, e);
    }
  }

  /** Parse over the blank line before a header and the header line. */
  lemma {:induction false} BlankThenHeader(text: seq<char>, i: nat, n: String,
                                           section: Option<String>, acc: Sections, e: nat)
    requires TableOk(acc) && i < |text| && text[i] == '\n'
    requires HeaderLineAt(text, i + 1, n) && e == i + |n| + 4
    ensures Parse(text, i, section, acc) == Parse(text, e, Some(n), acc)
  {
    ParseNewline(text, i, i + 1, section, acc);
    HeaderLine(text, i + 1, n, section, acc, e);
  }

  /** Loading an assignment line stores it. */
  lemma {:induction false} LineParses(text: seq<char>, i: nat, k: String, v: String, first: bool,
                                      section: Option<String>, acc: Sections, e: nat)
    requires TableOk(acc) && GoodKey(k) && GoodValue(v) && HoldsAt(text, i, Piece(Line(k, v), first))
    requires e == i + |Piece(Line(k, v), first)| && e <= |text|
    ensures Parse(text, i, section, acc) == Parse(text, e, section, Stored(acc, section, k, Some(v)))
  {
    LineReads(text, i, k, v, first);
    LineStep(text, i, k, v, section, acc, e);
  }

  /** Loading a header, with the blank line before it, changes the section. */
  lemma {:induction false} HeaderParses(text: seq<char>, i: nat, n: String, first: bool,
                                        section: Option<String>, acc: Sections, e: nat)
    requires TableOk(acc) && GoodName(n) && HoldsAt(text, i, Piece(Header(n), first))
    requires e == i + |Piece(Header(n), first)| && e <= |text|
    ensures Parse(text, i, section, acc) == Parse(text, e, Some(n), acc)
  {
    HeaderReads(text, i, n, first);
    HeaderStep(text, i, n, first, section, acc, e);
  }

  lemma {:induction false} HoldsAllTail(text: seq<char>, i: nat, items: seq<Item>, first: bool)
    requires items != [] && HoldsAll(text, i, items, first)
    ensures GoodItem(items[0]) && HoldsAt(text, i, Piece(items[0], first))
    ensures i + |Piece(items[0], first)| <= |text|
    ensures HoldsAll(text, i + |Piece(items[0], first)|, items[1..], false)
  {
  }

  /** Loading a text that holds the pieces of `items` replays them. */
  lemma {:induction false} ParsePieces(text: seq<char>, i: nat, items: seq<Item>, first: bool,
                                       section: Option<String>, acc: Sections)
    requires TableOk(acc) && HoldsAll(text, i, items, first)
    ensures Parse(text, i, section, acc) == (Replay(items, section, acc).0, 0)
    decreases |items|
  {
    if items != [] {
      var x, e := items[0], i + |Piece(items[0], first)|;
      HoldsAllTail(text, i, items, first);
      match x
      case Line(k, v) =>
        ParsePieces(text, e, items[1..], false, section, Stored(acc, section, k, Some(v)));
        LineParses(text, i, k, v, first, section, acc, e);
      case Header(n) =>
        ParsePieces(text, e, items[1..], false, Some(n), acc);
        HeaderParses(text, i, n, first, section, acc, e);
    }
  }

  // The values the replayed table holds.

  /** In a well-formed string table, the value at an entry's key is that
      entry's value. */
  lemma {:induction false} ValueAt<V>(entries: seq<Entry<String, V>>, i: nat)
    requires WellFormed(entries, Some(HashString), CompareString) && i < |entries|
    ensures Mutators.Value(entries, entries[i].key) == Some(entries[i].value)
  {
    Mutators.DistinctKeys(entries);
  }

  /** Dropping the first entry of a well-formed table keeps it well formed,
      and the dropped key is held nowhere else. */
  lemma {:induction false} TailWellFormed<V>(entries: seq<Entry<String, V>>)
    requires WellFormed(entries, Some(HashString), CompareString) && |entries| > 0
    ensures WellFormed(entries[1..], Some(HashString), CompareString)
    ensures Mutators.Value(entries[1..], entries[0].key).None?
  {
    var tail := entries[1..];
    assert forall i :: 0 <= i < |tail| ==> tail[i] == entries[i + 1];
    Mutators.DistinctKeys(entries);
  }

  /** A key other than the first one's has the same value with or without
      the first entry. */
  lemma {:induction false} ValueDrop<V>(full: seq<Entry<String, V>>, tail: seq<Entry<String, V>>, key: String)
    requires WellFormed(full, Some(HashString), CompareString) && WellFormed(tail, Some(HashString), CompareString)
    requires |full| == |tail| + 1 && forall i :: 0 <= i < |tail| ==> tail[i] == full[i + 1]
    requires key != full[0].key
    ensures Mutators.Value(full, key) == Mutators.Value(tail, key)
  {
    var r := Mutators.Value(tail, key);
    if r.Some? {
      var j :| 0 <= j < |tail| && tail[j].key == key && tail[j].value == r.value;
      ValueAt(full, j + 1);
    } else {
      forall m | 0 < m < |full|
        ensures full[m].key != key
      {
        assert tail[m - 1] == full[m];
      }
    }
  }

  /** The value at a key of a well-formed table, read from its first entry
      and the rest. */
  lemma {:induction false} ValueTail<V>(entries: seq<Entry<String, V>>, key: String)
    requires WellFormed(entries, Some(HashString), CompareString) && |entries| > 0
    ensures WellFormed(entries[1..], Some(HashString), CompareString)
    ensures Mutators.Value(entries, key)
            == if key == entries[0].key then Some(entries[0].value) else Mutators.Value(entries[1..], key)
  {
    TailWellFormed(entries);
    if key == entries[0].key {
      ValueAt(entries, 0);
    } else {
      var tail := entries[1..];
      assert forall i :: 0 <= i < |tail| ==> tail[i] == entries[i + 1];
      ValueDrop(entries, tail, key);
    }
  }

  /** The first `n` - 1 entries of a well-formed prefix are well formed. */
  lemma {:induction false} PrefixWellFormed<V>(entries: seq<Entry<String, V>>, n: nat)
    requires 0 < n <= |entries| && WellFormed(entries[..n], Some(HashString), CompareString)
    ensures WellFormed(entries[..n - 1], Some(HashString), CompareString)
  {
    var full, init := entries[..n], entries[..n - 1];
    assert forall i :: 0 <= i < |init| ==> init[i] == full[i];
  }

  /** The key of the `n`th entry is not among the ones before it. */
  lemma {:induction false} PrefixLastAbsent<V>(entries: seq<Entry<String, V>>, n: nat)
    requires 0 < n <= |entries| && WellFormed(entries[..n], Some(HashString), CompareString)
    ensures WellFormed(entries[..n - 1], Some(HashString), CompareString)
    ensures Mutators.Value(entries[..n - 1], entries[n - 1].key).None?
  {
    var full, init := entries[..n], entries[..n - 1];
    PrefixWellFormed(entries, n);
    Mutators.DistinctKeys(full);
    assert full[n - 1] == entries[n - 1];
    assert forall i :: 0 <= i < |init| ==> init[i] == full[i];
  }

  /** A key other than the last one's has the same value with or without
      the last entry. */
  lemma {:induction false} ValueInit<V>(full: seq<Entry<String, V>>, init: seq<Entry<String, V>>, key: String)
    requires WellFormed(full, Some(HashString), CompareString) && WellFormed(init, Some(HashString), CompareString)
    requires |full| == |init| + 1 && forall i :: 0 <= i < |init| ==> init[i] == full[i]
    requires key != full[|init|].key
    ensures Mutators.Value(full, key) == Mutators.Value(init, key)
  {
    var r := Mutators.Value(init, key);
    if r.Some? {
      var j :| 0 <= j < |init| && init[j].key == key && init[j].value == r.value;
      ValueAt(full, j);
    }
  }

  /** The value at a key of the first `n` entries of a table, read from the
      `n`th entry and the ones before it. */
  lemma {:induction false} ValuePrefix<V>(entries: seq<Entry<String, V>>, n: nat, key: String)
    requires 0 < n <= |entries| && WellFormed(entries[..n], Some(HashString), CompareString)
    ensures WellFormed(entries[..n - 1], Some(HashString), CompareString)
    ensures Mutators.Value(entries[..n], key)
            == if key == entries[n - 1].key then Some(entries[n - 1].value) else Mutators.Value(entries[..n - 1], key)
  {
    var full, init := entries[..n], entries[..n - 1];
    PrefixWellFormed(entries, n);
    assert full[n - 1] == entries[n - 1];
    if key == full[n - 1].key {
      ValueAt(full, n - 1);
    } else {
      assert forall i :: 0 <= i < |init| ==> init[i] == full[i];
      ValueInit(full, init, key);
    }
  }

  /** The sections of the first `n` sections of a table, read from the
      `n`th and the ones before it. */
  lemma {:induction false} SectionsPrefix(t: Sections, n: nat, name: String)
    requires 0 < n <= |t| && TableOk(t[..n])
    ensures TableOk(t[..n - 1]) && WellFormed(t[n - 1].value, Some(HashString), CompareString)
    ensures SectionOf(t[..n - 1], t[n - 1].key).None?
    ensures SectionOf(t[..n], name) == if name == t[n - 1].key then Some(t[n - 1].value) else SectionOf(t[..n - 1], name)
  {
    var full, init := t[..n], t[..n - 1];
    ValuePrefix(t, n, name);
    PrefixLastAbsent(t, n);
    assert full[n - 1] == t[n - 1];
    forall i | 0 <= i < |init|
      ensures WellFormed(init[i].value, Some(HashString), CompareString)
    {
      assert init[i] == full[i];
    }
  }

  /** A variable of the first `n` sections, read from the `n`th section and
      the ones before it. */
  lemma {:induction false} ValueOfPrefix(t: Sections, n: nat, s: String, v: String)
    requires 0 < n <= |t| && TableOk(t[..n])
    ensures TableOk(t[..n - 1]) && WellFormed(t[n - 1].value, Some(HashString), CompareString)
    ensures ValueOf(t[..n], Some(s), v)
            == if s == t[n - 1].key then Mutators.Value(t[n - 1].value, v) else ValueOf(t[..n - 1], Some(s), v)
    ensures s == t[n - 1].key ==> ValueOf(t[..n - 1], Some(s), v).None?
  {
    SectionsPrefix(t, n, s);
  }

  /** A header followed by the lines of a well-formed section. */
  lemma {:induction false} ReplayHeaderLines(name: String, vars: Variables, section: Option<String>, acc: Sections, s: String, v: String)
    requires WellFormed(vars, Some(HashString), CompareString) && TableOk(acc)
    ensures ValueOf(Replay([Header(name)] + Lines(vars), section, acc).0, Some(s), v)
            == if s == name && Mutators.Value(vars, v).Some? then Mutators.Value(vars, v)
               else ValueOf(acc, Some(s), v)
  {
    var h := [Header(name)] + Lines(vars);
    assert h[0] == Header(name) && h[1..] == Lines(vars);
    ReplayLines(vars, Some(name), acc, s, v);
  }

  /** Items without headers leave the section where it was. */
  lemma {:induction false} ReplayKeepsSection(items: seq<Item>, section: Option<String>, acc: Sections)
    requires TableOk(acc) && forall k :: 0 <= k < |items| ==> items[k].Line?
    ensures Replay(items, section, acc).1 == section
    decreases |items|
  {
    if items != [] {
      var x := items[0];
      assert x.Line?;
      ReplayKeepsSection(items[1..], section, Stored(acc, section, x.key, Some(x.value)));
    }
  }

  lemma {:induction false} DefaultLines(t: Sections, n: nat)
    requires n <= |t|
    ensures forall k :: 0 <= k < |DefaultItems(t, n)| ==> DefaultItems(t, n)[k].Line?
    decreases n
  {
    if n > 0 {
      DefaultLines(t, n - 1);
    }
  }

  /** Loading the lines of a well-formed section, in section `section`,
      gives each of its keys its value there and changes nothing else. */
  lemma {:induction false} ReplayLines(vars: Variables, section: Option<String>, acc: Sections, s: String, v: String)
    requires WellFormed(vars, Some(HashString), CompareString) && TableOk(acc)
    ensures ValueOf(Replay(Lines(vars), section, acc).0, Some(s), v)
            == if s == SectionName(section) && Mutators.Value(vars, v).Some? then Mutators.Value(vars, v)
               else ValueOf(acc, Some(s), v)
    decreases |vars|
  {
    if vars == [] {
      assert Lines(vars) == [];
    } else {
      var k0, v0 := vars[0].key, vars[0].value;
      assert Lines(vars)[0] == Line(k0, v0) && Lines(vars)[1..] == Lines(vars[1..]);
      var acc1 := Stored(acc, section, k0, Some(v0));
      TailWellFormed(vars);
      ReplayLines(vars[1..], section, acc1, s, v);
      ValueTail(vars, v);
      StoredGet(acc, section, k0, Some(v0));
    }
  }

  /** The first pass over the first `n` sections: the default section's
      variables, and nothing else. */
  lemma {:induction false} ReplayDefault(t: Sections, n: nat, acc: Sections, s: String, v: String)
    requires n <= |t| && TableOk(t[..n]) && TableOk(acc)
    ensures ValueOf(Replay(DefaultItems(t, n), None, acc).0, Some(s), v)
            == if s == "" && ValueOf(t[..n], Some(""), v).Some? then ValueOf(t[..n], Some(""), v)
               else ValueOf(acc, Some(s), v)
    decreases n
  {
    if n > 0 {
      var last := t[n - 1];
      SectionsPrefix(t, n, "");
      ReplayDefault(t, n - 1, acc, s, v);
      if last.key == "" {
        var m := Replay(DefaultItems(t, n - 1), None, acc);
        DefaultLines(t, n - 1);
        ReplayKeepsSection(DefaultItems(t, n - 1), None, acc);
        ReplayConcat(DefaultItems(t, n - 1), Lines(last.value), None, acc);
        ReplayLines(last.value, None, m.0, s, v);
      } else {
        assert DefaultItems(t, n) == DefaultItems(t, n - 1) + [] == DefaultItems(t, n - 1);
      }
    }
  }

  /** The second pass over the first `n` sections: every named section's
      variables, each after its header, and nothing else. */
  lemma {:induction false} ReplayNamed(t: Sections, n: nat, section: Option<String>, acc: Sections, s: String, v: String)
    requires n <= |t| && TableOk(t[..n]) && TableOk(acc)
    ensures ValueOf(Replay(NamedItems(t, n), section, acc).0, Some(s), v)
            == if s != "" && ValueOf(t[..n], Some(s), v).Some? then ValueOf(t[..n], Some(s), v)
               else ValueOf(acc, Some(s), v)
    decreases n
  {
    if n > 0 {
      PrefixOk(t, n);
      ReplayNamed(t, n - 1, section, acc, s, v);
      if t[n - 1].key != "" {
        NamedSection(t, n, section, acc, s, v);
      } else {
        NamedSkip(t, n, section, acc, s, v);
      }
    }
  }

  lemma {:induction false} PrefixOk(t: Sections, n: nat)
    requires 0 < n <= |t| && TableOk(t[..n])
    ensures TableOk(t[..n - 1])
  {
    SectionsPrefix(t, n, "");
  }

  /** A named section: its header, then its lines. */
  lemma {:induction false} NamedSection(t: Sections, n: nat, section: Option<String>, acc: Sections, s: String, v: String)
    requires 0 < n <= |t| && TableOk(t[..n]) && TableOk(t[..n - 1]) && TableOk(acc) && t[n - 1].key != ""
    requires ValueOf(Replay(NamedItems(t, n - 1), section, acc).0, Some(s), v)
             == if s != "" && ValueOf(t[..n - 1], Some(s), v).Some? then ValueOf(t[..n - 1], Some(s), v)
                else ValueOf(acc, Some(s), v)
    ensures ValueOf(Replay(NamedItems(t, n), section, acc).0, Some(s), v)
            == if s != "" && ValueOf(t[..n], Some(s), v).Some? then ValueOf(t[..n], Some(s), v)
               else ValueOf(acc, Some(s), v)
  {
    var last := t[n - 1];
    var m := Replay(NamedItems(t, n - 1), section, acc);
    ValueOfPrefix(t, n, s, v);
    ReplayConcat(NamedItems(t, n - 1), [Header(last.key)] + Lines(last.value), section, acc);
    ReplayHeaderLines(last.key, last.value, m.1, m.0, s, v);
  }

  /** The default section is not written in the second pass. */
  lemma {:induction false} NamedSkip(t: Sections, n: nat, section: Option<String>, acc: Sections, s: String, v: String)
    requires 0 < n <= |t| && TableOk(t[..n]) && TableOk(t[..n - 1]) && TableOk(acc) && t[n - 1].key == ""
    requires ValueOf(Replay(NamedItems(t, n - 1), section, acc).0, Some(s), v)
             == if s != "" && ValueOf(t[..n - 1], Some(s), v).Some? then ValueOf(t[..n - 1], Some(s), v)
                else ValueOf(acc, Some(s), v)
    ensures ValueOf(Replay(NamedItems(t, n), section, acc).0, Some(s), v)
            == if s != "" && ValueOf(t[..n], Some(s), v).Some? then ValueOf(t[..n], Some(s), v)
               else ValueOf(acc, Some(s), v)
  {
    assert NamedItems(t, n) == NamedItems(t, n - 1) + [] == NamedItems(t, n - 1);
    ValueOfPrefix(t, n, s, v);
  }

  lemma {:induction false} ItemsGood(t: Sections, n: nat)
    requires Storable(t) && n <= |t|
    ensures forall k :: 0 <= k < |DefaultItems(t, n)| ==> GoodItem(DefaultItems(t, n)[k])
    ensures forall k :: 0 <= k < |NamedItems(t, n)| ==> GoodItem(NamedItems(t, n)[k])
    decreases n
  {
    if n > 0 {
      ItemsGood(t, n - 1);
    }
  }

  /** Saving then loading into an empty configuration succeeds and every
      section holds what it held. */
  lemma {:induction false} RoundTrip(t: Sections)
    requires TableOk(t) && Storable(t)
    ensures var r := Parse(Render(t), 0, None, []);
      r.1 == 0 && forall s, v :: ValueOf(r.0, Some(s), v) == ValueOf(t, Some(s), v)
  {
    var text := Render(t);
    var d, named := DefaultItems(t, |t|), NamedItems(t, |t|);
    RenderPieces(t);
    ItemsGood(t, |t|);
    var items := Items(t);
    assert forall k :: 0 <= k < |items| ==> GoodItem(items[k]) by {
      forall k | 0 <= k < |items|
        ensures GoodItem(items[k])
      {
        if k >= |d| {
          assert items[k] == named[k - |d|];
        }
      }
    }
    HoldsAtWhole(text);
    PiecesHoldAll(text, 0, items, true);
    ParsePieces(text, 0, items, true, None, []);
    assert t[..|t|] == t;
    ReplayConcat(d, named, None, []);
    var m := Replay(d, None, []);
    forall s, v
      ensures ValueOf(Replay(items, None, []).0, Some(s), v) == ValueOf(t, Some(s), v)
    {
      ReplayDefault(t, |t|, [], s, v);
      ReplayNamed(t, |t|, m.1, m.0, s, v);
    }
  }
}
