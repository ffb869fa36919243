/** The configuration store (src/config.c): a mutator from section names to
    mutators from variable names to string values. The table is kept here as
    the entry lists of those mutators, the outer one holding the inner ones
    as values, with the hash table's own functions describing every change.
    Files are their contents; opening one either fails with an errno or
    yields its text. */
module Configs {
  import opened Common
  import opened Hashes
  import Strings
  import Mutators
  import Arrays

  /** The variables of one section, and the sections of a configuration. */
  type Variables = seq<Entry<String, String>>
  type Sections = seq<Entry<String, Variables>>

  /** Both levels are well-formed string-keyed tables. */
  ghost predicate TableOk(t: Sections) {
    WellFormed(t, Some(HashString), CompareString)
    && forall i :: 0 <= i < |t| ==> WellFormed(t[i].value, Some(HashString), CompareString)
  }

  /** The section config_get and config_set use: NULL stands for "". */
  function SectionName(section: Option<String>): String {
    if section.None? then "" else section.value
  }

  /** The variables of a section, or NULL when it does not exist. */
  function SectionOf(t: Sections, name: String): (r: Option<Variables>)
    requires TableOk(t)
    ensures r.Some? ==> WellFormed(r.value, Some(HashString), CompareString)
  {
    Mutators.Value(t, name)
  }

  /** config_get: NULL for a missing section or variable, the value otherwise. */
  function ValueOf(t: Sections, section: Option<String>, variable: String): (r: Option<String>)
    requires TableOk(t)
    ensures r.Some? <==>
      exists i, j :: 0 <= i < |t| && 0 <= j < |t[i].value| && t[i].key == SectionName(section) && t[i].value[j].key == variable
  {
    var s := SectionOf(t, SectionName(section));
    if s.None? then None else Mutators.Value(s.value, variable)
  }

  /** The table after config_set(section, variable, value) with a non-empty
      variable. A missing section is created, even for a NULL value; a NULL
      value for a missing variable of an existing section changes nothing;
      otherwise the variable gets the value, or is removed for NULL. */
  function Stored(t: Sections, section: Option<String>, variable: String, value: Option<String>): (r: Sections)
    requires TableOk(t)
    ensures TableOk(r)
  {
    var s := SectionName(section);
    var vars := SectionOf(t, s);
    var before := if vars.None? then [] else vars.value;
    if vars.Some? && Mutators.Value(before, variable).None? && value.None? then t
    else
      var inner := Assigned(before, HashString(variable), variable, value, CompareString);
      Mutators.AssignedValue(before, variable, value);
      AssignedSection(t, s, inner);
      Assigned(t, HashString(s), s, Some(inner), CompareString)
  }

  /** Replacing the variables of section `s` keeps both levels well formed,
      gives `s` those variables and leaves every other section as it was. */
  lemma {:induction false} AssignedSection(t: Sections, s: String, vars: Variables)
    requires TableOk(t) && WellFormed(vars, Some(HashString), CompareString)
    ensures var r := Assigned(t, HashString(s), s, Some(vars), CompareString);
      TableOk(r)
      && forall name :: SectionOf(r, name) == if name == s then Some(vars) else SectionOf(t, name)
  {
    var r := Assigned(t, HashString(s), s, Some(vars), CompareString);
    AssignedWellFormed(t, Some(HashString), CompareString, s, Some(vars));
    var i := FirstMatch(t, HashString(s), s, CompareString);
    forall k | 0 <= k < |r|
      ensures WellFormed(r[k].value, Some(HashString), CompareString)
    {
      if i < 0 && k < |t| {
        assert r[k] == (t + [Entry(HashString(s), s, vars)])[k] == t[k];
      } else if k != i && k < |t| {
        assert r[k] == t[k];
      }
    }
    Mutators.AssignedValue(t, s, Some(vars));
  }

  /** The variables section `s` holds after config_set(s, variable, value). */
  lemma {:induction false} StoredSection(t: Sections, section: Option<String>, variable: String, value: Option<String>)
    requires TableOk(t)
    ensures var s := SectionName(section);
      var r := Stored(t, section, variable, value);
      var vars := SectionOf(t, s);
      var before := if vars.None? then [] else vars.value;
      TableOk(r)
      && SectionOf(r, s) == Some(if vars.Some? && Mutators.Value(before, variable).None? && value.None? then before
                                 else Assigned(before, HashString(variable), variable, value, CompareString))
      && forall name :: name != s ==> SectionOf(r, name) == SectionOf(t, name)
  {
    var s := SectionName(section);
    var vars := SectionOf(t, s);
    var before := if vars.None? then [] else vars.value;
    Mutators.AssignedValue(before, variable, value);
    if !(vars.Some? && Mutators.Value(before, variable).None? && value.None?) {
      AssignedSection(t, s, Assigned(before, HashString(variable), variable, value, CompareString));
    }
  }

  /** Setting then getting (tests/config.c): after config_set the variable
      holds the value (none for NULL, and "" is a value), every other
      variable of every section is unchanged, the section exists, and the
      table stays well formed. */
  lemma {:induction false} StoredGet(t: Sections, section: Option<String>, variable: String, value: Option<String>)
    requires TableOk(t)
    ensures var r := Stored(t, section, variable, value);
      TableOk(r) && SectionOf(r, SectionName(section)).Some?
      && ValueOf(r, section, variable) == value
      && forall s, v :: (s != SectionName(section) || v != variable) ==> ValueOf(r, Some(s), v) == ValueOf(t, Some(s), v)
  {
    var r := Stored(t, section, variable, value);
    StoredGetSame(t, section, variable, value);
    forall s, v | s != SectionName(section) || v != variable
      ensures ValueOf(r, Some(s), v) == ValueOf(t, Some(s), v)
    {
      StoredGetOther(t, section, variable, value, s, v);
    }
  }

  /** After config_set the variable holds the value, in a section that exists. */
  lemma {:induction false} StoredGetSame(t: Sections, section: Option<String>, variable: String, value: Option<String>)
    requires TableOk(t)
    ensures var r := Stored(t, section, variable, value);
      SectionOf(r, SectionName(section)).Some? && ValueOf(r, section, variable) == value
  {
    var vars := SectionOf(t, SectionName(section));
    var before := if vars.None? then [] else vars.value;
    StoredSection(t, section, variable, value);
    Mutators.AssignedValue(before, variable, value);
  }

  /** After config_set every other variable holds what it held. */
  lemma {:induction false} StoredGetOther(t: Sections, section: Option<String>, variable: String, value: Option<String>,
                                          s: String, v: String)
    requires TableOk(t) && (s != SectionName(section) || v != variable)
    ensures ValueOf(Stored(t, section, variable, value), Some(s), v) == ValueOf(t, Some(s), v)
  {
    StoredSection(t, section, variable, value);
    if s == SectionName(section) {
      var vars := SectionOf(t, s);
      var before := if vars.None? then [] else vars.value;
      Mutators.AssignedValue(before, variable, value);
      assert vars.None? ==> Mutators.Value(before, v) == None;
    }
  }

  function Names(t: Sections): (r: seq<String>)
    ensures |r| == |t| && forall i :: 0 <= i < |t| ==> r[i] == t[i].key
  {
    seq(|t|, i requires 0 <= i < |t| => t[i].key)
  }

  // Loading (src/config.c:210-348). The text is read character by character;
  // the end of the text is EOF.

  /** _load_isprint on a character: neither a newline nor NUL. */
  predicate IsPrint(c: char) {
    c != '\n' && c != '\0'
  }

  /** The end of the run from `i` of printable characters other than `stop`. */
  function Span(text: seq<char>, i: nat, stop: char): (k: nat)
    requires i <= |text|
    ensures i <= k <= |text|
    ensures forall j :: i <= j < k ==> IsPrint(text[j]) && text[j] != stop
    ensures k < |text| ==> !IsPrint(text[k]) || text[k] == stop
    decreases |text| - i
  {
    if i == |text| || !IsPrint(text[i]) || text[i] == stop then i else Span(text, i + 1, stop)
  }

  /** A run of printable characters is a string. */
  function Run(text: seq<char>, i: nat, k: nat, stop: char): (r: String)
    requires i <= |text| && k == Span(text, i, stop)
    ensures r == text[i..k]
  {
    assert forall j :: 0 <= j < k - i ==> text[i..k][j] == text[i + j];
    text[i..k]
  }

  /** _load_section after the '[': the name up to the ']' and the position
      after it, or nothing when a newline, NUL or the end comes first. */
  function ReadSection(text: seq<char>, i: nat): (r: Option<(String, nat)>)
    requires i <= |text|
    ensures r.Some? ==>
      var (name, k) := r.value;
      k == i + |name| + 1 <= |text| && text[i..k - 1] == name && text[k - 1] == ']' && ']' !in name
    ensures r.None? ==>
      exists j :: i <= j <= |text| && (j == |text| || !IsPrint(text[j])) && ']' !in text[i..j]
  {
    var k := Span(text, i, ']');
    if k < |text| && text[k] == ']' then Some((Run(text, i, k, ']'), k + 1))
    else
      assert ']' !in text[i..k] by {
        assert forall j :: 0 <= j < k - i ==> text[i..k][j] == text[i + j];
      }
      None
  }

  /** _load_variable after its first character `c`: the name up to the '='
      and the position after it, or nothing when a newline, NUL or the end
      comes first. */
  function ReadVariable(text: seq<char>, i: nat, c: char): (r: Option<(String, nat)>)
    requires i <= |text| && IsPrint(c)
    ensures r.Some? ==>
      var (name, k) := r.value;
      |name| >= 1 && k == i + |name| <= |text| && name == [c] + text[i..k - 1] && text[k - 1] == '='
      && '=' !in name[1..]
    ensures r.None? ==>
      exists j :: i <= j <= |text| && (j == |text| || !IsPrint(text[j])) && '=' !in text[i..j]
  {
    var k := Span(text, i, '=');
    if k < |text| && text[k] == '=' then Some(([c] + Run(text, i, k, '='), k + 1))
    else
      assert '=' !in text[i..k] by {
        assert forall j :: 0 <= j < k - i ==> text[i..k][j] == text[i + j];
      }
      None
  }

  /** _load_value: the rest of the line, with the position after its newline
      (or the end of the text); nothing when a NUL comes first. */
  function ReadValue(text: seq<char>, i: nat): (r: Option<(String, nat)>)
    requires i <= |text|
    ensures r.Some? ==>
      var (value, k) := r.value;
      '\n' !in value && i + |value| <= |text| && text[i..i + |value|] == value
      && (k == i + |value| == |text| || (k == i + |value| + 1 <= |text| && text[k - 1] == '\n'))
    ensures r.None? ==>
      exists j :: i <= j < |text| && text[j] == '\0' && '\n' !in text[i..j]
  {
    var k := Span(text, i, '\n');
    assert '\n' !in text[i..k] by {
      assert forall j :: 0 <= j < k - i ==> text[i..k][j] == text[i + j];
    }
    if k == |text| then Some((Run(text, i, k, '\n'), k))
    else if text[k] == '\n' then Some((Run(text, i, k, '\n'), k + 1))
    else None
  }

  /** The comment loop after a '#': the position after the next newline, or
      the end of the text. */
  function SkipComment(text: seq<char>, i: nat): (k: nat)
    requires i <= |text|
    ensures i <= k <= |text|
    ensures forall j :: i <= j < k - 1 ==> text[j] != '\n'
    ensures k == |text| || (k > i && text[k - 1] == '\n')
    ensures k == |text| && k > i ==> text[k - 1] == '\n' || forall j :: i <= j < k ==> text[j] != '\n'
    decreases |text| - i
  {
    if i == |text| then i else if text[i] == '\n' then i + 1 else SkipComment(text, i + 1)
  }

  /** What config_load does with the text from position `i` on, in section
      `section`, to the table `t`: the table it leaves, and 0 when the end
      of the text is reached or 1 for a syntax error. A '#' skips the rest
      of the line, "[name]" changes the section, a line "key=value" sets the
      variable through config_set, a newline is skipped and anything else,
      or an unterminated section name, a key without '=' or a NUL in a
      value, stops with 1, the assignments made so far kept. */
  function Parse(text: seq<char>, i: nat, section: Option<String>, t: Sections): (r: (Sections, int))
    requires i <= |text| && TableOk(t)
    ensures TableOk(r.0) && (r.1 == 0 || r.1 == 1)
    decreases |text| - i
  {
    if i == |text| then (t, 0)
    else if text[i] == '#' then Parse(text, SkipComment(text, i + 1), section, t)
    else if text[i] == '[' then
      match ReadSection(text, i + 1)
      case None => (t, 1)
      case Some((name, k)) => Parse(text, k, Some(name), t)
    else if IsPrint(text[i]) then
      match ReadVariable(text, i + 1, text[i])
      case None => (t, 1)
      case Some((name, k)) =>
        match ReadValue(text, k)
        case None => (t, 1)
        case Some((value, k')) =>
          Parse(text, k', section, Stored(t, section, name, Some(value)))
    else if text[i] != '\n' then (t, 1)
    else Parse(text, i + 1, section, t)
  }

  /** The comment loop. */
  method LoadComment(text: seq<char>, i: nat) returns (k: nat)
    requires i <= |text|
    ensures k == SkipComment(text, i)
  {
    k := i;
    while k < |text| && text[k] != '\n'
      invariant i <= k <= |text|
      invariant SkipComment(text, k) == SkipComment(text, i)
    {
      k := k + 1;
    }
    if k < |text| {
      k := k + 1;
    }
  }

  /** _load_section: reads the name character by character. */
  method LoadSection(text: seq<char>, i: nat) returns (r: Option<(String, nat)>)
    requires i <= |text|
    ensures r == ReadSection(text, i)
  {
    var k := i;
    var name: String := "";
    while k < |text| && text[k] != ']' && IsPrint(text[k])
      invariant i <= k <= |text|
      invariant Span(text, k, ']') == Span(text, i, ']')
      invariant name == text[i..k]
    {
      name := name + [text[k]];
      k := k + 1;
    }
    if k == |text| || text[k] != ']' {
      return None;
    }
    r := Some((name, k + 1));
  }

  /** _load_variable: starts from the character already read and appends
      one character at a time. */
  method LoadVariable(text: seq<char>, i: nat, c: char) returns (r: Option<(String, nat)>)
    requires i <= |text| && IsPrint(c)
    ensures r == ReadVariable(text, i, c)
  {
    var k := i;
    var name: String := [c];
    while k < |text| && text[k] != '=' && IsPrint(text[k])
      invariant i <= k <= |text|
      invariant Span(text, k, '=') == Span(text, i, '=')
      invariant name == [c] + text[i..k]
    {
      name := name + [text[k]];
      k := k + 1;
    }
    if k == |text| || text[k] != '=' {
      return None;
    }
    r := Some((name, k + 1));
  }

  /** _load_value: reads up to the newline or the end of the text. */
  method LoadValue(text: seq<char>, i: nat) returns (r: Option<(String, nat)>)
    requires i <= |text|
    ensures r == ReadValue(text, i)
  {
    var k := i;
    var value: String := "";
    while k < |text| && IsPrint(text[k])
      invariant i <= k <= |text|
      invariant Span(text, k, '\n') == Span(text, i, '\n')
      invariant value == text[i..k]
    {
      value := value + [text[k]];
      k := k + 1;
    }
    if k == |text| {
      return Some((value, k));
    }
    if text[k] != '\n' {
      return None;
    }
    r := Some((value, k + 1));
  }

  // Saving (src/config.c:461-532).

  /** What config_save writes, one piece at a time: a "key=value" line or a
      "[name]" header. */
  datatype Item = Line(key: String, value: String) | Header(name: String)

  /** The lines of a section's variables, in order. */
  function Lines(vars: Variables): (r: seq<Item>)
    ensures |r| == |vars| && forall k :: 0 <= k < |vars| ==> r[k] == Line(vars[k].key, vars[k].value)
  {
    seq(|vars|, k requires 0 <= k < |vars| => Line(vars[k].key, vars[k].value))
  }

  /** The first pass, _save_foreach_default, over the first `n` sections:
      the lines of the default section. */
  function DefaultItems(t: Sections, n: nat): seq<Item>
    requires n <= |t|
  {
    if n == 0 then []
    else DefaultItems(t, n - 1) + DefaultMore(t[n - 1])
  }

  /** The second pass, _save_foreach, over the first `n` sections: each
      named section's header, then its lines. */
  function NamedItems(t: Sections, n: nat): seq<Item>
    requires n <= |t|
  {
    if n == 0 then []
    else NamedItems(t, n - 1) + NamedMore(t[n - 1])
  }

  function Items(t: Sections): seq<Item> {
    DefaultItems(t, |t|) + NamedItems(t, |t|)
  }

  /** An item as written with the separator: nothing before the first item,
      a newline before a later line, a blank line before a later header. */
  function ItemText(x: Item, started: bool): seq<char> {
    var sep := if started then "\n" else "";
    match x
    case Line(key, value) => sep + key + "=" + value
    case Header(name) => sep + sep + "[" + name + "]"
  }

  function Text(items: seq<Item>): seq<char>
    decreases |items|
  {
    if items == [] then ""
    else Text(items[..|items| - 1]) + ItemText(items[|items| - 1], |items| > 1)
  }

  /** The saved text: the items, and one final newline if there was any. */
  function Render(t: Sections): (r: seq<char>)
    ensures Items(t) == [] ==> r == ""
    ensures Items(t) != [] ==> r != "" && r[|r| - 1] == '\n'
  {
    Text(Items(t)) + (if Items(t) == [] then "" else "\n")
  }

  lemma {:induction false} TextStep(items: seq<Item>, x: Item)
    ensures Text(items + [x]) == Text(items) + ItemText(x, items != [])
  {
    assert (items + [x])[..|items|] == items;
  }

  lemma {:induction false} LinesStep(prefix: seq<Item>, vars: Variables, j: nat)
    requires j < |vars|
    ensures prefix + Lines(vars[..j + 1]) == (prefix + Lines(vars[..j])) + [Line(vars[j].key, vars[j].value)]
  {
    assert Lines(vars[..j + 1]) == Lines(vars[..j]) + [Line(vars[j].key, vars[j].value)];
  }

  /** The separator config_save holds after writing `items`. */
  function Sep(items: seq<Item>): string {
    if items == [] then "" else "\n"
  }

  /** _save_foreach_section over one section: each variable as a line. */
  method WriteLines(vars: Variables, ghost items: seq<Item>, written: seq<char>, sep: string)
    returns (w: seq<char>, s: string)
    requires written == Text(items) && sep == Sep(items)
    ensures w == Text(items + Lines(vars)) && s == Sep(items + Lines(vars))
  {
    w, s := written, sep;
    var j := 0;
    assert items + Lines(vars[..0]) == items;
    while j < |vars|
      invariant j <= |vars|
      invariant w == Text(items + Lines(vars[..j])) && s == Sep(items + Lines(vars[..j]))
    {
      LinesStep(items, vars, j);
      TextStep(items + Lines(vars[..j]), Line(vars[j].key, vars[j].value));
      var line := s + vars[j].key + "=" + vars[j].value;
      assert line == ItemText(Line(vars[j].key, vars[j].value), items + Lines(vars[..j]) != []);
      w := w + line;
      s := "\n";
      j := j + 1;
    }
    assert vars[..j] == vars;
  }

  /** The first pass of config_save: _save_foreach_default on each section. */
  method WriteDefault(t: Sections) returns (w: seq<char>, s: string)
    ensures w == Text(DefaultItems(t, |t|)) && s == Sep(DefaultItems(t, |t|))
  {
    w, s := "", "";
    var i := 0;
    while i < |t|
      invariant i <= |t| && w == Text(DefaultItems(t, i)) && s == Sep(DefaultItems(t, i))
    {
      w, s := SaveDefault(t[i], DefaultItems(t, i), w, s);
      DefaultStep(t, i);
      i := i + 1;
    }
  }

  /** The items one section adds in the first pass: its lines if it is the
      default section. */
  function DefaultMore(x: Entry<String, Variables>): seq<Item> {
    if x.key == "" then Lines(x.value) else []
  }

  /** _save_foreach_default: only the section named "" writes its lines. */
  method SaveDefault(x: Entry<String, Variables>, ghost items: seq<Item>, written: seq<char>, sep: string)
    returns (w: seq<char>, s: string)
    requires written == Text(items) && sep == Sep(items)
    ensures w == Text(items + DefaultMore(x)) && s == Sep(items + DefaultMore(x))
  {
    if x.key != "" {
      assert items + [] == items;
      return written, sep;
    }
    w, s := WriteLines(x.value, items, written, sep);
  }

  /** One more section in the first pass. */
  lemma {:induction false} DefaultStep(t: Sections, i: nat)
    requires i < |t|
    ensures DefaultItems(t, i + 1) == DefaultItems(t, i) + DefaultMore(t[i])
  {
  }

  /** _save_foreach on one named section: the header, then its lines. */
  method WriteSection(name: String, vars: Variables, ghost items: seq<Item>, written: seq<char>, sep: string)
    returns (w: seq<char>, s: string)
    requires written == Text(items) && sep == Sep(items)
    ensures w == Text(items + [Header(name)] + Lines(vars)) && s == Sep(items + [Header(name)] + Lines(vars))
  {
    TextStep(items, Header(name));
    var header := sep + sep + "[" + name + "]";
    assert header == ItemText(Header(name), items != []);
    w, s := written + header, "\n";
    w, s := WriteLines(vars, items + [Header(name)], w, s);
  }

  /** The items one section adds in the second pass: nothing for the
      default section, otherwise its header and its lines. */
  function NamedMore(x: Entry<String, Variables>): seq<Item> {
    if x.key != "" then [Header(x.key)] + Lines(x.value) else []
  }

  /** _save_foreach: the section named "" is skipped. */
  method SaveNamed(x: Entry<String, Variables>, ghost items: seq<Item>, written: seq<char>, sep: string)
    returns (w: seq<char>, s: string)
    requires written == Text(items) && sep == Sep(items)
    ensures w == Text(items + NamedMore(x)) && s == Sep(items + NamedMore(x))
  {
    if x.key == "" {
      assert items + [] == items;
      return written, sep;
    }
    w, s := WriteSection(x.key, x.value, items, written, sep);
    AppendAssoc(items, [Header(x.key)], Lines(x.value));
  }

  /** The second pass of config_save, after the items already written. */
  method WriteNamed(t: Sections, ghost items: seq<Item>, written: seq<char>, sep: string)
    returns (w: seq<char>, s: string)
    requires written == Text(items) && sep == Sep(items)
    ensures w == Text(items + NamedItems(t, |t|)) && s == Sep(items + NamedItems(t, |t|))
  {
    w, s := written, sep;
    var i := 0;
    assert items + NamedItems(t, 0) == items;
    while i < |t|
      invariant i <= |t| && w == Text(items + NamedItems(t, i)) && s == Sep(items + NamedItems(t, i))
    {
      w, s := SaveNamed(t[i], items + NamedItems(t, i), w, s);
      NamedStep(t, i);
      AppendAssoc(items, NamedItems(t, i), NamedMore(t[i]));
      i := i + 1;
    }
  }

  /** One more section in the second pass. */
  lemma {:induction false} NamedStep(t: Sections, i: nat)
    requires i < |t|
    ensures NamedItems(t, i + 1) == NamedItems(t, i) + NamedMore(t[i])
  {
  }

  // ---------------------------------------------------------------------
  // Preference files

  const SYSCONFDIR: String := "/usr/local/etc"

  /** string_find(s, "/") != NULL on an argument that is not NULL. */
  predicate HasSlash(s: Option<String>) {
    s.Some? && Strings.First(s.value, "/") >= 0
  }

  /** The file config_load_preferences_system reads: SYSCONFDIR, then the
      vendor, the package ("" for NULL) and the file name. */
  function SystemPath(vendor: Option<String>, package: Option<String>, filename: String): (r: String)
    ensures SYSCONFDIR + "/" <= r
    ensures |r| > |filename| && r[|r| - |filename| - 1..] == "/" + filename
  {
    SYSCONFDIR + "/" + vendor.GetOr("") + "/" + package.GetOr("") + "/" + filename
  }

  /** The file config_load_preferences_user reads, under $HOME/.config. */
  function UserPath(home: String, vendor: Option<String>, package: Option<String>, filename: String): (r: String)
    ensures home + "/.config/" <= r
    ensures |r| > |filename| && r[|r| - |filename| - 1..] == "/" + filename
  {
    home + "/.config/" + vendor.GetOr("") + "/" + package.GetOr("") + "/" + filename
  }

  /** The outcome of config_load on a file: -errno and nothing changed when
      it cannot be opened, the parse of its text otherwise. */
  function Loaded(t: Sections, file: File): (r: (Sections, int))
    requires TableOk(t)
    ensures TableOk(r.0)
    ensures file.Unreadable? ==> r == (t, -(file.errno as int))
    ensures file.Readable? ==> r.1 == 0 || r.1 == 1
  {
    if file.Unreadable? then (t, -(file.errno as int)) else Parse(file.text, 0, None, t)
  }

  /** config_load_preferences_system, with the file system `fs` mapping a
      path to what opening it gives. */
  function SystemLoaded(t: Sections, fs: String -> File, vendor: Option<String>, package: Option<String>,
                        filename: Option<String>): (r: (Sections, int))
    requires TableOk(t)
    ensures TableOk(r.0)
  {
    if filename.None? then (t, -EINVAL)
    else if HasSlash(vendor) || HasSlash(package) then (t, -EPERM)
    else Loaded(t, fs(SystemPath(vendor, package, filename.value)))
  }

  /** config_load_preferences_user, with `home` the value of $HOME (NULL
      when unset) and `errno` what getenv left in errno. */
  function UserLoaded(t: Sections, fs: String -> File, home: Option<String>, errno: int,
                      vendor: Option<String>, package: Option<String>, filename: Option<String>): (r: (Sections, int))
    requires TableOk(t)
    ensures TableOk(r.0)
  {
    if filename.None? then (t, -EINVAL)
    else if HasSlash(vendor) || HasSlash(package) || HasSlash(filename) then (t, -EPERM)
    else if home.None? then (t, -errno)
    else Loaded(t, fs(UserPath(home.value, vendor, package, filename.value)))
  }

  /** config_load_preferences: the system file, then the user file, a
      missing one (-ENOENT) not counting as a failure; the first other
      failure is returned at once. */
  function PreferencesLoaded(t: Sections, fs: String -> File, home: Option<String>, errno: int,
                             vendor: Option<String>, package: Option<String>, filename: Option<String>)
    : (r: (Sections, int))
    requires TableOk(t)
    ensures TableOk(r.0) && r.1 != -ENOENT
    ensures var sys := SystemLoaded(t, fs, vendor, package, filename);
      sys.1 != 0 && sys.1 != -ENOENT ==> r == sys
    ensures var sys := SystemLoaded(t, fs, vendor, package, filename);
      var user := UserLoaded(sys.0, fs, home, errno, vendor, package, filename);
      (sys.1 == 0 || sys.1 == -ENOENT) ==>
        r.0 == user.0 && r.1 == (if user.1 == -ENOENT then 0 else user.1)
  {
    var sys := SystemLoaded(t, fs, vendor, package, filename);
    if sys.1 != 0 && sys.1 != -ENOENT then sys
    else
      var user := UserLoaded(sys.0, fs, home, errno, vendor, package, filename);
      if user.1 != 0 && user.1 != -ENOENT then user else (user.0, 0)
  }

  /** The '/' test of the preference loaders, through string_find. */
  method Slash(s: Option<String>) returns (r: bool)
    ensures r == HasSlash(s)
  {
    if s.None? {
      return false;
    }
    var f := Strings.Find(s.value, "/");
    r := f.Some?;
  }

  /** The six strings the loaders pass to string_new_append after the
      first, one after the other. */
  lemma {:induction false} PathConcat(base: String, a: String, b: String, c: String, d: String, e: String, f: String)
    ensures base + Strings.Concat([a, b, c, d, e, f]) == base + a + b + c + d + e + f
  {
    var ss := [a, b, c, d, e, f];
    assert ss[..1] == [a] && [a][..0] == [];
    assert ss[..2][..1] == ss[..1] && ss[..3][..2] == ss[..2] && ss[..4][..3] == ss[..3];
    assert ss[..5][..4] == ss[..4] && ss[..6][..5] == ss[..5] && ss[..6] == ss;
    assert Strings.Concat(ss[..1]) == a;
    assert Strings.Concat(ss[..2]) == a + b;
    assert Strings.Concat(ss[..3]) == a + b + c;
    assert Strings.Concat(ss[..4]) == a + b + c + d;
    assert Strings.Concat(ss[..5]) == a + b + c + d + e;
    assert Strings.Concat(ss) == a + b + c + d + e + f;
  }

  /** One more '/'-free component at the end of a path. */
  lemma {:induction false} PiecesAfter(x: String, name: String) returns (y: String)
    requires !HasSlash(Some(name))
    ensures y == x + "/" + name
    ensures Strings.Pieces(y, "/") == Strings.Pieces(x, "/") + [name]
  {
    y := x + "/" + name;
    Strings.PiecesAround(x, name, "/");
  }

  /** Where no name holds a '/', the system path is SYSCONFDIR's components
      followed by exactly the vendor, the package and the file name. */
  lemma {:induction false} SystemPathPieces(vendor: String, package: String, filename: String)
    requires !HasSlash(Some(vendor)) && !HasSlash(Some(package)) && !HasSlash(Some(filename))
    ensures Strings.Pieces(SystemPath(Some(vendor), Some(package), filename), "/")
         == Strings.Pieces(SYSCONFDIR, "/") + [vendor, package, filename]
  {
    var a := PiecesAfter(SYSCONFDIR, vendor);
    var b := PiecesAfter(a, package);
    var c := PiecesAfter(b, filename);
    assert c == SystemPath(Some(vendor), Some(package), filename);
  }

  /** The directory the user loader adds to $HOME holds no '/' of its own. */
  lemma {:induction false} ConfigDir()
    ensures "/.config/" == "/" + ".config" + "/" && !HasSlash(Some(".config"))
  {
    var d := ".config";
    assert '/' !in d;
    forall k | 0 <= k <= 7
      ensures !Strings.OccursAt(d, "/", k)
    {
      if k < 7 {
        assert d[k..k + 1][0] == d[k] && d[k] in d;
      }
    }
  }

  /** The user path is $HOME, then ".config", the vendor, the package and
      the file name, each after a '/'. */
  lemma {:induction false} UserPathJoined(home: String, vendor: String, package: String, filename: String)
    ensures UserPath(home, Some(vendor), Some(package), filename)
         == home + "/" + ".config" + "/" + vendor + "/" + package + "/" + filename
  {
    ConfigDir();
  }

  /** Where no name holds a '/', the user path is $HOME's components, then
      ".config", the vendor, the package and the file name. */
  lemma {:induction false} UserPathPieces(home: String, vendor: String, package: String, filename: String)
    requires !HasSlash(Some(vendor)) && !HasSlash(Some(package)) && !HasSlash(Some(filename))
    ensures Strings.Pieces(UserPath(home, Some(vendor), Some(package), filename), "/")
         == Strings.Pieces(home, "/") + [".config", vendor, package, filename]
  {
    UserPathJoined(home, vendor, package, filename);
    ConfigDir();
    var p := Strings.Pieces(home, "/");
    var c := PiecesAfter(home, ".config");
    var a := PiecesAfter(c, vendor);
    var b := PiecesAfter(a, package);
    var u := PiecesAfter(b, filename);
    Snoc4(p, ".config", vendor, package, filename);
  }

  class Config {
    var sections: Sections

    ghost predicate Valid()
      reads this
    {
      TableOk(sections)
    }

    /** config_new: an empty configuration. */
    constructor ()
      ensures Valid() && sections == []
    {
      sections := [];
    }

    /** config_get on the current table. */
    method Get(section: Option<String>, variable: String) returns (r: Option<String>)
      requires Valid()
      ensures r == ValueOf(sections, section, variable)
    {
      var vars := SectionOf(sections, SectionName(section));
      if vars.None? {
        return None;
      }
      r := Mutators.Value(vars.value, variable);
    }

    /** config_set: a NULL or empty variable name fails with -EINVAL and
        changes nothing; otherwise the table becomes Stored's. */
    method Set(section: Option<String>, variable: Option<String>, value: Option<String>) returns (ret: int)
      requires Valid()
      modifies this
      ensures Valid()
      ensures (variable.None? || variable.value == "") ==> ret == -EINVAL && sections == old(sections)
      ensures variable.Some? && variable.value != "" ==>
        ret == 0 && sections == Stored(old(sections), section, variable.value, value)
    {
      if variable.None? || |variable.value| == 0 {
        return -EINVAL;
      }
      StoredGet(sections, section, variable.value, value);
      sections := Stored(sections, section, variable.value, value);
      ret := 0;
    }

    /** config_load: a file that cannot be opened fails with -errno and
        changes nothing; otherwise the text is read in one pass, merging its
        assignments into the table, and the result is Parse's. */
    method Load(file: File) returns (ret: int)
      requires Valid()
      modifies this
      ensures Valid()
      ensures file.Unreadable? ==> ret == -(file.errno as int) && sections == old(sections)
      ensures file.Readable? ==> (sections, ret) == Parse(file.text, 0, None, old(sections))
    {
      if file.Unreadable? {
        return -(file.errno as int);
      }
      var text := file.text;
      var pos := 0;
      var section: Option<String> := None;
      ret := 0;
      while pos < |text|
        invariant pos <= |text| && Valid()
        invariant Parse(text, pos, section, sections) == Parse(text, 0, None, old(sections))
        decreases |text| - pos
      {
        var stop;
        pos, section, stop := LoadStep(text, pos, section);
        if stop {
          ret := 1;
          break;
        }
      }
    }

    /** config_load_preferences_system. */
    method LoadPreferencesSystem(fs: String -> File, vendor: Option<String>, package: Option<String>,
                                 filename: Option<String>) returns (ret: int)
      requires Valid()
      modifies this
      ensures Valid() && (sections, ret) == SystemLoaded(old(sections), fs, vendor, package, filename)
    {
      if filename.None? {
        return -EINVAL;
      }
      var slash := Slash(vendor);
      if slash {
        return -EPERM;
      }
      slash := Slash(package);
      if slash {
        return -EPERM;
      }
      var f := Strings.NewAppend(Some(SYSCONFDIR), ["/", vendor.GetOr(""), "/", package.GetOr(""), "/", filename.value]);
      PathConcat(SYSCONFDIR, "/", vendor.GetOr(""), "/", package.GetOr(""), "/", filename.value);
      ret := Load(fs(f));
    }

    /** config_load_preferences_user. */
    method LoadPreferencesUser(fs: String -> File, home: Option<String>, errno: int, vendor: Option<String>,
                               package: Option<String>, filename: Option<String>) returns (ret: int)
      requires Valid()
      modifies this
      ensures Valid() && (sections, ret) == UserLoaded(old(sections), fs, home, errno, vendor, package, filename)
    {
      if filename.None? {
        return -EINVAL;
      }
      var slash := Slash(vendor);
      if slash {
        return -EPERM;
      }
      slash := Slash(package);
      if slash {
        return -EPERM;
      }
      slash := Slash(filename);
      if slash {
        return -EPERM;
      }
      if home.None? {
        return -errno;
      }
      var f := Strings.NewAppend(home, ["/.config/", vendor.GetOr(""), "/", package.GetOr(""), "/", filename.value]);
      PathConcat(home.value, "/.config/", vendor.GetOr(""), "/", package.GetOr(""), "/", filename.value);
      ret := Load(fs(f));
    }

    /** config_load_preferences. */
    method LoadPreferences(fs: String -> File, home: Option<String>, errno: int, vendor: Option<String>,
                           package: Option<String>, filename: Option<String>) returns (ret: int)
      requires Valid()
      modifies this
      ensures Valid() && (sections, ret) == PreferencesLoaded(old(sections), fs, home, errno, vendor, package, filename)
    {
      ret := LoadPreferencesSystem(fs, vendor, package, filename);
      if ret != 0 && ret != -ENOENT {
        return;
      }
      ret := LoadPreferencesUser(fs, home, errno, vendor, package, filename);
      if ret != 0 && ret != -ENOENT {
        return;
      }
      ret := 0;
    }

    /** One pass of config_load's loop, on the character at `pos`: either
        the position and section it continues with, leaving the same
        outcome to come, or a syntax error, leaving the outcome reached. */
    method LoadStep(text: seq<char>, pos: nat, section: Option<String>)
      returns (next: nat, sec: Option<String>, stop: bool)
      requires pos < |text| && Valid()
      modifies this
      ensures Valid() && pos < next <= |text|
      ensures stop ==> Parse(text, pos, section, old(sections)) == (sections, 1)
      ensures !stop ==> Parse(text, next, sec, sections) == Parse(text, pos, section, old(sections))
    {
      next, sec, stop := pos + 1, section, false;
      var c := text[pos];
      if c == '#' {
        next := LoadComment(text, pos + 1);
      } else if c == '[' {
        var r := LoadSection(text, pos + 1);
        if r.None? {
          stop := true;
          return;
        }
        sec := Some(r.value.0);
        next := r.value.1;
      } else if IsPrint(c) {
        next, stop := LoadAssignment(text, pos, section);
      } else if c != '\n' {
        stop := true;
      }
    }

    /** A "key=value" line of config_load: the key, the value, then
        config_set in the current section. */
    method LoadAssignment(text: seq<char>, pos: nat, section: Option<String>) returns (next: nat, stop: bool)
      requires pos < |text| && text[pos] != '#' && text[pos] != '[' && IsPrint(text[pos]) && Valid()
      modifies this
      ensures Valid() && pos < next <= |text|
      ensures stop ==> Parse(text, pos, section, old(sections)) == (sections, 1)
      ensures !stop ==> Parse(text, next, section, sections) == Parse(text, pos, section, old(sections))
    {
      next, stop := pos + 1, true;
      var v := LoadVariable(text, pos + 1, text[pos]);
      if v.None? {
        return;
      }
      var w := LoadValue(text, v.value.1);
      if w.None? {
        return;
      }
      // the name is never empty, so config_set succeeds
      var _ := Set(section, Some(v.value.0), Some(w.value.0));
      next, stop := w.value.1, false;
    }

    /** config_save: a file that cannot be created fails with -errno and
        nothing is written; otherwise the text written is Render's. */
    method Save(openError: Option<nat>) returns (ret: int, written: seq<char>)
      requires Valid()
      ensures openError.Some? ==> ret == -(openError.value as int) && written == []
      ensures openError.None? ==> ret == 0 && written == Render(sections)
    {
      if openError.Some? {
        return -(openError.value as int), [];
      }
      var sep;
      written, sep := WriteDefault(sections);
      written, sep := WriteNamed(sections, DefaultItems(sections, |sections|), written, sep);
      if sep != "" {
        written := written + sep;
      }
      ret := 0;
    }

    /** config_reset: every section and variable goes. */
    method Reset() returns (ret: int)
      modifies this
      ensures Valid() && ret == 0 && sections == []
    {
      sections := [];
      ret := 0;
    }

    /** config_foreach: the callback on each section name, in order. */
    method Foreach<D>(callback: (String, D) -> D, data: D) returns (r: D)
      ensures r == Arrays.Fold(callback, Names(sections), data)
    {
      r := Arrays.Fold(callback, Names(sections), data);
    }

    /** config_foreach_section: the callback on each variable and value of a
        section, in order; nothing for a missing section. */
    method ForeachSection<D>(section: String, callback: (String, String, D) -> D, data: D) returns (r: D)
      requires Valid()
      ensures var vars := SectionOf(sections, section);
        r == if vars.None? then data else Arrays.Fold(Visitor(callback), vars.value, data)
    {
      var vars := SectionOf(sections, section);
      if vars.None? {
        return data;
      }
      r := Arrays.Fold(Visitor(callback), vars.value, data);
    }
  }
}
