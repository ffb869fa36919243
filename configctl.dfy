/** The configctl tool (tools/configctl.c): it loads a configuration file,
    prints the variables named on its command line or, with -w, assigns
    them and saves the file, and with -a lists the whole file. What it
    prints on the standard output is modelled as its lines, without their
    newlines; messages on the standard error are left out. */
module ConfigCtl {
  import opened Common
  import opened Configs
  import opened Arguments
  import Arrays
  import Hashes
  import Mutators

  // ---------------------------------------------------------------------
  // Printing (_configctl_print)

  /** The section a verbose line shows: none for NULL or for "", whose
      '.' the line leaves out. */
  function Shown(section: Option<String>): (r: Option<String>)
    ensures SectionName(r) == SectionName(section)
  {
    if section.Some? && section.value != "" then section else None
  }

  /** _configctl_print: verbose, the line is `section.variable=value`,
      with the section only when there is one and the '.' only when the
      section is not empty, that is the -w argument setting that variable;
      otherwise it is the value alone. A NULL value prints as nothing. */
  function Line(verbose: int, section: Option<String>, variable: String, value: Option<String>): (r: String)
    ensures verbose <= 0 ==> r == value.GetOr("")
    ensures verbose > 0 ==> r == Joined(Argument(Shown(section), variable, Some(value.GetOr(""))))
  {
    if verbose <= 0 then value.GetOr("")
    else
      (if section.Some? then section.value else "")
        + (if section.Some? && section.value != "" then "." else "")
        + variable + "=" + value.GetOr("")
  }

  /** A verbose line read back as a -w argument assigns the same variable
      of the same section the same value, as long as the section names
      hold no '.', the variable no '=', and, without a section, neither
      the variable nor the value a '.'. */
  lemma {:induction false} LineReadsBack(section: Option<String>, variable: String, value: String)
    requires Canonical(Argument(Shown(section), variable, Some(value)), true)
    ensures var a := Split(Line(1, section, variable, Some(value)), true);
      SectionName(a.section) == SectionName(section) && a.key == variable && a.value == Some(value)
  {
    SplitJoined(Argument(Shown(section), variable, Some(value)), true);
  }

  // ---------------------------------------------------------------------
  // One argument (_configctl_do)

  /** What _configctl_do does with one split argument to the table `t`:
      the table after it, its result and the lines it prints. */
  function Done(t: Sections, verbose: int, a: Argument): (r: (Sections, int, seq<String>))
    requires TableOk(t)
    ensures TableOk(r.0) && (r.1 == 0 || r.1 == -1)
    ensures a.value.None? ==> r.0 == t
    ensures a.value.None? && verbose < 0 ==>
      r.2 == [] && (r.1 == 0 <==> ValueOf(t, a.section, a.key).Some?)
    ensures a.value.None? && verbose >= 0 ==>
      r.1 == 0 && r.2 == (var p := ValueOf(t, a.section, a.key); if p.None? then [] else [Line(verbose, a.section, a.key, p)])
    ensures a.value.Some? && a.key == "" ==> r == (t, -1, [])
    ensures a.value.Some? && a.key != "" ==>
      r.1 == 0 && r.2 == [Line(verbose, a.section, a.key, a.value)]
      && ValueOf(r.0, a.section, a.key) == a.value
  {
    if a.value.None? then
      var p := ValueOf(t, a.section, a.key);
      if verbose < 0 then (t, if p.Some? then 0 else -1, [])
      else (t, 0, if p.Some? then [Line(verbose, a.section, a.key, p)] else [])
    else if a.key == "" then (t, -1, [])
    else
      StoredGet(t, a.section, a.key, a.value);
      (Stored(t, a.section, a.key, a.value), 0, [Line(verbose, a.section, a.key, a.value)])
  }

  /** A set through _configctl_do leaves every other variable as it was. */
  lemma {:induction false} DoneKeepsOthers(t: Sections, verbose: int, a: Argument, s: String, v: String)
    requires TableOk(t) && (s != SectionName(a.section) || v != a.key)
    ensures ValueOf(Done(t, verbose, a).0, Some(s), v) == ValueOf(t, Some(s), v)
  {
    if a.value.Some? && a.key != "" {
      StoredGetOther(t, a.section, a.key, a.value, s, v);
    }
  }

  /** _configctl_do on the configuration: a get without a value (only the
      result in quiet mode, the line when the variable exists otherwise),
      a set and its line with one. */
  method Do(config: Config, verbose: int, section: Option<String>, key: String, value: Option<String>)
    returns (ret: int, out: seq<String>)
    requires config.Valid()
    modifies config
    ensures config.Valid()
    ensures (config.sections, ret, out) == Done(old(config.sections), verbose, Argument(section, key, value))
  {
    out := [];
    if value.None? {
      var p := config.Get(section, key);
      if verbose < 0 {
        return if p.Some? then 0 else -1, [];
      } else if p.Some? {
        out := [Line(verbose, section, key, p)];
      }
    } else {
      var r := config.Set(section, Some(key), value);
      if r != 0 {
        return -1, [];
      }
      out := [Line(verbose, section, key, value)];
    }
    ret := 0;
  }

  // ---------------------------------------------------------------------
  // Every argument (_configctl)

  /** `ret |= r` on the only results that occur, 0 and -1 (every bit set):
      -1 once any result was -1. */
  function Or(ret: int, r: int): (o: int)
    requires (ret == 0 || ret == -1) && (r == 0 || r == -1)
    ensures o == 0 <==> ret == 0 && r == 0
  {
    if ret == 0 then r else -1
  }

  /** The loop of _configctl over the arguments, from the table `t`: the
      table after them, the OR of their results and the lines printed. */
  function Sweep(t: Sections, verbose: int, write: bool, args: seq<String>): (r: (Sections, int, seq<String>))
    requires TableOk(t)
    ensures TableOk(r.0) && (r.1 == 0 || r.1 == -1)
    decreases |args|
  {
    if args == [] then (t, 0, [])
    else
      var p := Sweep(t, verbose, write, args[..|args| - 1]);
      var d := Done(p.0, verbose, Split(args[|args| - 1], write));
      (d.0, Or(p.1, d.1), p.2 + d.2)
  }

  /** The arguments as main hands them over: each one a separate array
      holding a C string. */
  ghost predicate IsArgv(argv: seq<array<char>>, args: seq<String>)
    reads set i | 0 <= i < |argv| :: argv[i]
  {
    |argv| == |args|
    && (forall i :: 0 <= i < |argv| ==> argv[i][..] == args[i] + ['\0'])
    && (forall i, j :: 0 <= i < j < |argv| ==> argv[i] != argv[j])
  }

  /** The outcome of _configctl: the result (0 or -1), the lines printed
      and the text saved (NULL when nothing is saved). A file that does not
      load fails before any argument; the file is saved only in write mode
      and only when every argument succeeded. */
  function Run(verbose: int, write: bool, file: File, args: seq<String>, saveError: Option<nat>)
    : (r: (int, seq<String>, Option<seq<char>>))
    ensures r.0 == 0 || r.0 == -1
    ensures Loaded([], file).1 != 0 ==> r == (-1, [], None)
    ensures r.2.Some? ==> write && r.0 == 0
    ensures Loaded([], file).1 == 0 ==>
      var s := Sweep(Loaded([], file).0, verbose, write, args);
      r.1 == s.2
      && (!write ==> r == (s.1, s.2, None))
      && (write && s.1 == 0 && saveError.None? ==> r == (0, s.2, Some(Render(s.0))))
      && (write && s.1 != 0 ==> r == (-1, s.2, None))
  {
    var (t, loaded) := Loaded([], file);
    if loaded != 0 then (-1, [], None)
    else
      var (u, ret, out) := Sweep(t, verbose, write, args);
      if ret != 0 || !write then (ret, out, None)
      else
        var (s, w) := Saved(u, saveError);
        (s, out, w)
  }

  /** The save at the end of _configctl: -1 when config_save fails,
      otherwise 0 and the text written. */
  function Saved(t: Sections, saveError: Option<nat>): (r: (int, Option<seq<char>>))
    ensures r.0 == 0 || r.0 == -1
    ensures r.1.Some? <==> r.0 == 0
    ensures saveError.None? ==> r == (0, Some(Render(t)))
    ensures saveError.Some? && saveError.value != 0 ==> r == (-1, None)
  {
    if saveError.Some? && saveError.value != 0 then (-1, None)
    else (0, Some(if saveError.Some? then [] else Render(t)))
  }

  /** config_save and the test on its result. */
  method SaveChecked(config: Config, saveError: Option<nat>) returns (ret: int, saved: Option<seq<char>>)
    requires config.Valid()
    ensures (ret, saved) == Saved(config.sections, saveError)
  {
    var s, w := config.Save(saveError);
    if s != 0 {
      return -1, None;
    }
    return 0, Some(w);
  }

  /** _configctl: loads the file, splits each argument in place and hands
      it to _configctl_do, ORing the results, then saves in write mode when
      every argument succeeded. */
  method Configctl(verbose: int, write: bool, file: File, argv: seq<array<char>>, ghost args: seq<String>,
                   saveError: Option<nat>) returns (ret: int, out: seq<String>, saved: Option<seq<char>>)
    requires IsArgv(argv, args)
    modifies set i | 0 <= i < |argv| :: argv[i]
    ensures (ret, out, saved) == Run(verbose, write, file, args, saveError)
  {
    var config := new Config();
    var r := config.Load(file);
    assert (config.sections, r) == Loaded([], file);
    if r != 0 {
      return -1, [], None;
    }
    ret, out := EachArgument(config, verbose, write, argv, args);
    saved := None;
    if ret == 0 && write {
      ret, saved := SaveChecked(config, saveError);
    }
  }

  /** The loop of _configctl: each argument split in place and handed to
      _configctl_do, the results ORed together. */
  method EachArgument(config: Config, verbose: int, write: bool, argv: seq<array<char>>, ghost args: seq<String>)
    returns (ret: int, out: seq<String>)
    requires config.Valid() && IsArgv(argv, args)
    modifies config, set i | 0 <= i < |argv| :: argv[i]
    ensures config.Valid()
    ensures (config.sections, ret, out) == Sweep(old(config.sections), verbose, write, args)
  {
    ghost var t := config.sections;
    ret, out := 0, [];
    var i := 0;
    while i < |argv|
      invariant 0 <= i <= |argv| && config.Valid()
      invariant forall j :: i <= j < |argv| ==> argv[j][..] == args[j] + ['\0']
      invariant (config.sections, ret, out) == Sweep(t, verbose, write, args[..i])
    {
      var rr, o := Argument1(config, verbose, write, argv[i], args[i]);
      TakeOneMore(args, i);
      ret, out := Or(ret, rr), out + o;
      i := i + 1;
    }
    TakeAll(args);
  }

  /** One pass of the loop of _configctl: the argument split in place,
      then _configctl_do on its pieces. */
  method Argument1(config: Config, verbose: int, write: bool, a: array<char>, ghost arg: String)
    returns (ret: int, out: seq<String>)
    requires config.Valid() && a[..] == arg + ['\0']
    modifies config, a
    ensures config.Valid()
    ensures (config.sections, ret, out) == Done(old(config.sections), verbose, Split(arg, write))
  {
    var p := SplitArgument(a, arg, write);
    ret, out := Do(config, verbose, p.section, p.key, p.value);
  }

  /** Quiet mode without -w changes nothing, prints nothing, and succeeds
      exactly when every variable named exists. */
  lemma {:induction false} QuietSweep(t: Sections, verbose: int, args: seq<String>)
    requires TableOk(t) && verbose < 0
    ensures var r := Sweep(t, verbose, false, args);
      r.0 == t && r.2 == [] && (r.1 == 0 <==> AllExist(t, args))
    decreases |args|
  {
    if args != [] {
      QuietSweep(t, verbose, args[..|args| - 1]);
    }
  }

  /** The variable an argument names without -w exists in the table. */
  ghost predicate Exists(t: Sections, arg: String) {
    var a := Split(arg, false);
    TableOk(t) && ValueOf(t, a.section, a.key).Some?
  }

  /** Every variable the arguments name without -w exists, checked from
      the last argument back as the loop's result accumulates. */
  ghost predicate AllExist(t: Sections, args: seq<String>)
    decreases |args|
  {
    args == [] || (AllExist(t, args[..|args| - 1]) && Exists(t, args[|args| - 1]))
  }

  /** AllExist holds exactly when every argument names an existing variable. */
  lemma {:induction false} AllExistMeans(t: Sections, args: seq<String>)
    ensures AllExist(t, args) <==> forall i :: 0 <= i < |args| ==> Exists(t, args[i])
    decreases |args|
  {
    if args != [] {
      var front := args[..|args| - 1];
      AllExistMeans(t, front);
      AllSnoc(a => Exists(t, a), args, front, args[|args| - 1]);
    }
  }

  /** configctl -q: nothing is printed or saved, and the result is 0
      exactly when the file loads and every variable named exists in it. */
  lemma {:induction false} QuietRun(write: bool, file: File, args: seq<String>, saveError: Option<nat>)
    requires !write
    ensures var r := Run(-1, write, file, args, saveError);
      r.1 == [] && r.2 == None
      && (r.0 == 0 <==> Loaded([], file).1 == 0 && forall i :: 0 <= i < |args| ==> Exists(Loaded([], file).0, args[i]))
  {
    if Loaded([], file).1 == 0 {
      QuietSweep(Loaded([], file).0, -1, args);
      AllExistMeans(Loaded([], file).0, args);
    }
  }

  // ---------------------------------------------------------------------
  // Listing (_configctl_list)

  /** _list_foreach_section: the verbose line of one variable of `section`. */
  function ListVariable(section: String): (String, String, seq<String>) -> seq<String> {
    (variable: String, value: String, out: seq<String>) => out + [Line(1, Some(section), variable, Some(value))]
  }

  /** _list_foreach: config_foreach_section with _list_foreach_section on
      one section of the table `t`. */
  function ListSection(t: Sections): (String, seq<String>) -> seq<String>
    requires TableOk(t)
  {
    (name: String, out: seq<String>) =>
      var vars := SectionOf(t, name);
      if vars.None? then out else Arrays.Fold(Hashes.Visitor(ListVariable(name)), vars.value, out)
  }

  /** The verbose lines of the variables of one section, in order. */
  function VariableLines(name: String, vars: Variables): (r: seq<String>)
    ensures |r| == |vars|
    decreases |vars|
  {
    if vars == [] then [] else [Line(1, Some(name), vars[0].key, Some(vars[0].value))] + VariableLines(name, vars[1..])
  }

  /** Line `j` of a section's lines is the verbose line of its variable `j`. */
  lemma {:induction false} VariableLinesAt(name: String, vars: Variables, j: nat)
    requires j < |vars|
    ensures VariableLines(name, vars)[j] == Line(1, Some(name), vars[j].key, Some(vars[j].value))
    decreases j
  {
    if j > 0 {
      VariableLinesAt(name, vars[1..], j - 1);
      DropIndex(vars, j);
    }
  }

  /** The listing of a table: every variable of every section, section by
      section, each as its verbose line. */
  function Listing(t: Sections): (r: seq<String>)
    ensures t == [] ==> r == []
  {
    Flat(SectionLines, t)
  }

  /** The verbose lines of the variables of the section held in `e`. */
  function SectionLines(e: Hashes.Entry<String, Variables>): seq<String> {
    VariableLines(e.key, e.value)
  }

  /** Visiting the variables of a section appends their lines. */
  lemma {:induction false} FoldVariables(name: String, vars: Variables, out: seq<String>)
    ensures Arrays.Fold(Hashes.Visitor(ListVariable(name)), vars, out) == out + VariableLines(name, vars)
    decreases |vars|
  {
    if vars != [] {
      var line := Line(1, Some(name), vars[0].key, Some(vars[0].value));
      FoldVariables(name, vars[1..], out + [line]);
      AppendAssoc(out, [line], VariableLines(name, vars[1..]));
    }
  }

  /** In a well-formed table the section named as entry `k` is that
      entry's variables. */
  lemma {:induction false} SectionAt(t: Sections, k: nat)
    requires TableOk(t) && k < |t|
    ensures SectionOf(t, t[k].key) == Some(t[k].value)
  {
    Mutators.DistinctKeys(t);
    var r := SectionOf(t, t[k].key);
    assert r.Some?;
    var i :| 0 <= i < |t| && t[i].key == t[k].key && t[i].value == r.value;
    assert i == k;
  }

  /** Visiting the sections from entry `k` on appends their listing. */
  lemma {:induction false} FoldSections(t: Sections, k: nat, out: seq<String>)
    requires TableOk(t) && k <= |t|
    ensures Arrays.Fold(ListSection(t), Names(t)[k..], out) == out + Listing(t[k..])
    decreases |t| - k
  {
    if k < |t| {
      SectionAt(t, k);
      FoldVariables(t[k].key, t[k].value, out);
      var next := out + VariableLines(t[k].key, t[k].value);
      assert ListSection(t)(t[k].key, out) == next;
      FoldSections(t, k + 1, next);
      assert Names(t)[k..][1..] == Names(t)[k + 1..];
      assert t[k..][1..] == t[k + 1..];
      AppendAssoc(out, VariableLines(t[k].key, t[k].value), Listing(t[k + 1..]));
    } else {
      assert Names(t)[k..] == [];
    }
  }

  /** The outcome of _configctl_list: -1 when the file does not load,
      otherwise 0 and the listing. */
  function Listed(file: File): (r: (int, seq<String>))
    ensures r.0 == 0 <==> Loaded([], file).1 == 0
    ensures r.0 != 0 ==> r == (-1, [])
  {
    var (t, loaded) := Loaded([], file);
    if loaded != 0 then (-1, []) else (0, Listing(t))
  }

  /** _configctl_list: loads the file and prints every variable of every
      section with config_foreach and config_foreach_section. */
  method List(file: File) returns (ret: int, out: seq<String>)
    ensures (ret, out) == Listed(file)
  {
    var config := new Config();
    var r := config.Load(file);
    assert (config.sections, r) == Loaded([], file);
    if r != 0 {
      return -1, [];
    }
    out := ListTable(config);
    ret := 0;
  }

  /** config_foreach with _list_foreach on the loaded configuration. */
  method ListTable(config: Config) returns (out: seq<String>)
    requires config.Valid()
    ensures out == Listing(config.sections)
  {
    var t := config.sections;
    out := config.Foreach(ListSection(t), []);
    FoldSections(t, 0, []);
    TakeAll(t);
  }

  /** The listing holds one line per variable: the line of variable `j` of
      section `i` comes after those of the sections before it. */
  lemma {:induction false} ListingHolds(t: Sections, i: nat, j: nat)
    requires i < |t| && j < |t[i].value|
    ensures Count(t[..i]) + j < |Listing(t)|
    ensures Listing(t)[Count(t[..i]) + j] == Line(1, Some(t[i].key), t[i].value[j].key, Some(t[i].value[j].value))
  {
    FlatAt(SectionLines, t, i, j);
    VariableLinesAt(t[i].key, t[i].value, j);
    ListingLength(t[..i]);
  }

  /** The number of variables of a table. */
  function Count(t: Sections): nat
    decreases |t|
  {
    if t == [] then 0 else |t[0].value| + Count(t[1..])
  }

  /** The listing has exactly one line per variable. */
  lemma {:induction false} ListingLength(t: Sections)
    ensures |Listing(t)| == Count(t)
    decreases |t|
  {
    if t != [] {
      ListingLength(t[1..]);
    }
  }

  // ---------------------------------------------------------------------
  // The command line (main)

  /** What getopt returns for the option string "af:qvw": one of the five
      options, -f with its argument, or '?' for an unknown option or a
      missing argument. */
  datatype Opt = ListAll | FileName(name: String) | Quiet | Verbose | WriteMode | Unknown

  /** The settings main collects from its options. */
  datatype Flags = Flags(list: bool, verbose: int, write: bool, filename: Option<String>)

  predicate IsFileOpt(o: Opt) {
    o.FileName?
  }

  predicate IsLoud(o: Opt) {
    o == Quiet || o == Verbose
  }

  predicate NoFileOpt(o: Opt) {
    !o.FileName?
  }

  predicate NotLoud(o: Opt) {
    o != Quiet && o != Verbose
  }

  /** One option applied to the settings; '?' ends with the usage. */
  function Apply(f: Flags, o: Opt): Option<Flags> {
    match o
    case ListAll => Some(f.(list := true))
    case FileName(name) => Some(f.(filename := Some(name)))
    case Quiet => Some(f.(verbose := -1))
    case Verbose => Some(f.(verbose := 1))
    case WriteMode => Some(f.(write := true))
    case Unknown => None
  }

  /** The settings after the options `opts`, or None for the usage. */
  function Flagged(opts: seq<Opt>): Option<Flags>
    decreases |opts|
  {
    if opts == [] then Some(Flags(false, 0, false, None))
    else
      match Flagged(opts[..|opts| - 1])
      case None => None
      case Some(f) => Apply(f, opts[|opts| - 1])
  }

  /** The option loop ends with the usage exactly when getopt returns '?'. */
  lemma {:induction false} FlaggedUnknown(opts: seq<Opt>)
    ensures Flagged(opts).None? <==> Unknown in opts
    decreases |opts|
  {
    if opts != [] {
      var front, last := opts[..|opts| - 1], opts[|opts| - 1];
      FlaggedUnknown(front);
      InSnoc(Unknown, opts, front, last);
    }
  }

  /** -a and -w are set exactly when they are given. */
  lemma {:induction false} FlaggedSwitches(opts: seq<Opt>)
    requires Flagged(opts).Some?
    ensures Flagged(opts).value.list <==> ListAll in opts
    ensures Flagged(opts).value.write <==> WriteMode in opts
    decreases |opts|
  {
    if opts != [] {
      var front, last := opts[..|opts| - 1], opts[|opts| - 1];
      assert Flagged(opts) == Apply(Flagged(front).value, last);
      FlaggedSwitches(front);
      InSnoc(ListAll, opts, front, last);
      InSnoc(WriteMode, opts, front, last);
    }
  }

  /** The file name is that of the last -f, and there is none without -f. */
  lemma {:induction false} FlaggedFile(opts: seq<Opt>)
    requires Flagged(opts).Some?
    ensures Flagged(opts).value.filename.None? <==> forall i :: 0 <= i < |opts| ==> NoFileOpt(opts[i])
    ensures forall i :: IsLast(IsFileOpt, opts, i) ==> Flagged(opts).value.filename == Some(opts[i].name)
    decreases |opts|
  {
    if opts != [] {
      var front, last := opts[..|opts| - 1], opts[|opts| - 1];
      assert Flagged(opts) == Apply(Flagged(front).value, last);
      FlaggedFile(front);
      AllSnoc(NoFileOpt, opts, front, last);
      forall i | IsLast(IsFileOpt, opts, i)
        ensures Flagged(opts).value.filename == Some(opts[i].name)
      {
        IsLastSnoc(IsFileOpt, opts, front, last, i);
        if !IsFileOpt(last) {
          assert IsLast(IsFileOpt, front, i) && front[i] == opts[i];
        }
      }
    }
  }

  /** The verbosity is that of the last -q (-1) or -v (1), and 0 without
      either. */
  lemma {:induction false} FlaggedVerbose(opts: seq<Opt>)
    requires Flagged(opts).Some?
    ensures Flagged(opts).value.verbose == 0 <==> forall i :: 0 <= i < |opts| ==> NotLoud(opts[i])
    ensures forall i :: IsLast(IsLoud, opts, i) ==> Flagged(opts).value.verbose == if opts[i] == Verbose then 1 else -1
    decreases |opts|
  {
    if opts != [] {
      var front, last := opts[..|opts| - 1], opts[|opts| - 1];
      assert Flagged(opts) == Apply(Flagged(front).value, last);
      FlaggedVerbose(front);
      AllSnoc(NotLoud, opts, front, last);
      forall i | IsLast(IsLoud, opts, i)
        ensures Flagged(opts).value.verbose == if opts[i] == Verbose then 1 else -1
      {
        IsLastSnoc(IsLoud, opts, front, last, i);
        if !IsLoud(last) {
          assert IsLast(IsLoud, front, i) && front[i] == opts[i];
        }
      }
    }
  }

  /** The getopt loop of main. */
  method Options(opts: seq<Opt>) returns (r: Option<Flags>)
    ensures r == Flagged(opts)
  {
    var f := Flags(false, 0, false, None);
    var i := 0;
    while i < |opts|
      invariant i <= |opts| && Flagged(opts[..i]) == Some(f)
    {
      TakeOneMore(opts, i);
      match opts[i] {
        case ListAll => f := f.(list := true);
        case FileName(name) => f := f.(filename := Some(name));
        case Quiet => f := f.(verbose := -1);
        case Verbose => f := f.(verbose := 1);
        case WriteMode => f := f.(write := true);
        case Unknown =>
          FlaggedUnknown(opts);
          return None;
      }
      i := i + 1;
    }
    TakeAll(opts);
    return Some(f);
  }

  /** The exit status main gives for -a, as evidently intended: 0 when
      _configctl_list succeeds and 2 when it fails. */
  function ListExit(ret: int): (status: int)
    ensures status == 0 || status == 2
    ensures status == 0 <==> ret == 0
  {
    if ret == 0 then 0 else 2
  }

  /** The exit status main gives for -a as written: the result of
      _configctl_list taken as a truth value, so 0 on failure and 2 on
      success. */
  function ListExitAsWritten(ret: int): (status: int)
    ensures status == 0 <==> ret != 0
  {
    if ret != 0 then 0 else 2
  }

  /** An empty file lists without error, yet as written -a exits with 2. */
  lemma {:induction false} ListExitInverted()
    ensures Listed(Readable("")) == (0, [])
    ensures ListExitAsWritten(Listed(Readable("")).0) == 2
    ensures ListExit(Listed(Readable("")).0) == 0
  {
    assert Loaded([], Readable("")) == ([], 0);
  }

  /** The settings with which main prints the usage instead of working:
      -a with -q, -v, -w, an operand or no -f, and otherwise no -f or no
      operand. */
  predicate Misused(f: Flags, operands: nat) {
    if f.list then f.verbose != 0 || f.write || f.filename.None? || operands != 0
    else f.filename.None? || operands == 0
  }

  /** The outcome of configctl: the exit status, the lines printed and the
      text saved. The usage exits with 1; otherwise -a exits as written,
      with 2 when the listing succeeds and 0 when it fails (ListExitAsWritten),
      and the other modes with 0 when _configctl succeeds and 2 when it fails. */
  function Main(opts: seq<Opt>, args: seq<String>, file: File, saveError: Option<nat>)
    : (r: (int, seq<String>, Option<seq<char>>))
    ensures r.0 == 1 <==> Flagged(opts).None? || Misused(Flagged(opts).value, |args|)
    ensures r.0 == 0 || r.0 == 1 || r.0 == 2
    ensures r.0 == 1 ==> r == (1, [], None)
    ensures r.2.Some? ==> r.0 == 0
  {
    match Flagged(opts)
    case None => (1, [], None)
    case Some(f) =>
      if Misused(f, |args|) then (1, [], None)
      else if f.list then
        var (ret, out) := Listed(file);
        (ListExitAsWritten(ret), out, None)
      else
        var (ret, out, saved) := Run(f.verbose, f.write, file, args, saveError);
        (if ret == 0 then 0 else 2, out, saved)
  }

  /** configctl -f file -a: prints the listing when the file loads and
      nothing when it does not; as written it then exits with 2 after a
      listing and with 0 after a failure, the reverse of ListExit. */
  lemma {:induction false} MainList(opts: seq<Opt>, file: File, saveError: Option<nat>)
    requires Flagged(opts).Some? && Flagged(opts).value.list && !Misused(Flagged(opts).value, 0)
    ensures var r := Main(opts, [], file, saveError);
      (Loaded([], file).1 == 0 ==> r == (2, Listing(Loaded([], file).0), None))
      && (Loaded([], file).1 != 0 ==> r == (0, [], None))
    ensures var r := Main(opts, [], file, saveError);
      r.0 != ListExit(Loaded([], file).1)
  {
  }

  /** Without -a, main exits with 0 exactly when _configctl succeeds, and
      prints and saves what it does. */
  lemma {:induction false} MainRun(opts: seq<Opt>, args: seq<String>, file: File, saveError: Option<nat>)
    requires Flagged(opts).Some? && !Flagged(opts).value.list && !Misused(Flagged(opts).value, |args|)
    ensures var f := Flagged(opts).value;
      var s := Run(f.verbose, f.write, file, args, saveError);
      Main(opts, args, file, saveError) == (if s.0 == 0 then 0 else 2, s.1, s.2)
  {
  }

  /** The usage in terms of the options given: a '?' from getopt; -a with
      -q, -v, -w, an operand or without -f; no -f or no operand otherwise. */
  lemma {:induction false} MainUsage(opts: seq<Opt>, args: seq<String>, file: File, saveError: Option<nat>)
    ensures var noFile := forall i :: 0 <= i < |opts| ==> NoFileOpt(opts[i]);
      var quiet := forall i :: 0 <= i < |opts| ==> NotLoud(opts[i]);
      var usage := Unknown in opts
        || (ListAll in opts && (!quiet || WriteMode in opts || noFile || args != []))
        || (ListAll !in opts && (noFile || args == []));
      Main(opts, args, file, saveError).0 == 1 <==> usage
  {
    FlaggedUnknown(opts);
    if Flagged(opts).Some? {
      FlaggedSwitches(opts);
      FlaggedFile(opts);
      FlaggedVerbose(opts);
    }
  }

  /** main: the getopt loop, then the listing or _configctl on the operands
      `argv` that getopt leaves. */
  method Command(opts: seq<Opt>, argv: seq<array<char>>, ghost args: seq<String>, file: File, saveError: Option<nat>)
    returns (status: int, out: seq<String>, saved: Option<seq<char>>)
    requires IsArgv(argv, args)
    modifies set i | 0 <= i < |argv| :: argv[i]
    ensures (status, out, saved) == Main(opts, args, file, saveError)
  {
    var flags := Options(opts);
    if flags.None? {
      return 1, [], None;
    }
    var f := flags.value;
    if f.list {
      if f.verbose != 0 || f.write || f.filename.None? || |argv| != 0 {
        return 1, [], None;
      }
      var ret;
      ret, out := List(file);
      return ListExitAsWritten(ret), out, None;
    }
    if f.filename.None? || |argv| == 0 {
      return 1, [], None;
    }
    var ret;
    ret, out, saved := Configctl(f.verbose, f.write, file, argv, args, saveError);
    status := if ret == 0 then 0 else 2;
  }
}
