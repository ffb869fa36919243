/** The config tool (tools/config.c): it loads a configuration file and
    prints one variable or, with -w, prints, assigns and saves it. What it
    prints on the standard output is modelled as its lines, without their
    newlines; messages on the standard error are left out. Its options are
    a subset of those of configctl, and are modelled with the same type. */
module ConfigTool {
  import opened Common
  import opened Configs
  import opened Arguments
  import ConfigCtl

  /** The line _config prints: verbose, `section.key=value`, with the
      section and its '.' whenever there is a section, even an empty one,
      that is the -w argument setting that variable; otherwise the value
      alone. */
  function Line(verbose: bool, section: Option<String>, key: String, value: String): (r: String)
    ensures !verbose ==> r == value
    ensures verbose ==> r == Joined(Argument(section, key, Some(value)))
  {
    if !verbose then value
    else (if section.Some? then section.value + "." else "") + (key + "=" + value)
  }

  /** A verbose line read back as the argument of config -w is the same
      assignment, as long as the section holds no '.', the variable no '=',
      and, without a section, neither the variable nor the value a '.'. */
  lemma {:induction false} LineReadsBack(section: Option<String>, key: String, value: String)
    requires Canonical(Argument(section, key, Some(value)), true)
    ensures Split(Line(true, section, key, value), true) == Argument(section, key, Some(value))
  {
    SplitJoined(Argument(section, key, Some(value)), true);
  }

  /** The table _config saves after a set: the loaded one with the variable
      assigned, or unchanged when config_set refuses the empty name. */
  function Assigned(t: Sections, section: Option<String>, key: String, value: String): (r: Sections)
    requires TableOk(t)
    ensures TableOk(r)
    ensures key == "" ==> r == t
    ensures key != "" ==> ValueOf(r, section, key) == Some(value)
  {
    if key == "" then t
    else
      StoredGet(t, section, key, Some(value));
      Stored(t, section, key, Some(value))
  }

  /** The set leaves every other variable as it was. */
  lemma {:induction false} AssignedKeepsOthers(t: Sections, section: Option<String>, key: String, value: String,
                                               s: String, v: String)
    requires TableOk(t) && (s != SectionName(section) || v != key)
    ensures ValueOf(Assigned(t, section, key, value), Some(s), v) == ValueOf(t, Some(s), v)
  {
    if key != "" {
      StoredGetOther(t, section, key, Some(value), s, v);
    }
  }

  /** The outcome of _config on the split argument `a`: its result, the
      lines printed and the text saved. A file that does not load gives 1;
      a get prints the value and gives 0, or gives 1 when there is none; a
      set prints its line first, then assigns, then saves whether or not
      the assignment succeeded, and gives 1 when either fails. */
  function Configured(verbose: bool, file: File, a: Argument, saveError: Option<nat>)
    : (r: (int, seq<String>, Option<seq<char>>))
    ensures r.0 == 0 || r.0 == 1
    ensures Loaded([], file).1 != 0 ==> r == (1, [], None)
    ensures Loaded([], file).1 == 0 && a.value.None? ==>
      var p := ValueOf(Loaded([], file).0, a.section, a.key);
      r.2 == None && (r.0 == 0 <==> p.Some?) && r.1 == (if p.Some? then [Line(verbose, a.section, a.key, p.value)] else [])
    ensures Loaded([], file).1 == 0 && a.value.Some? ==>
      r.1 == [Line(verbose, a.section, a.key, a.value.value)]
      && (r.0 == 0 <==> a.key != "" && (saveError.None? || saveError.value == 0))
      && (saveError.None? ==> r.2 == Some(Render(Assigned(Loaded([], file).0, a.section, a.key, a.value.value))))
      && (saveError.Some? && saveError.value != 0 ==> r.2 == None)
  {
    var (t, loaded) := Loaded([], file);
    if loaded != 0 then (1, [], None)
    else if a.value.None? then
      var p := ValueOf(t, a.section, a.key);
      if p.Some? then (0, [Line(verbose, a.section, a.key, p.value)], None) else (1, [], None)
    else
      var (ret, saved) := SetSaved(Assigned(t, a.section, a.key, a.value.value), a.key == "", saveError);
      (ret, [Line(verbose, a.section, a.key, a.value.value)], saved)
  }

  /** The end of the set of _config, with the table `u` after config_set
      and whether config_set refused: the result and the text saved. */
  function SetSaved(u: Sections, refused: bool, saveError: Option<nat>): (r: (int, Option<seq<char>>))
    ensures r.0 == 0 || r.0 == 1
    ensures r.0 == 0 <==> !refused && r.1.Some?
    ensures saveError.None? ==> r.1 == Some(Render(u))
    ensures r.1.Some? ==> r.1.value == Render(u) || r.1.value == []
  {
    var saved := if saveError.None? then Some(Render(u)) else if saveError.value == 0 then Some([]) else None;
    (if refused || saved.None? then 1 else 0, saved)
  }

  /** _config: config_load, then config_get and the line, or the line,
      config_set and config_save. */
  method Configure(verbose: bool, file: File, a: Argument, saveError: Option<nat>)
    returns (ret: int, out: seq<String>, saved: Option<seq<char>>)
    ensures (ret, out, saved) == Configured(verbose, file, a, saveError)
  {
    var config := new Config();
    var r := config.Load(file);
    assert (config.sections, r) == Loaded([], file);
    if r != 0 {
      return 1, [], None;
    }
    if a.value.None? {
      var p := config.Get(a.section, a.key);
      if p.None? {
        return 1, [], None;
      }
      return 0, [Line(verbose, a.section, a.key, p.value)], None;
    }
    var ret', saved' := SetAndSave(config, a.section, a.key, a.value.value, saveError);
    return ret', [Line(verbose, a.section, a.key, a.value.value)], saved';
  }

  /** config_set, then config_save whatever config_set gave. */
  method SetAndSave(config: Config, section: Option<String>, key: String, value: String, saveError: Option<nat>)
    returns (ret: int, saved: Option<seq<char>>)
    requires config.Valid()
    modifies config
    ensures config.sections == Assigned(old(config.sections), section, key, value)
    ensures (ret, saved) == SetSaved(config.sections, key == "", saveError)
  {
    var s := config.Set(section, Some(key), Some(value));
    var e;
    e, saved := SaveText(config, saveError);
    ret := if s != 0 || e then 1 else 0;
  }

  /** config_save: whether it fails, and the text written otherwise. */
  method SaveText(config: Config, saveError: Option<nat>) returns (failed: bool, saved: Option<seq<char>>)
    requires config.Valid()
    ensures failed <==> saveError.Some? && saveError.value != 0
    ensures saved == if saveError.None? then Some(Render(config.sections)) else if failed then None else Some([])
  {
    var e, w := config.Save(saveError);
    failed := e != 0;
    saved := if failed then None else Some(w);
  }

  // ---------------------------------------------------------------------
  // The command line (main)

  /** What getopt returns for the option string "f:vw": -f with its
      argument, -v, -w or '?'; -a and -q are unknown options here. */
  type ToolOpt = o: ConfigCtl.Opt | !o.ListAll? && !o.Quiet? witness ConfigCtl.Unknown

  /** -v is in effect exactly when it is given. */
  lemma {:induction false} FlaggedVerbose(opts: seq<ToolOpt>)
    requires ConfigCtl.Flagged(opts).Some?
    ensures ConfigCtl.Flagged(opts).value.verbose != 0 <==> ConfigCtl.Verbose in opts
  {
    ConfigCtl.FlaggedVerbose(opts);
    assert forall i :: 0 <= i < |opts| ==> (ConfigCtl.NotLoud(opts[i]) <==> opts[i] != ConfigCtl.Verbose);
  }

  /** The outcome of config: the exit status, the lines printed and the
      text saved. Unknown options, no -f or other than one operand give the
      usage and 1; otherwise the status is 0 when _config succeeds and 2
      when it fails. */
  function Main(opts: seq<ToolOpt>, args: seq<String>, file: File, saveError: Option<nat>)
    : (r: (int, seq<String>, Option<seq<char>>))
    ensures r.0 == 0 || r.0 == 1 || r.0 == 2
    ensures r.0 == 1 <==> ConfigCtl.Flagged(opts).None? || ConfigCtl.Flagged(opts).value.filename.None? || |args| != 1
    ensures r.0 == 1 ==> r == (1, [], None)
  {
    match ConfigCtl.Flagged(opts)
    case None => (1, [], None)
    case Some(f) =>
      if f.filename.None? || |args| != 1 then (1, [], None)
      else
        var c := Configured(f.verbose != 0, file, Split(args[0], f.write), saveError);
        (if c.0 == 0 then 0 else 2, c.1, c.2)
  }

  /** The usage in terms of the options given: a '?' from getopt, no -f,
      or other than one operand. */
  lemma {:induction false} MainUsage(opts: seq<ToolOpt>, args: seq<String>, file: File, saveError: Option<nat>)
    ensures Main(opts, args, file, saveError).0 == 1 <==>
      ConfigCtl.Unknown in opts || (forall i :: 0 <= i < |opts| ==> ConfigCtl.NoFileOpt(opts[i])) || |args| != 1
  {
    ConfigCtl.FlaggedUnknown(opts);
    if ConfigCtl.Flagged(opts).Some? {
      ConfigCtl.FlaggedFile(opts);
    }
  }

  /** With a file and one operand, config exits with 0 exactly when _config
      succeeds on the operand split as its -w mode says, printing verbosely
      exactly with -v. */
  lemma {:induction false} MainRuns(opts: seq<ToolOpt>, arg: String, file: File, saveError: Option<nat>)
    requires ConfigCtl.Flagged(opts).Some? && ConfigCtl.Flagged(opts).value.filename.Some?
    ensures var c := Configured(ConfigCtl.Verbose in opts, file, Split(arg, ConfigCtl.WriteMode in opts), saveError);
      Main(opts, [arg], file, saveError) == (if c.0 == 0 then 0 else 2, c.1, c.2)
  {
    FlaggedVerbose(opts);
    ConfigCtl.FlaggedSwitches(opts);
  }

  /** main: the getopt loop, then _config on the one operand, split in
      place. */
  method Command(opts: seq<ToolOpt>, argv: seq<array<char>>, ghost args: seq<String>, file: File,
                 saveError: Option<nat>) returns (status: int, out: seq<String>, saved: Option<seq<char>>)
    requires ConfigCtl.IsArgv(argv, args)
    modifies set i | 0 <= i < |argv| :: argv[i]
    ensures (status, out, saved) == Main(opts, args, file, saveError)
  {
    var flags := ConfigCtl.Options(opts);
    if flags.None? || flags.value.filename.None? || |argv| != 1 {
      return 1, [], None;
    }
    var f := flags.value;
    var a := SplitArgument(argv[0], args[0], f.write);
    var ret;
    ret, out, saved := Configure(f.verbose != 0, file, a, saveError);
    status := if ret == 0 then 0 else 2;
  }
}
