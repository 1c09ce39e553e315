/**
 * `JavaSearchClassPath.main`: the options loop over `b:de:hpPs:q`, the
 * argument-count checks and target set-up, and the run that assembles and
 * scans the classpath and reports what was not found and which archives
 * appear more than once.
 */
module Cli {
  import opened Strings
  import opened Wrappers
  import opened FileSystem
  import opened Target
  import opened Events
  import opened ClassPath
  import opened Search
  import opened Getopt
  import opened Switches

  /** The static option settings of `JavaSearchClassPath`. */
  datatype Settings = Settings(
    bootProperty: String,     // cBootClassPathProperty
    checkDuplicates: bool,    // cCheckDuplicateJars
    extension: String,        // cExtension
    help: bool,               // cShowHelp
    partial: bool,            // cPartialMatch
    searchPackage: bool,      // cSearchForPackage
    sep: String,              // cSep
    quiet: bool)              // cQuiet

  /** The settings before any option, on a host whose `path.separator` is `pathSeparator`. */
  function Defaults(pathSeparator: String): Settings {
    Settings("sun.boot.class.path", false, ".class", false, false, false, pathSeparator, false)
  }

  /** One case of the `switch` in `main`: option `c`, whose `getValue()` is `v`. */
  function ApplyOption(s: Settings, c: char, v: Option<String>): (r: Settings)
    requires (c == 'b' || c == 'e' || c == 's') ==> v.Some?
    ensures StartsWith(s.extension, ".") ==> StartsWith(r.extension, ".")
    ensures c == 'e' ==> r.extension == NormalizeExtension(v.value)
    ensures c != 'e' ==> r.extension == s.extension
  {
    match c
    case 'b' => s.(bootProperty := v.value)
    case 'd' => s.(checkDuplicates := true)
    case 'e' => s.(extension := NormalizeExtension(v.value))
    case 'h' => s.(help := true)
    case 'p' => s.(partial := true)
    case 'P' => s.(searchPackage := true)
    case 's' => s.(sep := v.value)
    case 'q' => s.(quiet := true)
    case _ => s
  }

  /**
   * The options loop of `main` from scanner state `st` with the settings so
   * far: the settings and `getIndex()` once `hasNext()` is false, or the
   * exception `next()` throws.
   */
  function ParseFrom(args: seq<String>, st: ScanState, s: Settings): Result<(Settings, int), OptionError>
    requires Consistent(args, st)
    decreases |args| - st.argsIndex, if st.argsIndex < |args| then |args[st.argsIndex]| - st.optionIndex else 0
  {
    if !HasMore(args, st) then Success((s, st.argsIndex))
    else
      var (r, st') := Step(args, Control, st);
      match r
      case Failure(e) => Failure(e)
      case Success(c) =>
        StepValue(args, Control, st);
        ControlValues();
        ParseFrom(args, st', ApplyOption(s, c, st'.value))
  }

  /**
   * After the options loop the extension starts with a dot, and the index
   * is past the arguments or at one that does not start options.
   */
  lemma {:induction false} ParseResult(args: seq<String>, st: ScanState, s: Settings)
    requires Consistent(args, st) && StartsWith(s.extension, ".")
    ensures ParseFrom(args, st, s).Success? ==>
              var (s', idx) := ParseFrom(args, st, s).value;
              StartsWith(s'.extension, ".") && st.argsIndex <= idx <= |args|
              && (idx == |args| || !IsOptionArg(args[idx]))
    decreases |args| - st.argsIndex, if st.argsIndex < |args| then |args[st.argsIndex]| - st.optionIndex else 0
  {
    if !HasMore(args, st) {
      OptionsEnd(args, st);
    } else {
      var (r, st') := Step(args, Control, st);
      if r.Success? {
        StepValue(args, Control, st);
        ControlValues();
        ParseResult(args, st', ApplyOption(s, r.value, st'.value));
      }
    }
  }

  /**
   * Every argument the options loop passes over is an option argument or
   * the value right after one: no operand is skipped before the index.
   */
  predicate OptionsOrValues(args: seq<String>, from: int, to: int)
    requires 0 <= from <= to <= |args|
  {
    forall k :: from <= k < to ==> IsOptionArg(args[k]) || (from <= k - 1 && IsOptionArg(args[k - 1]))
  }

  /** One option moves the scanner over option arguments and values only, and keeps it inside an option argument. */
  lemma StepOverOptions(args: seq<String>, control: String, st: ScanState)
    requires Consistent(args, st) && HasMore(args, st)
    requires st.optionIndex > 1 ==> IsOptionArg(args[st.argsIndex])
    ensures var st' := Step(args, control, st).1;
            Step(args, control, st).0.Success? ==>
              st.argsIndex <= st'.argsIndex <= |args| && OptionsOrValues(args, st.argsIndex, st'.argsIndex)
              && (st'.optionIndex > 1 && st'.argsIndex < |args| ==> IsOptionArg(args[st'.argsIndex]))
  {
    HasMoreInBounds(args, st);
    StepAdvance(args, control, st);
  }

  /** Two stretches of options and values make one. */
  lemma OptionsOrValuesJoin(args: seq<String>, a: int, b: int, c: int)
    requires 0 <= a <= b <= c <= |args|
    requires OptionsOrValues(args, a, b) && OptionsOrValues(args, b, c)
    ensures OptionsOrValues(args, a, c)
  {
  }

  /**
   * The index the options loop ends at is the first operand: every argument
   * before it, from where the scan started, was an option argument or the
   * value right after one.
   */
  lemma {:induction false} ParseSkipsNoOperand(args: seq<String>, st: ScanState, s: Settings)
    requires Consistent(args, st)
    requires st.optionIndex > 1 && st.argsIndex < |args| ==> IsOptionArg(args[st.argsIndex])
    ensures ParseFrom(args, st, s).Success? ==>
              var idx := ParseFrom(args, st, s).value.1;
              st.argsIndex <= idx <= |args| && OptionsOrValues(args, st.argsIndex, idx)
    decreases |args| - st.argsIndex, if st.argsIndex < |args| then |args[st.argsIndex]| - st.optionIndex else 0
  {
    if HasMore(args, st) {
      var (r, st') := Step(args, Control, st);
      if r.Success? {
        StepOverOptions(args, Control, st);
        StepValue(args, Control, st);
        ControlValues();
        var s' := ApplyOption(s, r.value, st'.value);
        assert ParseFrom(args, st, s) == ParseFrom(args, st', s');
        ParseSkipsNoOperand(args, st', s');
        if ParseFrom(args, st', s').Success? {
          OptionsOrValuesJoin(args, st.argsIndex, st'.argsIndex, ParseFrom(args, st', s').value.1);
        }
      }
    }
  }

  /** The options loop of `main`, over the arguments it was started with. */
  method ParseOptions(args: array<String>, pathSeparator: String) returns (r: Result<(Settings, int), OptionError>)
    ensures r == ParseFrom(args[..], Start, Defaults(pathSeparator))
  {
    var options := new Options(args, Control);
    var settings := Defaults(pathSeparator);
    while options.HasNext()
      invariant options.args == args && options.control == Control && options.Valid()
      invariant ParseFrom(args[..], options.State(), settings) == ParseFrom(args[..], Start, Defaults(pathSeparator))
      decreases args.Length - options.argsIndex,
                if options.argsIndex < args.Length then |args[options.argsIndex]| - options.optionIndex else 0
    {
      ghost var st := options.State();
      var c := options.Next();
      if c.Failure? {
        return Failure(c.error);
      }
      StepValue(args[..], Control, st);
      ControlValues();
      settings := ApplyOption(settings, c.value, options.GetValue());
    }
    return Success((settings, options.GetIndex()));
  }

  // ---------------------------------------------------------------------------
  // Setting up the target

  /** What `main` does after the options loop, before any scanning. */
  datatype Setup =
    | Usage(help: bool)        // usage(): on stdout with exit status 0 for -h, on stderr with status 1 otherwise
    | PackageNameRequired      // -P without a package name: error message, exit status 1
    | Ready(target: Target)

  /**
   * The argument-count check and the target: at most one operand may follow
   * the options; `-P` needs exactly one, the package name; otherwise one
   * operand is the class name and none means listing the classpath.
   */
  function Configure(s: Settings, args: seq<String>, idx: int, fileSep: char): Setup
    requires 0 <= idx <= |args|
  {
    if s.help || (idx != |args| && idx + 1 != |args|) then Usage(s.help)
    else if s.searchPackage then
      if idx + 1 != |args| then PackageNameRequired
      else Ready(PackageSearch(args[idx], NormalizePackageName(args[idx], fileSep)))
    else if idx + 1 == |args| then Ready(ClassSearch(NormalizeClassName(args[idx], s.extension)))
    else Ready(ListOnly)
  }

  /**
   * Which setup the operands lead to, and that a class target's names fit
   * together: the full name is the bare name plus the extension, which starts
   * with a dot; a package's jar form ends with `/`.
   */
  lemma ConfigureCases(s: Settings, args: seq<String>, idx: int, fileSep: char)
    requires 0 <= idx <= |args| && StartsWith(s.extension, ".")
    ensures Configure(s, args, idx, fileSep).Usage? <==> s.help || idx + 1 < |args|
    ensures Configure(s, args, idx, fileSep) == PackageNameRequired <==> !s.help && s.searchPackage && idx == |args|
    ensures Configure(s, args, idx, fileSep) == Ready(ListOnly) <==> !s.help && !s.searchPackage && idx == |args|
    ensures Configure(s, args, idx, fileSep).Ready? ==>
              match Configure(s, args, idx, fileSep).target
              case ListOnly => true
              case ClassSearch(c) =>
                idx + 1 == |args| && !s.searchPackage && c.name == c.noExt + c.ext && StartsWith(c.ext, ".")
              case PackageSearch(name, pkg) =>
                idx + 1 == |args| && s.searchPackage && name == args[idx] && EndsWith(pkg.jar, "/")
  {
  }

  // ---------------------------------------------------------------------------
  // The whole run

  /** How a run ends. */
  datatype Outcome =
    | NoClassPath                  // the searchClassPath property is not set: error message, exit status 1
    | BadOption(error: OptionError) // next() threw; main prints the stack trace and stops
    | BadProperty(key: String)     // System.getProperty threw for the `-b` name; main prints the stack trace and stops
    | Stopped(setup: Setup)        // usage or the missing package name
    | Done(log: seq<Event>, notFound: bool, duplicates: DuplicateIndex)

  /**
   * `System.getProperty(name)` for the boot classpath property `-b` names:
   * an empty name throws (`IllegalArgumentException`), otherwise the value
   * if the property is set and `null` if it is not.
   */
  function BootPath(properties: map<String, String>, name: String): (r: Result<Option<String>, String>)
    ensures r.Failure? <==> name == []
    ensures r.Failure? ==> r.error == name
    ensures r.Success? ==> (r.value.Some? <==> name in properties)
    ensures r.Success? && r.value.Some? ==> r.value.value == properties[name]
  {
    if name == [] then Failure(name)
    else if name in properties then Success(Some(properties[name]))
    else Success(None)
  }

  /**
   * `main` as a function of its inputs: the arguments, the `searchClassPath`
   * property, the other system properties (for the boot classpath), the
   * `lib/ext` listing, the filesystem, and the host's path and file
   * separators. A finished run gives the output of the scan, whether it ends
   * with the "not found" message, and the duplicate report.
   */
  function Program(args: seq<String>, searchClassPath: Option<String>, properties: map<String, String>,
                   extListing: Option<seq<String>>, roots: Roots, pathSeparator: String, fileSep: char): Outcome
  {
    if searchClassPath.None? then NoClassPath
    else
      var d := Defaults(pathSeparator);
      ParseResult(args, Start, d);
      match ParseFrom(args, Start, d)
      case Failure(e) => BadOption(e)
      case Success((s, idx)) =>
        match Configure(s, args, idx, fileSep)
        case Ready(target) =>
          (match BootPath(properties, s.bootProperty)
           case Failure(key) => BadProperty(key)
           case Success(boot) =>
             Finish(ClassPathOf(boot, s, extListing, searchClassPath.value, pathSeparator, roots), roots, target, s, fileSep))
        case other => Stopped(other)
  }

  /** The classpath `buildClasspathList` assembles under settings `s` from the boot classpath `boot`. */
  function ClassPathOf(boot: Option<String>, s: Settings, extListing: Option<seq<String>>,
                       searchClassPath: String, pathSeparator: String, roots: Roots): seq<String>
  {
    BootEntries(boot, pathSeparator, roots)
    + ExtEntries(extListing) + Tokens(searchClassPath, s.sep)
  }

  /** The scan of `list` and what `main` reports after it. */
  function Finish(list: seq<String>, roots: Roots, target: Target, s: Settings, fileSep: char): Outcome {
    var log := ScanEvents(list, roots, target, s.partial, s.quiet, fileSep);
    Done(log, !target.ListOnly? && !HasMatch(log),
         if s.checkDuplicates then DuplicateReport(IndexEntries(map[], list, roots, fileSep)) else map[])
  }

  /** `main`. */
  method Run(args: array<String>, searchClassPath: Option<String>, properties: map<String, String>,
             extListing: Option<seq<String>>, roots: Roots, pathSeparator: String, fileSep: char)
    returns (r: Outcome)
    ensures r == Program(args[..], searchClassPath, properties, extListing, roots, pathSeparator, fileSep)
  {
    if searchClassPath.None? {
      return NoClassPath;
    }
    var parsed := ParseOptions(args, pathSeparator);
    ParseResult(args[..], Start, Defaults(pathSeparator));
    if parsed.Failure? {
      return BadOption(parsed.error);
    }
    var (s, idx) := parsed.value;
    var setup := Configure(s, args[..], idx, fileSep);
    if !setup.Ready? {
      return Stopped(setup);
    }
    var target := setup.target;
    var boot := BootPath(properties, s.bootProperty);
    if boot.Failure? {
      return BadProperty(boot.error);
    }
    var list := BuildClasspathList(boot.value, pathSeparator, roots, extListing, searchClassPath.value, s.sep);
    assert list == ClassPathOf(boot.value, s, extListing, searchClassPath.value, pathSeparator, roots);
    r := Report(list, roots, target, s, fileSep);
  }

  /** The scan of the assembled classpath and the reports `main` makes after it. */
  method Report(list: seq<String>, roots: Roots, target: Target, s: Settings, fileSep: char) returns (r: Outcome)
    ensures r == Finish(list, roots, target, s, fileSep)
  {
    var log, found, index := SearchClassPath(list, roots, target, s.partial, s.quiet, s.checkDuplicates, fileSep);
    var notFound := false;
    if target.PackageSearch? {
      if !found {
        notFound := true;
      }
    } else {
      if target.ClassSearch? && !found {
        notFound := true;
      }
    }
    var report := if s.checkDuplicates then DuplicateReport(index) else map[];
    r := Done(log, notFound, report);
  }

  /**
   * A finished run says "not found" exactly when it searched for something
   * and no classpath entry's search reported it; its duplicate report names
   * exactly, with `-d`, the base names of several existing archive entries.
   */
  lemma DoneReports(args: seq<String>, searchClassPath: Option<String>, properties: map<String, String>,
                    extListing: Option<seq<String>>, roots: Roots, pathSeparator: String, fileSep: char, name: String)
    requires Program(args, searchClassPath, properties, extListing, roots, pathSeparator, fileSep).Done?
    ensures var (s, idx) := ParseFrom(args, Start, Defaults(pathSeparator)).value;
            var target := Configure(s, args, idx, fileSep).target;
            var list := ClassPathOf(BootPath(properties, s.bootProperty).value, s, extListing,
                                    searchClassPath.value, pathSeparator, roots);
            var out := Program(args, searchClassPath, properties, extListing, roots, pathSeparator, fileSep);
            (out.notFound <==>
               !target.ListOnly? && forall k :: 0 <= k < |list| ==>
                 !HasMatch(EntryEvents(list[k], roots, target, s.partial, s.quiet, fileSep)))
            && (name in out.duplicates <==> s.checkDuplicates && |PathsNamed(list, roots, fileSep, name)| > 1)
  {
    var d := Defaults(pathSeparator);
    ParseResult(args, Start, d);
    var (s, idx) := ParseFrom(args, Start, d).value;
    var target := Configure(s, args, idx, fileSep).target;
    var list := ClassPathOf(BootPath(properties, s.bootProperty).value, s, extListing,
                            searchClassPath.value, pathSeparator, roots);
    ScanMatches(list, roots, target, s.partial, s.quiet, fileSep);
    DuplicatesReported(list, roots, fileSep, name);
  }
}
