/**
 * `scanClassPathList` and the searches it dispatches to: what each classpath
 * entry contributes to the output, the index of archive entries by base name
 * kept for `-d`, and the `found` flag.
 */
module Search {
  import opened Strings
  import opened Wrappers
  import opened FileSystem
  import opened Target
  import opened Events
  import opened JarScan
  import opened DirScan

  // ---------------------------------------------------------------------------
  // What one pass over the classpath reports

  /**
   * The output for one classpath entry `s`. An existing entry is printed in a
   * list run and searched otherwise (a directory with `searchDirectory`,
   * anything else with `searchJar`). A missing entry is printed whenever no
   * class name was given (so also in a package search) and draws a warning
   * unless `-q` was given.
   */
  function EntryEvents(s: String, roots: Roots, target: Target, partial: bool, quiet: bool, fileSep: char): seq<Event> {
    if s in roots then
      var f := roots[s];
      if target.ListOnly? then [Listed(s)]
      else if IsDirectory(f) then DirEvents(s, f, target, partial, fileSep)
      else JarEvents(s, f.kind.jar, target, partial)
    else
      (if !target.ClassSearch? then [Listed(s)] else []) + (if quiet then [] else [MissingWarning(s)])
  }

  /** The output of the whole pass, entry by entry in classpath order. */
  function ScanEvents(list: seq<String>, roots: Roots, target: Target, partial: bool, quiet: bool, fileSep: char): seq<Event>
    decreases |list|
  {
    if list == [] then []
    else EntryEvents(list[0], roots, target, partial, quiet, fileSep) + ScanEvents(list[1..], roots, target, partial, quiet, fileSep)
  }

  lemma {:induction false} ScanEventsAppend(a: seq<String>, b: seq<String>, roots: Roots, target: Target, partial: bool,
                                            quiet: bool, fileSep: char)
    ensures ScanEvents(a + b, roots, target, partial, quiet, fileSep)
         == ScanEvents(a, roots, target, partial, quiet, fileSep) + ScanEvents(b, roots, target, partial, quiet, fileSep)
    decreases |a|
  {
    if a == [] {
      assert a + b == b;
    } else {
      assert (a + b)[0] == a[0] && (a + b)[1..] == a[1..] + b;
      ScanEventsAppend(a[1..], b, roots, target, partial, quiet, fileSep);
    }
  }

  /** A jar search reports matches and, for an unreadable jar, the one warning. */
  lemma JarEventsKinds(jarPath: String, jar: Jar, target: Target, partial: bool, ev: Event)
    requires !target.ListOnly?
    requires ev in JarEvents(jarPath, jar, target, partial)
    ensures ev.IsMatch() || ev == CannotOpen(jarPath)
  {
    match jar
    case Unreadable =>
    case Entries(entries) =>
      match target
      case PackageSearch(_, pkg) =>
        JarPackageEventsExact(jarPath, entries, pkg.jar, partial, {}, []);
      case ClassSearch(c) =>
        JarClassEventsExact(jarPath, entries, c, partial, ev);
  }

  /** The kinds of output one entry can give, and which entries give which. */
  lemma EntryEventsKinds(s: String, roots: Roots, target: Target, partial: bool, quiet: bool, fileSep: char, ev: Event)
    requires ev in EntryEvents(s, roots, target, partial, quiet, fileSep)
    ensures ev.Listed? ==> ev == Listed(s) && (if s in roots then target.ListOnly? else !target.ClassSearch?)
    ensures ev.MissingWarning? ==> ev == MissingWarning(s) && s !in roots && !quiet
    ensures ev.CannotOpen? ==> ev == CannotOpen(s) && s in roots && !IsDirectory(roots[s])
    ensures ev.IsMatch() ==> s in roots && !target.ListOnly?
  {
    if s in roots {
      var f := roots[s];
      if target.ListOnly? {
        assert ev == Listed(s);
      } else if IsDirectory(f) {
        DirEventsAreMatches(s, f, target, partial, fileSep);
      } else {
        JarEventsKinds(s, f.kind.jar, target, partial, ev);
      }
    } else {
      assert ev == Listed(s) || ev == MissingWarning(s);
    }
  }

  /** A list run prints every existing entry once, in order, and never searches. */
  lemma ListRunPrintsExisting(s: String, roots: Roots, partial: bool, quiet: bool, fileSep: char)
    requires s in roots
    ensures EntryEvents(s, roots, ListOnly, partial, quiet, fileSep) == [Listed(s)]
  {
  }

  /**
   * A classpath entry draws the "does not exist" warning exactly when it is
   * on the classpath, does not exist and `-q` was not given.
   */
  lemma {:induction false} MissingWarningIff(list: seq<String>, roots: Roots, target: Target, partial: bool, quiet: bool,
                                             fileSep: char, s: String)
    ensures MissingWarning(s) in ScanEvents(list, roots, target, partial, quiet, fileSep) <==> s in list && s !in roots && !quiet
    decreases |list|
  {
    if list != [] {
      MissingWarningIff(list[1..], roots, target, partial, quiet, fileSep, s);
      var head := EntryEvents(list[0], roots, target, partial, quiet, fileSep);
      if MissingWarning(s) in head {
        EntryEventsKinds(list[0], roots, target, partial, quiet, fileSep, MissingWarning(s));
      }
      if s == list[0] && s !in roots && !quiet {
        assert MissingWarning(s) in head;
      }
      assert s in list <==> s == list[0] || s in list[1..];
    }
  }

  /**
   * A classpath entry is printed exactly when it is on the classpath and
   * either it exists in a list run, or it does not exist and no class name was
   * given.
   */
  lemma {:induction false} ListedIff(list: seq<String>, roots: Roots, target: Target, partial: bool, quiet: bool,
                                     fileSep: char, s: String)
    ensures Listed(s) in ScanEvents(list, roots, target, partial, quiet, fileSep)
        <==> s in list && (if s in roots then target.ListOnly? else !target.ClassSearch?)
    decreases |list|
  {
    if list != [] {
      ListedIff(list[1..], roots, target, partial, quiet, fileSep, s);
      var head := EntryEvents(list[0], roots, target, partial, quiet, fileSep);
      if Listed(s) in head {
        EntryEventsKinds(list[0], roots, target, partial, quiet, fileSep, Listed(s));
      }
      if s == list[0] && (if s in roots then target.ListOnly? else !target.ClassSearch?) {
        assert Listed(s) in head;
      }
      assert s in list <==> s == list[0] || s in list[1..];
    }
  }

  /** A pass matches something exactly when one of the entries' own searches does; a list run never does. */
  lemma {:induction false} ScanMatches(list: seq<String>, roots: Roots, target: Target, partial: bool, quiet: bool,
                                       fileSep: char)
    ensures HasMatch(ScanEvents(list, roots, target, partial, quiet, fileSep))
        <==> exists k :: 0 <= k < |list| && HasMatch(EntryEvents(list[k], roots, target, partial, quiet, fileSep))
    ensures target.ListOnly? ==> !HasMatch(ScanEvents(list, roots, target, partial, quiet, fileSep))
    decreases |list|
  {
    if list != [] {
      var head := EntryEvents(list[0], roots, target, partial, quiet, fileSep);
      ScanMatches(list[1..], roots, target, partial, quiet, fileSep);
      HasMatchAppend(head, ScanEvents(list[1..], roots, target, partial, quiet, fileSep));
      if HasMatch(head) && target.ListOnly? {
        var k :| 0 <= k < |head| && head[k].IsMatch();
        EntryEventsKinds(list[0], roots, target, partial, quiet, fileSep, head[k]);
      }
      if exists k :: 0 <= k < |list[1..]| && HasMatch(EntryEvents(list[1..][k], roots, target, partial, quiet, fileSep)) {
        var k :| 0 <= k < |list[1..]| && HasMatch(EntryEvents(list[1..][k], roots, target, partial, quiet, fileSep));
        assert list[k + 1] == list[1..][k];
      }
      if exists k :: 0 <= k < |list| && HasMatch(EntryEvents(list[k], roots, target, partial, quiet, fileSep)) {
        var k :| 0 <= k < |list| && HasMatch(EntryEvents(list[k], roots, target, partial, quiet, fileSep));
        if k > 0 {
          assert list[1..][k - 1] == list[k];
        }
      }
    }
  }

  // ---------------------------------------------------------------------------
  // The duplicate index

  /** `cDuplicateJars`: for each base name, the existing non-directory entries with that name, in scan order. */
  type DuplicateIndex = map<String, seq<String>>

  /** The list kept under `name`, empty when there is none yet (`computeIfAbsent`). */
  function Get(dup: DuplicateIndex, name: String): seq<String> {
    if name in dup then dup[name] else []
  }

  /** The entries the index takes: those that exist and are not directories. */
  predicate IsArchiveEntry(s: String, roots: Roots) {
    s in roots && !IsDirectory(roots[s])
  }

  /** What scanning entry `s` does to the index. */
  function AddEntry(dup: DuplicateIndex, s: String, roots: Roots, fileSep: char): DuplicateIndex {
    if IsArchiveEntry(s, roots) then
      var name := BaseName(s, fileSep);
      dup[name := Get(dup, name) + [s]]
    else dup
  }

  /** The index after the entries of `list` were scanned in order. */
  function IndexEntries(dup: DuplicateIndex, list: seq<String>, roots: Roots, fileSep: char): DuplicateIndex
    decreases |list|
  {
    if list == [] then dup else IndexEntries(AddEntry(dup, list[0], roots, fileSep), list[1..], roots, fileSep)
  }

  /** Whether the index files entry `s` under base name `name`. */
  predicate FiledUnder(s: String, roots: Roots, fileSep: char, name: String) {
    IsArchiveEntry(s, roots) && BaseName(s, fileSep) == name
  }

  /** The entries of `list` the index files under base name `name`, in order: the reference for the index. */
  function PathsNamed(list: seq<String>, roots: Roots, fileSep: char, name: String): seq<String>
    decreases |list|
  {
    if list == [] then []
    else (if FiledUnder(list[0], roots, fileSep, name) then [list[0]] else []) + PathsNamed(list[1..], roots, fileSep, name)
  }

  /** An entry is listed under `name` exactly when it is on the classpath, exists, is not a directory and has that base name. */
  lemma {:induction false} PathsNamedMembers(list: seq<String>, roots: Roots, fileSep: char, name: String, s: String)
    ensures s in PathsNamed(list, roots, fileSep, name) <==> s in list && FiledUnder(s, roots, fileSep, name)
    decreases |list|
  {
    if list != [] {
      PathsNamedMembers(list[1..], roots, fileSep, name, s);
      assert s in list <==> s == list[0] || s in list[1..];
    }
  }

  /**
   * After scanning `list`, the index holds under each base name what it held
   * before followed by that name's archive entries in scan order; a name is
   * a key exactly when it was one before or some entry has it.
   */
  lemma {:induction false} IndexEntriesContents(dup: DuplicateIndex, list: seq<String>, roots: Roots, fileSep: char, name: String)
    ensures Get(IndexEntries(dup, list, roots, fileSep), name) == Get(dup, name) + PathsNamed(list, roots, fileSep, name)
    ensures name in IndexEntries(dup, list, roots, fileSep) <==> name in dup || PathsNamed(list, roots, fileSep, name) != []
    decreases |list|
  {
    if list == [] {
      assert Get(dup, name) + [] == Get(dup, name);
    } else {
      var dup' := AddEntry(dup, list[0], roots, fileSep);
      IndexEntriesContents(dup', list[1..], roots, fileSep, name);
      AddEntryGet(dup, list[0], roots, fileSep, name);
      IndexEntriesStep(dup, list, roots, fileSep);
      PathsNamedStep(list, roots, fileSep, name);
      var here := if FiledUnder(list[0], roots, fileSep, name) then [list[0]] else [];
      ContentsStep(Get(dup, name), here, PathsNamed(list[1..], roots, fileSep, name), name in dup, name in dup');
    }
  }

  /** The sequence and key bookkeeping of one step of the index. */
  lemma ContentsStep(before: seq<String>, here: seq<String>, rest: seq<String>, wasKey: bool, isKey: bool)
    requires isKey <==> wasKey || here != []
    ensures before + here + rest == before + (here + rest)
    ensures (isKey || rest != []) <==> (wasKey || here + rest != [])
  {
  }

  lemma IndexEntriesStep(dup: DuplicateIndex, list: seq<String>, roots: Roots, fileSep: char)
    requires list != []
    ensures IndexEntries(dup, list, roots, fileSep) == IndexEntries(AddEntry(dup, list[0], roots, fileSep), list[1..], roots, fileSep)
  {
  }

  lemma PathsNamedStep(list: seq<String>, roots: Roots, fileSep: char, name: String)
    requires list != []
    ensures PathsNamed(list, roots, fileSep, name)
         == (if FiledUnder(list[0], roots, fileSep, name) then [list[0]] else []) + PathsNamed(list[1..], roots, fileSep, name)
  {
  }

  /** Scanning one entry appends it under its base name, if it is an archive entry, and changes no other name. */
  lemma AddEntryGet(dup: DuplicateIndex, s: String, roots: Roots, fileSep: char, name: String)
    ensures Get(AddEntry(dup, s, roots, fileSep), name)
         == if FiledUnder(s, roots, fileSep, name) then Get(dup, name) + [s] else Get(dup, name)
    ensures name in AddEntry(dup, s, roots, fileSep) <==> name in dup || FiledUnder(s, roots, fileSep, name)
  {
  }

  /** Scanning a directory entry, or one that does not exist, leaves the index unchanged. */
  lemma DirectoriesNotIndexed(dup: DuplicateIndex, s: String, roots: Roots, fileSep: char)
    requires s !in roots || IsDirectory(roots[s])
    ensures IndexEntries(dup, [s], roots, fileSep) == dup
  {
  }

  /** Every list in the index is non-empty and holds archive entries with its key for base name. */
  ghost predicate IndexConsistent(dup: DuplicateIndex, roots: Roots, fileSep: char) {
    forall name :: name in dup ==>
      dup[name] != [] && forall s :: s in dup[name] ==> FiledUnder(s, roots, fileSep, name)
  }

  lemma AddEntryConsistent(dup: DuplicateIndex, s: String, roots: Roots, fileSep: char)
    requires IndexConsistent(dup, roots, fileSep)
    ensures IndexConsistent(AddEntry(dup, s, roots, fileSep), roots, fileSep)
  {
  }

  /** The duplicate report: the base names with more than one entry, with their entries. */
  function DuplicateReport(dup: DuplicateIndex): (r: DuplicateIndex)
    ensures forall name :: name in r <==> name in dup && |dup[name]| > 1
    ensures forall name :: name in r ==> r[name] == dup[name]
  {
    map name | name in dup && |dup[name]| > 1 :: dup[name]
  }

  /** A base name is reported after a pass exactly when more than one archive entry of the classpath has it. */
  lemma DuplicatesReported(list: seq<String>, roots: Roots, fileSep: char, name: String)
    ensures name in DuplicateReport(IndexEntries(map[], list, roots, fileSep))
        <==> |PathsNamed(list, roots, fileSep, name)| > 1
    ensures name in DuplicateReport(IndexEntries(map[], list, roots, fileSep)) ==>
              DuplicateReport(IndexEntries(map[], list, roots, fileSep))[name] == PathsNamed(list, roots, fileSep, name)
  {
    IndexEntriesContents(map[], list, roots, fileSep, name);
    assert Get(map[], name) == [];
  }

  // ---------------------------------------------------------------------------
  // The run

  /**
   * `JavaSearchClassPath`'s static search state: the settings the scans read,
   * the `found` flag, the duplicate index, and the output so far.
   */
  class SearchRun {
    const target: Target
    const partial: bool
    const quiet: bool
    const checkDuplicates: bool
    const fileSep: char
    const roots: Roots

    var found: bool
    var duplicates: DuplicateIndex
    var log: seq<Event>

    /** `found` is set exactly by the reports, and the index only files archive entries under their base names. */
    ghost predicate Valid()
      reads this
    {
      found == HasMatch(log) && IndexConsistent(duplicates, roots, fileSep)
    }

    constructor(target: Target, partial: bool, quiet: bool, checkDuplicates: bool, fileSep: char, roots: Roots)
      ensures this.target == target && this.partial == partial && this.quiet == quiet
      ensures this.checkDuplicates == checkDuplicates && this.fileSep == fileSep && this.roots == roots
      ensures !found && duplicates == map[] && log == []
      ensures Valid()
    {
      this.target := target;
      this.partial := partial;
      this.quiet := quiet;
      this.checkDuplicates := checkDuplicates;
      this.fileSep := fileSep;
      this.roots := roots;
      found := false;
      duplicates := map[];
      log := [];
    }

    /** A line of output that is not a report. */
    method Output(e: Event)
      requires Valid() && !e.IsMatch()
      modifies this
      ensures Valid()
      ensures log == old(log) + [e] && found == old(found) && duplicates == old(duplicates)
    {
      HasMatchAppend(log, [e]);
      log := log + [e];
    }

    /** `foundPackage`. */
    method FoundPackage(location: String, packageName: String)
      requires Valid()
      modifies this
      ensures Valid()
      ensures log == old(log) + [PackageFound(location, packageName)] && found && duplicates == old(duplicates)
    {
      HasMatchAppend(log, [PackageFound(location, packageName)]);
      assert [PackageFound(location, packageName)][0].IsMatch();
      log := log + [PackageFound(location, packageName)];
      found := true;
    }

    /** `foundClass`: a time or size of -1 is shown as not available. */
    method FoundClass(location: String, className: String, lastModified: int, fileSize: int)
      requires Valid()
      modifies this
      ensures Valid()
      ensures log == old(log) + [ClassFound(location, className, StampOf(lastModified), StampOf(fileSize))]
      ensures found && duplicates == old(duplicates)
    {
      var e := ClassFound(location, className, StampOf(lastModified), StampOf(fileSize));
      HasMatchAppend(log, [e]);
      assert [e][0].IsMatch();
      log := log + [e];
      found := true;
    }

    /** `searchJar`: the jar's entries in stream order. */
    method SearchJar(jarPath: String, jar: Jar)
      requires Valid() && !target.ListOnly?
      modifies this
      ensures Valid()
      ensures log == old(log) + JarEvents(jarPath, jar, target, partial) && duplicates == old(duplicates)
    {
      if jar.Unreadable? {
        Output(CannotOpen(jarPath));
        return;
      }
      var entries := jar.entries;
      var foundPackages: set<String> := {};
      var i := 0;
      while i < |entries|
        invariant 0 <= i <= |entries|
        invariant Valid() && duplicates == old(duplicates)
        invariant target.PackageSearch? ==>
          old(log) + JarPackageEvents(jarPath, entries, target.pkg.jar, partial, {})
          == log + JarPackageEvents(jarPath, entries[i..], target.pkg.jar, partial, foundPackages)
        invariant target.ClassSearch? ==>
          old(log) + JarClassEvents(jarPath, entries, target.names, partial)
          == log + JarClassEvents(jarPath, entries[i..], target.names, partial)
      {
        ghost var before, seen := log, foundPackages;
        if target.PackageSearch? {
          foundPackages := JarPackageEntry(jarPath, entries[i], foundPackages);
        } else {
          JarClassEntry(jarPath, entries[i]);
        }
        JarStep(jarPath, entries, i, before, log, seen, foundPackages);
        i := i + 1;
      }
    }

    /** The bookkeeping of one turn of `searchJar`'s loop. */
    lemma JarStep(jarPath: String, entries: seq<JarEntry>, i: nat, before: seq<Event>, after: seq<Event>,
                  seen: set<String>, seen': set<String>)
      requires i < |entries| && !target.ListOnly?
      requires target.PackageSearch? ==>
                 if Reportable(entries[i], target.pkg.jar, partial, seen) then
                   var form := PackageForm(entries[i].name).value;
                   after == before + [PackageFound(jarPath, form)] && seen' == seen + {form}
                 else after == before && seen' == seen
      requires target.ClassSearch? ==>
                 after == before + if ClassEntryMatches(entries[i].name, target.names, partial)
                                   then [ClassEvent(jarPath, entries[i])] else []
      ensures target.PackageSearch? ==>
                before + JarPackageEvents(jarPath, entries[i..], target.pkg.jar, partial, seen)
                == after + JarPackageEvents(jarPath, entries[i + 1..], target.pkg.jar, partial, seen')
      ensures target.ClassSearch? ==>
                before + JarClassEvents(jarPath, entries[i..], target.names, partial)
                == after + JarClassEvents(jarPath, entries[i + 1..], target.names, partial)
    {
      assert entries[i..][0] == entries[i] && entries[i..][1..] == entries[i + 1..];
    }

    /**
     * One turn of `searchJar`'s loop in a package search: the entry's package
     * form is reported, and remembered, when it matches and was not reported
     * yet.
     */
    method JarPackageEntry(jarPath: String, entry: JarEntry, foundPackages: set<String>)
      returns (foundPackages': set<String>)
      requires Valid() && target.PackageSearch?
      modifies this
      ensures Valid() && duplicates == old(duplicates)
      ensures Reportable(entry, target.pkg.jar, partial, foundPackages) ==>
                var form := PackageForm(entry.name).value;
                log == old(log) + [PackageFound(jarPath, form)] && foundPackages' == foundPackages + {form}
      ensures !Reportable(entry, target.pkg.jar, partial, foundPackages) ==>
                log == old(log) && foundPackages' == foundPackages
    {
      foundPackages' := foundPackages;
      var packageName := entry.name;
      if EndsWith(packageName, ".class") {
        var idx := LastIndexOf(packageName, '/');
        if idx == -1 {
          return;
        }
        packageName := packageName[..idx + 1];
      }
      assert PackageForm(entry.name) == Some(packageName);
      if partial {
        if Contains(packageName, target.pkg.jar) && packageName !in foundPackages {
          FoundPackage(jarPath, packageName);
          foundPackages' := foundPackages + {packageName};
        }
      } else {
        if packageName == target.pkg.jar && packageName !in foundPackages {
          FoundPackage(jarPath, packageName);
          foundPackages' := foundPackages + {packageName};
        }
      }
    }

    /** One turn of `searchJar`'s loop in a class search: a matching entry is reported with its streamed size. */
    method JarClassEntry(jarPath: String, entry: JarEntry)
      requires Valid() && target.ClassSearch?
      modifies this
      ensures Valid() && duplicates == old(duplicates)
      ensures log == old(log) + if ClassEntryMatches(entry.name, target.names, partial) then [ClassEvent(jarPath, entry)] else []
    {
      var entryName := entry.name;
      var c := target.names;
      if partial {
        if Contains(entryName, c.noExt) && EndsWith(entryName, c.ext) {
          var size := GetEntrySize(entry.chunks);
          FoundClass(jarPath, entryName, entry.time, size);
        }
      } else {
        if entryName == c.name {
          var size := GetEntrySize(entry.chunks);
          FoundClass(jarPath, entryName, entry.time, size);
        }
      }
    }

    /** The walk over `files[i..]` is the visit of `files[i]` followed by the walk over the rest. */
    lemma WalkStep(top: String, path: String, rel: String, files: seq<Node>, i: nat)
      requires i < |files|
      ensures WalkEvents(top, target, fileSep, path, rel, files[i..])
           == VisitEvents(top, target, fileSep, path + [fileSep] + files[i].name, rel + [fileSep] + files[i].name, files[i])
              + WalkEvents(top, target, fileSep, path, rel, files[i + 1..])
    {
      assert files[i..][0] == files[i] && files[i..][1..] == files[i + 1..];
    }

    /**
     * `scanDir(top, dir)` for the directory at `path` whose path relative to
     * `top` is `rel`: each child in listing order gets its own test, and a
     * directory child is walked in turn.
     */
    method ScanDir(top: String, path: String, rel: String, dir: Node)
      requires Valid() && !target.ListOnly?
      modifies this
      ensures Valid()
      ensures log == old(log) + ScanDirEvents(top, target, fileSep, path, rel, dir) && duplicates == old(duplicates)
      decreases dir, 0
    {
      if dir.kind.Regular? || !dir.kind.listable {
        return;
      }
      var files := dir.kind.children;
      var i := 0;
      while i < |files|
        invariant 0 <= i <= |files|
        invariant Valid() && duplicates == old(duplicates)
        invariant old(log) + WalkEvents(top, target, fileSep, path, rel, files)
               == log + WalkEvents(top, target, fileSep, path, rel, files[i..])
      {
        var f := files[i];
        WalkStep(top, path, rel, files, i);
        VisitChild(top, path + [fileSep] + f.name, rel + [fileSep] + f.name, f);
        i := i + 1;
      }
    }

    /**
     * One turn of `scanDir`'s loop, for the child `f` at `path` whose path
     * relative to `top` is `rel`: a directory is compared with the package and
     * walked, a file with the class.
     */
    method VisitChild(top: String, path: String, rel: String, f: Node)
      requires Valid() && !target.ListOnly? && rel != []
      modifies this
      ensures Valid()
      ensures log == old(log) + VisitEvents(top, target, fileSep, path, rel, f) && duplicates == old(duplicates)
      decreases f, 1
    {
      if IsDirectory(f) {
        if target.PackageSearch? {
          if Contains(path, target.pkg.dir) {
            FoundPackage(top, rel);
          }
        }
        ScanDir(top, path, rel, f);
      } else {
        VisitFile(top, path, rel, f);
      }
    }

    /** The file case of `scanDir`'s loop: in a class search, a file that passes the name and path tests is reported. */
    method VisitFile(top: String, path: String, rel: String, f: Node)
      requires Valid() && !target.ListOnly? && rel != [] && !IsDirectory(f)
      modifies this
      ensures Valid()
      ensures log == old(log) + NodeReport(top, target, Visit(path, rel, f)) && duplicates == old(duplicates)
    {
      if !target.PackageSearch? {
        var c := target.names;
        if EndsWith(f.name, c.ext) {
          var p := Replace(path, '\\', '/');
          if Contains(p, c.noExt) && EndsWith(p, c.ext) {
            var s := rel;
            if s[0] == '\\' || s[0] == '/' {
              s := s[1..];
            }
            FoundClass(top, s, f.modified, f.length);
          }
        }
      }
    }

    /** `searchDirectory(dir)` for the classpath directory `path`. */
    method SearchDirectory(path: String, dir: Node)
      requires Valid() && !target.ListOnly?
      modifies this
      ensures Valid()
      ensures log == old(log) + DirEvents(path, dir, target, partial, fileSep) && duplicates == old(duplicates)
    {
      if target.PackageSearch? {
        if partial {
          ScanDir(path, path, [], dir);
        } else {
          var d := Lookup(dir, target.pkg.dir, fileSep);
          if d.Some? && IsDirectory(d.value) {
            FoundPackage(path, target.pkg.dir);
          }
        }
      } else {
        if partial {
          ScanDir(path, path, [], dir);
        } else {
          var f := Lookup(dir, target.names.name, fileSep);
          if f.Some? {
            FoundClass(path, target.names.name, f.value.modified, f.value.length);
          }
        }
      }
    }

    /** One iteration of `scanClassPathList`: the output for entry `s` and its effect on the index. */
    method ScanEntry(s: String)
      requires Valid()
      modifies this
      ensures Valid()
      ensures log == old(log) + EntryEvents(s, roots, target, partial, quiet, fileSep)
      ensures duplicates == if checkDuplicates then AddEntry(old(duplicates), s, roots, fileSep) else old(duplicates)
    {
      if s in roots {
        var f := roots[s];
        if target.ListOnly? {
          Output(Listed(s));
        } else if IsDirectory(f) {
          SearchDirectory(s, f);
        } else {
          SearchJar(s, f.kind.jar);
        }
        if checkDuplicates && !IsDirectory(f) {
          var name := BaseName(s, fileSep);
          var paths := if name in duplicates then duplicates[name] else [];
          AddEntryConsistent(duplicates, s, roots, fileSep);
          duplicates := duplicates[name := paths + [s]];
        }
      } else {
        if !target.ClassSearch? {
          if !quiet {
            Output(Listed(s));
            Output(MissingWarning(s));
          } else {
            Output(Listed(s));
          }
        } else {
          if !quiet {
            Output(MissingWarning(s));
          }
        }
      }
    }

    /** The bookkeeping of one iteration of `scanClassPathList`. */
    lemma ScanStep(list: seq<String>, i: nat, before: seq<Event>, after: seq<Event>,
                   dupBefore: DuplicateIndex, dupAfter: DuplicateIndex, s: String)
      requires i < |list| && s == list[i]
      requires after == before + EntryEvents(s, roots, target, partial, quiet, fileSep)
      requires dupAfter == if checkDuplicates then AddEntry(dupBefore, s, roots, fileSep) else dupBefore
      ensures before + ScanEvents(list[i..], roots, target, partial, quiet, fileSep)
           == after + ScanEvents(list[i + 1..], roots, target, partial, quiet, fileSep)
      ensures checkDuplicates ==>
                IndexEntries(dupBefore, list[i..], roots, fileSep) == IndexEntries(dupAfter, list[i + 1..], roots, fileSep)
    {
      assert list[i..][0] == s && list[i..][1..] == list[i + 1..];
      var e := EntryEvents(s, roots, target, partial, quiet, fileSep);
      var rest := ScanEvents(list[i + 1..], roots, target, partial, quiet, fileSep);
      assert ScanEvents(list[i..], roots, target, partial, quiet, fileSep) == e + rest;
      assert before + (e + rest) == before + e + rest;
    }

    /**
     * `scanClassPathList`: every entry in order, with the duplicate index
     * updated for the existing non-directory entries when `-d` was given.
     */
    method ScanClassPathList(list: seq<String>)
      requires Valid()
      modifies this
      ensures Valid()
      ensures log == old(log) + ScanEvents(list, roots, target, partial, quiet, fileSep)
      ensures duplicates == if checkDuplicates then IndexEntries(old(duplicates), list, roots, fileSep) else old(duplicates)
    {
      var i := 0;
      while i < |list|
        invariant 0 <= i <= |list|
        invariant Valid()
        invariant old(log) + ScanEvents(list, roots, target, partial, quiet, fileSep)
               == log + ScanEvents(list[i..], roots, target, partial, quiet, fileSep)
        invariant checkDuplicates ==>
          IndexEntries(old(duplicates), list, roots, fileSep) == IndexEntries(duplicates, list[i..], roots, fileSep)
        invariant !checkDuplicates ==> duplicates == old(duplicates)
      {
        var s := list[i];
        ghost var before := log;
        ghost var dupBefore := duplicates;
        ScanEntry(s);
        ScanStep(list, i, before, log, dupBefore, duplicates, s);
        i := i + 1;
      }
    }
  }

  /**
   * A fresh run over `list` ends with `found` set exactly when some entry's
   * search reported a match, and its duplicate report names exactly the base
   * names shared by several archive entries.
   */
  method SearchClassPath(list: seq<String>, roots: Roots, target: Target, partial: bool, quiet: bool,
                         checkDuplicates: bool, fileSep: char)
    returns (log: seq<Event>, found: bool, duplicates: DuplicateIndex)
    ensures log == ScanEvents(list, roots, target, partial, quiet, fileSep) && found == HasMatch(log)
    ensures duplicates == if checkDuplicates then IndexEntries(map[], list, roots, fileSep) else map[]
    ensures found <==> exists k :: 0 <= k < |list| && HasMatch(EntryEvents(list[k], roots, target, partial, quiet, fileSep))
    ensures target.ListOnly? ==> !found
    ensures forall name :: name in DuplicateReport(duplicates) <==>
              checkDuplicates && |PathsNamed(list, roots, fileSep, name)| > 1
  {
    var run := new SearchRun(target, partial, quiet, checkDuplicates, fileSep, roots);
    run.ScanClassPathList(list);
    log, found, duplicates := run.log, run.found, run.duplicates;
    assert [] + ScanEvents(list, roots, target, partial, quiet, fileSep) == log;
    ScanMatches(list, roots, target, partial, quiet, fileSep);
    forall name | true
      ensures name in DuplicateReport(duplicates) <==> checkDuplicates && |PathsNamed(list, roots, fileSep, name)| > 1
    {
      DuplicatesReported(list, roots, fileSep, name);
    }
  }
}
