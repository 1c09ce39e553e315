/**
 * What `searchDirectory` reports for one classpath directory: a direct lookup
 * in an exact search, a recursive walk (`scanDir`) in a partial one.
 */
module DirScan {
  import opened Strings
  import opened Wrappers
  import opened FileSystem
  import opened Target
  import opened Events

  /**
   * The file test of the partial walk: the file's own name ends with the
   * extension, and its whole path (with `\` read as `/`) contains the bare
   * class name and ends with the extension.
   */
  predicate ClassFileMatches(name: String, path: String, c: ClassNames) {
    var p := Replace(path, '\\', '/');
    EndsWith(name, c.ext) && Contains(p, c.noExt) && EndsWith(p, c.ext)
  }

  /** A class found by the walk is named without the separator that starts its relative path. */
  function StripLeadingSeparator(s: String): (r: String)
    ensures r == s || (|s| > 0 && r == s[1..] && (s[0] == '/' || s[0] == '\\'))
  {
    if |s| > 0 && (s[0] == '\\' || s[0] == '/') then s[1..] else s
  }

  /**
   * A file or directory the walk comes across: its path (`getPath`), its path
   * relative to the classpath entry the walk started from, and the node.
   */
  datatype Visit = Visit(path: String, rel: String, node: Node)

  /** The report the walk makes for one node on its own, or none. */
  function NodeReport(top: String, target: Target, v: Visit): (r: seq<Event>)
    ensures |r| <= 1
    ensures forall k :: 0 <= k < |r| ==> r[k].IsMatch() && r[k].location == top
  {
    if IsDirectory(v.node) then
      if target.PackageSearch? && Contains(v.path, target.pkg.dir) then [PackageFound(top, v.rel)] else []
    else if target.ClassSearch? && ClassFileMatches(v.node.name, v.path, target.names) then
      [ClassFound(top, StripLeadingSeparator(v.rel), StampOf(v.node.modified), StampOf(v.node.length))]
    else []
  }

  /** One child seen by `scanDir`: its own report, then (for a directory) the walk below it. */
  function VisitEvents(top: String, target: Target, fileSep: char, path: String, rel: String, f: Node): seq<Event>
    decreases f, 1
  {
    NodeReport(top, target, Visit(path, rel, f)) + ScanDirEvents(top, target, fileSep, path, rel, f)
  }

  /** `scanDir(top, dir)`: nothing when `dir` cannot be listed (or is not a directory), its children in order otherwise. */
  function ScanDirEvents(top: String, target: Target, fileSep: char, path: String, rel: String, dir: Node): seq<Event>
    decreases dir, 0
  {
    match dir.kind
    case Regular(_) => []
    case Directory(children, listable) =>
      if listable then WalkEvents(top, target, fileSep, path, rel, children) else []
  }

  /** The children of a directory at `dirPath`, in listing order. */
  function WalkEvents(top: String, target: Target, fileSep: char, dirPath: String, rel: String,
                      children: seq<Node>): seq<Event>
    decreases children, 2
  {
    if children == [] then []
    else
      var c := children[0];
      VisitEvents(top, target, fileSep, dirPath + [fileSep] + c.name, rel + [fileSep] + c.name, c)
      + WalkEvents(top, target, fileSep, dirPath, rel, children[1..])
  }

  // ---------------------------------------------------------------------------
  // The walk as a flat list of visited nodes

  /** The nodes below `dir` that the walk reaches, in the order it reaches them. */
  function Below(fileSep: char, path: String, rel: String, dir: Node): seq<Visit>
    decreases dir, 0
  {
    match dir.kind
    case Regular(_) => []
    case Directory(children, listable) =>
      if listable then BelowAll(fileSep, path, rel, children) else []
  }

  function BelowAll(fileSep: char, dirPath: String, rel: String, children: seq<Node>): seq<Visit>
    decreases children, 1
  {
    if children == [] then []
    else
      var c := children[0];
      var p := dirPath + [fileSep] + c.name;
      var r := rel + [fileSep] + c.name;
      [Visit(p, r, c)] + Below(fileSep, p, r, c) + BelowAll(fileSep, dirPath, rel, children[1..])
  }

  /** The reports for a list of visited nodes, one node at a time. */
  function Reports(top: String, target: Target, vs: seq<Visit>): seq<Event> {
    if vs == [] then [] else NodeReport(top, target, vs[0]) + Reports(top, target, vs[1..])
  }

  lemma {:induction false} ReportsAppend(top: String, target: Target, a: seq<Visit>, b: seq<Visit>)
    ensures Reports(top, target, a + b) == Reports(top, target, a) + Reports(top, target, b)
  {
    if a != [] {
      assert (a + b)[0] == a[0] && (a + b)[1..] == a[1..] + b;
      ReportsAppend(top, target, a[1..], b);
    } else {
      assert a + b == b;
    }
  }

  /** An event is reported for a list of nodes exactly when it is the report of one of them. */
  lemma {:induction false} ReportsMember(top: String, target: Target, vs: seq<Visit>, ev: Event)
    ensures ev in Reports(top, target, vs) <==> exists k :: 0 <= k < |vs| && ev in NodeReport(top, target, vs[k])
  {
    if vs != [] {
      ReportsMember(top, target, vs[1..], ev);
      if ev in Reports(top, target, vs[1..]) {
        var k :| 0 <= k < |vs[1..]| && ev in NodeReport(top, target, vs[1..][k]);
        assert vs[k + 1] == vs[1..][k];
      }
      if exists k :: 0 <= k < |vs| && ev in NodeReport(top, target, vs[k]) {
        var k :| 0 <= k < |vs| && ev in NodeReport(top, target, vs[k]);
        if k > 0 {
          assert vs[1..][k - 1] == vs[k];
        }
      }
    }
  }

  /** The recursive walk reports, in order, what the flat list of the nodes it reaches reports. */
  lemma {:induction false} ScanDirIsReports(top: String, target: Target, fileSep: char, path: String, rel: String, dir: Node)
    ensures ScanDirEvents(top, target, fileSep, path, rel, dir) == Reports(top, target, Below(fileSep, path, rel, dir))
    decreases dir, 0
  {
    match dir.kind
    case Regular(_) =>
    case Directory(children, listable) =>
      if listable {
        WalkIsReports(top, target, fileSep, path, rel, children);
      }
  }

  lemma {:induction false} WalkIsReports(top: String, target: Target, fileSep: char, dirPath: String, rel: String,
                                         children: seq<Node>)
    ensures WalkEvents(top, target, fileSep, dirPath, rel, children) == Reports(top, target, BelowAll(fileSep, dirPath, rel, children))
    decreases children, 1
  {
    if children != [] {
      var c := children[0];
      var p := dirPath + [fileSep] + c.name;
      var r := rel + [fileSep] + c.name;
      ScanDirIsReports(top, target, fileSep, p, r, c);
      WalkIsReports(top, target, fileSep, dirPath, rel, children[1..]);
      var head := [Visit(p, r, c)];
      ReportsAppend(top, target, head + Below(fileSep, p, r, c), BelowAll(fileSep, dirPath, rel, children[1..]));
      ReportsAppend(top, target, head, Below(fileSep, p, r, c));
      assert Reports(top, target, head) == NodeReport(top, target, Visit(p, r, c)) by {
        assert head[1..] == [];
      }
    }
  }

  /**
   * Every node the walk reaches lies strictly below the start: its relative
   * path extends the start's by a separator and more, its path is the start's
   * path followed by the extra part of the relative path, and the path ends
   * with the separator and the node's own name.
   */
  lemma {:induction false} BelowPaths(fileSep: char, path: String, rel: String, dir: Node)
    ensures forall k :: 0 <= k < |Below(fileSep, path, rel, dir)| ==>
              var v := Below(fileSep, path, rel, dir)[k];
              StartsWith(v.rel, rel + [fileSep]) && v.path == path + v.rel[|rel|..]
              && EndsWith(v.path, [fileSep] + v.node.name)
    decreases dir, 0
  {
    match dir.kind
    case Regular(_) =>
    case Directory(children, listable) =>
      if listable {
        BelowAllPaths(fileSep, path, rel, children);
      }
  }

  lemma {:induction false} BelowAllPaths(fileSep: char, dirPath: String, rel: String, children: seq<Node>)
    ensures forall k :: 0 <= k < |BelowAll(fileSep, dirPath, rel, children)| ==>
              var v := BelowAll(fileSep, dirPath, rel, children)[k];
              StartsWith(v.rel, rel + [fileSep]) && v.path == dirPath + v.rel[|rel|..]
              && EndsWith(v.path, [fileSep] + v.node.name)
    decreases children, 1
  {
    if children != [] {
      var c := children[0];
      var p := dirPath + [fileSep] + c.name;
      var r := rel + [fileSep] + c.name;
      BelowPaths(fileSep, p, r, c);
      BelowAllPaths(fileSep, dirPath, rel, children[1..]);
      var inner := Below(fileSep, p, r, c);
      var rest := BelowAll(fileSep, dirPath, rel, children[1..]);
      var all := [Visit(p, r, c)] + inner + rest;
      assert BelowAll(fileSep, dirPath, rel, children) == all;
      forall k | 0 <= k < |all|
        ensures StartsWith(all[k].rel, rel + [fileSep]) && all[k].path == dirPath + all[k].rel[|rel|..]
                && EndsWith(all[k].path, [fileSep] + all[k].node.name)
      {
        if k == 0 {
          assert r[|rel|..] == [fileSep] + c.name;
          assert r[..|rel| + 1] == rel + [fileSep];
        } else if k <= |inner| {
          var v := inner[k - 1];
          assert all[k] == v;
          assert StartsWith(v.rel, r + [fileSep]) && v.path == p + v.rel[|r|..];
          assert v.rel[..|rel| + 1] == r[..|rel| + 1] == rel + [fileSep];
          assert v.rel[|rel|..] == r[|rel|..] + v.rel[|r|..];
          assert r[|rel|..] == [fileSep] + c.name;
        } else {
          assert all[k] == rest[k - 1 - |inner|];
        }
      }
    }
  }

  // ---------------------------------------------------------------------------
  // What a partial walk from a classpath directory reports

  /**
   * A partial package search of directory `top` reports the relative path `r`
   * exactly when the walk reaches a directory at `top + r` whose path contains
   * the package's directory form; such an `r` starts with the separator.
   */
  lemma PartialPackageReports(top: String, packageName: String, pkg: PackageNames, fileSep: char, dir: Node, r: String)
    ensures PackageFound(top, r) in ScanDirEvents(top, PackageSearch(packageName, pkg), fileSep, top, [], dir)
        <==> exists k :: 0 <= k < |Below(fileSep, top, [], dir)| &&
               var v := Below(fileSep, top, [], dir)[k];
               IsDirectory(v.node) && v.rel == r && v.path == top + r && Contains(top + r, pkg.dir)
    ensures PackageFound(top, r) in ScanDirEvents(top, PackageSearch(packageName, pkg), fileSep, top, [], dir)
        ==> StartsWith(r, [fileSep])
  {
    var target := PackageSearch(packageName, pkg);
    var vs := Below(fileSep, top, [], dir);
    ScanDirIsReports(top, target, fileSep, top, [], dir);
    ReportsMember(top, target, vs, PackageFound(top, r));
    BelowPaths(fileSep, top, [], dir);
    assert forall k :: 0 <= k < |vs| ==> vs[k].rel[0..] == vs[k].rel;
  }

  /**
   * A partial class search of directory `top` reports name `n` exactly when
   * the walk reaches a file that passes the file test and whose relative path,
   * without its leading separator, is `n`; time and size are the file's.
   */
  lemma PartialClassReports(top: String, c: ClassNames, fileSep: char, dir: Node, n: String, m: Stamp, s: Stamp)
    ensures ClassFound(top, n, m, s) in ScanDirEvents(top, ClassSearch(c), fileSep, top, [], dir)
        <==> exists k :: 0 <= k < |Below(fileSep, top, [], dir)| &&
               var v := Below(fileSep, top, [], dir)[k];
               !IsDirectory(v.node) && ClassFileMatches(v.node.name, v.path, c) && n == StripLeadingSeparator(v.rel)
               && m == StampOf(v.node.modified) && s == StampOf(v.node.length)
    ensures forall ev :: ev in ScanDirEvents(top, ClassSearch(c), fileSep, top, [], dir) ==> ev.ClassFound? && ev.location == top
  {
    var target := ClassSearch(c);
    var vs := Below(fileSep, top, [], dir);
    ScanDirIsReports(top, target, fileSep, top, [], dir);
    ReportsMember(top, target, vs, ClassFound(top, n, m, s));
    forall ev | ev in Reports(top, target, vs)
      ensures ev.ClassFound? && ev.location == top
    {
      ReportsMember(top, target, vs, ev);
    }
  }

  /** On a `/` or `\` host a class found by the walk is named by its relative path after the first separator. */
  lemma PartialClassNameDropsSeparator(fileSep: char, v: Visit)
    requires fileSep == '/' || fileSep == '\\'
    requires StartsWith(v.rel, [] + [fileSep])
    ensures StripLeadingSeparator(v.rel) == v.rel[1..]
  {
  }

  // ---------------------------------------------------------------------------
  // searchDirectory

  /**
   * `searchDirectory(dir)` for the classpath directory at `path`: the partial
   * walk, or in an exact search one lookup of the package's directory form
   * (reported when it names a directory) or of the class file name (reported
   * with that file's time and length when it exists).
   */
  function DirEvents(path: String, dir: Node, target: Target, partial: bool, fileSep: char): seq<Event>
    requires !target.ListOnly?
  {
    if partial then ScanDirEvents(path, target, fileSep, path, [], dir)
    else
      match target
      case PackageSearch(_, pkg) =>
        (match Lookup(dir, pkg.dir, fileSep)
         case Some(d) => if IsDirectory(d) then [PackageFound(path, pkg.dir)] else []
         case None => [])
      case ClassSearch(c) =>
        match Lookup(dir, c.name, fileSep)
        case Some(f) => [ClassFound(path, c.name, StampOf(f.modified), StampOf(f.length))]
        case None => []
  }

  /** Every report of a directory search is a match at that directory, of the kind the target asks for. */
  lemma DirEventsAreMatches(path: String, dir: Node, target: Target, partial: bool, fileSep: char)
    requires !target.ListOnly?
    ensures forall ev :: ev in DirEvents(path, dir, target, partial, fileSep) ==>
              ev.IsMatch() && ev.location == path && (ev.PackageFound? <==> target.PackageSearch?)
  {
    if partial {
      var vs := Below(fileSep, path, [], dir);
      ScanDirIsReports(path, target, fileSep, path, [], dir);
      forall ev | ev in Reports(path, target, vs)
        ensures ev.IsMatch() && ev.location == path && (ev.PackageFound? <==> target.PackageSearch?)
      {
        ReportsMember(path, target, vs, ev);
      }
    }
  }

  /** An exact package search of a directory reports the package iff its directory form resolves to a directory below it. */
  lemma ExactPackageLookup(path: String, dir: Node, name: String, pkg: PackageNames, fileSep: char)
    ensures var evs := DirEvents(path, dir, PackageSearch(name, pkg), false, fileSep);
            var d := Lookup(dir, pkg.dir, fileSep);
            (PackageFound(path, pkg.dir) in evs <==> d.Some? && IsDirectory(d.value))
            && (HasMatch(evs) <==> PackageFound(path, pkg.dir) in evs)
  {
    var evs := DirEvents(path, dir, PackageSearch(name, pkg), false, fileSep);
    if PackageFound(path, pkg.dir) in evs {
      assert evs[0].IsMatch();
    }
  }

  /** An exact class search of a directory reports the class iff the file name resolves below it. */
  lemma ExactClassLookup(path: String, dir: Node, c: ClassNames, fileSep: char)
    ensures HasMatch(DirEvents(path, dir, ClassSearch(c), false, fileSep)) <==> Lookup(dir, c.name, fileSep).Some?
  {
    var evs := DirEvents(path, dir, ClassSearch(c), false, fileSep);
    if Lookup(dir, c.name, fileSep).Some? {
      assert evs[0].IsMatch();
    }
  }
}
