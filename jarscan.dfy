/**
 * What `searchJar` reports for one jar: the package forms of its entries in a
 * package search, the matching entries with their streamed sizes in a class
 * search.
 */
module JarScan {
  import opened Strings
  import opened Wrappers
  import opened FileSystem
  import opened Target
  import opened Events

  const TWO_31: int := 0x8000_0000
  const TWO_32: int := 0x1_0000_0000

  predicate IsInt32(x: int) {
    -TWO_31 <= x < TWO_31
  }

  /** Java `int` addition, which wraps around modulo 2^32. */
  function AddInt32(a: int, b: int): (r: int)
    ensures IsInt32(r)
    ensures IsInt32(a + b) ==> r == a + b
    ensures (a + b - r) % TWO_32 == 0
  {
    var m := (a + b + TWO_31) % TWO_32;
    assert a + b + TWO_31 == (a + b + TWO_31) / TWO_32 * TWO_32 + m;
    m - TWO_31
  }

  // ---------------------------------------------------------------------------
  // getEntrySize

  /** The read results `getEntrySize` adds up: those before the first one that is 0 or less. */
  function BytesRead(chunks: seq<int>): (r: seq<int>)
    ensures |r| <= |chunks| && r == chunks[..|r|]
    ensures forall k :: 0 <= k < |r| ==> r[k] > 0
    ensures |r| == |chunks| || chunks[|r|] <= 0
  {
    if chunks == [] || chunks[0] <= 0 then []
    else
      var rest := BytesRead(chunks[1..]);
      assert [chunks[0]] + rest == chunks[..|rest| + 1];
      [chunks[0]] + rest
  }

  /** The sum of the bytes read. */
  function Sum(s: seq<int>): int {
    if s == [] then 0 else Sum(s[..|s| - 1]) + s[|s| - 1]
  }

  /** The same sum, accumulated in a Java `int`. */
  function WrappingSum(s: seq<int>): int {
    if s == [] then 0 else AddInt32(WrappingSum(s[..|s| - 1]), s[|s| - 1])
  }

  /** The size `getEntrySize` returns for an entry whose reads return `chunks`. */
  function EntrySize(chunks: seq<int>): int {
    WrappingSum(BytesRead(chunks))
  }

  /** The entry is read to its end: the size counts every byte read before the first empty read. */
  method GetEntrySize(chunks: seq<int>) returns (size: int)
    ensures size == EntrySize(chunks)
  {
    size := 0;
    var i := 0;
    while i < |chunks| && chunks[i] > 0
      invariant 0 <= i <= |chunks|
      invariant forall k :: 0 <= k < i ==> chunks[k] > 0
      invariant size == WrappingSum(chunks[..i])
    {
      assert chunks[..i + 1][..i] == chunks[..i];
      size := AddInt32(size, chunks[i]);
      i := i + 1;
    }
    BytesReadIs(chunks, i);
  }

  /** The reads before the first non-positive one are the prefix up to it. */
  lemma {:induction false} BytesReadIs(chunks: seq<int>, i: nat)
    requires i <= |chunks|
    requires forall k :: 0 <= k < i ==> chunks[k] > 0
    requires i == |chunks| || chunks[i] <= 0
    ensures BytesRead(chunks) == chunks[..i]
  {
    if i > 0 {
      BytesReadIs(chunks[1..], i - 1);
      assert chunks[..i] == [chunks[0]] + chunks[1..][..i - 1];
    }
  }

  lemma {:induction false} SumOfPositives(s: seq<int>)
    requires forall k :: 0 <= k < |s| ==> s[k] > 0
    ensures Sum(s) >= |s|
  {
    if s != [] {
      SumOfPositives(s[..|s| - 1]);
    }
  }

  /** While the total stays below 2^31 the `int` accumulator is exact: the size is the number of bytes read. */
  lemma {:induction false} WrappingSumExact(s: seq<int>)
    requires forall k :: 0 <= k < |s| ==> s[k] > 0
    requires Sum(s) < TWO_31
    ensures WrappingSum(s) == Sum(s)
  {
    if s != [] {
      var init := s[..|s| - 1];
      SumOfPositives(init);
      WrappingSumExact(init);
    }
  }

  lemma EntrySizeIsByteCount(chunks: seq<int>)
    requires Sum(BytesRead(chunks)) < TWO_31
    ensures EntrySize(chunks) == Sum(BytesRead(chunks))
  {
    WrappingSumExact(BytesRead(chunks));
  }

  // ---------------------------------------------------------------------------
  // Package search

  /**
   * The package form of an entry name: a `.class` entry stands for its
   * directory prefix (through the last `/`) and a root-level `.class` entry is
   * skipped (None); any other entry stands for itself.
   */
  function PackageForm(entryName: String): (r: Option<String>)
    ensures r.None? <==> EndsWith(entryName, ".class") && '/' !in entryName
    ensures r.Some? && EndsWith(entryName, ".class") ==>
              EndsWith(r.value, "/") && StartsWith(entryName, r.value) && '/' !in entryName[|r.value|..]
    ensures !EndsWith(entryName, ".class") ==> r == Some(entryName)
  {
    if EndsWith(entryName, ".class") then
      var idx := LastIndexOf(entryName, '/');
      if idx == -1 then None
      else
        assert entryName[..idx + 1][idx] == '/';
        Some(entryName[..idx + 1])
    else Some(entryName)
  }

  /** An exact package search compares for equality, a partial one for containment. */
  predicate PackageMatches(form: String, packageJar: String, partial: bool) {
    if partial then Contains(form, packageJar) else form == packageJar
  }

  /** The package form of an entry when it is one to report, given the forms reported so far. */
  predicate Reportable(e: JarEntry, packageJar: String, partial: bool, seen: set<String>) {
    var f := PackageForm(e.name);
    f.Some? && PackageMatches(f.value, packageJar, partial) && f.value !in seen
  }

  /** The package reports of a jar's remaining entries, when the forms in `seen` were reported already. */
  function JarPackageEvents(jarPath: String, entries: seq<JarEntry>, packageJar: String, partial: bool,
                            seen: set<String>): seq<Event>
    decreases |entries|
  {
    if entries == [] then []
    else if Reportable(entries[0], packageJar, partial, seen) then
      var form := PackageForm(entries[0].name).value;
      [PackageFound(jarPath, form)] + JarPackageEvents(jarPath, entries[1..], packageJar, partial, seen + {form})
    else JarPackageEvents(jarPath, entries[1..], packageJar, partial, seen)
  }

  predicate IsFormOf(entries: seq<JarEntry>, form: String) {
    exists i :: 0 <= i < |entries| && PackageForm(entries[i].name) == Some(form)
  }

  /**
   * A package search reports a form exactly when some entry has it, it matches
   * the target, and it was not reported before; and every report is a
   * `PackageFound` at the jar.
   */
  lemma {:induction false} JarPackageEventsExact(jarPath: String, entries: seq<JarEntry>, packageJar: String,
                                                 partial: bool, seen: set<String>, form: String)
    ensures forall k :: 0 <= k < |JarPackageEvents(jarPath, entries, packageJar, partial, seen)| ==>
              JarPackageEvents(jarPath, entries, packageJar, partial, seen)[k].PackageFound? &&
              JarPackageEvents(jarPath, entries, packageJar, partial, seen)[k].location == jarPath
    ensures PackageFound(jarPath, form) in JarPackageEvents(jarPath, entries, packageJar, partial, seen)
        <==> IsFormOf(entries, form) && PackageMatches(form, packageJar, partial) && form !in seen
    decreases |entries|
  {
    if entries != [] {
      var e := entries[0];
      var seen' := if Reportable(e, packageJar, partial, seen) then seen + {PackageForm(e.name).value} else seen;
      JarPackageEventsExact(jarPath, entries[1..], packageJar, partial, seen', form);
      assert IsFormOf(entries, form) <==> PackageForm(e.name) == Some(form) || IsFormOf(entries[1..], form) by {
        if IsFormOf(entries, form) {
          var i :| 0 <= i < |entries| && PackageForm(entries[i].name) == Some(form);
          if i > 0 { assert entries[1..][i - 1] == entries[i]; }
        }
        if IsFormOf(entries[1..], form) {
          var i :| 0 <= i < |entries[1..]| && PackageForm(entries[1..][i].name) == Some(form);
          assert entries[i + 1] == entries[1..][i];
        }
      }
    }
  }

  /** No package form is reported twice for one jar: `foundPackages` only grows. */
  lemma {:induction false} JarPackageEventsDistinct(jarPath: String, entries: seq<JarEntry>, packageJar: String,
                                                    partial: bool, seen: set<String>)
    ensures forall i, j :: 0 <= i < j < |JarPackageEvents(jarPath, entries, packageJar, partial, seen)| ==>
              JarPackageEvents(jarPath, entries, packageJar, partial, seen)[i]
              != JarPackageEvents(jarPath, entries, packageJar, partial, seen)[j]
    decreases |entries|
  {
    if entries != [] {
      var e := entries[0];
      if Reportable(e, packageJar, partial, seen) {
        var form := PackageForm(e.name).value;
        var rest := JarPackageEvents(jarPath, entries[1..], packageJar, partial, seen + {form});
        JarPackageEventsDistinct(jarPath, entries[1..], packageJar, partial, seen + {form});
        JarPackageEventsExact(jarPath, entries[1..], packageJar, partial, seen + {form}, form);
        assert PackageFound(jarPath, form) !in rest;
      } else {
        JarPackageEventsDistinct(jarPath, entries[1..], packageJar, partial, seen);
      }
    }
  }

  /**
   * In an exact package search, an entry below a deeper directory does not
   * match: `com/acme/impl/X.class` is not reported for `com/acme/`.
   */
  lemma ExactPackageNeedsEquality(jarPath: String, packageJar: String, extra: String)
    requires '/' in extra
    ensures JarPackageEvents(jarPath, [JarEntry(packageJar + extra, -1, [])], packageJar, false, {}) == []
  {
    var n := packageJar + extra;
    var j :| 0 <= j < |extra| && extra[j] == '/';
    assert n[|packageJar| + j] == '/';
    var f := PackageForm(n);
    if EndsWith(n, ".class") {
      var idx := LastIndexOf(n, '/');
      assert f == Some(n[..idx + 1]);
    }
    assert f.Some? ==> |f.value| > |packageJar|;
  }

  // ---------------------------------------------------------------------------
  // Class search

  /** An exact class search compares the whole entry name; a partial one looks for the bare name and the extension. */
  predicate ClassEntryMatches(entryName: String, c: ClassNames, partial: bool) {
    if partial then Contains(entryName, c.noExt) && EndsWith(entryName, c.ext)
    else entryName == c.name
  }

  /** The report for a matching entry: its own time and its streamed size. */
  function ClassEvent(jarPath: String, e: JarEntry): Event {
    ClassFound(jarPath, e.name, StampOf(e.time), StampOf(EntrySize(e.chunks)))
  }

  function JarClassEvents(jarPath: String, entries: seq<JarEntry>, c: ClassNames, partial: bool): seq<Event>
    decreases |entries|
  {
    if entries == [] then []
    else
      (if ClassEntryMatches(entries[0].name, c, partial) then [ClassEvent(jarPath, entries[0])] else [])
      + JarClassEvents(jarPath, entries[1..], c, partial)
  }

  predicate ReportedEntry(jarPath: String, entries: seq<JarEntry>, c: ClassNames, partial: bool, ev: Event) {
    exists i :: 0 <= i < |entries| && ClassEntryMatches(entries[i].name, c, partial) && ev == ClassEvent(jarPath, entries[i])
  }

  /** A class search reports exactly the matching entries. */
  lemma {:induction false} JarClassEventsExact(jarPath: String, entries: seq<JarEntry>, c: ClassNames, partial: bool, ev: Event)
    ensures ev in JarClassEvents(jarPath, entries, c, partial) <==> ReportedEntry(jarPath, entries, c, partial, ev)
    decreases |entries|
  {
    if entries != [] {
      JarClassEventsExact(jarPath, entries[1..], c, partial, ev);
      if ReportedEntry(jarPath, entries, c, partial, ev) {
        var i :| 0 <= i < |entries| && ClassEntryMatches(entries[i].name, c, partial) && ev == ClassEvent(jarPath, entries[i]);
        if i > 0 { assert entries[1..][i - 1] == entries[i]; }
      }
      if ReportedEntry(jarPath, entries[1..], c, partial, ev) {
        var i :| 0 <= i < |entries[1..]| && ClassEntryMatches(entries[1..][i].name, c, partial)
                 && ev == ClassEvent(jarPath, entries[1..][i]);
        assert entries[i + 1] == entries[1..][i];
      }
    }
  }

  /** Whatever an exact class search of a jar reports, a partial search for the same name reports too. */
  lemma ExactClassMatchIsPartial(jarPath: String, entries: seq<JarEntry>, c: ClassNames, ev: Event)
    requires c.name == c.noExt + c.ext
    requires ev in JarClassEvents(jarPath, entries, c, false)
    ensures ev in JarClassEvents(jarPath, entries, c, true)
  {
    JarClassEventsExact(jarPath, entries, c, false, ev);
    JarClassEventsExact(jarPath, entries, c, true, ev);
    var i :| 0 <= i < |entries| && ClassEntryMatches(entries[i].name, c, false) && ev == ClassEvent(jarPath, entries[i]);
    ContainsPrefix(entries[i].name, c.noExt);
  }

  /** `searchJar`'s reports: a warning when the file cannot be opened as a jar, the entry reports otherwise. */
  function JarEvents(jarPath: String, jar: Jar, target: Target, partial: bool): seq<Event>
    requires !target.ListOnly?
  {
    match jar
    case Unreadable => [CannotOpen(jarPath)]
    case Entries(entries) =>
      match target
      case PackageSearch(_, pkg) => JarPackageEvents(jarPath, entries, pkg.jar, partial, {})
      case ClassSearch(c) => JarClassEvents(jarPath, entries, c, partial)
  }
}
