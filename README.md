# JavaSearchClassPath in Dafny

A model of `JavaSearchClassPath`, a command-line tool that lists a Java
classpath or searches it for a class (or any file with a chosen
extension) or for a package. The classpath comes in through the
`searchClassPath` system property. The tool starts with the boot
classpath entries that exist, then adds the files listed in the
runtime's `lib/ext` directory, then the given classpath. It then visits each entry in order:

- a list run prints every entry;
- a search looks inside each existing directory, by one direct lookup or
  (with `-p`) by a recursive walk;
- a search reads each existing non-directory entry as a jar stream;
- a missing entry is printed when no class name was given, and draws a
  warning unless `-q` was given.

With `-d` the tool also indexes the existing archive entries by base name
and reports the names shared by several of them. Option parsing uses the
getopt-style scanner `Options`.

The model is split into these modules:

- `Strings`: the Java string operations the tool relies on (`replace`,
  `indexOf`, `lastIndexOf`, `StringTokenizer`).
- `Target`: how `-e`, the class name and the package name are turned into
  the names the scanners compare against.
- `FileSystem`: the filesystem and jar streams as input data. A map from
  classpath strings to trees of nodes.
- `Events`: the output as a log of events in output order.
- `ClassPath`: `buildClasspathList`.
- `JarScan`: `searchJar` and `getEntrySize`, as specification functions.
- `DirScan`: `searchDirectory` and `scanDir`, as specification functions.
  A flat preorder list of the visited nodes serves as the reference.
- `Search`: `scanClassPathList`, the duplicate index, and the class
  `SearchRun`. `SearchRun` holds the tool's static state (`found`, the
  index, the output so far). Its methods run the loops and recursion of
  the source and are proved against the specification functions.
- `Getopt`: `Options` as the class it is, with `next()` specified by the
  pure transition `Step`.
- `Switches`: the control string `b:de:hpPs:q`.
- `Cli`: `main`. The options loop, the argument checks, the whole run as
  the method `Run`, and its specification `Program`.

Host facts that `main` reads are parameters:

- the `file.separator` and `path.separator` properties;
- the system properties;
- the `lib/ext` listing;
- the filesystem.

Integer widths follow the source. `getEntrySize` adds up in a 32-bit
`int`, so it wraps around (`JarScan.AddInt32`).

Where the code and its documentation disagree, the model follows the
code:

- A class name's extension is only taken from the name when the name
  contains a `/` (after `\` is replaced) and a `.` at or before the last
  `/`. A dot after the last slash is not an extension: `a/b.p` searches
  for `a/b/p.class`. A dot in the directory part is one: `a.b/C` gives
  the extension `.b/C` and the bare name `a`.
- On a `/` host the jar form of a package is the name as given plus `/`.
  Dots are kept (`a.b` gives `a.b/`), and a name that ends with `/` gets
  a second one (`a/` gives `a//`).
- The jar package search always uses the literal `.class` for its entry
  test, whatever `-e` says.
- A missing classpath entry is printed in a package search too, because
  the source tests only that no class name was given.
- A package found by the partial directory walk is named by its path
  relative to the entry, including the leading separator.
- The boot classpath is split on `path.separator`. The searched classpath
  is split on the `-s` separator.

## Model

| member | source | states |
|---|---|---|
| Strings.Replace | src/org/javasearchclasspath/JavaSearchClassPath.java:166-171 | `String.replace(char, char)`: same length; every occurrence of the old character, and only those, becomes the new one |
| Strings.ReplaceRemoves | src/org/javasearchclasspath/JavaSearchClassPath.java:199 | after the replacement the old character no longer occurs (unless it is the new one) |
| Strings.ReplaceAbsent | src/org/javasearchclasspath/JavaSearchClassPath.java:199 | replacing a character that does not occur leaves the string as it was |
| Strings.IndexOf | src/org/javasearchclasspath/Options.java:130-133 | `indexOf(char)`: -1 exactly when absent, otherwise the first position holding the character |
| Strings.IndexOfIs | src/org/javasearchclasspath/Options.java:130 | a position holding the character with no earlier occurrence is the result of `indexOf` |
| Strings.Contains | src/org/javasearchclasspath/JavaSearchClassPath.java:505 | `String.contains`: the text occurs at some position of the string |
| Strings.LastIndexAtOrBefore | src/org/javasearchclasspath/JavaSearchClassPath.java:203 | `lastIndexOf(char, from)`: -1 or a position at or before `from` holding the character, with none between it and `from` |
| Strings.LastIndexOf | src/org/javasearchclasspath/JavaSearchClassPath.java:201 | `lastIndexOf(char)`: -1 exactly when absent, otherwise the last position holding the character |
| Strings.AfterLast | src/org/javasearchclasspath/JavaSearchClassPath.java:381 | the part after the last separator: a suffix with no separator, preceded by a separator unless it is the whole string |
| Strings.Tokens | src/org/javasearchclasspath/JavaSearchClassPath.java:330-335 | `StringTokenizer` read to the end: the maximal non-empty runs of characters that are not delimiters; TokensAreTokens, TokensSplit and TokensOfPlain state its properties |
| Strings.TokensAreTokens | src/org/javasearchclasspath/JavaSearchClassPath.java:354-357 | every `StringTokenizer` token is non-empty and holds no delimiter |
| Strings.TokensSplit | src/org/javasearchclasspath/JavaSearchClassPath.java:354-357 | a delimiter splits the input: the tokens of `a + d + b` are those of `a` and then those of `b` |
| Strings.TokensOfPlain | src/org/javasearchclasspath/JavaSearchClassPath.java:354-357 | a string with no delimiter is one token (none if empty) |
| Target.NormalizeExtension | src/org/javasearchclasspath/JavaSearchClassPath.java:115-118 | the `-e` value starts with a dot afterwards; a dotted value is kept, otherwise exactly one dot is prepended |
| Target.NormalizeExtensionIdempotent | src/org/javasearchclasspath/JavaSearchClassPath.java:115-118 | normalising an already normalised extension changes nothing |
| Target.SplitExtension | src/org/javasearchclasspath/JavaSearchClassPath.java:201-208 | the name is either split into name and extension or stays whole with the configured extension; a detected extension starts with a dot and contains `/`; SplitExtensionCut says where the cut is |
| Target.SplitExtensionCut | src/org/javasearchclasspath/JavaSearchClassPath.java:201-208 | when some `.` lies at or before a `/`, the name is cut at the last such dot; when none does, it stays whole and keeps the configured extension |
| Target.SplitExtensionIff | src/org/javasearchclasspath/JavaSearchClassPath.java:201-208 | a name is split into two parts, the second starting with a dot, exactly when it holds a `.` at or before a `/` |
| Target.StripExtension | src/org/javasearchclasspath/JavaSearchClassPath.java:209-211 | the active extension is removed exactly when the name ends with it |
| Target.NormalizeClassName | src/org/javasearchclasspath/JavaSearchClassPath.java:199-215 | the full name is the bare name plus the extension; the bare name has no `.` and no `\`; the extension is the configured one or contains `/` |
| Target.DetectedExtension | src/org/javasearchclasspath/JavaSearchClassPath.java:199-208 | after `\` becomes `/`, a name with a `.` at or before a `/` takes as its extension the tail from the last such dot; any other name keeps the configured extension |
| Target.BareNameCharacters | src/org/javasearchclasspath/JavaSearchClassPath.java:199-212 | each character of the bare name is the class name's character at that position, with `.` and `\` turned into `/` |
| Target.BareNameLength | src/org/javasearchclasspath/JavaSearchClassPath.java:199-212 | the bare name is as long as the name up to the detected extension (all of it when none is detected), less the active extension when that part ends with it |
| Target.DottedClassName | src/org/javasearchclasspath/JavaSearchClassPath.java:199-212 | a name with no slash keeps the configured extension, and its bare name is the stripped name with dots turned into `/` |
| Target.DottedClassNameExample | src/org/javasearchclasspath/JavaSearchClassPath.java:199-215 | `x.Y` with `.class` has bare name `x/Y` and keeps `.class`, so the file searched for is `x/Y.class` |
| Target.ExtensionAfterSlashNotDetected | src/org/javasearchclasspath/JavaSearchClassPath.java:201-212 | `a/b.p` is not read as having an extension `.p`: its bare name is `a/b/p` and the extension stays `.class` |
| Target.SplitAfterSlash | src/org/javasearchclasspath/JavaSearchClassPath.java:201-208 | for `a/b.p` no dot lies at or before the last `/`, so nothing is split off |
| Target.DotsBecomeSlashes | src/org/javasearchclasspath/JavaSearchClassPath.java:212 | the dots of `a/b.p` turn into `/`, giving `a/b/p` |
| Target.ExtensionInDirectoryPartDetected | src/org/javasearchclasspath/JavaSearchClassPath.java:201-215 | `a.b/C` takes `.b/C` as its extension and `a` as its bare name |
| Target.SplitInDirectoryPart | src/org/javasearchclasspath/JavaSearchClassPath.java:201-208 | `a.b/C` is split at the dot before the `/` into `a` and `.b/C` |
| Target.NormalizePackageName | src/org/javasearchclasspath/JavaSearchClassPath.java:162-176 | the jar form ends with `/`; the directory form has no dots; on a `/` host the jar form is the name plus `/` and the directory form has no `\`; elsewhere the directory form has no `/`, and the jar form has no host separator and is the directory form with `/` (plus a trailing `/` if missing) |
| Target.PackageDirectoryForm | src/org/javasearchclasspath/JavaSearchClassPath.java:165-171 | the directory form has the package name's length, and each `.` and each separator of the other kind becomes the host separator |
| Target.PackageJarFormOffSlashHosts | src/org/javasearchclasspath/JavaSearchClassPath.java:165-176 | off `/` hosts the jar form is the package name with each `.`, `/` and host separator turned into `/`, plus at most one trailing `/` |
| Target.JarFormHasNoDotsOffSlashHosts | src/org/javasearchclasspath/JavaSearchClassPath.java:166-176 | on a non-`/` host the jar form holds no dots |
| Target.PackageJarFormKeepsDots | src/org/javasearchclasspath/JavaSearchClassPath.java:163-169 | on a `/` host, `a.b` has directory form `a/b` and jar form `a.b/` |
| Target.PackageJarFormDoubleSlash | src/org/javasearchclasspath/JavaSearchClassPath.java:163-176 | on a `/` host, `a/` has jar form `a//` |
| Target.PackageOnBackslashHost | src/org/javasearchclasspath/JavaSearchClassPath.java:165-176 | on a `\` host, `a.b` has directory form `a\b` and jar form `a/b/` |
| Target.BackslashDirectoryForm | src/org/javasearchclasspath/JavaSearchClassPath.java:165-171 | on a `\` host the directory form of `a.b` is `a\b` |
| Target.BackslashJarForm | src/org/javasearchclasspath/JavaSearchClassPath.java:172-175 | `a\b` with `\` turned into `/` is `a/b`, which lacks the trailing `/` |
| FileSystem.BaseNameIsLastComponent | src/org/javasearchclasspath/JavaSearchClassPath.java:381 | `File.getName()`: a suffix of the path containing no separator character, preceded by a separator unless it is the whole path |
| FileSystem.FindChild | src/org/javasearchclasspath/JavaSearchClassPath.java:416-417 | a child found has the name; none found means no child has it |
| FileSystem.BaseName | src/org/javasearchclasspath/JavaSearchClassPath.java:381 | `File.getName()`: the part of the path after its last separator; BaseNameIsLastComponent states it |
| FileSystem.Lookup | src/org/javasearchclasspath/JavaSearchClassPath.java:416-428 | `new File(dir, rel).exists()`: `rel` is cut at separators and resolved child by child below `dir` |
| Events.StampOf | src/org/javasearchclasspath/JavaSearchClassPath.java:561-575 | a time or size is shown as not available exactly when it is -1, otherwise as its value |
| Events.HasMatchAppend | src/org/javasearchclasspath/JavaSearchClassPath.java:554 | output contains a match exactly when one of its two parts does, so `found` stays set |
| ClassPath.Existing | src/org/javasearchclasspath/JavaSearchClassPath.java:330-335 | the kept boot entries all exist and are no more than the tokens |
| ClassPath.ExistingKeeps | src/org/javasearchclasspath/JavaSearchClassPath.java:330-335 | a token is kept exactly when it is among the tokens and exists |
| ClassPath.BootEntries | src/org/javasearchclasspath/JavaSearchClassPath.java:326-336 | the existing tokens of the boot classpath split on `path.separator`, none when the property is not set; Existing and ExistingKeeps state it |
| ClassPath.ExtEntries | src/org/javasearchclasspath/JavaSearchClassPath.java:341-347 | every file `listFiles` gives for `lib/ext`, in that order, none when it gives `null` |
| ClassPath.BuildClasspathList | src/org/javasearchclasspath/JavaSearchClassPath.java:316-358 | the list is the existing boot entries, then the `lib/ext` listing, then the tokens of the searched classpath, in order |
| ClassPath.UserEntriesAreTokens | src/org/javasearchclasspath/JavaSearchClassPath.java:354-357 | each entry from the searched classpath is non-empty and has no separator character |
| ClassPath.TwoEntryClassPath | src/org/javasearchclasspath/JavaSearchClassPath.java:354-357 | `/a:/b.jar` split on `:` gives the entries `/a` and `/b.jar` |
| JarScan.AddInt32 | src/org/javasearchclasspath/JavaSearchClassPath.java:542 | Java `int` addition: the result is a 32-bit value, exact when the sum fits, and congruent to the sum modulo 2^32 |
| JarScan.BytesRead | src/org/javasearchclasspath/JavaSearchClassPath.java:541 | the reads counted are the prefix before the first read returning 0 or less, all positive |
| JarScan.EntrySize | src/org/javasearchclasspath/JavaSearchClassPath.java:536-544 | the size `getEntrySize` returns: the wrapping sum of the counted reads; GetEntrySize and EntrySizeIsByteCount state it |
| JarScan.GetEntrySize | src/org/javasearchclasspath/JavaSearchClassPath.java:536-544 | the loop returns the wrapping sum of the positive reads before the first non-positive one |
| JarScan.BytesReadIs | src/org/javasearchclasspath/JavaSearchClassPath.java:541 | a prefix of positive reads ended by a non-positive read, or by the end of the stream, is exactly what is counted |
| JarScan.SumOfPositives | src/org/javasearchclasspath/JavaSearchClassPath.java:541-542 | a sum of positive reads is at least their number |
| JarScan.WrappingSumExact | src/org/javasearchclasspath/JavaSearchClassPath.java:538-542 | while the total stays below 2^31 the `int` accumulator equals the true sum |
| JarScan.EntrySizeIsByteCount | src/org/javasearchclasspath/JavaSearchClassPath.java:536-544 | an entry under 2 GiB has its size reported as exactly the number of bytes read |
| JarScan.PackageForm | src/org/javasearchclasspath/JavaSearchClassPath.java:497-503 | a root-level `.class` entry is skipped; a nested one stands for its directory prefix through the last `/`; any other entry stands for itself |
| JarScan.PackageMatches | src/org/javasearchclasspath/JavaSearchClassPath.java:504-515 | an exact package search compares the form for equality with the jar form, a partial one for containment |
| JarScan.JarPackageEvents | src/org/javasearchclasspath/JavaSearchClassPath.java:490-516 | the loop of a package search over the jar's entries, with the set of forms already reported; JarPackageEventsExact and JarPackageEventsDistinct state what it reports |
| JarScan.JarPackageEventsExact | src/org/javasearchclasspath/JavaSearchClassPath.java:496-516 | a package search of a jar reports a form exactly when some entry has it, it matches (equal, or contains with `-p`), and it was not reported already; every report is at the jar |
| JarScan.JarPackageEventsDistinct | src/org/javasearchclasspath/JavaSearchClassPath.java:477-480 | no form is reported twice for one jar |
| JarScan.ExactPackageNeedsEquality | src/org/javasearchclasspath/JavaSearchClassPath.java:510-515 | an exact package search does not report an entry that lies deeper than the package |
| JarScan.ClassEntryMatches | src/org/javasearchclasspath/JavaSearchClassPath.java:518-527 | the entry test of a class search: with `-p` the name contains the bare name and ends with the extension, otherwise it equals the full name |
| JarScan.ClassEvent | src/org/javasearchclasspath/JavaSearchClassPath.java:520-525 | a matching entry is reported under its own name, with its time and its streamed size, -1 shown as not available |
| JarScan.JarClassEvents | src/org/javasearchclasspath/JavaSearchClassPath.java:490-528 | the loop of a class search over the jar's entries; JarClassEventsExact states what it reports |
| JarScan.JarClassEventsExact | src/org/javasearchclasspath/JavaSearchClassPath.java:517-527 | a class search of a jar reports an event exactly when it is some matching entry's report, with that entry's time and streamed size |
| JarScan.ExactClassMatchIsPartial | src/org/javasearchclasspath/JavaSearchClassPath.java:518-527 | whatever an exact class search of a jar reports, the partial search for the same name reports as well |
| JarScan.JarEvents | src/org/javasearchclasspath/JavaSearchClassPath.java:475-530 | `searchJar`: a warning for a file that cannot be opened, otherwise the package or class loop over its entries; JarEventsKinds states its kinds of output |
| DirScan.StripLeadingSeparator | src/org/javasearchclasspath/JavaSearchClassPath.java:459-461 | the name is unchanged, or loses exactly one leading `/` or `\` |
| DirScan.ClassFileMatches | src/org/javasearchclasspath/JavaSearchClassPath.java:455-457 | the file test of the partial walk: the name ends with the extension, and the path with `\` turned into `/` contains the bare name and ends with the extension |
| DirScan.NodeReport | src/org/javasearchclasspath/JavaSearchClassPath.java:443-466 | one visited node gives at most one report, and every report is a match located at the walk's top |
| DirScan.ScanDirEvents | src/org/javasearchclasspath/JavaSearchClassPath.java:439-470 | `scanDir` as mutually recursive functions over a directory and its children; ScanDirIsReports, PartialPackageReports and PartialClassReports state what it reports |
| DirScan.ReportsAppend | src/org/javasearchclasspath/JavaSearchClassPath.java:442 | reports of consecutive node lists are concatenated in order |
| DirScan.ReportsMember | src/org/javasearchclasspath/JavaSearchClassPath.java:442-466 | an event is reported for a list of nodes exactly when it is the report of one of them |
| DirScan.ScanDirIsReports | src/org/javasearchclasspath/JavaSearchClassPath.java:439-470 | the recursive `scanDir` reports, in order, exactly the reports of the nodes it reaches in preorder |
| DirScan.WalkIsReports | src/org/javasearchclasspath/JavaSearchClassPath.java:441-467 | the loop over a directory's children reports what their preorder list reports |
| DirScan.BelowPaths | src/org/javasearchclasspath/JavaSearchClassPath.java:442-451 | every node reached lies strictly below the start: its relative path extends the start's by a separator, and its path is the start's path followed by that extension and ends with the node's name |
| DirScan.BelowAllPaths | src/org/javasearchclasspath/JavaSearchClassPath.java:442-451 | the same for the children of a directory |
| DirScan.PartialPackageReports | src/org/javasearchclasspath/JavaSearchClassPath.java:443-451 | a partial package walk reports relative path `r` exactly when it reaches a directory at `top + r` whose path contains the package's directory form; `r` starts with the separator |
| DirScan.PartialClassReports | src/org/javasearchclasspath/JavaSearchClassPath.java:453-465 | a partial class walk reports a name exactly when it reaches a file that passes the name, path and extension tests, and the name is the relative path without its leading separator; the time and size are the file's; every report is a class at the top |
| DirScan.PartialClassNameDropsSeparator | src/org/javasearchclasspath/JavaSearchClassPath.java:458-461 | on a `/` or `\` host the reported name is the relative path after its first character |
| DirScan.DirEventsAreMatches | src/org/javasearchclasspath/JavaSearchClassPath.java:410-433 | every report of a directory search is a match at that directory, a package exactly in a package search |
| DirScan.ExactPackageLookup | src/org/javasearchclasspath/JavaSearchClassPath.java:416-420 | an exact package search of a directory reports the package exactly when its directory form resolves to a directory below it, and that is its only possible match |
| DirScan.DirEvents | src/org/javasearchclasspath/JavaSearchClassPath.java:410-433 | `searchDirectory`: with `-p` the walk, otherwise one lookup of the package's directory form or the class name below the entry; DirEventsAreMatches and ExactClassLookup state it |
| DirScan.ExactClassLookup | src/org/javasearchclasspath/JavaSearchClassPath.java:426-430 | an exact class search of a directory reports the class exactly when the file name resolves below it |
| Search.EntryEvents | src/org/javasearchclasspath/JavaSearchClassPath.java:366-401 | one classpath entry's output; EntryEventsKinds, ListRunPrintsExisting, MissingWarningIff and ListedIff state it |
| Search.ScanEvents | src/org/javasearchclasspath/JavaSearchClassPath.java:365-403 | the output of `scanClassPathList`: the entries' outputs in classpath order; ScanEventsAppend and ScanMatches state it |
| Search.ScanEventsAppend | src/org/javasearchclasspath/JavaSearchClassPath.java:365 | the output of a pass over concatenated lists is the concatenation of their outputs |
| Search.JarEventsKinds | src/org/javasearchclasspath/JavaSearchClassPath.java:475-530 | a jar search outputs only matches and, for a file that cannot be opened as a jar, its warning |
| Search.EntryEventsKinds | src/org/javasearchclasspath/JavaSearchClassPath.java:365-401 | per entry: a printed line means it exists in a list run or is missing without a class name; a missing warning means missing and not quiet; a jar warning means an existing non-directory; a match means an existing entry in a search |
| Search.ListRunPrintsExisting | src/org/javasearchclasspath/JavaSearchClassPath.java:367-370 | in a list run an existing entry is printed and nothing else |
| Search.MissingWarningIff | src/org/javasearchclasspath/JavaSearchClassPath.java:386-401 | the "does not exist" warning appears for `s` exactly when `s` is on the classpath, does not exist, and `-q` was not given |
| Search.ListedIff | src/org/javasearchclasspath/JavaSearchClassPath.java:365-401 | `s` is printed exactly when it is on the classpath and either exists in a list run or is missing while no class name was given |
| Search.ScanMatches | src/org/javasearchclasspath/JavaSearchClassPath.java:365-402 | a pass reports a match exactly when some entry's own search does; a list run never does |
| Search.PathsNamedMembers | src/org/javasearchclasspath/JavaSearchClassPath.java:380-384 | the reference for the index: `s` is listed under a name exactly when it is on the classpath, exists, is not a directory, and has that base name |
| Search.IsArchiveEntry | src/org/javasearchclasspath/JavaSearchClassPath.java:367-380 | an entry that exists and is not a directory, the ones the duplicate index takes |
| Search.AddEntry | src/org/javasearchclasspath/JavaSearchClassPath.java:380-384 | `computeIfAbsent(name, ...).add(f)` for an existing non-directory entry; AddEntryGet and AddEntryConsistent state it |
| Search.IndexEntries | src/org/javasearchclasspath/JavaSearchClassPath.java:365-384 | the index after the pass over the classpath; IndexEntriesContents and DuplicatesReported state it |
| Search.AddEntryGet | src/org/javasearchclasspath/JavaSearchClassPath.java:380-384 | one entry is appended to the list of its base name when it exists and is not a directory, creating the list if absent; every other name is unchanged |
| Search.IndexEntriesContents | src/org/javasearchclasspath/JavaSearchClassPath.java:380-384 | after a pass each name's list is its old list followed by its archive entries in scan order; a name is a key exactly when it was before or some entry has it |
| Search.DirectoriesNotIndexed | src/org/javasearchclasspath/JavaSearchClassPath.java:380 | a directory entry or a missing one leaves the index unchanged |
| Search.AddEntryConsistent | src/org/javasearchclasspath/JavaSearchClassPath.java:380-384 | adding an entry keeps every list non-empty and filed under its entries' base name |
| Search.DuplicateReport | src/org/javasearchclasspath/JavaSearchClassPath.java:253-264 | the names with more than one entry are reported, each with its full list |
| Search.DuplicatesReported | src/org/javasearchclasspath/JavaSearchClassPath.java:253-264 | after a pass a name is reported exactly when more than one archive entry of the classpath has it, with those entries in order |
| Search.SearchRun.constructor | src/org/javasearchclasspath/JavaSearchClassPath.java:363-365 | a run starts with no output, `found` false and an empty index |
| Search.SearchRun.Output | src/org/javasearchclasspath/JavaSearchClassPath.java:369 | a plain line is appended and `found` and the index stay as they were |
| Search.SearchRun.FoundPackage | src/org/javasearchclasspath/JavaSearchClassPath.java:549-555 | the report is appended and `found` becomes true |
| Search.SearchRun.FoundClass | src/org/javasearchclasspath/JavaSearchClassPath.java:560-583 | the report is appended with -1 shown as not available, and `found` becomes true |
| Search.SearchRun.SearchJar | src/org/javasearchclasspath/JavaSearchClassPath.java:475-530 | the loop over the jar stream appends exactly the jar's specified reports, keeping `found` equal to "some match was output" |
| Search.SearchRun.JarPackageEntry | src/org/javasearchclasspath/JavaSearchClassPath.java:496-516 | one entry in a package search: its package form is reported and remembered exactly when it matches and was not reported yet; otherwise nothing changes |
| Search.SearchRun.JarClassEntry | src/org/javasearchclasspath/JavaSearchClassPath.java:517-527 | one entry in a class search: a matching entry is reported with its time and streamed size, any other is skipped |
| Search.SearchRun.ScanDir | src/org/javasearchclasspath/JavaSearchClassPath.java:439-470 | the recursive walk appends exactly the specified walk's reports |
| Search.SearchRun.VisitChild | src/org/javasearchclasspath/JavaSearchClassPath.java:443-452 | one child appends exactly its own report and, for a directory, the walk below it |
| Search.SearchRun.VisitFile | src/org/javasearchclasspath/JavaSearchClassPath.java:453-465 | a file appends exactly its specified report: in a class search, when it passes the name and path tests |
| Search.SearchRun.SearchDirectory | src/org/javasearchclasspath/JavaSearchClassPath.java:410-433 | appends exactly the specified directory search's reports |
| Search.SearchRun.ScanEntry | src/org/javasearchclasspath/JavaSearchClassPath.java:366-401 | one entry's output is appended, and with `-d` an existing non-directory entry is filed under its base name |
| Search.SearchRun.ScanClassPathList | src/org/javasearchclasspath/JavaSearchClassPath.java:363-403 | the loop appends the whole pass's specified output in classpath order and builds the index over it |
| Search.SearchClassPath | src/org/javasearchclasspath/JavaSearchClassPath.java:363-403 | a fresh pass ends with `found` set exactly when some entry's search matched (never in a list run), and the duplicate report names exactly the base names shared by several archive entries |
| Getopt.HasMore | src/org/javasearchclasspath/Options.java:72-104 | `hasNext()` over the arguments and the scan position; HasMoreInBounds and OptionsEnd state it |
| Getopt.HasMoreInBounds | src/org/javasearchclasspath/Options.java:72-104 | whenever `hasNext()` holds, the character `next()` reads exists in the current argument |
| Getopt.TakesValue | src/org/javasearchclasspath/Options.java:134-138 | whether the option is followed by `:` in the control string; StepValue and StepAdvance state what it decides |
| Getopt.Step | src/org/javasearchclasspath/Options.java:113-173 | the position stays consistent, and each option returned moves it forward: to a later argument, or one character along the current one |
| Getopt.StepErrors | src/org/javasearchclasspath/Options.java:114-133 | `next()` throws "no more options" exactly when `hasNext()` is false, leaving the state untouched; `:` and characters not in the control string are rejected exactly when current, and the value is cleared |
| Getopt.StepValue | src/org/javasearchclasspath/Options.java:119-158 | an option returned is the current valid character; one that takes a value gets the rest of its argument or else the next argument; any other gets no value |
| Getopt.StepMissingArgument | src/org/javasearchclasspath/Options.java:144-149 | "requires an argument" is thrown exactly for a value-taking option that ends the last argument, leaving the scanner one argument and one character on with no value |
| Getopt.StepAdvance | src/org/javasearchclasspath/Options.java:138-170 | an option moves the scanner two arguments on when it takes a value and ends its argument, one when either holds, and otherwise one character along the same argument |
| Getopt.OptionsEnd | src/org/javasearchclasspath/Options.java:72-104 | when no options remain, the scanner is past the arguments or at the start of one that does not start options |
| Getopt.ClusterExample | src/org/javasearchclasspath/Options.java:87-89 | `-pq` yields `p`, then `q`, then ends |
| Getopt.ValueExample | src/org/javasearchclasspath/Options.java:138-158 | `-sX` and `-s X` give `s` with value `X`; a lone `-s` throws for the missing argument |
| Getopt.Options.constructor | src/org/javasearchclasspath/Options.java:32-37 | the scanner shares the caller's array and starts at the first option character |
| Getopt.Options.FromList | src/org/javasearchclasspath/Options.java:47-56 | the scanner gets a new array holding the list's elements in order and starts at the first option character |
| Getopt.Options.HasNext | src/org/javasearchclasspath/Options.java:72-104 | `hasNext()`; when true, the current argument and option character exist |
| Getopt.Options.Next | src/org/javasearchclasspath/Options.java:113-173 | the result and the new position and value are those of `Step` from the old state, and the state stays consistent |
| Getopt.Options.GetValue | src/org/javasearchclasspath/Options.java:181-183 | the value of the last option, absent when it has none |
| Getopt.Options.GetIndex | src/org/javasearchclasspath/Options.java:190-192 | the index of the first unconsumed argument, within the array |
| Switches.ControlValues | src/org/javasearchclasspath/JavaSearchClassPath.java:99 | in `b:de:hpPs:q` the options `b`, `e` and `s` take a value |
| Cli.Defaults | src/org/javasearchclasspath/JavaSearchClassPath.java:43-49 | the option settings before any option: boot property `sun.boot.class.path`, extension `.class`, separator `path.separator`, every flag off; ParseFrom starts from it |
| Cli.ApplyOption | src/org/javasearchclasspath/JavaSearchClassPath.java:101-145 | `-e` sets the normalised extension and no other option touches it, so the extension stays dotted |
| Cli.ParseFrom | src/org/javasearchclasspath/JavaSearchClassPath.java:99-146 | the options loop from a scanner state: the settings and `getIndex()` once `hasNext()` is false, or the exception `next()` throws; ParseResult states it |
| Cli.ParseResult | src/org/javasearchclasspath/JavaSearchClassPath.java:99-151 | after the options loop the extension starts with a dot, and the index is past the arguments or at one that does not start options |
| Cli.StepOverOptions | src/org/javasearchclasspath/Options.java:113-173 | one option moves the scanner only over option arguments and the value right after one |
| Cli.ParseSkipsNoOperand | src/org/javasearchclasspath/Options.java:186-192 | the index after the options loop is the first operand: every argument before it is an option argument or the value right after one |
| Cli.ParseOptions | src/org/javasearchclasspath/JavaSearchClassPath.java:99-146 | the loop over `Options` yields the settings and index (or the exception) of the options loop's specification |
| Cli.Configure | src/org/javasearchclasspath/JavaSearchClassPath.java:151-222 | the argument-count checks and the target built from the operand; ConfigureCases states it |
| Cli.ConfigureCases | src/org/javasearchclasspath/JavaSearchClassPath.java:151-222 | usage exactly for `-h` or more than one operand; the package-name error exactly for `-P` with no operand; a list run exactly with no operand and no `-P`; a class target's full name is its bare name plus its dotted extension; a package's jar form ends with `/` |
| Cli.Report | src/org/javasearchclasspath/JavaSearchClassPath.java:234-265 | the scan and the reports after it give the specified outcome: "not found" for a search without a match, and the duplicate report with `-d` |
| Cli.ClassPathOf | src/org/javasearchclasspath/JavaSearchClassPath.java:316-358 | the assembled classpath: the boot entries, the `lib/ext` files and the searched classpath's tokens; BuildClasspathList is proved equal to it |
| Cli.Finish | src/org/javasearchclasspath/JavaSearchClassPath.java:234-265 | the scan's output, "not found" for a search with no match, and with `-d` the duplicate report; DoneReports states it |
| Cli.BootPath | src/org/javasearchclasspath/JavaSearchClassPath.java:327 | `System.getProperty` on the `-b` name: it throws for an empty name; otherwise it gives the value exactly when the property is set, and `null` when it is not |
| Cli.Program | src/org/javasearchclasspath/JavaSearchClassPath.java:87-265 | `main` as a function of its inputs: no classpath, a throwing `next()`, usage or the package-name error, a throwing `getProperty` for an empty `-b` name, or the finished scan with its reports; DoneReports states the finished case |
| Cli.Run | src/org/javasearchclasspath/JavaSearchClassPath.java:87-265 | `main` gives the outcome of its specification `Program`, including the stop when `getProperty` throws for an empty `-b` name |
| Cli.DoneReports | src/org/javasearchclasspath/JavaSearchClassPath.java:236-265 | a finished run says "not found" exactly when it searched for something and no entry's search matched; with `-d` it reports exactly the base names of several archive entries |

## Left out

- Output text: the outputs are modelled as a log of events. The blank lines, the exact message wording, the "Searching for" banner (lines 178-183 and 216-221) and the usage text are left out.
- Exit codes: `System.exit` and its status are modelled only as which `Outcome` ends the run.
- `printStackTrace` after an exception: a throwing `next()` ends the run as `BadOption`, and a throwing `System.getProperty` for an empty `-b` name ends it as `BadProperty`, before anything is scanned. Exceptions from the jar stream in the middle of a jar are left out; a jar that cannot be opened is modelled as `Unreadable`.
- ZIP and jar decoding: a jar is given as the entries its stream yields, each with the values its `read` calls return.
- `SimpleDateFormat` formatting of times: a time is kept as the number of milliseconds.
- `java.io.File` path handling: `getAbsolutePath`, `toString` with its separator normalisation, and `.` or `..` components are left out. The partial walk names a node by the path accumulated below the classpath entry, which is what `getAbsolutePath().substring(top.getAbsolutePath().length())` gives for an entry without such components that is not a filesystem root. For a root entry such as `/` or `C:\` the source's name loses the leading separator (a child `x` of `/` is named `x`), while the model names it `/x`.
- `listFiles` order: a directory's children are given in the order `listFiles` returns them.
- System properties, the `lib/ext` listing and the filesystem are parameters of `Cli.Program` and `Cli.Run`; the file system does not change during a run.
- Java strings are sequences of UTF-16 code units, which `charAt` and `length` in `Options` index; the model's `String` is a sequence of Unicode scalar values, so a character outside the Basic Multilingual Plane counts as one character instead of two.
- The directory tree is a finite value, so a walk always ends; the unbounded recursion of `scanDir` on a symbolic-link cycle cannot be expressed.
- `HashMap` iteration order of the duplicate report: the report is a map; the order in which its names are printed is left out.
- `Options.getArgumentList` and `Options.main` (the scanner's own test driver) are not part of this model.
- Getopt.Options.constructor: shares the caller's array as the source does, but changes the caller makes to that array after construction are left out; `Valid` holds only while the array is left alone.
