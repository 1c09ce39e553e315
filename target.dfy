/**
 * How the command line's search target is compiled into the names the scanners
 * compare against: the extension given with `-e`, the class name and the
 * package name given as the positional argument.
 */
module Target {
  import opened Strings

  /** The names a class search compares against (`cClassNameNoExt`, `cClassName`, `cExtension`). */
  datatype ClassNames = ClassNames(noExt: String, name: String, ext: String)

  /** The names a package search compares against (`cPackageNameDir`, `cPackageNameJar`). */
  datatype PackageNames = PackageNames(dir: String, jar: String)

  /**
   * What the run looks for: nothing (the classpath is only listed), a class
   * (or any file with the active extension), or a package.
   */
  datatype Target =
    | ListOnly
    | ClassSearch(names: ClassNames)
    | PackageSearch(packageName: String, pkg: PackageNames)

  /** The `-e` value, forced to start with a dot. */
  function NormalizeExtension(e: String): (r: String)
    ensures StartsWith(r, ".")
    ensures StartsWith(e, ".") ==> r == e
    ensures EndsWith(r, e) && |r| <= |e| + 1
  {
    if StartsWith(e, ".") then e else "." + e
  }

  lemma NormalizeExtensionIdempotent(e: String)
    ensures NormalizeExtension(NormalizeExtension(e)) == NormalizeExtension(e)
  {
  }

  /** Position `i` of `u` holds a `.` with a `/` at or after it. */
  predicate DotBeforeSlash(u: String, i: int) {
    0 <= i < |u| && u[i] == '.' && exists j :: i <= j < |u| && u[j] == '/'
  }

  /**
   * The extension detection step: a dot at or before the last `/` splits the
   * name into (name, extension), at the last such dot; without a `/`, or
   * without such a dot, nothing is split off and the configured extension
   * stays.
   */
  function SplitExtension(u: String, ext: String): (r: (String, String))
    ensures r.0 + r.1 == u || r == (u, ext)
    ensures r.1 != ext ==> StartsWith(r.1, ".") && '/' in r.1
  {
    var idx1 := LastIndexOf(u, '/');
    if idx1 == -1 then (u, ext)
    else
      var idx2 := LastIndexAtOrBefore(u, '.', idx1);
      if idx2 == -1 then (u, ext)
      else
        assert u[idx2..][idx1 - idx2] == '/';
        (u[..idx2], u[idx2..])
  }

  /**
   * Where the name is cut: when some `.` lies at or before a `/`, at the last
   * such dot; otherwise nowhere, and the configured extension stays.
   */
  lemma SplitExtensionCut(u: String, ext: String)
    ensures var r := SplitExtension(u, ext);
            (exists i :: DotBeforeSlash(u, i)) ==>
              r.0 + r.1 == u && DotBeforeSlash(u, |r.0|)
              && forall i :: |r.0| < i < |u| ==> !DotBeforeSlash(u, i)
    ensures (forall i :: !DotBeforeSlash(u, i)) ==> SplitExtension(u, ext) == (u, ext)
  {
    var idx1 := LastIndexOf(u, '/');
    if idx1 == -1 {
      assert forall i :: !DotBeforeSlash(u, i);
    } else {
      var idx2 := LastIndexAtOrBefore(u, '.', idx1);
      assert forall i :: DotBeforeSlash(u, i) ==> i <= idx1 by {
        forall i | DotBeforeSlash(u, i) ensures i <= idx1 {
          var j :| i <= j < |u| && u[j] == '/';
          assert j <= idx1;
        }
      }
      if idx2 == -1 {
        assert forall i :: !DotBeforeSlash(u, i);
      } else {
        assert u[idx2..][idx1 - idx2] == '/';
        assert DotBeforeSlash(u, idx2);
      }
    }
  }

  /** A name is split exactly when it holds a `.` at or before a `/`, and then the extension starts with that dot. */
  lemma SplitExtensionIff(u: String, ext: String)
    ensures (exists i :: DotBeforeSlash(u, i)) <==>
              (SplitExtension(u, ext).0 + SplitExtension(u, ext).1 == u && StartsWith(SplitExtension(u, ext).1, "."))
  {
    SplitExtensionCut(u, ext);
  }

  /** Drops `ext` from the end of `u` when `u` ends with it. */
  function StripExtension(u: String, ext: String): (r: String)
    ensures EndsWith(u, ext) ==> r + ext == u
    ensures !EndsWith(u, ext) ==> r == u
  {
    if EndsWith(u, ext) then u[..|u| - |ext|] else u
  }

  /**
   * The class-name normalisation: backslashes become `/`, a detected extension
   * replaces the configured one, the active extension is stripped and every
   * remaining `.` becomes `/`.
   */
  function NormalizeClassName(userName: String, ext: String): (c: ClassNames)
    ensures c.name == c.noExt + c.ext
    ensures '.' !in c.noExt && '\\' !in c.noExt
    ensures StartsWith(ext, ".") ==> StartsWith(c.ext, ".")
    ensures c.ext == ext || '/' in c.ext
  {
    var u := Replace(userName, '\\', '/');
    ReplaceRemoves(userName, '\\', '/', '\\');
    var (base, ext') := SplitExtension(u, ext);
    assert forall c :: c in base ==> c in u by {
      assert base == u || base == u[..|base|];
    }
    var stripped := StripExtension(base, ext');
    assert forall c :: c in stripped ==> c in base by {
      assert stripped == base || stripped == base[..|stripped|];
    }
    var noExt := Replace(stripped, '.', '/');
    ReplaceRemoves(stripped, '.', '/', '.');
    ReplaceRemoves(stripped, '.', '/', '\\');
    ClassNames(noExt, noExt + ext', ext')
  }

  /**
   * Which extension a class name ends up with: once backslashes are `/`, a
   * name with a `.` at or before a `/` takes the tail from the last such dot
   * as its extension; any other name keeps the configured one.
   */
  lemma DetectedExtension(userName: String, ext: String)
    ensures var u := Replace(userName, '\\', '/');
            var c := NormalizeClassName(userName, ext);
            (exists i :: DotBeforeSlash(u, i)) ==>
              EndsWith(u, c.ext) && DotBeforeSlash(u, |u| - |c.ext|)
              && forall i :: |u| - |c.ext| < i < |u| ==> !DotBeforeSlash(u, i)
    ensures (forall i :: !DotBeforeSlash(Replace(userName, '\\', '/'), i)) ==> NormalizeClassName(userName, ext).ext == ext
  {
    var u := Replace(userName, '\\', '/');
    var r := SplitExtension(u, ext);
    SplitExtensionCut(u, ext);
    assert NormalizeClassName(userName, ext).ext == r.1;
    if exists i :: DotBeforeSlash(u, i) {
      assert u[|r.0|..] == r.1;
    }
  }

  /**
   * The bare name is read off the start of the name: each of its characters
   * is the name's character at that position, with `.` and `\` turned into `/`.
   */
  lemma BareNameCharacters(userName: String, ext: String)
    ensures var c := NormalizeClassName(userName, ext);
            |c.noExt| <= |userName|
            && forall i :: 0 <= i < |c.noExt| ==>
                 c.noExt[i] == if userName[i] == '.' || userName[i] == '\\' then '/' else userName[i]
  {
    var u := Replace(userName, '\\', '/');
    var (base, ext') := SplitExtension(u, ext);
    assert base == u[..|base|];
    var stripped := StripExtension(base, ext');
    assert stripped == base[..|stripped|];
  }

  /**
   * How long the bare name is: the name up to the detected extension (all of
   * it when none is detected), less the active extension when it ends with it.
   */
  lemma BareNameLength(userName: String, ext: String)
    ensures var u := Replace(userName, '\\', '/');
            var c := NormalizeClassName(userName, ext);
            var b := if exists i :: DotBeforeSlash(u, i) then |u| - |c.ext| else |u|;
            0 <= b <= |u|
            && |c.noExt| == if EndsWith(u[..b], c.ext) then b - |c.ext| else b
  {
    var u := Replace(userName, '\\', '/');
    var (base, ext') := SplitExtension(u, ext);
    var c := NormalizeClassName(userName, ext);
    assert c.ext == ext';
    assert |c.noExt| == |StripExtension(base, ext')|;
    SplitExtensionCut(u, ext);
    var b := if exists i :: DotBeforeSlash(u, i) then |u| - |c.ext| else |u|;
    assert base == u[..b] by {
      if exists i :: DotBeforeSlash(u, i) {
        assert base + ext' == u;
      }
    }
  }

  /** For a plain dotted name (no `/`, no `\`) the configured extension stays and only dots turn into `/`. */
  lemma DottedClassName(userName: String, ext: String)
    requires '/' !in userName && '\\' !in userName
    ensures NormalizeClassName(userName, ext).ext == ext
    ensures NormalizeClassName(userName, ext).noExt == Replace(StripExtension(userName, ext), '.', '/')
  {
    ReplaceAbsent(userName, '\\', '/');
    assert LastIndexOf(userName, '/') == -1;
    assert SplitExtension(userName, ext) == (userName, ext);
  }

  lemma DottedClassNameExample()
    ensures NormalizeClassName("x.Y", ".class").noExt == "x/Y"
    ensures NormalizeClassName("x.Y", ".class").ext == ".class"
  {
    var u := "x.Y";
    assert '/' !in u && '\\' !in u by {
      assert u[0] == 'x' && u[1] == '.' && u[2] == 'Y';
    }
    DottedClassName(u, ".class");
    assert StripExtension(u, ".class") == u;
    var r := Replace(u, '.', '/');
    assert r[0] == 'x' && r[1] == '/' && r[2] == 'Y';
  }

  /**
   * The dot that switches the extension has to sit at or before the last `/`:
   * a dot after it is not taken for an extension but turned into `/` ...
   */
  lemma ExtensionAfterSlashNotDetected()
    ensures NormalizeClassName("a/b.p", ".class").noExt == "a/b/p"
    ensures NormalizeClassName("a/b.p", ".class").ext == ".class"
  {
    var u := "a/b.p";
    ReplaceAbsent(u, '\\', '/');
    SplitAfterSlash();
    assert !EndsWith(u, ".class");
    DotsBecomeSlashes();
  }

  lemma DotsBecomeSlashes()
    ensures Replace("a/b.p", '.', '/') == "a/b/p"
  {
    var r := Replace("a/b.p", '.', '/');
    assert r[0] == 'a' && r[1] == '/' && r[2] == 'b' && r[3] == '/' && r[4] == 'p';
  }

  lemma SplitAfterSlash()
    ensures SplitExtension("a/b.p", ".class") == ("a/b.p", ".class")
  {
    var u := "a/b.p";
    assert LastIndexOf(u, '/') == 1 by {
      assert u[1] == '/' && '/' !in u[2..];
    }
    assert LastIndexAtOrBefore(u, '.', 1) == -1 by {
      assert u[0] != '.' && u[1] != '.';
    }
  }

  /** ... while a dot in the directory part is, and the extension then spans the `/`. */
  lemma ExtensionInDirectoryPartDetected()
    ensures NormalizeClassName("a.b/C", ".class").noExt == "a"
    ensures NormalizeClassName("a.b/C", ".class").ext == ".b/C"
  {
    var v := "a.b/C";
    ReplaceAbsent(v, '\\', '/');
    SplitInDirectoryPart();
    assert !EndsWith("a", ".b/C");
    ReplaceAbsent("a", '.', '/');
  }

  lemma SplitInDirectoryPart()
    ensures SplitExtension("a.b/C", ".class") == ("a", ".b/C")
  {
    var v := "a.b/C";
    assert LastIndexOf(v, '/') == 3 by {
      assert v[3] == '/' && '/' !in v[4..];
    }
    assert LastIndexAtOrBefore(v, '.', 3) == 1 by {
      assert v[1] == '.' && v[2] != '.' && v[3] != '.';
    }
    assert v[..1] == "a" && v[1..] == ".b/C";
  }

  /**
   * The package-name normalisation on a host whose file separator is
   * `fileSep`: the directory form uses the host separator, the jar form `/`
   * and one trailing `/`.
   */
  function NormalizePackageName(packageName: String, fileSep: char): (p: PackageNames)
    ensures EndsWith(p.jar, "/")
    ensures fileSep != '.' ==> '.' !in p.dir
    ensures fileSep == '/' ==> '\\' !in p.dir && p.jar == packageName + "/"
    ensures fileSep != '/' ==> '/' !in p.dir && fileSep !in p.jar
    ensures fileSep != '/' ==> p.jar == Replace(p.dir, fileSep, '/') || p.jar == Replace(p.dir, fileSep, '/') + "/"
  {
    var dir := Replace(packageName, '.', fileSep);
    ReplaceRemoves(packageName, '.', fileSep, '.');
    if fileSep == '/' then
      var dir' := Replace(dir, '\\', fileSep);
      ReplaceRemoves(dir, '\\', fileSep, '\\');
      ReplaceRemoves(dir, '\\', fileSep, '.');
      var jar := packageName + "/";
      PackageNames(dir', jar)
    else
      var dir' := Replace(dir, '/', fileSep);
      ReplaceRemoves(dir, '/', fileSep, '/');
      assert fileSep != '.' ==> '.' !in dir' by {
        if fileSep != '.' { ReplaceRemoves(dir, '/', fileSep, '.'); }
      }
      var jar := Replace(dir', fileSep, '/');
      ReplaceRemoves(dir', fileSep, '/', fileSep);
      if EndsWith(jar, "/") then PackageNames(dir', jar)
      else
        assert forall c :: c in jar + "/" ==> c in jar || c == '/';
        PackageNames(dir', jar + "/")
  }

  /**
   * The directory form is the package name with each `.`, and each separator
   * of the other kind, turned into the host separator.
   */
  lemma PackageDirectoryForm(packageName: String, fileSep: char)
    ensures var p := NormalizePackageName(packageName, fileSep);
            var other := if fileSep == '/' then '\\' else '/';
            |p.dir| == |packageName|
            && forall i :: 0 <= i < |packageName| ==>
                 p.dir[i] == if packageName[i] == '.' || packageName[i] == other then fileSep else packageName[i]
  {
  }

  /**
   * Off `/` hosts the jar form is the package name with each `.`, `/` and host
   * separator turned into `/`, plus a trailing `/` when it lacks one.
   */
  lemma PackageJarFormOffSlashHosts(packageName: String, fileSep: char)
    requires fileSep != '/'
    ensures var p := NormalizePackageName(packageName, fileSep);
            (|p.jar| == |packageName| || |p.jar| == |packageName| + 1)
            && forall i :: 0 <= i < |packageName| ==>
                 p.jar[i] == if packageName[i] == '.' || packageName[i] == '/' || packageName[i] == fileSep then '/'
                             else packageName[i]
  {
    var p := NormalizePackageName(packageName, fileSep);
    PackageDirectoryForm(packageName, fileSep);
    var r := Replace(p.dir, fileSep, '/');
    assert p.jar == r || p.jar == r + "/";
  }

  /** On a non-`/` host the jar form has no dots either: dots and both separators all became `/`. */
  lemma JarFormHasNoDotsOffSlashHosts(packageName: String, fileSep: char)
    requires fileSep != '/' && fileSep != '.'
    ensures '.' !in NormalizePackageName(packageName, fileSep).jar
  {
    var p := NormalizePackageName(packageName, fileSep);
    var r := Replace(p.dir, fileSep, '/');
    ReplaceRemoves(p.dir, fileSep, '/', '.');
    assert p.jar == r || p.jar == r + "/";
  }

  /** On a `/` host the jar form keeps the dots of a dotted name. */
  lemma PackageJarFormKeepsDots()
    ensures NormalizePackageName("a.b", '/') == PackageNames("a/b", "a.b/")
  {
    assert Replace("a.b", '.', '/') == "a/b";
    assert Replace("a/b", '\\', '/') == "a/b";
  }

  /** On a `/` host a name that already ends with `/` gets a second one in the jar form. */
  lemma PackageJarFormDoubleSlash()
    ensures NormalizePackageName("a/", '/') == PackageNames("a/", "a//")
  {
    assert Replace("a/", '.', '/') == "a/";
    assert Replace("a/", '\\', '/') == "a/";
  }

  /** On a `\` host the jar form is rebuilt from the directory form, dots included. */
  lemma PackageOnBackslashHost()
    ensures NormalizePackageName("a.b", '\\') == PackageNames("a\\b", "a/b/")
  {
    BackslashDirectoryForm();
    BackslashJarForm();
  }

  lemma BackslashDirectoryForm()
    ensures Replace(Replace("a.b", '.', '\\'), '/', '\\') == "a\\b"
  {
    var d := Replace("a.b", '.', '\\');
    assert d[0] == 'a' && d[1] == '\\' && d[2] == 'b';
    ReplaceAbsent(d, '/', '\\');
  }

  lemma BackslashJarForm()
    ensures Replace("a\\b", '\\', '/') == "a/b"
    ensures !EndsWith("a/b", "/")
  {
    var j := Replace("a\\b", '\\', '/');
    assert j[0] == 'a' && j[1] == '/' && j[2] == 'b';
  }
}
