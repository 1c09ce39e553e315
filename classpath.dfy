/**
 * Assembly of the classpath to list or search: the boot classpath entries that
 * exist, then the contents of the runtime's `lib/ext` directory, then the
 * classpath given to the tool.
 */
module ClassPath {
  import opened Strings
  import opened Wrappers
  import opened FileSystem

  /** The tokens that name an existing file or directory, in order. */
  function Existing(tokens: seq<String>, roots: Roots): (r: seq<String>)
    ensures |r| <= |tokens|
    ensures forall k :: 0 <= k < |r| ==> r[k] in roots
  {
    if tokens == [] then []
    else
      var last := tokens[|tokens| - 1];
      Existing(tokens[..|tokens| - 1], roots) + if last in roots then [last] else []
  }

  /** Tokens split off a string are kept exactly when they exist. */
  lemma {:induction false} ExistingKeeps(tokens: seq<String>, roots: Roots, t: String)
    ensures t in Existing(tokens, roots) <==> t in tokens && t in roots
  {
    if tokens != [] {
      ExistingKeeps(tokens[..|tokens| - 1], roots, t);
      assert tokens == tokens[..|tokens| - 1] + [tokens[|tokens| - 1]];
    }
  }

  /** The boot classpath tokens that exist; none when the boot classpath property is not set. */
  function BootEntries(bootPath: Option<String>, pathSeparator: String, roots: Roots): seq<String> {
    match bootPath
    case None => []
    case Some(b) => Existing(Tokens(b, pathSeparator), roots)
  }

  /** The `lib/ext` listing; none when it cannot be listed. */
  function ExtEntries(extListing: Option<seq<String>>): seq<String> {
    match extListing
    case None => []
    case Some(files) => files
  }

  /**
   * `buildClasspathList`. The boot classpath is split on the host's
   * `path.separator` (`pathSeparator`), the searched classpath on the `-s`
   * separator characters (`sep`).
   */
  method BuildClasspathList(bootPath: Option<String>, pathSeparator: String, roots: Roots,
                            extListing: Option<seq<String>>, searchClassPath: String, sep: String)
    returns (list: seq<String>)
    ensures list == BootEntries(bootPath, pathSeparator, roots) + ExtEntries(extListing) + Tokens(searchClassPath, sep)
  {
    list := [];
    if bootPath.Some? {
      var tokens := Tokens(bootPath.value, pathSeparator);
      var i := 0;
      while i < |tokens|
        invariant 0 <= i <= |tokens|
        invariant list == Existing(tokens[..i], roots)
      {
        assert tokens[..i + 1][..i] == tokens[..i];
        if tokens[i] in roots {
          list := list + [tokens[i]];
        }
        i := i + 1;
      }
      assert tokens[..i] == tokens;
    }
    ghost var boot := list;
    if extListing.Some? {
      var files := extListing.value;
      for i := 0 to |files|
        invariant list == boot + files[..i]
      {
        list := list + [files[i]];
      }
      assert files[..|files|] == files;
    }
    ghost var head := list;
    var tokens := Tokens(searchClassPath, sep);
    var j := 0;
    while j < |tokens|
      invariant 0 <= j <= |tokens|
      invariant list == head + tokens[..j]
    {
      list := list + [tokens[j]];
      j := j + 1;
    }
    assert tokens[..j] == tokens;
  }

  /** Every entry taken from the searched classpath is non-empty and holds no separator character. */
  lemma UserEntriesAreTokens(searchClassPath: String, sep: String)
    ensures forall k :: 0 <= k < |Tokens(searchClassPath, sep)| ==> IsToken(Tokens(searchClassPath, sep)[k], sep)
  {
    TokensAreTokens(searchClassPath, sep, []);
  }

  /**
   * The searched classpath `/a:/b.jar` with separator `:` contributes the two
   * entries `/a` and `/b.jar`.
   */
  lemma TwoEntryClassPath()
    ensures Tokens("/a:/b.jar", ":") == ["/a", "/b.jar"]
  {
    assert "/a:/b.jar" == "/a" + [':'] + "/b.jar";
    TokensSplit("/a", ':', "/b.jar", ":", []);
    TokensOfPlain("/a", ":", []);
    assert [] + "/a" == "/a";
    TokensOfPlain("/b.jar", ":", []);
    assert [] + "/b.jar" == "/b.jar";
  }
}
