/**
 * The filesystem and the jar files, as input data. The search only ever asks
 * whether a path exists, whether it is a directory, what a directory lists,
 * what a file's time and length are, and what entries a jar stream yields;
 * a tree of nodes answers all of these.
 */
module FileSystem {
  import opened Strings
  import opened Wrappers

  /**
   * One entry of a jar stream: its name, its time (-1 when the archive has
   * none) and the values that successive `read` calls (the chunks) on the stream return
   * while it is positioned on this entry.
   */
  datatype JarEntry = JarEntry(name: String, time: int, chunks: seq<int>)

  /** A regular file seen as a jar: either it cannot be opened as one, or it yields these entries in order. */
  datatype Jar = Unreadable | Entries(entries: seq<JarEntry>)

  /**
   * A directory lists its children in the order `listFiles` returns them;
   * `listable` is false when `listFiles` returns null (for instance no read
   * permission), which does not hide the children from a direct lookup.
   */
  datatype Kind = Regular(jar: Jar) | Directory(children: seq<Node>, listable: bool)

  /** A file or directory: its last name component, `lastModified()`, `length()` and kind. */
  datatype Node = Node(name: String, modified: int, length: int, kind: Kind)

  /** The files and directories the classpath entries name; a path that is not a key does not exist. */
  type Roots = map<String, Node>

  predicate IsDirectory(n: Node) {
    n.kind.Directory?
  }

  /** The characters java.io.File takes for a separator on a host whose `file.separator` is `fileSep`. */
  function Separators(fileSep: char): String {
    if fileSep == '/' then "/" else [fileSep, '/']
  }

  /** `new File(path).getName()`: the last name component. */
  function BaseName(path: String, fileSep: char): String {
    AfterLast(path, Separators(fileSep))
  }

  /** The name is the path's last component: a suffix that holds no separator character. */
  lemma BaseNameIsLastComponent(path: String, fileSep: char)
    ensures EndsWith(path, BaseName(path, fileSep))
    ensures forall c :: c in BaseName(path, fileSep) ==> c !in Separators(fileSep)
    ensures BaseName(path, fileSep) == path || path[|path| - |BaseName(path, fileSep)| - 1] in Separators(fileSep)
  {
  }

  /** The first child with the given name. */
  function FindChild(children: seq<Node>, name: String): (r: Option<Node>)
    ensures r.Some? ==> r.value in children && r.value.name == name
    ensures r.None? ==> forall k :: 0 <= k < |children| ==> children[k].name != name
  {
    if children == [] then None
    else if children[0].name == name then Some(children[0])
    else FindChild(children[1..], name)
  }

  /** Follows name components down from `n`. */
  function Resolve(n: Node, parts: seq<String>): Option<Node>
    decreases |parts|
  {
    if parts == [] then Some(n)
    else
      match n.kind
      case Regular(_) => None
      case Directory(children, _) =>
        match FindChild(children, parts[0])
        case None => None
        case Some(c) => Resolve(c, parts[1..])
  }

  /** `new File(dir, rel)`: the node `rel` names below `dir`, if it exists (empty components are skipped). */
  function Lookup(dir: Node, rel: String, fileSep: char): Option<Node> {
    Resolve(dir, Tokens(rel, Separators(fileSep)))
  }
}
