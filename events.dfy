/**
 * What a run reports, as a log of events in output order: the lines a list
 * prints, the warnings, and one record per `foundPackage` or `foundClass` call.
 */
module Events {
  import opened Strings

  /** A time or size as `foundClass` shows it: -1 stands for "<not available>". */
  datatype Stamp = NotAvailable | Known(value: int)

  function StampOf(x: int): (s: Stamp)
    ensures s.NotAvailable? <==> x == -1
    ensures s.Known? ==> s.value == x
  {
    if x == -1 then NotAvailable else Known(x)
  }

  datatype Event =
    | Listed(path: String)                 // a classpath entry printed on stdout
    | MissingWarning(path: String)         // "warning: <path> does not exist" on stderr
    | CannotOpen(path: String)             // "warning: cannot open <path> as a jar file" on stderr
    | PackageFound(location: String, name: String)
    | ClassFound(location: String, name: String, modified: Stamp, size: Stamp)
  {
    /** The events that set the `found` flag. */
    predicate IsMatch() {
      PackageFound? || ClassFound?
    }
  }

  predicate HasMatch(log: seq<Event>) {
    exists k :: 0 <= k < |log| && log[k].IsMatch()
  }

  lemma HasMatchAppend(a: seq<Event>, b: seq<Event>)
    ensures HasMatch(a + b) <==> HasMatch(a) || HasMatch(b)
  {
    if HasMatch(a + b) {
      var k :| 0 <= k < |a + b| && (a + b)[k].IsMatch();
      if k >= |a| {
        assert b[k - |a|].IsMatch();
      }
    }
    if HasMatch(a) {
      var k :| 0 <= k < |a| && a[k].IsMatch();
      assert (a + b)[k].IsMatch();
    }
    if HasMatch(b) {
      var k :| 0 <= k < |b| && b[k].IsMatch();
      assert (a + b)[|a| + k].IsMatch();
    }
  }
}
