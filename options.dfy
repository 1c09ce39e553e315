/**
 * `Options`: a scanner in the style of C's `getopt()` over an argument
 * array. Options are single characters after `-`, may be clustered (`-pq`),
 * and an option marked with `:` in the control string takes a value, either
 * the rest of its argument or the next argument. Unlike `getopt()`, `--` does
 * not end the options: it is read as the option `-`.
 */
module Getopt {
  import opened Strings
  import opened Wrappers

  /** Why `next()` throws. */
  datatype OptionError =
    | NoMoreOptions            // "no more options"
    | ColonOption              // "':' is not a valid option"
    | InvalidOption(option: char)
    | MissingArgument(option: char)

  /** The scanner's position (`argsIndex`, `optionIndex`) and the value of the last option (`value`, None for null). */
  datatype ScanState = ScanState(argsIndex: int, optionIndex: int, value: Option<String>)

  /** Where a new scanner starts: the first character after the `-` of the first argument. */
  const Start: ScanState := ScanState(0, 1, None)

  /** An argument that introduces options: `-` followed by at least one character. */
  predicate IsOptionArg(arg: String) {
    StartsWith(arg, "-") && |arg| > 1
  }

  /**
   * The positions a scanner can be in: `argsIndex` within the arguments,
   * `optionIndex` at least 1, and inside a cluster only at a character of the
   * current argument.
   */
  predicate Consistent(args: seq<String>, st: ScanState) {
    0 <= st.argsIndex <= |args| && 1 <= st.optionIndex
    && (st.optionIndex > 1 && st.argsIndex < |args| ==> st.optionIndex < |args[st.argsIndex]|)
  }

  /** `hasNext()`: more options remain when within a cluster or at an argument that starts options. */
  predicate HasMore(args: seq<String>, st: ScanState)
    requires 0 <= st.argsIndex <= |args|
  {
    st.argsIndex != |args|
    && var arg := args[st.argsIndex];
    ((st.optionIndex > 1 && st.optionIndex < |arg|) || IsOptionArg(arg))
  }

  /** Whenever more options remain, the option character `next()` reads lies inside the current argument. */
  lemma HasMoreInBounds(args: seq<String>, st: ScanState)
    requires Consistent(args, st) && HasMore(args, st)
    ensures st.argsIndex < |args| && st.optionIndex < |args[st.argsIndex]|
    ensures st.optionIndex == 1 ==> IsOptionArg(args[st.argsIndex])
  {
  }

  /** The option character at the current position. */
  function CurrentOption(args: seq<String>, st: ScanState): char
    requires Consistent(args, st) && HasMore(args, st)
  {
    args[st.argsIndex][st.optionIndex]
  }

  /** Whether option `c`, found in `control`, is marked as taking a value. */
  predicate TakesValue(control: String, c: char) {
    var i := IndexOf(control, c);
    i != -1 && |control| > i + 1 && control[i + 1] == ':'
  }

  /**
   * `next()` as a function of the arguments, the control string and the
   * state: the option (or why it throws) and the state it leaves behind. Each
   * option returned moves the position forward, either to a later argument
   * at its first option character or one character along the same argument,
   * and the position stays consistent.
   */
  function Step(args: seq<String>, control: String, st: ScanState): (r: (Result<char, OptionError>, ScanState))
    requires Consistent(args, st)
    ensures Consistent(args, r.1)
    ensures r.0.Success? ==>
              (r.1.argsIndex > st.argsIndex && r.1.optionIndex == 1)
              || (r.1.argsIndex == st.argsIndex < |args| && r.1.optionIndex == st.optionIndex + 1
                  && r.1.optionIndex < |args[st.argsIndex]|)
  {
    if !HasMore(args, st) then (Failure(NoMoreOptions), st)
    else
      var ai, oi := st.argsIndex, st.optionIndex;
      var arg := args[ai];
      var option := arg[oi];
      if option == ':' then (Failure(ColonOption), ScanState(ai, oi, None))
      else
        var i := IndexOf(control, option);
        if i == -1 then (Failure(InvalidOption(option)), ScanState(ai, oi, None))
        else if |control| > i + 1 && control[i + 1] == ':' then
          if oi + 1 == |arg| then
            if ai + 1 == |args| then (Failure(MissingArgument(option)), ScanState(ai + 1, oi + 1, None))
            else (Success(option), ScanState(ai + 2, 1, Some(args[ai + 1])))
          else (Success(option), ScanState(ai + 1, 1, Some(arg[oi + 1..])))
        else if oi + 1 == |arg| then (Success(option), ScanState(ai + 1, 1, None))
        else (Success(option), ScanState(ai, oi + 1, None))
  }

  /**
   * `next()` throws when no options remain (and then changes nothing), when
   * the option character is `:`, and when it is not in the control string;
   * the last two clear the value.
   */
  lemma StepErrors(args: seq<String>, control: String, st: ScanState)
    requires Consistent(args, st)
    ensures Step(args, control, st).0 == Failure(NoMoreOptions) <==> !HasMore(args, st)
    ensures !HasMore(args, st) ==> Step(args, control, st).1 == st
    ensures Step(args, control, st).0 == Failure(ColonOption) <==> HasMore(args, st) && CurrentOption(args, st) == ':'
    ensures forall c :: Step(args, control, st).0 == Failure(InvalidOption(c)) <==>
              HasMore(args, st) && c == CurrentOption(args, st) && c != ':' && c !in control
    ensures HasMore(args, st) && (CurrentOption(args, st) == ':' || CurrentOption(args, st) !in control) ==>
              Step(args, control, st).1 == ScanState(st.argsIndex, st.optionIndex, None)
  {
  }

  /**
   * An option returned is the current character, a valid option; an option
   * that takes a value gets the rest of its argument when there is any and
   * the next argument otherwise; any other option leaves the value null.
   */
  lemma StepValue(args: seq<String>, control: String, st: ScanState)
    requires Consistent(args, st)
    ensures Step(args, control, st).0.Success? ==>
              var c := Step(args, control, st).0.value;
              var value := Step(args, control, st).1.value;
              var arg := args[st.argsIndex];
              HasMore(args, st) && c == CurrentOption(args, st) && c != ':' && c in control
              && (!TakesValue(control, c) ==> value == None)
              && (TakesValue(control, c) && st.optionIndex + 1 < |arg| ==> value == Some(arg[st.optionIndex + 1..]))
              && (TakesValue(control, c) && st.optionIndex + 1 == |arg| ==> value == Some(args[st.argsIndex + 1]))
  {
  }

  /**
   * `next()` reports a missing argument exactly for an option that takes a
   * value, ends the last argument, and has nothing after it.
   */
  lemma StepMissingArgument(args: seq<String>, control: String, st: ScanState, c: char)
    requires Consistent(args, st)
    ensures Step(args, control, st).0 == Failure(MissingArgument(c)) <==>
              HasMore(args, st) && c == CurrentOption(args, st) && c != ':' && TakesValue(control, c)
              && st.optionIndex + 1 == |args[st.argsIndex]| && st.argsIndex + 1 == |args|
    ensures Step(args, control, st).0 == Failure(MissingArgument(c)) ==>
              Step(args, control, st).1 == ScanState(st.argsIndex + 1, st.optionIndex + 1, None)
  {
  }

  /**
   * How far an option moves the scanner: past the next argument too when it
   * takes a value and ends its argument, to the next argument when it takes
   * a value or ends its argument, and otherwise one character along.
   */
  lemma StepAdvance(args: seq<String>, control: String, st: ScanState)
    requires Consistent(args, st)
    ensures Step(args, control, st).0.Success? ==>
              var c := Step(args, control, st).0.value;
              var st' := Step(args, control, st).1;
              var ends := st.optionIndex + 1 == |args[st.argsIndex]|;
              st'.argsIndex == st.argsIndex + (if TakesValue(control, c) && ends then 2
                                               else if TakesValue(control, c) || ends then 1 else 0)
              && st'.optionIndex == (if st'.argsIndex == st.argsIndex then st.optionIndex + 1 else 1)
  {
  }

  /** Once no options remain, the scanner is past the arguments or at one that does not start options. */
  lemma OptionsEnd(args: seq<String>, st: ScanState)
    requires Consistent(args, st) && !HasMore(args, st)
    ensures st.argsIndex == |args| || (st.optionIndex == 1 && !IsOptionArg(args[st.argsIndex]))
  {
  }

  /** The cluster `-pq` gives `p`, then `q` from the same argument, and then the scan is over. */
  lemma ClusterExample()
    ensures Step(["-pq"], "pq", Start) == (Success('p'), ScanState(0, 2, None))
    ensures Step(["-pq"], "pq", ScanState(0, 2, None)) == (Success('q'), ScanState(1, 1, None))
    ensures !HasMore(["-pq"], ScanState(1, 1, None))
  {
    assert IndexOf("pq", 'p') == 0;
    assert IndexOf("pq", 'q') == 1;
  }

  /** A value attached to its option (`-sX`) and one given as the next argument (`-s X`). */
  lemma ValueExample()
    ensures Step(["-sX"], "s:", Start) == (Success('s'), ScanState(1, 1, Some("X")))
    ensures Step(["-s", "X"], "s:", Start) == (Success('s'), ScanState(2, 1, Some("X")))
    ensures Step(["-s"], "s:", Start) == (Failure(MissingArgument('s')), ScanState(1, 2, None))
  {
    assert IndexOf("s:", 's') == 0;
    assert "-sX"[2..] == "X";
  }

  /** The scanner: the arguments (shared with the caller), the control string and the state `next()` advances. */
  class Options {
    const args: array<String>
    const control: String
    var argsIndex: int
    var optionIndex: int
    var value: Option<String>

    function State(): ScanState
      reads this
    {
      ScanState(argsIndex, optionIndex, value)
    }

    ghost predicate Valid()
      reads this, args
    {
      Consistent(args[..], State())
    }

    /** `Options(String[] args, String control)`: scans the caller's array itself. */
    constructor(args: array<String>, control: String)
      ensures this.args == args && this.control == control
      ensures State() == Start && Valid()
    {
      this.args := args;
      this.control := control;
      argsIndex := 0;
      optionIndex := 1;
      value := None;
    }

    /** `Options(List list, String control)`: scans a new array holding the list's elements in order. */
    constructor FromList(list: seq<String>, control: String)
      ensures fresh(args) && args[..] == list && this.control == control
      ensures State() == Start && Valid()
    {
      var a := new String[|list|];
      for i := 0 to |list|
        invariant a[..i] == list[..i]
      {
        a[i] := list[i];
      }
      args := a;
      this.control := control;
      argsIndex := 0;
      optionIndex := 1;
      value := None;
    }

    /** `hasNext()`. */
    predicate HasNext(): (b: bool)
      reads this, args
      requires Valid()
      ensures b ==> argsIndex < args.Length && optionIndex < |args[argsIndex]|
    {
      if HasMore(args[..], State()) then HasMoreInBounds(args[..], State()); true else false
    }

    /** `next()`: the next option character, or the reason it throws. */
    method Next() returns (r: Result<char, OptionError>)
      requires Valid()
      modifies this
      ensures Valid()
      ensures (r, State()) == Step(args[..], control, old(State()))
    {
      if !HasNext() {
        return Failure(NoMoreOptions);
      }
      value := None;
      var arg := args[argsIndex];
      var len := |arg|;
      var option := arg[optionIndex];
      if option == ':' {
        return Failure(ColonOption);
      }
      var i := IndexOf(control, option);
      if i == -1 {
        return Failure(InvalidOption(option));
      }
      var hasValue := |control| > i + 1 && control[i + 1] == ':';
      if hasValue {
        optionIndex := optionIndex + 1;
        if optionIndex == len {
          argsIndex := argsIndex + 1;
          if argsIndex == args.Length {
            return Failure(MissingArgument(option));
          }
          value := Some(args[argsIndex]);
        } else {
          value := Some(arg[optionIndex..]);
        }
      }
      if hasValue || optionIndex + 1 == len {
        argsIndex := argsIndex + 1;
        optionIndex := 1;
      } else {
        optionIndex := optionIndex + 1;
      }
      return Success(option);
    }

    /** `getValue()`: the value of the last option, None when it has none. */
    function GetValue(): (v: Option<String>)
      reads this
      ensures v == State().value
    {
      value
    }

    /** `getIndex()`: the index of the first argument the scanner has not consumed. */
    function GetIndex(): (i: int)
      reads this, args
      requires Valid()
      ensures 0 <= i <= args.Length && i == State().argsIndex
    {
      argsIndex
    }
  }
}
