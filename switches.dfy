/** The option letters `JavaSearchClassPath.main` accepts. */
module Switches {
  import opened Strings
  import opened Getopt

  /** The control string `main` hands to `Options`: `b`, `e` and `s` take a value. */
  const Control: String := "b:de:hpPs:q"

  lemma ControlB()
    ensures IndexOf(Control, 'b') == 0 && TakesValue(Control, 'b')
  {
  }

  lemma ControlE()
    ensures IndexOf(Control, 'e') == 3 && TakesValue(Control, 'e')
  {
    IndexOfIs(Control, 'e', 3);
  }

  lemma ControlS()
    ensures IndexOf(Control, 's') == 8 && TakesValue(Control, 's')
  {
    assert Control[..8] == "b:de:hpP";
    IndexOfIs(Control, 's', 8);
  }

  /** The three options that take a value. */
  lemma ControlValues()
    ensures TakesValue(Control, 'b') && TakesValue(Control, 'e') && TakesValue(Control, 's')
  {
    ControlB();
    ControlE();
    ControlS();
  }
}
