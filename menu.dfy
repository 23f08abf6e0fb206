/** The interactive menu at the bottom of import_export.py: read an option
    line, dispatch to one of four operations (reading their table and file
    names from the following lines), or stop when the operator enters "5".
    The lines the operator types are given as a sequence; the operations
    themselves are recorded as commands, not run. */
module Menu {

  /** The operations the menu can start, with the names read for them. */
  datatype Command =
    | ImportCsv(table: string, csvFile: string)   // option "1", default column list
    | ExportCsv(table: string, csvFile: string)   // option "2"
    | DeleteAll(table: string)                    // option "3"
    | Display(table: string)                      // option "4"

  /** How the loop ends: the operator chose "5", or `input()` found no more
      lines and raised EOFError. */
  datatype Ending = ChoseExit | InputExhausted

  /** One pass of the loop body, starting at input line `pos`. */
  datatype Step =
    | Quit                               // "5": break
    | Dispatch(cmd: Command, next: nat)  // "1" to "4": run one operation
    | Redisplay(next: nat)               // anything else: show the menu again
    | EndOfInput                         // a read past the last line

  /** Everything one session does: the operations in order, then the ending. */
  datatype Session = Session(commands: seq<Command>, ending: Ending)

  /** The value held by the loop variable `option`: the int it starts as, or
      a line of text that `input()` returned. */
  datatype PyValue = PyInt(i: int) | PyStr(s: string)

  /** Python's `a != b`, evaluated type by type: an int and a str are
      compared as different types, never as equal values. It agrees with
      inequality of the tagged values, so a string is unequal to every int. */
  function PyNotEqual(a: PyValue, b: PyValue): (r: bool)
    ensures r <==> a != b
  {
    match (a, b)
    case (PyInt(x), PyInt(y)) => x != y
    case (PyStr(x), PyStr(y)) => x != y
    case _ => true
  }

  /** The number of extra lines (table name, file name) an option reads. */
  function ArgumentCount(option: string): (n: nat)
  {
    if option == "1" || option == "2" then 2
    else if option == "3" || option == "4" then 1
    else 0
  }

  predicate IsOperation(option: string)
  {
    option == "1" || option == "2" || option == "3" || option == "4"
  }

  /** One pass of the loop body on the lines from `pos` on: "5" quits, "1"
      to "4" each dispatch exactly one operation built from the lines that
      follow, and any other line is consumed without effect. */
  function NextStep(input: seq<string>, pos: nat): (s: Step)
    requires pos <= |input|
  {
    if pos == |input| then EndOfInput
    else
      var option := input[pos];
      if pos + 1 + ArgumentCount(option) > |input| then EndOfInput
      else if option == "5" then Quit
      else if option == "1" then Dispatch(ImportCsv(input[pos + 1], input[pos + 2]), pos + 3)
      else if option == "2" then Dispatch(ExportCsv(input[pos + 1], input[pos + 2]), pos + 3)
      else if option == "3" then Dispatch(DeleteAll(input[pos + 1]), pos + 2)
      else if option == "4" then Dispatch(Display(input[pos + 1]), pos + 2)
      else Redisplay(pos + 1)
  }

  /** The dispatch table of the loop body: "5" quits, "1" to "4" each
      dispatch exactly one operation built from the lines that follow, any
      other line is consumed without effect, and a read past the last line
      ends the session. */
  lemma DispatchTable(input: seq<string>, pos: nat)
    requires pos <= |input|
    ensures var s := NextStep(input, pos);
      && (s.Quit? <==> pos < |input| && input[pos] == "5")
      && (s.EndOfInput? <==> pos == |input| || pos + 1 + ArgumentCount(input[pos]) > |input|)
      && (s.Redisplay? <==> pos < |input| && input[pos] != "5" && !IsOperation(input[pos]))
      && (s.Redisplay? ==> s.next == pos + 1)
      && (s.Dispatch? ==> IsOperation(input[pos]) && s.next == pos + 1 + ArgumentCount(input[pos]) <= |input|)
      && (s.Dispatch? ==> (s.cmd.ImportCsv? <==> input[pos] == "1"))
      && (s.Dispatch? ==> (s.cmd.ExportCsv? <==> input[pos] == "2"))
      && (s.Dispatch? ==> (s.cmd.DeleteAll? <==> input[pos] == "3"))
      && (s.Dispatch? ==> (s.cmd.Display? <==> input[pos] == "4"))
      && (s.Dispatch? ==> s.cmd.table == input[pos + 1])
      && (s.Dispatch? && (s.cmd.ImportCsv? || s.cmd.ExportCsv?) ==> s.cmd.csvFile == input[pos + 2])
  {
  }

  /** The whole session from line `pos` on. */
  function Run(input: seq<string>, pos: nat): (session: Session)
    requires pos <= |input|
    decreases |input| - pos
  {
    match NextStep(input, pos)
    case Quit => Session([], ChoseExit)
    case EndOfInput => Session([], InputExhausted)
    case Redisplay(next) => Run(input, next)
    case Dispatch(cmd, next) =>
      var rest := Run(input, next);
      Session([cmd] + rest.commands, rest.ending)
  }

  /** Without a "5" among the lines the loop never stops by choice: its guard
      compares a string with the int 4 and stays true, so only running out
      of input ends it. */
  lemma {:induction false} NoFiveNeverExits(input: seq<string>, pos: nat)
    requires pos <= |input|
    requires forall j :: pos <= j < |input| ==> input[j] != "5"
    ensures Run(input, pos).ending == InputExhausted
    decreases |input| - pos
  {
    match NextStep(input, pos)
    case Quit =>
    case EndOfInput =>
    case Redisplay(next) => NoFiveNeverExits(input, next);
    case Dispatch(_, next) => NoFiveNeverExits(input, next);
  }

  /** Once the operator has chosen "5", nothing typed afterwards is read:
      appending lines changes neither the operations run nor the ending. */
  lemma {:induction false} LinesAfterExitAreIgnored(input: seq<string>, pos: nat, extra: seq<string>)
    requires pos <= |input|
    requires Run(input, pos).ending == ChoseExit
    ensures Run(input + extra, pos) == Run(input, pos)
    decreases |input| - pos
  {
    assert (input + extra)[..|input|] == input;
    match NextStep(input, pos)
    case Quit =>
      assert NextStep(input + extra, pos) == Quit;
    case EndOfInput =>
    case Redisplay(next) =>
      assert NextStep(input + extra, pos) == Redisplay(next);
      LinesAfterExitAreIgnored(input, next, extra);
    case Dispatch(cmd, next) =>
      assert NextStep(input + extra, pos) == Dispatch(cmd, next);
      LinesAfterExitAreIgnored(input, next, extra);
  }

  /** Every operation reads its option line and at least one name after it,
      so a session runs at most one operation per two lines typed. */
  lemma {:induction false} CommandsBounded(input: seq<string>, pos: nat)
    requires pos <= |input|
    ensures 2 * |Run(input, pos).commands| <= |input| - pos
    decreases |input| - pos
  {
    match NextStep(input, pos)
    case Quit =>
    case EndOfInput =>
    case Redisplay(next) => CommandsBounded(input, next);
    case Dispatch(_, next) => CommandsBounded(input, next);
  }

  /** An unrecognised option line is consumed and the session goes on. */
  lemma RedisplayStep(input: seq<string>, pos: nat)
    requires pos < |input| && input[pos] != "5" && !IsOperation(input[pos])
    ensures Run(input, pos) == Run(input, pos + 1)
  {
  }

  /** An operation line with its names dispatches `cmd` and the session goes
      on after the names. */
  lemma DispatchStep(input: seq<string>, pos: nat, cmd: Command)
    requires pos < |input| && pos + 1 + ArgumentCount(input[pos]) <= |input|
    requires input[pos] == "1" ==> cmd == ImportCsv(input[pos + 1], input[pos + 2])
    requires input[pos] == "2" ==> cmd == ExportCsv(input[pos + 1], input[pos + 2])
    requires input[pos] == "3" ==> cmd == DeleteAll(input[pos + 1])
    requires input[pos] == "4" ==> cmd == Display(input[pos + 1])
    requires IsOperation(input[pos])
    ensures Run(input, pos).commands == [cmd] + Run(input, pos + 1 + ArgumentCount(input[pos])).commands
    ensures Run(input, pos).ending == Run(input, pos + 1 + ArgumentCount(input[pos])).ending
  {
  }

  /** The `__main__` loop. `option` starts as the int 0 and is replaced by
      each option line read; the guard `option != 4` is kept as written. */
  method MainLoop(input: seq<string>) returns (commands: seq<Command>, ending: Ending)
    ensures Session(commands, ending) == Run(input, 0)
  {
    var option := PyInt(0);
    var pos := 0;
    commands := [];
    while PyNotEqual(option, PyInt(4))
      invariant pos <= |input|
      invariant option == PyInt(0) || option.PyStr?
      invariant commands + Run(input, pos).commands == Run(input, 0).commands
      invariant Run(input, pos).ending == Run(input, 0).ending
      decreases |input| - pos
    {
      if pos == |input| {
        return commands, InputExhausted;
      }
      var line := input[pos];
      option := PyStr(line);
      var needed := ArgumentCount(line);
      if pos + 1 + needed > |input| {
        return commands, InputExhausted;
      }
      if line == "5" {
        DispatchTable(input, pos);
        break;
      }
      var cmd: Command;
      if line == "1" {
        cmd := ImportCsv(input[pos + 1], input[pos + 2]);
      } else if line == "2" {
        cmd := ExportCsv(input[pos + 1], input[pos + 2]);
      } else if line == "3" {
        cmd := DeleteAll(input[pos + 1]);
      } else if line == "4" {
        cmd := Display(input[pos + 1]);
      } else {
        RedisplayStep(input, pos);
        pos := pos + 1;
        continue;
      }
      DispatchStep(input, pos, cmd);
      commands := commands + [cmd];
      pos := pos + 1 + needed;
    }
    ending := ChoseExit;
  }
}
