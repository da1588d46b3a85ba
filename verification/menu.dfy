/**
 * The top-level loop of historical.py: `while not FINISHED`, driven by the
 * module globals `FINISHED`, `SELECTED`, `ready`, `commands` and
 * `selected_commands`. The answers typed at the prompts are an input
 * sequence, the printed lines an output sequence, the text printed by the
 * history command a parameter, and the script file a path and a content.
 */
module Menu {
  import opened Base
  import opened Builtins
  import opened History
  import opened Selection
  import opened Render

  /** Printed before every "Ready?" prompt. */
  const READY_BANNER: string :=
    "Enter y to select from the most recent 100 history commands to construct a script or n to exit"

  /** `'Creating script %s' % script_name` */
  function CreatingScript(name: string): string
  {
    "Creating script " + name
  }

  /** The file `create_script_from_selections` writes: `script_name + '.sh'`. */
  datatype ScriptFile = ScriptFile(path: string, content: string)

  /** The globals of the script together with its terminal and its file system. */
  datatype Machine = Machine(
    finished: bool,                 // FINISHED
    selected: bool,                 // SELECTED
    ready: string,                  // ready: the last answer to "Ready?"
    commands: seq<string>,          // commands
    selectedCommands: seq<string>,  // selected_commands, split on ','
    history: string,                // what the history command prints
    input: seq<string>,             // the lines still to be typed
    output: seq<string>,            // the lines printed so far
    script: Option<ScriptFile>,     // the script written, if any
    crash: Option<Error>)           // the exception that ended the program, if any

  function Initial(history: string, input: seq<string>): (r: Machine)
    ensures !Halted(r) && !r.selected && r.commands == [] && r.script.None?
    ensures r.history == history && r.input == input && r.output == []
  {
    Machine(false, false, "", [], [], history, input, [], None, None)
  }

  /** The loop has ended, normally or by an exception. */
  predicate Halted(m: Machine)
  {
    m.finished || m.crash.Some?
  }

  /** The `if not SELECTED` branch: ask "Ready?" and act on the answer. */
  function AskReady(m: Machine): (r: Machine)
    ensures r.history == m.history && m.output <= r.output
    ensures |r.input| < |m.input| || r.crash.Some?
  {
    var m1 := m.(output := m.output + [READY_BANNER]);
    if m1.input == [] then m1.(crash := Some(EndOfInput))
    else
      var answer := m1.input[0];
      var m2 := m1.(ready := answer, input := m1.input[1..]);
      if answer == "n" then m2.(finished := true)
      else if answer == "y" then ChooseCommands(m2)
      else m2
  }

  /** The answer was `y`: list the history, then read and show the selection. */
  function ChooseCommands(m: Machine): (r: Machine)
    ensures r.history == m.history && m.output <= r.output
    ensures |r.input| <= |m.input|
  {
    match ParseHistory(m.history)
    case Err(e) => m.(crash := Some(e))
    case Ok(cs) => ReadSelection(m.(commands := cs, output := m.output + Listing(cs)))
  }

  /** `raw_input("Selected Commands: ").split(',')`, converted and shown. */
  function ReadSelection(m: Machine): (r: Machine)
    ensures r.history == m.history && m.output <= r.output
    ensures |r.input| <= |m.input|
  {
    if m.input == [] then m.(crash := Some(EndOfInput))
    else
      var terms := Split(m.input[0], ',');
      var m1 := m.(selectedCommands := terms, input := m.input[1..]);
      match ConvertAll(terms)
      case Err(e) => m1.(crash := Some(e))
      case Ok(sel) => m1.(output := m1.output + Highlight(sel, m.commands), selected := true)
  }

  /**
   * The `else` branch: the answer to "Ready to output script?" is read and
   * never looked at, because the test is on `ready`, the earlier answer.
   */
  function AskOutput(m: Machine): (r: Machine)
    ensures r.history == m.history && m.output <= r.output
    ensures |r.input| < |m.input| || r.crash.Some?
    ensures r.selected == m.selected && r.commands == m.commands && r.selectedCommands == m.selectedCommands
  {
    if m.input == [] then m.(crash := Some(EndOfInput))
    else
      var m1 := m.(input := m.input[1..]);
      if m1.ready != "y" then m1 else WriteScript(m1)
  }

  /** `ready == 'y'`: ask for the name and write `name.sh` from the selection. */
  function WriteScript(m: Machine): (r: Machine)
    ensures r.history == m.history && m.output <= r.output
    ensures |r.input| <= |m.input|
    ensures r.selected == m.selected && r.commands == m.commands && r.selectedCommands == m.selectedCommands
  {
    if m.input == [] then m.(crash := Some(EndOfInput))
    else
      var name := m.input[0];
      var m1 := m.(input := m.input[1..], output := m.output + [CreatingScript(name)]);
      match ConvertAll(m1.selectedCommands)
      case Err(e) => m1.(crash := Some(e))
      case Ok(sel) =>
        m1.(script := Some(ScriptFile(name + ".sh", ScriptText(sel, m1.commands))), finished := true)
  }

  /** One pass of `while not FINISHED`; a halted program does not move. */
  function Next(m: Machine): (r: Machine)
    ensures Halted(m) ==> r == m
    ensures |r.input| <= |m.input|
    ensures |r.input| == |m.input| && !Halted(m) ==> Halted(r)
    ensures r.history == m.history && m.output <= r.output
    ensures m.selected ==> r.selected && r.commands == m.commands && r.selectedCommands == m.selectedCommands
  {
    if Halted(m) then m
    else if !m.selected then AskReady(m)
    else AskOutput(m)
  }

  /** The whole loop: passes until the program finishes or raises. */
  function RunToEnd(m: Machine): (r: Machine)
    ensures Halted(r)
    ensures |r.input| <= |m.input|
    ensures r.history == m.history && m.output <= r.output
    decreases |m.input|, if Halted(m) then 0 else 1
  {
    if Halted(m) then m else RunToEnd(Next(m))
  }

  /** What holds in every state the program can reach from `Initial`. */
  predicate Valid(m: Machine)
  {
    && (m.selected ==>
          && m.ready == "y"
          && ParseHistory(m.history) == Ok(m.commands)
          && ConvertAll(m.selectedCommands).Ok?)
    && (m.script.Some? ==>
          && m.finished && m.selected
          && m.script.value.content == ScriptText(ConvertAll(m.selectedCommands).value, m.commands))
    && (m.crash.Some? ==> m.script.None? && !m.finished)
  }

  // ------------------------------------------------------------ properties

  lemma InitialValid(history: string, input: seq<string>)
    ensures Valid(Initial(history, input)) && !Halted(Initial(history, input))
  {
  }

  /** Every pass of the loop keeps the invariant. */
  lemma NextValid(m: Machine)
    requires Valid(m)
    ensures Valid(Next(m))
  {
  }

  /** So does the whole loop. */
  lemma {:induction false} RunValid(m: Machine)
    requires Valid(m)
    ensures Valid(RunToEnd(m))
    decreases |m.input|, if Halted(m) then 0 else 1
  {
    if !Halted(m) {
      NextValid(m);
      RunValid(Next(m));
    }
  }

  /** Answering `n` to the first question ends the program with no script. */
  lemma AnswerNo(m: Machine)
    requires Valid(m) && !Halted(m) && !m.selected && m.input != [] && m.input[0] == "n"
    ensures Next(m) == m.(output := m.output + [READY_BANNER], ready := "n",
                          input := m.input[1..], finished := true)
    ensures RunToEnd(m) == Next(m) && RunToEnd(m).script.None?
  {
    assert Halted(Next(m));
    assert RunToEnd(m) == RunToEnd(Next(m));
  }

  /**
   * Any answer other than `y` or `n` changes no flag, list or file: the
   * banner is printed again and the question asked again.
   */
  lemma AnswerOther(m: Machine)
    requires !Halted(m) && !m.selected && m.input != [] && m.input[0] != "y" && m.input[0] != "n"
    ensures Next(m) == m.(output := m.output + [READY_BANNER], ready := m.input[0], input := m.input[1..])
  {
  }

  /**
   * Answering `y` lists the history and reads the selection; with a
   * history that parses and a selection of integers the program is then
   * SELECTED, showing the listing and then the highlighted listing.
   */
  lemma AnswerYes(m: Machine, cs: seq<string>, sel: seq<int>)
    requires !Halted(m) && !m.selected && |m.input| >= 2 && m.input[0] == "y"
    requires ParseHistory(m.history) == Ok(cs) && ParseSelection(m.input[1]) == Ok(sel)
    ensures Next(m) == m.(ready := "y", commands := cs, selectedCommands := Split(m.input[1], ','),
                          input := m.input[2..], selected := true,
                          output := m.output + [READY_BANNER] + Listing(cs) + Highlight(sel, cs))
  {
  }

  /** After `y`, a history line that does not match ends the program. */
  lemma AnswerYesBadHistory(m: Machine)
    requires !Halted(m) && !m.selected && m.input != [] && m.input[0] == "y"
    requires ParseHistory(m.history).Err?
    ensures Next(m).crash == Some(HistoryLineMismatch) && !Next(m).selected
  {
  }

  /**
   * After `y`, a selection with a term that is not an integer ends the
   * program before anything is highlighted, naming the first such term.
   */
  lemma AnswerYesBadSelection(m: Machine, cs: seq<string>)
    requires !Halted(m) && !m.selected && |m.input| >= 2 && m.input[0] == "y"
    requires ParseHistory(m.history) == Ok(cs) && ParseSelection(m.input[1]).Err?
    ensures var terms := Split(m.input[1], ',');
            && FirstInvalid(terms) < |terms|
            && Next(m).crash == Some(InvalidLiteral(terms[FirstInvalid(terms)]))
            && Next(m).output == m.output + [READY_BANNER] + Listing(cs)
            && !Next(m).selected
  {
    var terms := Split(m.input[1], ',');
    var m1 := m.(output := m.output + [READY_BANNER], ready := "y", input := m.input[1..]);
    AnswerYesStep(m);
    assert m1.input[0] == m.input[1];
    assert Next(m) == m1.(commands := cs, output := m1.output + Listing(cs), selectedCommands := terms,
                          input := m1.input[1..], crash := Some(ConvertAll(terms).error));
    ConvertAllSpec(terms);
  }

  /** The answer `y` hands over to the listing and the selection. */
  lemma AnswerYesStep(m: Machine)
    requires !Halted(m) && !m.selected && m.input != [] && m.input[0] == "y"
    ensures Next(m) == ChooseCommands(m.(output := m.output + [READY_BANNER], ready := "y", input := m.input[1..]))
  {
  }

  /**
   * Once SELECTED, the next pass writes the script and finishes, whatever
   * the answer to "Ready to output script?" is, `n` included: the test is
   * on `ready`, which is still `y`.
   */
  lemma SelectedAlwaysWrites(m: Machine)
    requires Valid(m) && m.selected && !Halted(m) && |m.input| >= 2
    ensures var sel := ConvertAll(m.selectedCommands).value;
            Next(m) == m.(input := m.input[2..], output := m.output + [CreatingScript(m.input[1])],
                          script := Some(ScriptFile(m.input[1] + ".sh", ScriptText(sel, m.commands))),
                          finished := true)
  {
  }

  /** `n` copies of the banner. */
  function Banners(n: nat): (r: seq<string>)
    ensures |r| == n && forall i :: 0 <= i < n ==> r[i] == READY_BANNER
  {
    if n == 0 then [] else Banners(n - 1) + [READY_BANNER]
  }

  /**
   * Answers that are neither `y` nor `n` are asked again and again until
   * the input runs out, and `raw_input` then raises EOFError: the loop
   * never falls through to FINISHED on an unrecognised answer.
   */
  lemma {:induction false} OnlyOtherAnswers(m: Machine)
    requires !Halted(m) && !m.selected
    requires forall i :: 0 <= i < |m.input| ==> m.input[i] != "y" && m.input[i] != "n"
    ensures RunToEnd(m) == m.(input := [], output := m.output + Banners(|m.input| + 1),
                              ready := if m.input == [] then m.ready else m.input[|m.input| - 1],
                              crash := Some(EndOfInput))
    decreases |m.input|
  {
    var n := Next(m);
    assert RunToEnd(m) == RunToEnd(n);
    if m.input == [] {
      assert n == m.(output := m.output + [READY_BANNER], crash := Some(EndOfInput));
      assert Banners(1) == [READY_BANNER];
    } else {
      AnswerOther(m);
      assert forall i :: 0 <= i < |n.input| ==> n.input[i] == m.input[i + 1];
      OnlyOtherAnswers(n);
      assert m.output + [READY_BANNER] + Banners(|n.input| + 1) == m.output + Banners(|m.input| + 1) by {
        BannersSplit(|n.input| + 1);
      }
    }
  }

  lemma {:induction false} BannersSplit(n: nat)
    ensures [READY_BANNER] + Banners(n) == Banners(n + 1)
  {
    if n > 0 {
      BannersSplit(n - 1);
      assert [READY_BANNER] + Banners(n) == ([READY_BANNER] + Banners(n - 1)) + [READY_BANNER];
    }
  }

  /**
   * `y`, a selection, any answer and a name: the loop ends having written
   * `name.sh` with the selected commands of the parsed history.
   */
  lemma YesThenScript(m: Machine, cs: seq<string>, sel: seq<int>)
    requires Valid(m) && !Halted(m) && !m.selected && |m.input| >= 4 && m.input[0] == "y"
    requires ParseHistory(m.history) == Ok(cs) && ParseSelection(m.input[1]) == Ok(sel)
    ensures RunToEnd(m) ==
      m.(ready := "y", commands := cs, selectedCommands := Split(m.input[1], ','),
         selected := true, finished := true, input := m.input[4..],
         output := m.output + [READY_BANNER] + Listing(cs) + Highlight(sel, cs) + [CreatingScript(m.input[3])],
         script := Some(ScriptFile(m.input[3] + ".sh", ScriptText(sel, cs))))
  {
    AnswerYes(m, cs, sel);
    var m1 := Next(m);
    NextValid(m);
    assert m1.input == m.input[2..];
    SelectedAlwaysWrites(m1);
    var m2 := Next(m1);
    assert m1.input[2..] == m.input[4..];
    assert Halted(m2);
    assert RunToEnd(m) == RunToEnd(m1);
    assert RunToEnd(m1) == RunToEnd(m2);
  }

  /** The same from the start of the program. */
  lemma SessionWritesScript(history: string, terms: string, answer: string, name: string, rest: seq<string>,
                cs: seq<string>, sel: seq<int>)
    requires ParseHistory(history) == Ok(cs) && ParseSelection(terms) == Ok(sel)
    ensures var r := RunToEnd(Initial(history, ["y", terms, answer, name] + rest));
            && r.finished && r.crash.None? && r.input == rest && r.commands == cs
            && r.script == Some(ScriptFile(name + ".sh", ScriptText(sel, cs)))
            && r.output == [READY_BANNER] + Listing(cs) + Highlight(sel, cs) + [CreatingScript(name)]
  {
    var input := ["y", terms, answer, name] + rest;
    var m := Initial(history, input);
    InitialValid(history, input);
    assert m.input[0] == "y" && m.input[1] == terms && m.input[3] == name && m.input[4..] == rest by {
      assert m.input == input;
    }
    YesThenScript(m, cs, sel);
    assert m.output + [READY_BANNER] == [READY_BANNER] by {
      assert m.output == [];
    }
  }

  /**
   * Whatever is typed, a script is written only after `y` and a selection
   * that parsed, and it holds the shebang then the commands at the
   * selected in-range indices of the parsed history, one per line, in
   * history order.
   */
  lemma ScriptContent(history: string, input: seq<string>)
    ensures var r := RunToEnd(Initial(history, input));
            r.script.Some? ==>
              && r.selected && ParseHistory(history) == Ok(r.commands)
              && ConvertAll(r.selectedCommands).Ok?
              && r.script.value.content == ScriptText(ConvertAll(r.selectedCommands).value, r.commands)
  {
    var m := Initial(history, input);
    InitialValid(history, input);
    RunValid(m);
    var r := RunToEnd(m);
    assert Valid(r) && r.history == history;
  }

  /** Read back line by line, a written script is the shebang and the picked commands. */
  lemma ScriptContentLines(m: Machine)
    requires Valid(m) && m.script.Some?
    ensures var sel := ConvertAll(m.selectedCommands).value;
            Split(m.script.value.content, '\n') == ["#!/bin/bash"] + Picked(sel, m.commands) + [""]
  {
    forall j | 0 <= j < |m.commands| ensures '\n' !in m.commands[j] {
      ParseHistoryClean(m.history, j);
    }
    ScriptLines(ConvertAll(m.selectedCommands).value, m.commands);
  }

  // ------------------------------------------------------------ the loop itself

  /** The module-level globals of historical.py, updated in place by the loop. */
  class Session {
    var finished: bool
    var selected: bool
    var ready: string
    var commands: seq<string>
    var selectedCommands: seq<string>
    const history: string
    var input: seq<string>
    var output: seq<string>
    var script: Option<ScriptFile>
    var crash: Option<Error>

    /** The globals as a value. */
    function State(): Machine
      reads this
    {
      Machine(finished, selected, ready, commands, selectedCommands, history, input, output, script, crash)
    }

    constructor (history: string, input: seq<string>)
      ensures State() == Initial(history, input)
    {
      this.history := history;
      this.input := input;
      finished, selected, ready := false, false, "";
      commands, selectedCommands, output := [], [], [];
      script, crash := None, None;
    }

    /** `raw_input`: the next typed line, or None where it raises EOFError. */
    method ReadLine() returns (line: Option<string>)
      modifies this`input
      ensures old(input) == [] ==> line == None && input == []
      ensures old(input) != [] ==> line == Some(old(input)[0]) && input == old(input)[1..]
    {
      if input == [] {
        line := None;
      } else {
        line := Some(input[0]);
        input := input[1..];
      }
    }

    /** One pass of `while not FINISHED`. */
    method Step()
      requires !Halted(State())
      modifies this
      ensures State() == Next(old(State()))
    {
      if !selected {
        AskReadyStep();
      } else {
        AskOutputStep();
      }
    }

    /** The `if not SELECTED` branch. */
    method AskReadyStep()
      modifies this
      ensures State() == AskReady(old(State()))
    {
      output := output + [READY_BANNER];
      var answer := ReadLine();
      if answer.None? {
        crash := Some(EndOfInput);
        return;
      }
      ready := answer.value;
      if ready == "n" {
        finished := true;
      } else if ready == "y" {
        ChooseStep();
      }
    }

    /** After `y`: list the history, read the selection and show it. */
    method ChooseStep()
      modifies this
      ensures State() == ChooseCommands(old(State()))
    {
      ghost var m := State();
      var parsed := ParseHistory(history);
      if parsed.Err? {
        crash := Some(parsed.error);
        return;
      }
      commands := parsed.value;
      var listing := DisplayCommands(commands);
      output := output + listing;
      assert State() == m.(commands := parsed.value, output := m.output + Listing(parsed.value));
      SelectionStep();
    }

    /** The selection prompt, the conversion and the highlighted listing. */
    method SelectionStep()
      modifies this
      ensures State() == ReadSelection(old(State()))
    {
      var typed := ReadLine();
      if typed.None? {
        crash := Some(EndOfInput);
        return;
      }
      selectedCommands := Split(typed.value, ',');
      var shown := UpdateCommandsWithSelection(selectedCommands, commands);
      if shown.Err? {
        crash := Some(shown.error);
        return;
      }
      output := output + shown.value;
      selected := true;
    }

    /** The `else` branch: "Ready to output script?", then the name and the file. */
    method AskOutputStep()
      modifies this
      ensures State() == AskOutput(old(State()))
    {
      // `finished = raw_input(...)`: read, then never looked at
      var answer := ReadLine();
      if answer.None? {
        crash := Some(EndOfInput);
        return;
      }
      if ready == "y" {
        ScriptStep();
      }
    }

    /** The name prompt, "Creating script", and the file. */
    method ScriptStep()
      modifies this
      ensures State() == WriteScript(old(State()))
    {
      ghost var m := State();
      var name := ReadLine();
      if name.None? {
        crash := Some(EndOfInput);
        return;
      }
      output := output + [CreatingScript(name.value)];
      assert State() == m.(input := m.input[1..], output := m.output + [CreatingScript(name.value)]);
      var text := CreateScript(selectedCommands, commands);
      if text.Err? {
        crash := Some(text.error);
        return;
      }
      script := Some(ScriptFile(name.value + ".sh", text.value));
      finished := true;
    }

    /** `while not FINISHED`, until the program finishes or raises. */
    method Run()
      modifies this
      ensures State() == RunToEnd(old(State()))
      ensures Halted(State())
    {
      while !finished && crash.None?
        invariant RunToEnd(State()) == RunToEnd(old(State()))
        decreases |input|, if Halted(State()) then 0 else 1
      {
        Step();
      }
    }
  }
}
