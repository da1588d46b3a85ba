/**
 * What historical.py prints and writes: the numbered listing of the
 * commands (`display_commands`), the same listing with the selected lines
 * in green (`update_commands_with_selection`) and the text of the script
 * (`create_script_from_selections`). Each loop of the source is a method
 * proved against the function that says what it produces.
 */
module Render {
  import opened Base
  import opened Builtins
  import opened Selection

  /** ANSI colour switches, `OKGREEN` and `ENDC`. */
  const OKGREEN: string := "\U{001B}[92m"
  const ENDC: string := "\U{001B}[0m"

  /** The first line of every generated script. */
  const BASH_SCRIPT_TEMPLATE: string := "#!/bin/bash\n"

  /** `"%s: %s" % (i, c)`: a command with its 0-based position. */
  function Entry(i: nat, c: string): string
  {
    NatToString(i) + ": " + c
  }

  /** The lines `display_commands` prints. */
  function Listing(cs: seq<string>): (r: seq<string>)
    ensures |r| == |cs|
  {
    seq(|cs|, i requires 0 <= i < |cs| => Entry(i, cs[i]))
  }

  /** A listing line in green. */
  function Green(line: string): string
  {
    OKGREEN + line + ENDC
  }

  /** The lines `update_commands_with_selection` prints once the indices are known. */
  function Highlight(sel: seq<int>, cs: seq<string>): (r: seq<string>)
    ensures |r| == |cs|
    ensures sel == [] ==> r == Listing(cs)
  {
    var r := seq(|cs|, i requires 0 <= i < |cs| => if i in sel then Green(Entry(i, cs[i])) else Entry(i, cs[i]));
    assert sel == [] ==> r == Listing(cs) by {
      if sel == [] {
        assert forall i :: 0 <= i < |cs| ==> r[i] == Listing(cs)[i];
      }
    }
    r
  }

  /**
   * The number printed in front of line `i` of the listing is `i`
   * itself, and `int` reads it back as `i`: typing it at the selection
   * prompt selects that line.
   */
  lemma ListingNumbers(cs: seq<string>, i: nat)
    requires i < |cs|
    ensures var line := Listing(cs)[i];
            var d := NatToString(i);
            && |d| + 2 + |cs[i]| == |line|
            && line[..|d|] == d && line[|d|..|d| + 2] == ": " && line[|d| + 2..] == cs[i]
            && ParseInt(line[..|d|]) == Some(i)
  {
    var d := NatToString(i);
    var line := Listing(cs)[i];
    assert line == d + ": " + cs[i];
    assert line[..|d|] == d && line[|d|..|d| + 2] == ": " && line[|d| + 2..] == cs[i] by {
      assert line == d + (": " + cs[i]);
    }
    assert ParseInt(d) == Some(i) by {
      ParseIntNatToString(i, [], []);
      assert [] + d + [] == d;
    }
  }

  /** `display_commands`: one numbered line per command, in history order. */
  method DisplayCommands(cs: seq<string>) returns (lines: seq<string>)
    ensures lines == Listing(cs)
  {
    lines := [];
    for i := 0 to |cs|
      invariant |lines| == i
      invariant forall k :: 0 <= k < i ==> lines[k] == Entry(k, cs[k])
    {
      lines := lines + [Entry(i, cs[i])];
    }
  }

  /**
   * `update_commands_with_selection`: converts every term first (a bad
   * term raises before anything is printed), then prints the listing with
   * line `i` in green exactly when `i` is among the indices.
   */
  method UpdateCommandsWithSelection(selections: seq<string>, cs: seq<string>)
    returns (r: Result<seq<string>, Error>)
    ensures ConvertAll(selections).Err? ==> r == Err(ConvertAll(selections).error)
    ensures ConvertAll(selections).Ok? ==> r == Ok(Highlight(ConvertAll(selections).value, cs))
  {
    var converted := ConvertAll(selections);
    if converted.Err? {
      return Err(converted.error);
    }
    var lines := ShowSelection(converted.value, cs);
    return Ok(lines);
  }

  /** The loop of `update_commands_with_selection`: line `i` green when `i` is selected. */
  method ShowSelection(sel: seq<int>, cs: seq<string>) returns (lines: seq<string>)
    ensures lines == Highlight(sel, cs)
  {
    lines := [];
    for i := 0 to |cs|
      invariant |lines| == i
      invariant forall k :: 0 <= k < i ==> lines[k] == Highlight(sel, cs)[k]
    {
      if i in sel {
        lines := lines + [Green(Entry(i, cs[i]))];
      } else {
        lines := lines + [Entry(i, cs[i])];
      }
    }
  }

  /** Whether a printed line is one of the green ones. */
  predicate IsGreen(line: string)
  {
    |line| >= |OKGREEN| && line[..|OKGREEN|] == OKGREEN
  }

  /**
   * The highlighted listing shows exactly the selection: line `i` is green
   * if and only if `i` was selected, and without its colour it is the
   * plain listing line.
   */
  lemma HighlightShowsSelection(sel: seq<int>, cs: seq<string>, i: nat)
    requires i < |cs|
    ensures IsGreen(Highlight(sel, cs)[i]) <==> i in sel
    ensures Highlight(sel, cs)[i] == if i in sel then OKGREEN + Listing(cs)[i] + ENDC else Listing(cs)[i]
  {
    var e := Entry(i, cs[i]);
    assert IsDigit(e[0]);
    assert e[0] != OKGREEN[0];
    if i in sel {
      assert (OKGREEN + e + ENDC)[..|OKGREEN|] == OKGREEN;
    }
  }

  // ------------------------------------------------------------------ script

  /** The commands whose 0-based index is selected, in history order. */
  function Picked(sel: seq<int>, cs: seq<string>): (r: seq<string>)
    ensures |r| <= |cs|
    ensures forall k :: 0 <= k < |r| ==> r[k] in cs
    ensures sel == [] ==> r == []
  {
    if cs == [] then []
    else Picked(sel, cs[..|cs| - 1]) + (if |cs| - 1 in sel then [cs[|cs| - 1]] else [])
  }

  /** Each string followed by a newline, as `f.write('%s\n' % c)` writes them. */
  function Lines(xs: seq<string>): string
  {
    if xs == [] then [] else Lines(xs[..|xs| - 1]) + xs[|xs| - 1] + "\n"
  }

  /** One more command considered: it is picked when its index is selected. */
  lemma PickedStep(sel: seq<int>, cs: seq<string>, i: nat)
    requires i < |cs|
    ensures BASH_SCRIPT_TEMPLATE + Lines(Picked(sel, cs[..i + 1])) ==
      BASH_SCRIPT_TEMPLATE + Lines(Picked(sel, cs[..i])) + (if i in sel then cs[i] + "\n" else [])
  {
    var before := Picked(sel, cs[..i]);
    var prefix := cs[..i + 1];
    assert prefix[..|prefix| - 1] == cs[..i];
    assert prefix[|prefix| - 1] == cs[i];
    if i in sel {
      var after := before + [cs[i]];
      assert Picked(sel, prefix) == after;
      assert after[..|after| - 1] == before;
      assert Lines(after) == Lines(before) + cs[i] + "\n";
      assert BASH_SCRIPT_TEMPLATE + (Lines(before) + cs[i] + "\n") ==
        BASH_SCRIPT_TEMPLATE + Lines(before) + (cs[i] + "\n");
    } else {
      assert Picked(sel, prefix) == before + [];
      assert before + [] == before;
    }
  }

  /** The text `create_script_from_selections` writes to the file. */
  function ScriptText(sel: seq<int>, cs: seq<string>): (r: string)
    ensures |BASH_SCRIPT_TEMPLATE| <= |r| && r[..|BASH_SCRIPT_TEMPLATE|] == BASH_SCRIPT_TEMPLATE
    ensures sel == [] ==> r == BASH_SCRIPT_TEMPLATE
  {
    BASH_SCRIPT_TEMPLATE + Lines(Picked(sel, cs))
  }

  /**
   * `create_script_from_selections`, without the file: the template, then
   * each command whose index is among the converted terms, in history order.
   */
  method CreateScript(selections: seq<string>, cs: seq<string>) returns (r: Result<string, Error>)
    ensures ConvertAll(selections).Err? ==> r == Err(ConvertAll(selections).error)
    ensures ConvertAll(selections).Ok? ==> r == Ok(ScriptText(ConvertAll(selections).value, cs))
  {
    var text := BASH_SCRIPT_TEMPLATE;
    var converted := ConvertAll(selections);
    if converted.Err? {
      return Err(converted.error);
    }
    var sel := converted.value;
    for i := 0 to |cs|
      invariant text == BASH_SCRIPT_TEMPLATE + Lines(Picked(sel, cs[..i]))
    {
      PickedStep(sel, cs, i);
      if i in sel {
        text := text + (cs[i] + "\n");
      }
    }
    assert cs[..|cs|] == cs;
    return Ok(text);
  }

  /** The ascending 0-based indices below `n` that are selected. */
  function SelectedIndices(sel: seq<int>, n: nat): (idx: seq<nat>)
    ensures forall k :: 0 <= k < |idx| ==> idx[k] < n && idx[k] in sel
    ensures forall k, l :: 0 <= k < l < |idx| ==> idx[k] < idx[l]
    ensures forall i :: 0 <= i < n && i in sel ==> i in idx
  {
    if n == 0 then []
    else SelectedIndices(sel, n - 1) + (if n - 1 in sel then [n - 1] else [])
  }

  /**
   * The script lists, in ascending order of index, the command at every
   * selected index that is in range, and nothing else.
   */
  lemma {:induction false} PickedInHistoryOrder(sel: seq<int>, cs: seq<string>)
    ensures var idx := SelectedIndices(sel, |cs|);
            |Picked(sel, cs)| == |idx| &&
            forall k :: 0 <= k < |idx| ==> Picked(sel, cs)[k] == cs[idx[k]]
    decreases |cs|
  {
    if cs != [] {
      var last := |cs| - 1;
      var init := cs[..last];
      PickedInHistoryOrder(sel, init);
      var idx := SelectedIndices(sel, last);
      var before := Picked(sel, init);
      var extra := if last in sel then [cs[last]] else [];
      assert Picked(sel, cs) == before + extra;
      assert SelectedIndices(sel, |cs|) == idx + (if last in sel then [last] else []);
      forall k | 0 <= k < |idx| ensures (before + extra)[k] == cs[idx[k]] {
        assert before[k] == init[idx[k]];
      }
    }
  }

  /**
   * Only which in-range indices are selected matters: the order of the
   * terms, repeated terms and indices that are negative or past the end
   * change neither the highlighted listing nor the script.
   */
  lemma {:induction false} SelectionIsASet(s1: seq<int>, s2: seq<int>, cs: seq<string>)
    requires forall i :: 0 <= i < |cs| ==> (i in s1 <==> i in s2)
    ensures Picked(s1, cs) == Picked(s2, cs)
    ensures ScriptText(s1, cs) == ScriptText(s2, cs)
    ensures Highlight(s1, cs) == Highlight(s2, cs)
    decreases |cs|
  {
    if cs != [] {
      SelectionIsASet(s1, s2, cs[..|cs| - 1]);
    }
  }

  /** Indices out of range add nothing and raise nothing. */
  lemma OutOfRangeIgnored(sel: seq<int>, extra: seq<int>, cs: seq<string>)
    requires forall k :: 0 <= k < |extra| ==> extra[k] < 0 || extra[k] >= |cs|
    ensures ScriptText(sel + extra, cs) == ScriptText(sel, cs)
    ensures Highlight(sel + extra, cs) == Highlight(sel, cs)
  {
    assert forall i :: 0 <= i < |cs| ==> (i in sel + extra <==> i in sel);
    SelectionIsASet(sel + extra, sel, cs);
  }

  /** Lines(xs) after a header line is the newline join of both, plus a final newline. */
  lemma {:induction false} LinesAsJoin(header: string, xs: seq<string>)
    ensures header + "\n" + Lines(xs) == Join([header] + xs, '\n') + "\n"
    decreases |xs|
  {
    if xs == [] {
      assert [header] + xs == [header];
    } else {
      var ys := xs[..|xs| - 1];
      LinesAsJoin(header, ys);
      assert [header] + xs == ([header] + ys) + [xs[|xs| - 1]];
      JoinSnoc([header] + ys, xs[|xs| - 1], '\n');
    }
  }

  /**
   * Read back line by line, the script is the shebang, the picked commands
   * one per line, and the empty piece after the final newline.
   */
  lemma ScriptLines(sel: seq<int>, cs: seq<string>)
    requires forall i :: 0 <= i < |cs| ==> '\n' !in cs[i]
    ensures Split(ScriptText(sel, cs), '\n') == ["#!/bin/bash"] + Picked(sel, cs) + [""]
  {
    var p := Picked(sel, cs);
    var pieces := ["#!/bin/bash"] + p + [""];
    forall i | 0 <= i < |pieces| ensures '\n' !in pieces[i] {
      if 0 < i < |pieces| - 1 {
        PickedInHistoryOrder(sel, cs);
        assert pieces[i] == p[i - 1];
      }
    }
    LinesAsJoin("#!/bin/bash", p);
    JoinSnoc(["#!/bin/bash"] + p, "", '\n');
    assert ScriptText(sel, cs) == Join(pieces, '\n');
    SplitJoin(pieces, '\n');
  }
}
