/**
 * The pure part of `obtain_commands` (historical.py): turning the text that
 * `bash -i -c "history -r; history"` prints into the list of the most recent
 * commands, with their history numbers dropped.
 */
module History {
  import opened Base
  import opened Builtins

  /** At most this many commands are offered (`commands[-100:]`). */
  const HISTORY_LIMIT: nat := 100

  /** The two groups of a match of `(\d+) (.*)$`: the history number and the rest of the line. */
  datatype HistoryEntry = HistoryEntry(number: string, text: string)

  /** The length of the run of ASCII digits at the front of `s`. */
  function DigitRun(s: string): (k: nat)
    ensures k <= |s| && AllDigits(s[..k])
    ensures k < |s| ==> !IsDigit(s[k])
  {
    if s == [] || !IsDigit(s[0]) then 0
    else
      var k := 1 + DigitRun(s[1..]);
      assert s[..k] == [s[0]] + s[1..][..k - 1];
      k
  }

  /** A digit run followed by a space is exactly `DigitRun`. */
  lemma DigitRunUnique(s: string)
    ensures forall j :: 0 < j < |s| && s[j] == ' ' && AllDigits(s[..j]) ==> j == DigitRun(s)
  {
    var k := DigitRun(s);
    assert forall i :: 0 <= i < k ==> IsDigit(s[i]) by {
      forall i | 0 <= i < k ensures IsDigit(s[i]) { assert s[..k][i] == s[i]; }
    }
    forall j | 0 < j < |s| && s[j] == ' ' && AllDigits(s[..j]) ensures j == k {
      forall i | 0 <= i < j ensures IsDigit(s[i]) { assert s[..j][i] == s[i]; }
    }
  }

  /** The length of the text in front of the first newline of `s`. */
  function LineEnd(s: string): (k: nat)
    ensures k <= |s| && '\n' !in s[..k]
    ensures k < |s| ==> s[k] == '\n'
  {
    if s == [] || s[0] == '\n' then 0
    else
      var k := 1 + LineEnd(s[1..]);
      assert s[..k] == [s[0]] + s[1..][..k - 1];
      k
  }

  /**
   * `re.match(r"(\d+) (.*)$", s)`: one or more ASCII digits at the very
   * start, one space, then the rest of the line, which `.` stops at a
   * newline and `$` accepts at the end of `s` or before a final newline.
   */
  function MatchHistoryLine(s: string): (r: Option<HistoryEntry>)
    ensures r.Some? ==> r.value.number != [] && |r.value.number| + 1 + |r.value.text| <= |s|
    ensures r.Some? ==> s[|r.value.number|] == ' '
  {
    var k := DigitRun(s);
    if k == 0 || k == |s| || s[k] != ' ' then None
    else
      var rest := s[k + 1..];
      var m := LineEnd(rest);
      if m == |rest| || m == |rest| - 1 then Some(HistoryEntry(s[..k], rest[..m]))
      else None
  }

  /**
   * A match gives a non-empty digit string and a text without newline that
   * make up the whole line, with one space between them and at most a
   * final newline after them.
   */
  lemma MatchHistoryLineSound(s: string)
    requires MatchHistoryLine(s).Some?
    ensures var e := MatchHistoryLine(s).value;
      && e.number != [] && AllDigits(e.number) && '\n' !in e.text
      && (s == e.number + " " + e.text || s == e.number + " " + e.text + "\n")
  {
    var k := DigitRun(s);
    var rest := s[k + 1..];
    var m := LineEnd(rest);
    assert s == s[..k] + " " + rest;
    if m == |rest| {
      assert rest == rest[..m];
    } else {
      assert rest == rest[..m] + "\n";
    }
  }

  /**
   * On a line without newline, no match means no split of the line into
   * digits, a space and the rest.
   */
  lemma MatchHistoryLineComplete(s: string)
    requires '\n' !in s && MatchHistoryLine(s).None?
    ensures forall k :: 0 < k < |s| && s[k] == ' ' ==> !AllDigits(s[..k])
  {
    DigitRunUnique(s);
  }

  /** `output.split('\n')[1:-1]`: every piece but the first and the last. */
  function KeptLines(raw: string): (r: seq<string>)
    ensures |r| == Max(0, Occurrences(raw, '\n') - 1)
    ensures forall i :: 0 <= i < |r| ==> '\n' !in r[i]
  {
    var pieces := Split(raw, '\n');
    SplitSpec(raw, '\n');
    if |pieces| < 2 then [] else pieces[1..|pieces| - 1]
  }

  /**
   * `[re.match(history_line, hl.strip()).groups() for hl in lines]`: the
   * first line that does not match raises, so there is a list only when
   * every line matches.
   */
  function MatchAll(lines: seq<string>): (r: Result<seq<HistoryEntry>, Error>)
    ensures r.Err? ==> r.error == HistoryLineMismatch
  {
    if lines == [] then Ok([])
    else
      match MatchHistoryLine(Strip(lines[0]))
      case None => Err(HistoryLineMismatch)
      case Some(e) =>
        match MatchAll(lines[1..])
        case Err(x) => Err(x)
        case Ok(es) => Ok([e] + es)
  }

  /** There is a list exactly when every line matches, and it holds the matches in order. */
  lemma MatchAllSpec(lines: seq<string>)
    ensures MatchAll(lines).Ok? <==> forall i :: 0 <= i < |lines| ==> MatchHistoryLine(Strip(lines[i])).Some?
    ensures MatchAll(lines).Ok? ==>
      && |MatchAll(lines).value| == |lines|
      && forall i :: 0 <= i < |lines| ==> Some(MatchAll(lines).value[i]) == MatchHistoryLine(Strip(lines[i]))
  {
    MatchAllSucceeds(lines);
    MatchAllValues(lines);
  }

  lemma {:induction false} MatchAllSucceeds(lines: seq<string>)
    ensures MatchAll(lines).Ok? <==> forall i :: 0 <= i < |lines| ==> MatchHistoryLine(Strip(lines[i])).Some?
  {
    if lines != [] && MatchHistoryLine(Strip(lines[0])).Some? {
      var tail := lines[1..];
      MatchAllSucceeds(tail);
      assert MatchAll(lines).Ok? == MatchAll(tail).Ok?;
      if MatchAll(tail).Ok? {
        forall i | 1 <= i < |lines| ensures MatchHistoryLine(Strip(lines[i])).Some? {
          assert lines[i] == tail[i - 1];
        }
      } else {
        var k :| 0 <= k < |tail| && MatchHistoryLine(Strip(tail[k])).None?;
        assert lines[k + 1] == tail[k];
      }
    }
  }

  lemma {:induction false} MatchAllValues(lines: seq<string>)
    ensures MatchAll(lines).Ok? ==>
      && |MatchAll(lines).value| == |lines|
      && forall i :: 0 <= i < |lines| ==> Some(MatchAll(lines).value[i]) == MatchHistoryLine(Strip(lines[i]))
  {
    if lines != [] && MatchAll(lines).Ok? {
      var e := MatchHistoryLine(Strip(lines[0])).value;
      var tail := lines[1..];
      MatchAllValues(tail);
      var es := MatchAll(tail).value;
      var vs := [e] + es;
      assert MatchAll(lines) == Ok(vs);
      forall i | 1 <= i < |lines| ensures Some(vs[i]) == MatchHistoryLine(Strip(lines[i])) {
        assert vs[i] == es[i - 1] && lines[i] == tail[i - 1];
      }
    }
  }

  /** `xs[-100:]`: the last `HISTORY_LIMIT` elements, or all of them. */
  function Latest<T>(xs: seq<T>): (r: seq<T>)
    ensures |r| == Min(|xs|, HISTORY_LIMIT)
    ensures r == xs[|xs| - |r|..]
  {
    if |xs| <= HISTORY_LIMIT then xs else xs[|xs| - HISTORY_LIMIT..]
  }

  function Min(a: int, b: int): int { if a <= b then a else b }

  function Max(a: int, b: int): int { if a <= b then b else a }

  /** `[c.strip() for l, c in entries]`: the command texts, history numbers dropped. */
  function CommandTexts(entries: seq<HistoryEntry>): (r: seq<string>)
    ensures |r| == |entries|
    ensures forall j :: 0 <= j < |r| ==> Trimmed(r[j])
  {
    seq(|entries|, j requires 0 <= j < |entries| => Strip(entries[j].text))
  }

  /**
   * The pure part of `obtain_commands`: drop the first and last pieces of
   * the text, match every other stripped line, keep the last 100 matches
   * and return the stripped command text of each.
   */
  function ParseHistory(raw: string): (r: Result<seq<string>, Error>)
    ensures r.Err? ==> r.error == HistoryLineMismatch
  {
    match MatchAll(KeptLines(raw))
    case Err(e) => Err(e)
    case Ok(entries) => Ok(CommandTexts(Latest(entries)))
  }

  /**
   * Parsing fails as a whole, with no partial list, exactly when some kept
   * line does not match, whether or not it is among the last 100.
   */
  lemma ParseHistoryFails(raw: string)
    ensures ParseHistory(raw).Err? <==>
      exists i :: 0 <= i < |KeptLines(raw)| && MatchHistoryLine(Strip(KeptLines(raw)[i])).None?
  {
    MatchAllSpec(KeptLines(raw));
  }

  /** A successful parse yields min(100, max(0, newlines - 1)) commands. */
  lemma ParseHistoryLength(raw: string)
    requires ParseHistory(raw).Ok?
    ensures |ParseHistory(raw).value| == Min(HISTORY_LIMIT, Max(0, Occurrences(raw, '\n') - 1))
  {
    MatchAllSpec(KeptLines(raw));
  }

  /**
   * Command `j` of the result is the stripped text after the number and
   * space of the matching line among the last 100 kept lines, in order.
   */
  lemma ParseHistoryEntries(raw: string, j: nat)
    requires ParseHistory(raw).Ok? && j < |ParseHistory(raw).value|
    ensures |ParseHistory(raw).value| <= |KeptLines(raw)|
    ensures var kept := KeptLines(raw);
            var cs := ParseHistory(raw).value;
            var line := Strip(kept[|kept| - |cs| + j]);
            && MatchHistoryLine(line).Some?
            && cs[j] == Strip(MatchHistoryLine(line).value.text)
  {
    var kept := KeptLines(raw);
    var entries := MatchAll(kept).value;
    var latest := Latest(entries);
    assert ParseHistory(raw) == Ok(CommandTexts(latest));
    var i := |entries| - |latest| + j;
    assert |entries| == |kept| && Some(entries[i]) == MatchHistoryLine(Strip(kept[i])) by {
      MatchAllValues(kept);
    }
    assert CommandTexts(latest)[j] == Strip(entries[i].text) by {
      assert latest[j] == entries[i];
    }
  }

  /** Every command returned is stripped and holds no newline. */
  lemma ParseHistoryClean(raw: string, j: nat)
    requires ParseHistory(raw).Ok? && j < |ParseHistory(raw).value|
    ensures Trimmed(ParseHistory(raw).value[j]) && '\n' !in ParseHistory(raw).value[j]
  {
    var kept := KeptLines(raw);
    MatchAllSpec(kept);
    var entries := MatchAll(kept).value;
    var latest := Latest(entries);
    assert ParseHistory(raw).value[j] == Strip(latest[j].text);
    var i := |entries| - |latest| + j;
    assert latest[j] == entries[i];
    MatchHistoryLineSound(Strip(kept[i]));
    StripKeepsOut(latest[j].text, '\n');
  }

  /** The first piece of the text, before its first newline, is never looked at. */
  lemma ParseHistoryIgnoresFirstLine(a: string, a': string, s: string)
    requires '\n' !in a && '\n' !in a'
    ensures ParseHistory(a + s) == ParseHistory(a' + s)
  {
    SplitPrefix(a, s, '\n');
    SplitPrefix(a', s, '\n');
    assert KeptLines(a + s) == KeptLines(a' + s);
  }

  /** The last piece of the text, after its last newline, is never looked at. */
  lemma ParseHistoryIgnoresLastLine(s: string, b: string, b': string)
    requires '\n' !in b && '\n' !in b'
    ensures ParseHistory(s + b) == ParseHistory(s + b')
  {
    SplitSuffix(s, b, '\n');
    SplitSuffix(s, b', '\n');
    assert KeptLines(s + b) == KeptLines(s + b');
  }

  // ------------------------------------------------------------ round trip

  /** `k` spaces, or none when `k` is not positive. */
  function Spaces(k: int): (r: string)
    ensures AllSpace(r) && '\n' !in r
  {
    seq(if k > 0 then k else 0, _ => ' ')
  }

  /**
   * A line as bash's `history` prints an unmodified entry (`"%5d%c %s"`
   * with the mark ' '): the number right-aligned in five columns, two
   * spaces, the command.
   */
  function DumpLine(n: nat, c: string): string
  {
    Spaces(5 - |NatToString(n)|) + NatToString(n) + "  " + c
  }

  /** The numbered lines of a history listing, numbered from 1. */
  function DumpLines(cs: seq<string>): seq<string>
  {
    seq(|cs|, i requires 0 <= i < |cs| => DumpLine(i + 1, cs[i]))
  }

  /** The entries those lines match to. */
  function DumpEntries(cs: seq<string>): seq<HistoryEntry>
  {
    seq(|cs|, i requires 0 <= i < |cs| => HistoryEntry(NatToString(i + 1), " " + cs[i]))
  }

  /**
   * Text shaped like what the history command prints: a first line that is
   * not history (such as the warning an interactive shell prints), then one
   * numbered line per command, each ended by a newline.
   */
  function HistoryDump(banner: string, cs: seq<string>): string
  {
    Join([banner] + DumpLines(cs) + [""], '\n')
  }

  lemma {:induction false} DigitRunOf(d: string, rest: string)
    requires AllDigits(d)
    requires rest == [] || !IsDigit(rest[0])
    ensures DigitRun(d + rest) == |d|
    decreases |d|
  {
    if d != [] {
      assert (d + rest)[1..] == d[1..] + rest;
      DigitRunOf(d[1..], rest);
    } else {
      assert d + rest == rest;
    }
  }

  /**
   * The matcher's round trip: digits, one space and a line of text match,
   * giving back the digits and the text.
   */
  lemma MatchNumbered(number: string, text: string)
    requires number != [] && AllDigits(number) && '\n' !in text
    ensures MatchHistoryLine(number + " " + text) == Some(HistoryEntry(number, text))
  {
    var s := number + " " + text;
    assert s == number + (" " + text);
    DigitRunOf(number, " " + text);
    assert s[..|number|] == number;
    var rest := s[|number| + 1..];
    assert rest == text;
    assert LineEnd(rest) == |rest|;
    assert rest[..|rest|] == text;
  }

  lemma StripDumpLine(n: nat, c: string)
    requires c != [] && Trimmed(c)
    ensures Strip(DumpLine(n, c)) == NatToString(n) + " " + (" " + c)
  {
    var d := NatToString(n);
    var pad := Spaces(5 - |d|);
    var m := d + " " + (" " + c);
    assert DumpLine(n, c) == pad + m + [] by {
      assert pad + d + "  " + c == pad + m;
    }
    assert Trimmed(m) by {
      assert m[0] == d[0] && m[|m| - 1] == c[|c| - 1];
    }
    StripPadded(pad, m, []);
  }

  /** A printed history line matches, giving back its number and its command. */
  lemma MatchDumpLine(n: nat, c: string)
    requires c != [] && Trimmed(c) && '\n' !in c
    ensures MatchHistoryLine(Strip(DumpLine(n, c))) == Some(HistoryEntry(NatToString(n), " " + c))
  {
    StripDumpLine(n, c);
    MatchNumbered(NatToString(n), " " + c);
  }

  /** The lines between the first and the last piece are the numbered lines. */
  lemma KeptDumpLines(banner: string, cs: seq<string>)
    requires '\n' !in banner
    requires forall i :: 0 <= i < |cs| ==> '\n' !in cs[i]
    ensures KeptLines(HistoryDump(banner, cs)) == DumpLines(cs)
  {
    var pieces := [banner] + DumpLines(cs) + [""];
    forall i | 0 <= i < |pieces| ensures '\n' !in pieces[i] {
      if 0 < i < |pieces| - 1 {
        var d := NatToString(i);
        var pad := Spaces(5 - |d|);
        assert pieces[i] == pad + d + "  " + cs[i - 1];
        assert forall k :: 0 <= k < |d| ==> d[k] != '\n';
      }
    }
    SplitJoin(pieces, '\n');
  }

  /**
   * Parsing what the history command prints gives back the last 100
   * commands it listed, in order: the round trip of `obtain_commands`.
   */
  lemma ParseHistoryDump(banner: string, cs: seq<string>)
    requires '\n' !in banner
    requires forall i :: 0 <= i < |cs| ==> cs[i] != [] && Trimmed(cs[i]) && '\n' !in cs[i]
    ensures ParseHistory(HistoryDump(banner, cs)) == Ok(Latest(cs))
  {
    KeptDumpLines(banner, cs);
    MatchDumpLines(cs);
    DumpTexts(cs);
  }

  lemma MatchDumpLines(cs: seq<string>)
    requires forall i :: 0 <= i < |cs| ==> cs[i] != [] && Trimmed(cs[i]) && '\n' !in cs[i]
    ensures MatchAll(DumpLines(cs)) == Ok(DumpEntries(cs))
  {
    var lines := DumpLines(cs);
    var entries := DumpEntries(cs);
    forall i | 0 <= i < |lines| ensures MatchHistoryLine(Strip(lines[i])) == Some(entries[i]) {
      assert lines[i] == DumpLine(i + 1, cs[i]);
      assert entries[i] == HistoryEntry(NatToString(i + 1), " " + cs[i]);
      MatchDumpLine(i + 1, cs[i]);
    }
    MatchAllOf(lines, entries);
  }

  /** Lines that each match give the list of their matches. */
  lemma MatchAllOf(lines: seq<string>, entries: seq<HistoryEntry>)
    requires |lines| == |entries|
    requires forall i :: 0 <= i < |lines| ==> MatchHistoryLine(Strip(lines[i])) == Some(entries[i])
    ensures MatchAll(lines) == Ok(entries)
  {
    var matched := MatchAll(lines);
    MatchAllSpec(lines);
    assert matched.Ok?;
    forall i | 0 <= i < |lines| ensures matched.value[i] == entries[i] {
      assert Some(matched.value[i]) == MatchHistoryLine(Strip(lines[i]));
    }
    assert matched.value == entries;
  }

  lemma DumpTexts(cs: seq<string>)
    requires forall i :: 0 <= i < |cs| ==> Trimmed(cs[i])
    ensures CommandTexts(Latest(DumpEntries(cs))) == Latest(cs)
  {
    var entries := DumpEntries(cs);
    var latest := Latest(entries);
    var want := Latest(cs);
    var skip := |cs| - |want|;
    forall j | 0 <= j < |latest| ensures Strip(latest[j].text) == want[j] {
      assert latest[j] == entries[skip + j] && want[j] == cs[skip + j];
      StripOneSpace(cs[skip + j]);
    }
  }

  lemma StripOneSpace(c: string)
    requires Trimmed(c)
    ensures Strip(" " + c) == c
  {
    StripPadded(" ", c, []);
    assert " " + c + [] == " " + c;
  }
}
