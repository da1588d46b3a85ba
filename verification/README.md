# historical: a verified model of `historical.py`

`historical.py` is a small interactive Python 2 script. It turns commands from
the user's bash history into an executable shell script. It asks "Ready?".
On `y` it runs `bash -i -c "history -r; history"`. It drops the first and
the last line of that output, whatever they hold, and raises AttributeError
if any remaining line is not `<number> <text>`. It keeps the last 100 of
those lines and prints their commands numbered from 0. It then reads
a comma-separated list of indices and prints the listing again with the
selected lines in green. Once the user has chosen, it asks "Ready to output
script?" and then for a name. Finally it writes `name.sh`: the line
`#!/bin/bash` followed by the selected commands in history order.

The model has six modules, one per concern of the script:

- `Base`: `Option`, `Result`, and the three exceptions that end the
  program:
  - `AttributeError` when a history line does not match the pattern;
  - `ValueError` when a selection term is not an integer;
  - `EOFError` when `raw_input` runs out of input.
- `Builtins`: the Python 2 string built-ins the script relies on:
  `str.strip()`, `str.split(sep)`, `str(n)` and `int(s)`. Each is paired
  with its inverse or its characterisation.
- `History`: the pure part of `obtain_commands`. The text the history
  command prints becomes the list of command texts. This includes a
  hand-written matcher for the pattern `(\d+) (.*)$`, and a round-trip
  theorem against a printed history listing.
- `Selection`: `[int(s) for s in selections]` over the comma-split answer.
- `Render`: the lines printed by `display_commands` and
  `update_commands_with_selection`, and the text written by
  `create_script_from_selections`. Each loop of the source is a method,
  proved equal to a function that says what it produces.
- `Menu`: the `while not FINISHED` loop over the module globals. It is
  modelled twice:
  - as the pure transition function `Next` on the `Machine` datatype;
  - as the class `Session`, whose fields are the globals and whose `Step`
    and `Run` methods update them in place.

  `Step` and `Run` are proved equal to `Next` and `RunToEnd`. Properties of
  the loop are stated as lemmas about `Next` and `RunToEnd`.

The input typed at the prompts is a sequence of lines. The lines printed are
an output sequence. The text printed by the history command is a parameter.
The script file is a path and a content.

The loop is modelled as the code behaves. Line 74 tests `ready`, the earlier
answer, and never reads `finished`, the answer to "Ready to output script?".
As a result, once the selection has been shown, the next pass writes the
script whatever that answer is (`SelectedAlwaysWrites`).

historical.py:1 leaves arbitrary ordering for later. The script has no
range terms and no paging. Positions are 0-based, as
`enumerate` gives them. A history line that does not match raises
AttributeError and ends the program. The loop has only the two flags
SELECTED and FINISHED.

## Model

| member | source | states |
|---|---|---|
| Builtins.Strip | historical.py:25-26 | the stripped text neither starts nor ends with white space and is no longer than the input |
| Builtins.StripPadded | historical.py:25-26 | stripping a trimmed text padded with white space on both sides gives exactly that text back |
| Builtins.StripIdempotent | historical.py:25-26 | stripping twice is the same as stripping once |
| Builtins.StripKeepsOut | historical.py:25-26 | stripping introduces no character: a character absent from the input is absent from the result |
| Builtins.Split | historical.py:69 | `split` always yields at least one piece |
| Builtins.SplitSpec | historical.py:69 | there is one more piece than there are separators, and no piece contains the separator |
| Builtins.JoinSplit | historical.py:69 | joining the pieces of a split with the separator gives back the original text |
| Builtins.SplitJoin | historical.py:69 | splitting a join of separator-free pieces gives back exactly those pieces |
| Builtins.SplitFree | historical.py:25 | a text without the separator splits into itself alone |
| Builtins.SplitPrefix | historical.py:25 | text placed before the first separator only lengthens the first piece |
| Builtins.SplitSuffix | historical.py:25 | text placed after the last separator only lengthens the last piece |
| Builtins.NatToString | historical.py:31 | `str(i)` of a natural number is a non-empty digit string with no leading zero whose decimal value is `i` |
| Builtins.ParseInt | historical.py:34 | `int(s)`: strips the term, then reads an optional sign and one or more ASCII digits; only a non-empty term can succeed; characterised by ParseIntAccepts, ParseIntNatToString, ParseIntNegated and ParseIntRejectsBlank |
| Builtins.ParseIntAccepts | historical.py:34 | `int` succeeds exactly when the stripped term is one or more digits, optionally after a single sign |
| Builtins.ParseIntNatToString | historical.py:34 | `int` reads back the decimal digits of `n` as `n`, with or without white space around them |
| Builtins.ParseIntNegated | historical.py:34 | a minus sign before the digits of `n` reads as `-n`, with or without surrounding white space |
| Builtins.SignedDigits | historical.py:34 | a minus sign followed by digits is already stripped and parses as the negated value |
| Builtins.ParseIntRejectsBlank | historical.py:34 | an empty or all-white-space term raises ValueError |
| History.DigitRun | historical.py:24 | `\d+` is greedy: the run is all digits and is followed by a non-digit or the end |
| History.DigitRunUnique | historical.py:24 | the only digit prefix followed by a space is the maximal digit run |
| History.LineEnd | historical.py:24 | `.*` stops at the first newline: the text before it holds no newline |
| History.MatchHistoryLine | historical.py:24-25 | `re.match(r"(\d+) (.*)$", line).groups()`, with None for no match: a match has a non-empty number followed in the line by a space, and number and text fit in the line; characterised by MatchHistoryLineSound, MatchHistoryLineComplete and MatchNumbered |
| History.MatchHistoryLineSound | historical.py:24-25 | a match gives a non-empty digit number and a text without newline, and the line is number, one space and text, with at most a final newline |
| History.MatchHistoryLineComplete | historical.py:24-25 | a line without newline that does not match has no digit prefix followed by a space |
| History.MatchNumbered | historical.py:24-25 | digits, one space and a newline-free text always match and give back exactly the digits and the text |
| History.KeptLines | historical.py:25 | `[1:-1]` of the split keeps max(0, newlines - 1) lines, none containing a newline |
| History.MatchAll | historical.py:25 | the only failure of the list comprehension is the mismatch error |
| History.MatchAllSucceeds | historical.py:25 | the comprehension yields a list exactly when every stripped line matches |
| History.MatchAllValues | historical.py:25 | a list from the comprehension has one entry per line, entry `i` being the match of line `i` |
| History.MatchAllSpec | historical.py:25 | the comprehension yields a list exactly when every stripped line matches, and entry `i` is the match of line `i` |
| History.MatchAllOf | historical.py:25 | lines that each match give the list of their matches, in order |
| History.Latest | historical.py:26 | `xs[-100:]`: the last min(100, n) elements, as a suffix of the input |
| History.CommandTexts | historical.py:26 | one command per entry, each stripped |
| History.ParseHistory | historical.py:24-26 | the only failure of `obtain_commands` is the mismatch error |
| History.ParseHistoryFails | historical.py:25 | parsing fails, with no partial list, exactly when some kept line does not match, including lines outside the last 100 |
| History.ParseHistoryLength | historical.py:25-26 | a successful parse yields min(100, max(0, newlines - 1)) commands |
| History.ParseHistoryEntries | historical.py:24-26 | command `j` is the stripped text of the matching line at the same position among the last kept lines |
| History.ParseHistoryClean | historical.py:25-26 | every command returned is stripped and contains no newline |
| History.ParseHistoryIgnoresFirstLine | historical.py:25 | the text before the first newline never affects the result |
| History.ParseHistoryIgnoresLastLine | historical.py:25 | the text after the last newline never affects the result |
| History.ParseHistoryDump | historical.py:18-27 | for a listing made of a first line and lines as bash prints unmodified entries (number right-aligned in five columns, two spaces, command), numbered from 1, with each command non-empty, stripped and on one line, parsing returns the last 100 commands in order |
| History.MatchDumpLine | historical.py:24-25 | a numbered history line, once stripped, matches with its number and its command |
| History.KeptDumpLines | historical.py:25 | the kept lines of a printed listing are exactly its numbered lines |
| Selection.FirstInvalid | historical.py:34 | the position of the first bad term lies within the terms, or is the number of terms |
| Selection.FirstInvalidSpec | historical.py:34 | every term before that position is an integer, and the term at it is not |
| Selection.ConvertAll | historical.py:34 | `[int(s) for s in selections]`: on success one value per term, on failure a ValueError naming a term `int` rejects; characterised by ConvertAllSpec |
| Selection.ConvertAllSpec | historical.py:34 | conversion succeeds exactly when every term is an integer, keeping count and order; otherwise it raises ValueError for the first bad term |
| Selection.ConvertAllValues | historical.py:34 | conversion succeeds exactly when every term is an integer, and value `i` is `int(term i)` |
| Selection.ConvertAllError | historical.py:34 | a failed conversion names the first term that is not an integer |
| Selection.ParseSelection | historical.py:68-69 | the answer split on commas and converted: on success one index per term, that is one more than the number of commas; on failure the ValueError names a single comma-free term; characterised by ParseSelectionEmpty and ParseSelectionOfIndices |
| Selection.ParseSelectionEmpty | historical.py:68-70 | an empty answer is one empty term, which raises ValueError |
| Selection.ParseSelectionOfIndices | historical.py:68-70 | typing displayed indices back, comma separated, selects exactly those indices, in order and with repetitions |
| Selection.ConvertIndexTerms | historical.py:34 | converting the decimal strings of indices gives back the indices |
| Render.Listing | historical.py:29-31 | the lines `display_commands` prints, one per command; their layout is ListingNumbers, and DisplayCommands is proved to print them |
| Render.ListingNumbers | historical.py:31 | line `i` is the decimal form of `i`, then `": "`, then command `i`, and `int` reads that number back as `i`, so typing it selects that line |
| Render.Highlight | historical.py:35-40 | the lines `update_commands_with_selection` prints, one per command; with nothing selected they are the plain listing; HighlightShowsSelection says which lines are green |
| Render.DisplayCommands | historical.py:29-31 | the printed lines are the listing: line `i` is `"i: command i"` for each command |
| Render.ShowSelection | historical.py:35-40 | the printed lines are the highlighted listing: line `i` is green exactly when `i` is selected |
| Render.UpdateCommandsWithSelection | historical.py:33-40 | a bad term raises ValueError before any line is printed; otherwise the highlighted listing is printed |
| Render.HighlightShowsSelection | historical.py:35-40 | line `i` is green if and only if `i` is selected, and without its colour it equals the plain listing line |
| Render.Picked | historical.py:50-52 | the commands written to the script: no more than the history holds, each taken from it, none when nothing is selected; PickedInHistoryOrder says exactly which |
| Render.PickedStep | historical.py:50-52 | each pass of the write loop appends command `i` and a newline exactly when `i` is selected |
| Render.ScriptText | historical.py:45-52 | the text written to `name.sh` starts with `#!/bin/bash` and a newline, and is only that when nothing is selected; PickedInHistoryOrder and ScriptLines give the rest |
| Render.CreateScript | historical.py:45-52 | a bad term raises ValueError; otherwise the file is the template followed by each selected command and a newline |
| Render.SelectedIndices | historical.py:50-51 | the selected in-range indices, strictly ascending and complete |
| Render.PickedInHistoryOrder | historical.py:50-52 | the script holds the command at every selected in-range index, in ascending index order, and nothing else |
| Render.SelectionIsASet | historical.py:33-52 | the order of terms, repeated terms and out-of-range terms change neither the green lines nor the script |
| Render.OutOfRangeIgnored | historical.py:33-52 | indices that are negative or past the end add nothing and raise nothing |
| Render.LinesAsJoin | historical.py:48-52 | a header line followed by newline-terminated lines is their newline join plus a final newline |
| Render.ScriptLines | historical.py:48-52 | read back line by line, the script is `#!/bin/bash`, the picked commands, then an empty last piece |
| Menu.Initial | historical.py:14-57 | the globals when the loop is entered: not FINISHED, not SELECTED, no commands, nothing printed, no script, and no input read yet |
| Menu.AskReady | historical.py:60-71 | the `if not SELECTED` branch consumes an answer or raises EOFError; it keeps the history and only appends output |
| Menu.ChooseCommands | historical.py:65-71 | after `y` the history is kept, output is only appended, and no input is added |
| Menu.ReadSelection | historical.py:68-71 | the selection prompt keeps the history, only appends output and never adds input |
| Menu.AskOutput | historical.py:72-79 | the `else` branch consumes an answer or raises EOFError; it never changes the selection or the command list |
| Menu.WriteScript | historical.py:74-79 | writing the script never changes the selection or the command list, and only appends output |
| Menu.Next | historical.py:59-79 | a finished or crashed program does not move; a pass never adds input, and a pass that reads nothing halts; history is kept, output only grows, and the selection is kept once made |
| Menu.RunToEnd | historical.py:59-79 | the loop ends, finished or crashed, for every input; the history is kept and the output only grows |
| Menu.InitialValid | historical.py:55-59 | the starting globals satisfy the loop invariant and the loop is entered |
| Menu.NextValid | historical.py:59-79 | every pass keeps the invariant: once SELECTED, `ready` is `y`, the commands are the parsed history and the selection converts; a script exists only when FINISHED and holds the selected commands; a crash writes no script |
| Menu.RunValid | historical.py:59-79 | the invariant holds when the loop ends |
| Menu.AnswerNo | historical.py:62-64 | `n` sets FINISHED and ends the program with no script |
| Menu.AnswerOther | historical.py:60-65 | any answer other than `y` or `n` only prints the banner and records the answer |
| Menu.AnswerYesStep | historical.py:65-66 | `y` records the answer and passes to listing the history |
| Menu.AnswerYes | historical.py:65-71 | `y` with a parsable history and selection sets SELECTED and prints the banner, the listing and the highlighted listing |
| Menu.AnswerYesBadHistory | historical.py:66 | after `y`, a history line that does not match raises AttributeError and the program is not SELECTED |
| Menu.AnswerYesBadSelection | historical.py:68-70 | after `y`, a bad term raises ValueError naming the first bad term, after the listing and before any highlighting |
| Menu.SelectedAlwaysWrites | historical.py:72-79 | once SELECTED, the next pass writes `name.sh` and finishes, whatever the answer to "Ready to output script?" is |
| Menu.Banners | historical.py:61 | `n` copies of the banner |
| Menu.OnlyOtherAnswers | historical.py:59-65 | answers other than `y` and `n` repeat the question until the input runs out and EOFError is raised |
| Menu.YesThenScript | historical.py:59-79 | `y`, a valid selection, any answer and a name write `name.sh` with the selected commands and end the loop |
| Menu.SessionWritesScript | historical.py:55-79 | from the start of the program, those four answers print the banner, the listing, the highlighted listing and "Creating script name", then write `name.sh` |
| Menu.ScriptContent | historical.py:55-79 | whatever is typed, a script is written only after `y` and a converted selection, and it holds the template and the selected commands of the parsed history |
| Menu.ScriptContentLines | historical.py:48-52 | a written script, read line by line, is `#!/bin/bash` and then the picked commands |
| Menu.Session.constructor | historical.py:14-57 | the globals start as in `Initial`: not FINISHED, not SELECTED, no commands |
| Menu.Session.ReadLine | historical.py:62 | `raw_input` returns the next line and consumes it, or signals EOFError when no input is left |
| Menu.Session.Step | historical.py:59-79 | one in-place pass of the loop leaves the globals equal to `Next` of the old globals |
| Menu.Session.AskReadyStep | historical.py:60-71 | the in-place `if not SELECTED` branch equals `AskReady` |
| Menu.Session.ChooseStep | historical.py:65-67 | the in-place `y` branch equals `ChooseCommands` |
| Menu.Session.SelectionStep | historical.py:68-71 | the in-place selection prompt equals `ReadSelection` |
| Menu.Session.AskOutputStep | historical.py:72-74 | the in-place `else` branch equals `AskOutput` |
| Menu.Session.ScriptStep | historical.py:74-79 | the in-place script writing equals `WriteScript` |
| Menu.Session.Run | historical.py:59 | the in-place loop ends with the globals equal to `RunToEnd` of the initial ones |

## Left out

- Running `bash -i -c "history -r; history"` through `Popen` (historical.py:19-23). The text it prints is a parameter of the model.
- Opening, writing and closing `name.sh`, and the `chmod` that makes it executable (historical.py:46-48, 53). The file is modelled as its path and its final content.
- Menu.WriteScript: a failing `open(name, 'w')` is not modelled. Python raises IOError there, for example when `name` lies inside a directory that does not exist; the model always records the file and sets FINISHED after printing "Creating script".
- The file holding only the template that `create_script_from_selections` would leave if a term failed conversion. This cannot happen, because the same terms already converted when SELECTED was set (`NextValid`), so the model does not represent such a file.
- The prompt strings passed to `raw_input`. Only the lines the script prints are in the output sequence.
- `OKBLUE`, `WARNING` and `FAIL`, which the script defines but never uses.
- `sanitize_script_name`, which returns its argument unchanged, so it is the identity in the model.
- Builtins.ParseInt, Builtins.ParseIntAccepts: white space between the sign and the digits is not modelled. Python 2 reads `int('- 5')` as -5, and the model rejects it. `Selection.ConvertAll` and `Selection.ParseSelection` inherit this gap.
- History.MatchHistoryLineSound: the model uses a matcher written for the single pattern `(\d+) (.*)$`. It is not a general regular-expression engine.
- History.ParseHistoryDump: covers listings of unmodified entries only. bash prints a `*` after the number of a modified entry; the pattern rejects that line, so such a listing raises AttributeError.
- Byte strings are modelled as sequences of characters. Only ASCII white space and digits are significant.
- `commands` and `selected_commands` start as `None` in the script and as empty lists in the model. `ready` has no value until historical.py:62 assigns it, and starts as the empty string in the model. None of the three is read before it is assigned.
- `historical.go` is not part of this model.
