# likertator counterbalancing core in Dafny

likertator builds counterbalanced Likert-task questionnaires from three input
files. `config.txt` holds key/value pairs. The stimuli file holds items of
`no_conds` condition lines each, separated by one line. The fillers file
holds one filler per line. Each Latin-square list 1..`no_lists` shows every
item in exactly one condition, rotated per list. The list's items are
mixed with all fillers and shuffled. The list is then rendered, and the
order in which identifiers appear is logged.

This project models that engine on values and proves what it promises.

- `types.dfy` (`Types`): the shared datatypes.
  - `Result` and `Outcome`. Every `sys.exit()` and every uncaught exception
    on a path becomes an `Err` carrying an `Error`.
  - `Item`: an item number and its condition texts. Condition `c` is at
    index `c - 1`.
  - `Key`: an identifier, either an item's `"id-cond"` pair or a filler
    number.
  - `Entry`: an identifier and its text.
- `arith.dfy` (`Arith`): Python 2 floor division on integers, and small
  facts about residues used by the Latin square.
- `text.dfy` (`Text`): the string operations the program uses.
  - `str.strip()` over ASCII whitespace.
  - `str.split()` and `str.split(':')`, each with its inverse.
  - `str()` and `int()` on integers, with round trips.
- `latin.dfy` (`Latin`): the condition rotation of `get_list_items`.
  - Its range, and its closed form `((id - list_no + 1) mod no_lists) + 1`.
  - Across lists, every condition of an item is shown in exactly one list.
  - Within one list, any `no_lists` consecutive items show every condition
    exactly once.
- `parsers.dfy` (`Parsers`): `parse_config`, `parse_fillers` and
  `parse_stimuli` as loops over the lines of their files.
  - Each loop is proved against a specification function (`ConfigOf`,
    `StimuliOf`).
  - Each specification function is characterised by lemmas: when it
    succeeds, what it returns, and which line stops it.
- `ratio.dfy` (`Ratio`): `check_ratio`, in Python's evaluation order, with
  the zero divisors, malformed ratios and mismatches that stop the run.
- `assign.dfy` (`Assign`): `get_list_items` as a loop.
  - It is proved against the specification function `ListItems`.
  - It returns one entry per item, in order.
  - It fails exactly when the list number is out of range or an item lacks
    the selected condition.
  - Identifier texts are injective.
- `compose.dfy` (`Compose`): the per-list steps of `main`.
  - Composing assigned items with fillers, shuffled in place with Python
    2's `random.shuffle` algorithm.
  - The identifier/markup loop of `write_likert_document`.
  - The order log. Reading the log back line by line gives the rendered
    identifiers in order.
  - With items and fillers numbered as the parsers number them, no
    identifier is presented twice.

Randomness is a parameter: `draws[i] % (i + 1)` is the index chosen at step
`i` of the shuffle. Every contract about the shuffle holds for all draws, so
it holds whatever the random generator produces. The rendering of one item
(`exify_item` plus the Likert scale markup) is an opaque parameter
`render: string -> string`. File contents are given as sequences of lines.

Two behaviours of `parse_stimuli` that follow from its code are stated as
proved facts.

- The mismatch check inside the loop (`likertator.py:59-62`) can never
  fire. When a line arrives with `item_ctr > no_conds`, the current item
  already holds exactly `no_conds` conditions. The method asserts this at
  that point.
- Only the final block is ever checked (`likertator.py:74-76`). The file
  parses exactly when `no_conds >= 2` and the line count plus one is a
  multiple of `no_conds + 1` (`Parsers.StimuliOkIff`). The separator lines
  are discarded whatever they contain. So a misaligned file whose length
  fits is grouped silently, and a file with a trailing blank line is
  rejected.

## Model

| member | source | states |
|---|---|---|
| Arith.FloorDiv | likertator.py:110 | Python 2 `/` on integers: the quotient q satisfies q*b <= a < q*b + b for b > 0, and the mirrored bounds for b < 0 |
| Text.TrimLeftSpec | likertator.py:32 | stripping the front removes exactly a maximal run of leading whitespace |
| Text.TrimRightSpec | likertator.py:32 | stripping the back removes exactly a maximal run of trailing whitespace |
| Text.StripSpec | likertator.py:32 | `strip()` returns a contiguous slice of its input, with only whitespace cut on each side and no whitespace at either end |
| Text.StripKeeps | likertator.py:32 | a string without surrounding whitespace is unchanged by `strip()` |
| Text.Words | likertator.py:32 | `split()` yields only nonempty pieces free of whitespace |
| Text.Strip | likertator.py:32 | `strip()`: the input with its leading and trailing whitespace removed (characterised by `Text.StripSpec`) |
| Text.WordsOfJoin | likertator.py:32 | `split()` of fields separated by single blanks gives those fields back |
| Text.JoinWithEnds | likertator.py:32 | a join of nonempty pieces starts with the first piece's first character and ends with the last piece's last character |
| Text.FieldsOfLine | likertator.py:31-32 | `l.strip().split()` of a configuration line written as blank-separated fields, with or without its line break, gives those fields |
| Text.WordsOfUnwords | likertator.py:32 | splitting words joined by blanks gives those words back |
| Text.SplitOn | likertator.py:108 | `split(':')` yields at least one piece, no piece contains the separator, and joining the pieces with it rebuilds the input |
| Text.SplitOfJoin | likertator.py:108 | splitting a join of separator-free pieces gives the pieces back |
| Text.NatToString | likertator.py:131 | `str()` of a natural number is a nonempty string of digits |
| Text.DigitsValueOfNat | likertator.py:131 | the digits of `str(n)` denote n |
| Text.NatToStringInjective | likertator.py:131 | distinct naturals have distinct decimal texts |
| Text.IntToString | likertator.py:131 | `str()` of an integer is a single nonempty line without surrounding whitespace, all digits exactly when the integer is nonnegative |
| Text.IntToStringInjective | likertator.py:131 | distinct integers have distinct texts |
| Text.ParseInt | likertator.py:110 | `int()` accepts only text containing a digit |
| Text.ParseIntOfString | likertator.py:110 | `int(str(i)) == i` for every integer |
| Latin.Cond | likertator.py:125-129 | for a list number in 1..no_lists, the selected condition is in 1..no_lists |
| Latin.CondClosedForm | likertator.py:125-129 | the rotation equals ((id - list_no + 1) mod no_lists) + 1 |
| Latin.CondInjectiveAcrossLists | likertator.py:125-129 | two lists that give an item the same condition are the same list |
| Latin.ListShowing | likertator.py:125-129 | the list that shows a given condition of an item is a valid list number |
| Latin.EachConditionInExactlyOneList | likertator.py:125-129 | across lists 1..no_lists, each condition of an item is shown by exactly one list |
| Latin.CondIsResidue | likertator.py:125-129 | an item gets condition c in a list exactly when its number lies in one residue class modulo no_lists |
| Latin.ItemShowing | likertator.py:125-129 | the item of a window that shows a given condition lies in that window |
| Latin.EachConditionOnceInWindow | likertator.py:114-129 | in one list, any no_lists consecutive item numbers receive each condition exactly once |
| Parsers.Fields | likertator.py:32 | the fields of a configuration line: `l.strip().split()` |
| Parsers.ConfigOf | likertator.py:28-37 | the dictionary the lines denote: each line binds its first field to its second, later lines replacing earlier bindings; the first line with fewer than two fields stops the run |
| Parsers.ParseConfig | likertator.py:28-37 | the loop's dictionary is the configuration the lines denote, or the error of the first malformed line |
| Parsers.ConfigErrorPersists | likertator.py:31-33 | once a prefix of the lines fails, the whole file fails with the same error |
| Parsers.ConfigOkIff | likertator.py:31-33 | parsing succeeds exactly when every line has at least two fields |
| Parsers.ConfigStopsAtFirstBadLine | likertator.py:31-33 | the first line with fewer than two fields is the one reported |
| Parsers.ConfigKeys | likertator.py:31-33 | a key is configured exactly when some line's first field is that key |
| Parsers.ConfigLastBindingWins | likertator.py:31-33 | a key's value is the second field of the last line that names it |
| Parsers.ParseFillers | likertator.py:95-104 | returns the line count and, for line i, the entry numbered i+1 holding the stripped line |
| Parsers.BlockConds | likertator.py:70 | an item has one condition text per line of its block |
| Parsers.Group | likertator.py:58-78 | blocks of no_conds lines, each followed by one discarded separator line, become consecutively numbered items; a final block of another size stops the run |
| Parsers.StimuliOf | likertator.py:40-83 | no_conds <= 1 stops the run; otherwise the item count and the grouped items numbered from 1 |
| Parsers.ParseStimuli | likertator.py:40-83 | the loop returns what the grouping specification gives: too few conditions, a final block of the wrong size, or the count and the items |
| Parsers.StimuliOkIff | likertator.py:42-44 | parsing succeeds exactly when no_conds >= 2 and the line count plus one is a multiple of no_conds + 1 |
| Parsers.GroupOkIff | likertator.py:58-78 | grouping succeeds exactly when the line count plus one is a multiple of the block size plus one |
| Parsers.GroupShape | likertator.py:58-83 | grouped items are numbered consecutively from the starting number, each with exactly no_conds conditions |
| Parsers.StimuliShape | likertator.py:58-83 | the returned count equals the number of items, which is at least one; items are numbered 1..count, each with no_conds conditions |
| Parsers.GroupOfLayout | likertator.py:58-78 | blocks of the right size joined by separators group back into one item per block, numbered in order |
| Parsers.StimuliOfLayout | likertator.py:40-83 | k blocks of no_conds lines joined by any separator lines yield k items numbered 1..k, item j holding block j's stripped lines |
| Parsers.GroupStep | likertator.py:58-68 | a full block followed by a separator makes one item and grouping continues after the separator |
| Ratio.CheckRatio | likertator.py:106-112 | check_ratio in Python's evaluation order: a zero item count, a malformed or colon-free ratio, a zero ratio divisor, or differing floor quotients stop the run |
| Ratio.CheckRatioSpec | likertator.py:106-112 | for a ratio written "f:i", the gate passes exactly when both divisors are nonzero and the floor quotients agree; otherwise it stops with the matching error |
| Ratio.RatioExampleMismatch | likertator.py:110-112 | 10 fillers and 3 items do not fit the ratio 1:1 |
| Ratio.RatioExamplePass | likertator.py:110 | 9 fillers and 3 items fit the ratio 3:1 |
| Ratio.RatioNeedsColon | likertator.py:108-110 | a ratio without a colon never passes |
| Assign.KeyText | likertator.py:131 | `str()` of an identifier: `"id-cond"` for an item, the number for a filler |
| Assign.AssignOne | likertator.py:125-131 | one item's entry: its `"id-cond"` identifier and the text of the rotated condition, or the KeyError of a missing condition |
| Assign.AssignAll | likertator.py:123-131 | the entries of the items in item order; the first item without its condition stops the run |
| Assign.ListItems | likertator.py:114-133 | get_list_items: a list number outside 1..no_lists stops the run; otherwise the entries of all items |
| Assign.GetListItems | likertator.py:114-133 | the loop returns what the list specification gives: the range error, the first missing condition, or the entries |
| Assign.AssignErrorPersists | likertator.py:123-131 | once a prefix of the items fails, the whole list fails with the same error |
| Assign.ListItemsOkIff | likertator.py:117-131 | a list is returned exactly when its number is in 1..no_lists and every item has the selected condition; an out-of-range number stops the run |
| Assign.AssignAllOkIff | likertator.py:123-131 | assigning succeeds exactly when every item has its selected condition |
| Assign.ListItemsEntries | likertator.py:121-133 | a returned list has one entry per item, in item order, keyed by the item number and selected condition and holding that condition's text |
| Assign.AssignAllEntries | likertator.py:123-131 | the same, for the loop over the items |
| Assign.ListItemsSucceed | likertator.py:121-131 | with no more lists than conditions, every valid list number yields a list |
| Assign.NatTextHasNoDash | likertator.py:131 | the text of a nonnegative number contains no dash |
| Assign.KeyTextInjective | likertator.py:131 | distinct identifiers with nonnegative numbers have distinct texts |
| Assign.CompoundTextInjective | likertator.py:131 | "id-cond" determines id and cond |
| Assign.EachConditionInOneList | likertator.py:125-131 | across lists 1..no_lists, an item's entry names each condition in exactly one list |
| Compose.Swap | likertator.py:246 | exchanges two array elements and keeps the multiset of elements |
| Compose.Shuffle | likertator.py:246 | the in-place shuffle keeps the multiset of elements, whatever the draws |
| Compose.ComposeList | likertator.py:245-246 | the presented list is a permutation of the list's items followed by the fillers |
| Compose.RenderAll | likertator.py:147-158 | the items markup: the rendering of every entry's text, concatenated in entry order |
| Compose.RenderAllStep | likertator.py:151-158 | appending one more entry's markup keeps the built text a prefix of the whole items markup |
| Compose.KeysOf | likertator.py:147-149 | the identifiers of the entries, in order |
| Compose.RenderAllAppend | likertator.py:147-158 | rendering a list is rendering its parts one after the other |
| Compose.WriteLikertDocument | likertator.py:146-158 | returns exactly the identifiers of its input, in input order, and the markup of every text in that order |
| Compose.OrderLog | likertator.py:254-256 | the order file's content: every identifier's text followed by a newline, in order |
| Compose.OrderLogStep | likertator.py:254-256 | writing one more identifier's line keeps the written text a prefix of the order log |
| Compose.WriteOrderLog | likertator.py:254-256 | the order file holds each identifier's text followed by a newline, in order |
| Compose.KeyTextOneLine | likertator.py:255 | an identifier's text contains no newline |
| Compose.OrderLogJoined | likertator.py:254-256 | the order log is the identifier texts joined by newlines, followed by a final newline |
| Compose.OrderLogReadBack | likertator.py:254-256 | reading the log back line by line gives the identifiers in rendered order |
| Compose.CountOfDistinct | likertator.py:245-246 | entries with distinct identifiers occur at most once each |
| Compose.CountOfRepeated | likertator.py:245-246 | an entry at two positions occurs at least twice |
| Compose.SameKeySameEntry | likertator.py:245-246 | with distinct identifiers, an identifier determines its entry |
| Compose.PermutationKeepsDistinctKeys | likertator.py:246 | shuffling entries with distinct identifiers keeps them distinct |
| Compose.ComposedKeysDistinct | likertator.py:245-246 | items with distinct numbers and distinctly numbered fillers compose into a list without repeated identifiers |
| Compose.ListStatus | likertator.py:242-249 | how one list iteration ends: the error of get_list_items, else the KeyError of a missing `ex_name`, else success |
| Compose.GenerateList | likertator.py:242-256 | one list succeeds exactly when its items can be assigned and the experiment name is configured, failing with that error otherwise; it then presents a permutation of its items and the fillers, and renders and logs the identifiers in presented order |
| Compose.PresentedList | likertator.py:242-256 | for parsed items and fillers, a generated list presents every item and filler once, no identifier twice, and its log reads back in rendered order |
| Compose.AllPresentEach | likertator.py:233-256 | when every output is what its list presents, output k is what list k+1 presents |
| Compose.ProducedListsPassed | likertator.py:233-256 | every list produced before the loop stops is a list that passed |
| Compose.GenerateLists | likertator.py:233-256 | the list loop returns output k for list k+1 for each list it reaches; it succeeds with one output per list 1..no_lists exactly when every list passes, and otherwise stops at the first failing list, whose error it reports, with the outputs of the lists before it |

## Left out

- File access: opening, reading and closing the input files; writing the `.tex` and order files; `os.chdir` and `os.makedirs`; the `inputs/` check. File contents are parameters and outputs are values.
- The unguarded failed `open` in `parse_stimuli` and `parse_fillers` (`likertator.py:47-49`, `89-91`): the run goes on and then crashes. This is file access and is not modelled.
- `parse_template` and `template.format(**context)`: Python's `str.format` and the LaTeX document are not modelled. The rendering of one item is the opaque parameter `render`.
- The `xelatex` subprocess call.
- Printed diagnostics. The message bugs (the missing `%` at `likertator.py:61` and `75`, the wrong values at `111`) change only what is printed before the run stops, so the model has only the error result.
- `main`'s configuration lookups before the list loop and the `int()` of `no_conds` and `no_lists` (`likertator.py:203-240`). A missing key or a malformed number there stops the run; the model does not cover that. The list loop takes the parsed items, the fillers and the list count as arguments. It takes the `config['ex_name']` value as an optional argument, and a missing value stops the run at the first list whose items were assigned.
- Ratio.CheckRatioSpec: the model compares exact integer floor quotients. Python 2's `math.floor` converts each quotient to a float. So the model does not capture the OverflowError of a quotient beyond the float range, nor the rounding of quotients above 2^53. For example, 2^53+1 fillers, 1 item and the ratio `"9007199254740992:1"` pass in the program but fail in the model.
- Compose.Shuffle: the random draws are a parameter, and only the permutation property is stated. The distribution of `random.shuffle` is not modelled.
- Compose.WriteLikertDocument: the list number and experiment name are left out. They feed only the template context and the file name.
- Parsers.ParseStimuli: an item's condition dictionary, whose keys are always 1..no_conds, is a sequence indexed from 0.
- Assign.GetListItems: the identifier string `"id-cond"` is kept as the pair `Compound(id, cond)`, and `Assign.KeyText` renders it. `Assign.KeyTextInjective` shows that no information is lost.
- Text.Strip: Python 2 byte strings are modelled as sequences of characters. Whitespace is the six ASCII whitespace characters `str.strip()` removes.
