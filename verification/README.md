# Tangleword puzzle engine in Dafny

Tangleword is a word puzzle. Six clues each name a category. Each clue's
three-letter word is spelled by arrows into a row of eight answer letters.
This project models the engine behind the game and proves properties of it:

- the seeded pseudo-random generator, its `shuffle` and its `select`;
- the arrow-set generator, which links every word to three balanced outputs;
- the backtracking search that fills the answer from a dictionary;
- the 53-bit hash under which a puzzle stores its answer, and the solution check;
- the `;`/`,` text form a custom puzzle is shared in, with its parser;
- `formatTime`, the timer display;
- the play view's helpers: the per-letter "unique value" of a row, the letter
  filter, the grid updaters, the saved-grid shape check, and the solution string;
- the designer's state updates (`swap`, `toggle`, the answer-letter updater,
  adding, moving and deleting clues) and its "Validate puzzle" checker.

Modules, in dependency order:

- `Wrappers`: `Option`/`Result`.
- `Strings`: decimal and hex text, `Split`/`Join`, ASCII case mapping.
- `Seqs`: sorting by insertion, removal, swap, sums, minimum and maximum.
- `Random`, `Hash`, `ArrowSets`.
- `Puzzles`: the puzzle record and its set of targets.
- `PuzzleGenerator`, `Codec`, `Util`, `PlayGrid`, `Designer`.

State that the program keeps in mutable arrays and signals becomes a value
that every operation takes and returns. The random generator is a state
value threaded through every draw. The dictionary is a parameter. Local
storage, the DOM and JSON text are not modelled. A stored grid is given as
an already-parsed JSON value.

## Model

| member | source | states |
|---|---|---|
| Random.MakeRandom | src/random.ts:3-5 | the generator's state is the seed taken modulo 2^32 (`a \|= 0`) |
| Random.Next | src/random.ts:4-8 | one call adds the golden-ratio constant 0x9e3779b9 to the state, modulo 2^32 |
| Random.AdvanceState | src/random.ts:5 | after k calls the state is the start state plus k times 0x9e3779b9, modulo 2^32 |
| Random.StateAfterCalls | src/random.ts:3-5 | after k calls on a fresh generator the state is the seed plus k times the constant, modulo 2^32 |
| Random.DrawDependsOnSeedAndIndex | src/random.ts:3-8 | the k-th draw is a fixed function of the seed and k alone |
| Random.AdvanceLast | src/random.ts:4-8 | the generator after k+1 calls is the generator after k calls stepped once more |
| Random.DrawBelow | src/random.ts:14 | `Math.floor(random() * n)` is below n and uses exactly one draw |
| Random.Select | src/random.ts:21-23 | `select` returns an element of the non-empty array and uses one draw |
| Random.ShuffleDown | src/random.ts:13-18 | the loop from index i down to 1 permutes the array (same multiset and length) and uses i draws |
| Random.AdvanceAdd | src/random.ts:4-8 | a draws followed by b draws are a+b draws |
| Random.Shuffle | src/random.ts:12-19 | `shuffle` permutes its array, uses length−1 draws, and leaves arrays of at most one element alone |
| Hash.CodeUnits | src/puzzle_generator.ts:7-8 | `charCodeAt` yields UTF-16 code units below 0x10000, one per character of the Basic Multilingual Plane |
| Hash.AbsorbAppend | src/puzzle_generator.ts:7-11 | the per-character loop is a left fold: over a concatenation it runs over the second part from the accumulators the first part left |
| Hash.Combine | src/puzzle_generator.ts:17 | the combined value `4294967296 * (2097151 & h2) + (h1 >>> 0)` is below 2^53 |
| Hash.Hash | src/puzzle_generator.ts:5-18 | a hash is 16 lower-case hex digits, and its first two digits are 0, since the value has 53 bits |
| Hash.ValidatePuzzleSolution | src/puzzle_generator.ts:132-137 | an accepted stored answer is a 16-digit hex string that starts with "00" |
| Hash.ValidateOwnHash | src/puzzle_generator.ts:132-137 | every solution is accepted against its own hash |
| Hash.ValidateUpperCasedHash | src/puzzle_generator.ts:132-137 | it is also accepted against its hash written in upper case |
| Hash.ValidateIgnoresCase | src/puzzle_generator.ts:134 | two stored answers that agree after lower-casing give the same verdict |
| Hash.ValidateMeansSameHash | src/puzzle_generator.ts:132-137 | a solution is accepted exactly when the lower-cased stored answer equals its hash |
| Seqs.Insert | src/arrow_sets.ts:17-20 | inserting adds exactly one copy of the element (same multiset plus it) |
| Seqs.InsertKeepsSorted | src/arrow_sets.ts:20 | inserting into a sorted list keeps it sorted |
| Seqs.InsertKeepsStrict | src/arrow_sets.ts:20 | inserting a new element into a strictly ascending list keeps it strictly ascending |
| Seqs.Sort | src/arrow_sets.ts:20 | the numeric sort returns a sorted permutation of its input |
| Seqs.SortPushed | src/arrow_sets.ts:17-20 | sorting a sorted list with an element pushed on its end is inserting that element |
| Seqs.SortOfSorted | src/arrow_sets.ts:20 | sorting an already sorted list returns it unchanged |
| Seqs.Remove | src/pages/PuzzleDesigner.tsx:28 | the filter removes every copy of the element and keeps every other element with its count |
| Seqs.RemoveKeepsSorted | src/pages/PuzzleDesigner.tsx:28 | filtering keeps a sorted list sorted |
| Seqs.RemoveKeepsStrict | src/pages/PuzzleDesigner.tsx:28 | filtering keeps a strictly ascending list strictly ascending |
| Seqs.Swap | src/pages/PuzzleDesigner.tsx:10-15 | `swap` exchanges the two entries and leaves every other entry alone |
| Seqs.SwapPermutes | src/pages/PuzzleDesigner.tsx:10-15 | `swap` is a permutation |
| Seqs.SwapInvolutive | src/pages/PuzzleDesigner.tsx:10-15 | swapping the same two entries twice gives back the array |
| Seqs.MinOf | src/arrow_sets.ts:32 | `Math.min` of a non-empty list is one of its elements and below all of them |
| Seqs.MaxOf | src/pages/PuzzleDesigner.tsx:298 | `Math.max` of a non-empty list is one of its elements and above all of them |
| ArrowSets.WordsLeft | src/arrow_sets.ts:30 | the words left are exactly the indices whose list does not yet hold three targets |
| ArrowSets.Available | src/arrow_sets.ts:33 | the available outputs are exactly the least-used outputs that the chosen word does not already name |
| ArrowSets.Link | src/arrow_sets.ts:16-22 | `link` adds the slot once to the word's list, keeps a sorted list sorted, leaves every other word alone, and counts one more use of that slot only |
| ArrowSets.LinkIsPushAndSort | src/arrow_sets.ts:16-20 | `link` on a sorted list is the push followed by the numeric sort |
| ArrowSets.LinkKeepsWellFormed | src/arrow_sets.ts:16-22 | linking a new output to a word with fewer than three targets keeps every list strictly ascending, in range and at most three long, and `outputUse` equal to the number of lists naming each output |
| ArrowSets.IncrementMinimumKeepsBalance | src/arrow_sets.ts:32-35 | raising a least-used output keeps all use counts within one of each other |
| ArrowSets.StepKeepsInvariant | src/arrow_sets.ts:30-36 | one loop step keeps the lists well formed and balanced, keeps the two anchors, only adds targets, and leaves one link fewer to make |
| ArrowSets.FullUseIsTwoOrThree | src/arrow_sets.ts:30-36 | once every word has three targets, every output is used two or three times |
| ArrowSets.LinksLeft | src/arrow_sets.ts:30 | no links are left exactly when every word holds three targets |
| ArrowSets.Fill | src/arrow_sets.ts:29-36 | the loop only adds targets; a finished run is complete and used exactly two draws per link it made |
| ArrowSets.EmptyBuilder | src/arrow_sets.ts:11-15 | six empty lists and eight zero counters are well formed and balanced |
| ArrowSets.Anchors | src/arrow_sets.ts:27-28 | after the two anchor links, word 0 names output 0, the last word names the last output, and the state is well formed and balanced |
| ArrowSets.GenerateArrowSets | src/arrow_sets.ts:10-38 | the result is complete: six strictly ascending lists of three targets below eight, naming every output two or three times, anchored, after exactly 32 draws |
| Puzzles.TargetSet | src/puzzle_generator.ts:49-54 | the set of unique outputs is exactly the targets named by some list |
| PuzzleGenerator.Write | src/puzzle_generator.ts:34-36 | writing a word at a clue's targets leaves every other answer position alone |
| PuzzleGenerator.WriteAt | src/puzzle_generator.ts:34-36 | with distinct targets, the i-th target holds the word's i-th letter afterwards |
| PuzzleGenerator.RegexTestOfSameLength | src/puzzle_generator.ts:27-29 | the pattern built from the current letters accepts a word of its length exactly when the word agrees with every letter that is not a `.` |
| PuzzleGenerator.Candidates | src/puzzle_generator.ts:28-30 | the options are exactly the dictionary entries whose category is unused and whose word the pattern accepts |
| PuzzleGenerator.RestoreSlots | src/puzzle_generator.ts:42-44 | writing the original letters back restores the answer as it was before the clue was tried |
| PuzzleGenerator.WriteFittingWord | src/puzzle_generator.ts:32-37 | a word accepted by the pattern spells itself at the targets and only fills blanks |
| PuzzleGenerator.Backtrack | src/puzzle_generator.ts:20-46 | a failed search leaves the clues and the answer unchanged; a successful one keeps the earlier clues, only fills blanks, and gives every new clue an unused dictionary category whose word the answer spells at its targets |
| PuzzleGenerator.TryOptions | src/puzzle_generator.ts:32-45 | the option loop keeps the same promise, undoing each failed option |
| PuzzleGenerator.AssignedClueHolds | src/puzzle_generator.ts:33-39 | a success after pushing a clue is a success for the level that pushed it |
| PuzzleGenerator.GeneratePuzzle | src/puzzle_generator.ts:48-64 | a generated puzzle has as many outputs as distinct targets, and its hash is the hash of an answer that solves every clue with distinct categories |
| PuzzleGenerator.GeneratePuzzleFillsEverySlot | src/puzzle_generator.ts:60-62 | the "Failed to fill in all outputs" error never happens |
| PuzzleGenerator.CompleteListsAreValid | src/puzzle_generator.ts:48-55 | generated arrow sets have eight distinct targets, and every list names distinct slots below eight |
| PuzzleGenerator.CompleteNamesEverySlot | src/puzzle_generator.ts:49-54 | generated arrow sets name every output below eight |
| PuzzleGenerator.GenerateFullPuzzleFromSeed | src/puzzle_generator.ts:66-86 | a puzzle from a seed has complete arrow sets, six clues and eight outputs, records its seed, and has a stored hash that some solving answer is accepted against |
| Strings.ParseInt | src/puzzle_generator.ts:112 | `parseInt` reads a text of decimal digits as its decimal value, and a text without any digit as `NaN` |
| Strings.ParseIntSkipsSpace | src/puzzle_generator.ts:112 | white space before the number does not change what `parseInt` reads |
| Strings.ParseIntOfNegative | src/puzzle_generator.ts:112 | a minus sign before decimal digits negates their value |
| Strings.ParseIntOfHex | src/puzzle_generator.ts:112 | a `0x` prefix makes `parseInt` read the hex digits after it |
| Strings.ParseIntOfIntToString | src/puzzle_generator.ts:112-144 | `parseInt` reads back every integer that `toString` writes |
| Codec.TargetTokens | src/puzzle_generator.ts:144 | each target is written as a text holding neither separator that `parseInt` reads back as the target |
| Codec.Record | src/puzzle_generator.ts:144-145 | a record whose label holds neither separator holds no `;` and splits at `,` into the label followed by the target texts |
| Codec.Serialise | src/puzzle_generator.ts:139-149 | when no label holds a separator and the hash holds no `;`, the text splits at `;` into one part per word index and the hash last, and each part splits at `,` into the word's label and its target texts |
| Codec.ParseTargets | src/puzzle_generator.ts:111-120 | accepted targets match the tokens one for one and ascend strictly |
| Codec.NotANumberHasCause | src/puzzle_generator.ts:113 | "target is not a number" means some token is not a number |
| Codec.NegativeTargetHasCause | src/puzzle_generator.ts:114 | "target is negative" means some token reads as a negative number |
| Codec.NotAscendingHasCause | src/puzzle_generator.ts:116-118 | "not in ascending order" means some target is at most the one before it |
| Codec.ParseTargetsAccepts | src/puzzle_generator.ts:111-120 | every strictly ascending list of non-negative numbers is accepted as it stands |
| Codec.ParseRecordMeaning | src/puzzle_generator.ts:106-120 | a record is accepted exactly when no target field is a non-number, negative, or at most an earlier field; then the clue is the first field and each later field's `parseInt` value is the matching target, strictly ascending from zero or above; each error names a field with that fault |
| Codec.ParseRecords | src/puzzle_generator.ts:104-121 | the loop over the first `n` records succeeds exactly when each of them is accepted, and then holds each record's own clue and targets in order; otherwise its error is that of the first record that fails |
| Codec.PuzzleFromString | src/puzzle_generator.ts:97-130 | "corrupted answer data" is raised exactly when the last `;` part is not all hex digits; otherwise the text is accepted exactly when every earlier part is a valid record, giving a custom puzzle whose hash is the last part, whose words are the records' readings in order and whose output count is the number of distinct targets; a rejection carries the error of the first failing record, which names a fault in one of its target fields |
| Codec.ParseRecordOfFields | src/puzzle_generator.ts:106-120 | a record whose fields are a label and the decimal texts of a strictly ascending non-negative list reads back as that label and list |
| Codec.RecordRoundTrip | src/puzzle_generator.ts:106-120 | parsing a written record gives back its clue and targets |
| Codec.ReadRecordsBack | src/puzzle_generator.ts:101-129 | records reading as given lists, followed by a hex hash, are read as the custom puzzle holding those lists and that hash |
| Codec.ParseSerialised | src/puzzle_generator.ts:97-149 | `puzzleFromString(serialise(p))` gives back p's arrows, clues, distinct-target count and hash |
| Codec.NoSeparatorMeansNoClues | src/puzzle_generator.ts:100-103 | text without `;` that is all hex is accepted as a puzzle with no clues |
| Util.JsRem | src/util.ts:17-18 | JavaScript's `%` agrees with the mathematical remainder on non-negative numbers and is below the divisor in absolute value |
| Util.TimeFields | src/util.ts:13-18 | the time has two fields, or three with hours |
| Util.TwoDigitsOfNat | src/util.ts:15 | a non-negative number padded to two places is all digits, at least two of them, exactly two below one hundred, and reads back as the number |
| Util.WholeUnits | src/util.ts:10-12 | flooring seconds, then minutes, then hours gives the whole minutes and hours of the duration, and hours, minutes within the hour and seconds within the minute add back up to the whole seconds |
| Util.SecondsField | src/util.ts:18 | the last field shows the seconds within the minute |
| Util.MinutesField | src/util.ts:11-17 | the field before it shows the minutes within the hour |
| Util.HoursField | src/util.ts:12-16 | a leading hours field is present exactly when the time reaches an hour, and it shows the whole hours |
| Util.DigitFields | src/util.ts:13-18 | every field of a non-negative duration is made of digits |
| Util.ReadDurationFields | src/util.ts:13-18 | two or three numerals holding a duration's hours, minutes within the hour and seconds within the minute read back as its whole seconds |
| Util.ReadTimeFields | src/util.ts:9-18 | the fields of a non-negative duration read back as its whole seconds |
| Util.FormatTime | src/util.ts:9-20 | a non-negative duration, shown and read back as hours, minutes and seconds, gives its whole seconds |
| PlayGrid.Filled | src/Puzzle.tsx:35 | the filter keeps exactly the non-empty values |
| PlayGrid.GetUnique | src/Puzzle.tsx:34-41 | the shown value is "", "!" or one of the row's entries, and unless it is "!" all filled entries agree, so two different entries always show "!" |
| PlayGrid.UniqueIsEmptyExactly | src/Puzzle.tsx:34-41 | a row shows "" exactly when none of its entries is filled |
| PlayGrid.UniqueOfAgreement | src/Puzzle.tsx:34-41 | a row whose entries all agree on a value shows that value |
| PlayGrid.TypedLetter | src/Puzzle.tsx:84-87 | the typed data is kept exactly when it is a single ASCII letter, and it becomes "" otherwise |
| PlayGrid.CellValue | src/Puzzle.tsx:83-88 | the value stored is empty, or the typed letter in lower case |
| PlayGrid.UpdateInput | src/Puzzle.tsx:434-436 | `updateInput` sets one cell and nothing else, keeping every row's length |
| PlayGrid.UpdateOutput | src/Puzzle.tsx:437-439 | `updateOutput` sets every cell of one row and nothing else |
| PlayGrid.OutputShowsValue | src/Puzzle.tsx:437-439 | after `updateOutput` that letter shows the value written |
| PlayGrid.InputKeepsShape | src/Puzzle.tsx:434-439 | both updaters keep a grid of the puzzle's shape in shape |
| PlayGrid.ClearAll | src/Puzzle.tsx:463 | "Clear all" empties every cell and keeps the shape |
| PlayGrid.EmptyGrid | src/Puzzle.tsx:359-362 | the fresh grid has the puzzle's shape and empty cells |
| PlayGrid.JsLength | src/Puzzle.tsx:358 | a JavaScript string length counts UTF-16 code units: at least one per character, exactly one per character of the Basic Multilingual Plane |
| PlayGrid.LoadGrid | src/Puzzle.tsx:349-366 | a stored grid is used exactly when it passes every shape test (rows, cells per row, strings of at most one UTF-16 code unit); otherwise the grid is fresh; the error is raised exactly when a stored grid fails a test |
| PlayGrid.SavedGridOkIsSavedShape | src/Puzzle.tsx:351-358 | the shape tests accept exactly the saved forms of grids of the puzzle's shape |
| PlayGrid.AstralCellIsCorrupt | src/Puzzle.tsx:358-365 | a saved cell holding one character outside the Basic Multilingual Plane is two code units long, so the grid is reported corrupted and replaced |
| PlayGrid.LoadSavedGrid | src/Puzzle.tsx:349-372 | a grid the page saved, of the right shape, is loaded back unchanged without an error |
| PlayGrid.LoadMisshapenGrid | src/Puzzle.tsx:351-365 | a saved grid of the wrong shape is replaced by a fresh grid, and the error is raised |
| PlayGrid.Solution | src/Puzzle.tsx:383-384 | when every output row shows a single character, the solution string has one character per output, the one that row shows |
| PlayGrid.SolutionLength | src/Puzzle.tsx:383-384 | on a grid of the puzzle's shape the solution string has at most one character per output, and exactly one per output when every output row shows something (an agreed letter or the conflict mark "!") |
| PlayGrid.GuessLength | src/Puzzle.tsx:383-384 | when every output row shows at most one character, the candidate solution is never longer than the number of outputs, and is exactly that long precisely when every output row shows a character |
| PlayGrid.SolutionOfFilledGrid | src/Puzzle.tsx:383-385 | a grid whose rows spell the answer's letters gives the answer as its solution string |
| PlayGrid.Won | src/Puzzle.tsx:382-386 | the puzzle is solved exactly when the lower-cased stored hash equals the hash of the solution string |
| PlayGrid.RevealedGridWins | src/Puzzle.tsx:383-402 | the revealed grid's solution is the answer, and it is accepted against the answer's hash |
| Designer.StandardPuzzle | src/pages/PuzzleDesigner.tsx:91-93 | the reset puzzle has eight letters plus the trailing blank, six clues and six arrow lists |
| Designer.InitialOk | src/pages/PuzzleDesigner.tsx:21-23 | the starting state satisfies the designer invariant |
| Designer.StandardOk | src/pages/PuzzleDesigner.tsx:91-93 | the reset state satisfies the designer invariant |
| Designer.ToggleList | src/pages/PuzzleDesigner.tsx:26-30 | toggling flips membership of the letter and nothing else, and keeps a (strictly) sorted list (strictly) sorted |
| Designer.Toggle | src/pages/PuzzleDesigner.tsx:24-32 | `toggle` changes only the clue's own list |
| Designer.StrictlySortedUnique | src/pages/PuzzleDesigner.tsx:26-30 | two strictly sorted lists with the same elements are equal |
| Designer.ToggleTwice | src/pages/PuzzleDesigner.tsx:24-32 | toggling the same letter twice gives back the same list, for a strictly sorted list |
| Designer.MoveClue | src/pages/PuzzleDesigner.tsx:136-148 | the up and down buttons swap clues `i` and `j`, texts and arrow lists together, leave every other clue and the answer alone, and so permute both lists |
| Designer.MoveTwice | src/pages/PuzzleDesigner.tsx:136-148 | moving the same pair twice gives back the design |
| Designer.AddClue | src/pages/PuzzleDesigner.tsx:164-165 | "Add clue" appends an empty clue with no letters and changes nothing else |
| Designer.DeleteClue | src/pages/PuzzleDesigner.tsx:199-200 | deleting a clue removes it and its list, and keeps the others in order |
| Designer.ClearLetter | src/pages/PuzzleDesigner.tsx:41-45 | clearing a letter removes it from every clue and keeps every other link |
| Designer.SetAnswer | src/pages/PuzzleDesigner.tsx:46-56 | the updated answer ends in a blank, grows or shrinks by at most one cell, and every cell before the last agrees with the answer after writing the value; a typed value always lands in cell `i` before the trailing blank, so typing into the blank itself appends the letter and grows the answer by one |
| Designer.SetCell | src/pages/PuzzleDesigner.tsx:40-56 | clearing a letter before the last one changes nothing; otherwise the answer is the `setAnswer` update; typing a letter keeps every clue list; clearing the last letter or the blank unlinks that position from every clue and keeps every other link; the clue texts never change |
| Designer.WriteLetter | src/pages/PuzzleDesigner.tsx:322-327 | the designer's `updateInput`/`updateOutput` write a non-empty value at the letter and change nothing else |
| Designer.ToggleKeepsOk | src/pages/PuzzleDesigner.tsx:24-32 | toggling a letter of the answer keeps the designer invariant |
| Designer.MoveKeepsOk | src/pages/PuzzleDesigner.tsx:136-148 | moving clues keeps the invariant |
| Designer.AddKeepsOk | src/pages/PuzzleDesigner.tsx:164-165 | adding a clue keeps the invariant |
| Designer.DeleteKeepsOk | src/pages/PuzzleDesigner.tsx:199-200 | deleting one of several clues keeps the invariant |
| Designer.WriteKeepsOk | src/pages/PuzzleDesigner.tsx:322-327 | writing a letter keeps the invariant exactly unless it fills the trailing blank |
| Designer.AnswerInput | src/pages/PuzzleDesigner.tsx:33-56 | a single ASCII letter is written as typed and anything else clears the cell; either way the answer stays letters followed by one blank and the clue lists stay strictly sorted within the letters |
| Designer.TypedKeepsOk | src/pages/PuzzleDesigner.tsx:46-56 | typing a letter keeps the invariant |
| Designer.ClearedLast | src/pages/PuzzleDesigner.tsx:40-56 | clearing the last letter keeps the invariant and unlinks that letter from every clue |
| Designer.ClearedBlank | src/pages/PuzzleDesigner.tsx:40-56 | clearing the trailing blank changes nothing |
| Designer.Usage | src/pages/PuzzleDesigner.tsx:232-241 | `eachLetterUsage` gives, for every letter, how many times the clues name it, counting every copy |
| Designer.LetterConditions | src/pages/PuzzleDesigner.tsx:261-278 | the two letter warnings fire exactly when some letter is used once or more than three times |
| Designer.ClueConditions | src/pages/PuzzleDesigner.tsx:279-296 | the two clue warnings fire exactly when some clue has one or two letters, or at least half of the letters |
| Designer.UnevenSpread | src/pages/PuzzleDesigner.tsx:297-304 | the most and least used letters differ by more than one exactly when some two letters do |
| Designer.ErrorChecks | src/pages/PuzzleDesigner.tsx:242-260 | the three error checks give "error" exactly when a letter or clue is unused or a clue has no text, and flag exactly those |
| Designer.Checks | src/pages/PuzzleDesigner.tsx:242-304 | all checks: the severity, the non-empty message list and each letter and clue flag, characterised by the design alone |
| Designer.Summary | src/pages/PuzzleDesigner.tsx:305-309 | the text starts with a capital letter and reads "Puzzle is valid" exactly when no check fired |
| Designer.Validate | src/pages/PuzzleDesigner.tsx:230-309 | the severity is an error exactly when a letter or clue is unused or a clue has no text, otherwise a warning exactly when some letter is used once or more than three times, a clue is short or long, or the use is uneven; the message is "Puzzle is valid" exactly when neither; the flags mark exactly the offending letters and clues, with warning flags only when there is no error |

## Left out

- Retry loop of `generateFullPuzzleFromSeed`: the model makes one attempt and returns the failure. The source retries forever, drawing new arrow sets from the same generator. Whether that loop ends depends on the dictionary.
- `ArrowSets.Fill`: when no output is available the source would link `undefined`. The model stops with `NoCandidate` instead. Its contract promises completeness only for a finished run.
- `PuzzleGenerator.GenerateFullPuzzleFromSeed`: it promises nothing about the failure case, which the source hides inside its retry loop.
- `PuzzleGenerator.GeneratePuzzle` requires every target to be below the number of distinct targets. The answer array has that length, so the source writes past its end otherwise. Generated arrow sets meet this requirement, as `CompleteListsAreValid` proves.
- `new RegExp(origAnswer)` is modelled only for its use in the search. Such a pattern holds letters and `.` and has the same length as the word tested; `RegexTestOfSameLength` states that case. Unanchored matching of other patterns is not modelled.
- The dictionary (`src/dictionary.ts`) is a parameter: a list of (word, category) pairs of three lower-case letters.
- `Strings.ParseInt` models `parseInt` without a radix on whole numbers: leading white space (the ECMAScript white space and line terminators), an optional sign, a `0x`/`0X` prefix for base 16, then the longest run of digits, ignoring what follows. Its values are exact integers: JavaScript rounds numbers above 2^53 to the nearest double and reads more than about 309 digits as `Infinity`. Such targets are not modelled.
- `Codec.ParseRecordMeaning`, `Codec.PuzzleFromString`: a target field of more than 15 digits may read as a different number in the source, so their verdict on such fields can differ from the source's.
- Lower- and upper-casing are modelled for ASCII letters only.
- `Hash.Finish` and `Random.Mix` are not given contracts. Each of their rounds can be undone, because the multipliers are odd and a right shift xor-ed in can be undone. The model does not state that the rounds are one-to-one, since relating a 32-bit product to its inverse through these definitions is beyond what the solver settles here.
- `Random.Output` is not promised to be one-to-one, for the same reason.
- `Random.MakeRandom` takes an integer seed; non-integer seeds, which `|= 0` would truncate, are not modelled.
- The random draw is modelled as the 32-bit output. `Math.floor(random() * n)` is its product with n divided by 2^32, which is exact for the small n the program uses.
- The "missing answer" and "empty part" errors of `puzzleFromString` cannot happen, because `split` always returns at least one part and every part yields a first field. They are not modelled.
- `Util.FormatTime`, `Util.SecondsField`, `Util.MinutesField`, `Util.HoursField`, `Util.DigitFields` and `Util.ReadTimeFields` are stated for non-negative durations only. For negative ones, `FormatTime` models JavaScript's truncating `%` through `JsRem`.
- Fractional milliseconds are not modelled.
- The comparison `i >= eachLetterUsage.length / 2` on a float is modelled exactly as `2 * i >= letters`.
- `Designer.Validate` requires every target to name a letter of the answer, which the designer invariant guarantees. The source's behaviour on out-of-range targets, which would count into `NaN`, is not modelled.
- `CHEAT_puzzleAnswerFromSeed` is not modelled. The cheat is modelled from the answer it returns, in `PlayGrid.RevealGrid`.
- Not modelled, as they are rendering or I/O: the clue-text edit box, the share button, `shiftFocus`, `keyEventHandler`, the line drawing, local storage, console output, and the `won` signal with its stored copy. The test that sets the signal is modelled as `PlayGrid.Won`.
- `loadNumFromStorage` in `src/util.ts` is not part of this model.

## Notes on the source

- The parser accepts a text without any `;` that is all hex digits, and it accepts records with an empty clue. `NoSeparatorMeansNoClues` and `ParseRecord` follow the code here.
- The designer does not lower-case the letters typed into the answer. The play view does.
