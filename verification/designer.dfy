/** The puzzle designer of `src/pages/PuzzleDesigner.tsx`: an answer edited
    letter by letter (always ending in one empty cell, the "+" cell), a
    list of clue texts, and for each clue the sorted list of answer
    positions it names; plus the "Validate puzzle" report. */
module Designer {
  import Wrappers
  import opened Strings
  import opened Seqs
  import PlayGrid
  import ArrowSets

  datatype Design = Design(answer: seq<string>, clues: seq<string>, arrows: seq<seq<int>>)

  /** The designer's starting state: an empty answer and one empty clue. */
  function Initial(): Design {
    Design([""], [""], [[]])
  }

  /** "Create standard puzzle": eight placeholder letters and six empty
      clues naming nothing. */
  function StandardPuzzle(): (d: Design)
    ensures |d.answer| == ArrowSets.NUM_OUTPUTS + 1
    ensures |d.clues| == |d.arrows| == ArrowSets.NUM_WORDS
  {
    Design(seq(ArrowSets.NUM_OUTPUTS, _ => "A") + [""],
           seq(ArrowSets.NUM_WORDS, _ => ""),
           seq(ArrowSets.NUM_WORDS, _ => []))
  }

  /** The answer as the designer keeps it: letters, then one empty cell. */
  predicate Normal(answer: seq<string>) {
    && |answer| >= 1
    && answer[|answer| - 1] == ""
    && forall k :: 0 <= k < |answer| - 1 ==> answer[k] != ""
  }

  /** Every target names a letter of the answer (not the empty cell). */
  predicate Indexed(d: Design) {
    && |d.clues| == |d.arrows|
    && forall k, j :: 0 <= k < |d.arrows| && 0 <= j < |d.arrows[k]| ==>
         0 <= d.arrows[k][j] < |d.answer| - 1
  }

  /** What every designer action keeps: a normal answer, at least one
      clue, targets naming letters, and each target list ascending without
      repeats. */
  predicate DesignOk(d: Design) {
    && Normal(d.answer)
    && |d.arrows| >= 1
    && Indexed(d)
    && forall k :: 0 <= k < |d.arrows| ==> StrictlySorted(d.arrows[k])
  }

  lemma InitialOk()
    ensures DesignOk(Initial())
  {
  }

  lemma StandardOk()
    ensures DesignOk(StandardPuzzle())
  {
    var d := StandardPuzzle();
    assert d.answer[|d.answer| - 1] == "";
  }

  // ---- toggling a target -------------------------------------------------

  /** One clue's list after clicking letter `letter` in its row: every copy
      removed when present, otherwise appended and the list sorted. */
  function ToggleList(letters: seq<int>, letter: int): (r: seq<int>)
    ensures letter in r <==> letter !in letters
    ensures forall x :: x != letter ==> (x in r <==> x in letters)
    ensures Sorted(letters) ==> Sorted(r)
    ensures StrictlySorted(letters) ==> StrictlySorted(r)
  {
    if letter in letters then
      assert StrictlySorted(letters) ==> StrictlySorted(Remove(letters, letter)) by {
        if StrictlySorted(letters) {
          RemoveKeepsStrict(letters, letter);
        }
      }
      assert Sorted(letters) ==> Sorted(Remove(letters, letter)) by {
        if Sorted(letters) {
          RemoveKeepsSorted(letters, letter);
        }
      }
      Remove(letters, letter)
    else
      assert StrictlySorted(letters) ==> StrictlySorted(Sort(letters + [letter])) by {
        if StrictlySorted(letters) {
          SortPushed(letters, letter);
          InsertKeepsStrict(letters, letter);
        }
      }
      Sort(letters + [letter])
  }

  /** `toggle([letter, clue])`: only clue `clue`'s list changes. */
  function Toggle(arrows: seq<seq<int>>, letter: int, clue: int): (r: seq<seq<int>>)
    ensures |r| == |arrows|
    ensures forall i :: 0 <= i < |arrows| && i != clue ==> r[i] == arrows[i]
    ensures 0 <= clue < |arrows| ==> r[clue] == ToggleList(arrows[clue], letter)
  {
    seq(|arrows|, i requires 0 <= i < |arrows| =>
      if i == clue then ToggleList(arrows[i], letter) else arrows[i])
  }

  /** Two ascending lists without repeats that hold the same elements are
      the same list. */
  lemma {:induction false} StrictlySortedUnique(a: seq<int>, b: seq<int>)
    requires StrictlySorted(a) && StrictlySorted(b)
    requires forall x :: x in a <==> x in b
    ensures a == b
    decreases |a|
  {
    assert |a| > 0 ==> a[0] in a;
    assert |b| > 0 ==> b[0] in b;
    if |a| > 0 && |b| > 0 {
      assert a[0] == b[0] by {
        assert a[0] in a && b[0] in b;
        var i :| 0 <= i < |b| && b[i] == a[0];
        var j :| 0 <= j < |a| && a[j] == b[0];
        assert b[0] <= b[i] && a[0] <= a[j];
      }
      forall x | x in a[1..] ensures x in b[1..] {
        assert x in b && x != b[0];
      }
      forall x | x in b[1..] ensures x in a[1..] {
        assert x in a && x != a[0];
      }
      StrictlySortedUnique(a[1..], b[1..]);
      assert a == [a[0]] + a[1..] && b == [b[0]] + b[1..];
    }
  }

  /** Clicking the same letter twice restores the clue's list. */
  lemma ToggleTwice(letters: seq<int>, letter: int)
    requires StrictlySorted(letters)
    ensures ToggleList(ToggleList(letters, letter), letter) == letters
  {
    StrictlySortedUnique(ToggleList(ToggleList(letters, letter), letter), letters);
  }

  // ---- swapping and adding clues ----------------------------------------

  /** The up and down buttons: clues `i` and `j` trade places, texts and
      lists together. */
  function MoveClue(d: Design, i: int, j: int): (r: Design)
    requires 0 <= i < |d.arrows| && 0 <= j < |d.arrows| && |d.clues| == |d.arrows|
    ensures r.answer == d.answer
    ensures |r.clues| == |d.clues| && |r.arrows| == |d.arrows|
    ensures r.clues[i] == d.clues[j] && r.clues[j] == d.clues[i]
    ensures r.arrows[i] == d.arrows[j] && r.arrows[j] == d.arrows[i]
    ensures forall k :: 0 <= k < |d.arrows| && k != i && k != j ==>
              r.clues[k] == d.clues[k] && r.arrows[k] == d.arrows[k]
    ensures multiset(r.arrows) == multiset(d.arrows) && multiset(r.clues) == multiset(d.clues)
  {
    SwapPermutes(d.arrows, i, j);
    SwapPermutes(d.clues, i, j);
    Design(d.answer, Swap(d.clues, i, j), Swap(d.arrows, i, j))
  }

  /** Moving a clue back where it came from restores the design. */
  lemma MoveTwice(d: Design, i: int, j: int)
    requires 0 <= i < |d.arrows| && 0 <= j < |d.arrows| && |d.clues| == |d.arrows|
    ensures MoveClue(MoveClue(d, i, j), i, j) == d
  {
    SwapInvolutive(d.arrows, i, j);
    SwapInvolutive(d.clues, i, j);
  }

  /** "Add clue": an empty clue naming nothing, at the end. */
  function AddClue(d: Design): (r: Design)
    ensures r.answer == d.answer
    ensures |r.clues| == |d.clues| + 1 && |r.arrows| == |d.arrows| + 1
    ensures r.clues[..|d.clues|] == d.clues && r.arrows[..|d.arrows|] == d.arrows
    ensures r.clues[|d.clues|] == "" && r.arrows[|d.arrows|] == []
  {
    Design(d.answer, d.clues + [""], d.arrows + [[]])
  }

  /** The delete button: clue `clue` and its list dropped. */
  function DeleteClue(d: Design, clue: int): (r: Design)
    requires 0 <= clue < |d.arrows| && |d.clues| == |d.arrows|
    ensures r.answer == d.answer
    ensures |r.arrows| == |d.arrows| - 1 && |r.clues| == |d.clues| - 1
    ensures forall i :: 0 <= i < |r.arrows| ==>
              var from := if i < clue then i else i + 1;
              r.arrows[i] == d.arrows[from] && r.clues[i] == d.clues[from]
  {
    Design(d.answer, d.clues[..clue] + d.clues[clue + 1..], d.arrows[..clue] + d.arrows[clue + 1..])
  }

  // ---- editing the answer ------------------------------------------------

  /** Clearing letter `i`: every clue stops naming it. */
  function ClearLetter(arrows: seq<seq<int>>, i: int): (r: seq<seq<int>>)
    ensures |r| == |arrows|
    ensures forall k :: 0 <= k < |arrows| ==> i !in r[k]
    ensures forall k, x :: 0 <= k < |arrows| && x != i ==> (x in r[k] <==> x in arrows[k])
    ensures forall k :: 0 <= k < |arrows| && i !in arrows[k] ==> r[k] == arrows[k]
  {
    seq(|arrows|, k requires 0 <= k < |arrows| => Remove(arrows[k], i))
  }

  /** The `setAnswer` updater: cell `i` takes `value`; a blank cell is
      appended when the last cell is filled, and the last cell is dropped
      when the one before it is blank too. */
  function SetAnswer(before: seq<string>, i: int, value: string): (r: seq<string>)
    requires 0 <= i < |before|
    ensures |r| >= 1 && r[|r| - 1] == ""
    ensures |before| - 1 <= |r| <= |before| + 1
    ensures r[..|r| - 1] == before[i := value][..|r| - 1]
    ensures value != "" ==> i < |r| - 1 && r[i] == value
    ensures value != "" && i == |before| - 1 ==> |r| == |before| + 1
  {
    var answer := before[i := value];
    var pushed := if answer[|answer| - 1] != "" then answer + [""] else answer;
    if |pushed| >= 2 && pushed[|pushed| - 2] == "" then pushed[..|pushed| - 1] else pushed
  }

  /** The answer cell handler once the typed text is filtered to
      `value`: a letter may go anywhere, but clearing only touches the last
      letter or the blank cell, and clearing a letter also takes it out of
      every clue. */
  function SetCell(d: Design, i: int, value: string): (r: Design)
    requires 0 <= i < |d.answer|
    ensures r.clues == d.clues
    ensures value == "" && i < |d.answer| - 2 ==> r == d
    ensures value != "" || i >= |d.answer| - 2 ==> r.answer == SetAnswer(d.answer, i, value)
    ensures value != "" ==> r.arrows == d.arrows
    ensures value == "" ==> |r.arrows| == |d.arrows|
    ensures value == "" && i >= |d.answer| - 2 ==> forall k :: 0 <= k < |d.arrows| ==> i !in r.arrows[k]
    ensures value == "" ==>
              forall k, x :: 0 <= k < |d.arrows| && x != i ==> (x in r.arrows[k] <==> x in d.arrows[k])
  {
    if |d.answer| <= i + 2 || value != "" then
      var arrows :=
        if value == "" && exists k :: 0 <= k < |d.arrows| && i in d.arrows[k]
        then ClearLetter(d.arrows, i) else d.arrows;
      Design(SetAnswer(d.answer, i, value), d.clues, arrows)
    else d
  }

  /** The answer cell handler, with the typed text `data`: a single ASCII
      letter is written as typed, anything else clears the cell; either way
      the answer stays letters followed by one blank, and no clue names a
      position that is no longer a letter. */
  function AnswerInput(d: Design, i: int, data: Wrappers.Option<string>): (r: Design)
    requires 0 <= i < |d.answer|
    ensures r.clues == d.clues
    ensures data.Some? && |data.value| == 1 && IsAsciiLetter(data.value[0]) ==> r == SetCell(d, i, data.value)
    ensures !(data.Some? && |data.value| == 1 && IsAsciiLetter(data.value[0])) ==> r == SetCell(d, i, "")
    ensures DesignOk(d) ==> DesignOk(r)
  {
    var value := PlayGrid.TypedLetter(data);
    assert DesignOk(d) ==> DesignOk(SetCell(d, i, value)) by {
      if DesignOk(d) {
        if value != "" {
          TypedKeepsOk(d, i, value);
        } else if i == |d.answer| - 2 {
          ClearedLast(d, i);
        } else if i == |d.answer| - 1 {
          ClearedBlank(d, i);
        }
      }
    }
    SetCell(d, i, value)
  }

  /** The play view inside the designer: typing into a letter's cells
      replaces that letter of the answer, when something was typed. */
  function WriteLetter(d: Design, letter: int, value: string): (r: Design)
    ensures r.clues == d.clues && r.arrows == d.arrows && |r.answer| == |d.answer|
    ensures forall k :: 0 <= k < |d.answer| ==>
              r.answer[k] == if k == letter && value != "" then value else d.answer[k]
  {
    Design(seq(|d.answer|, k requires 0 <= k < |d.answer| =>
             if k == letter && value != "" then value else d.answer[k]),
           d.clues, d.arrows)
  }

  // ---- the designer keeps its invariant ----------------------------------

  lemma ToggleKeepsOk(d: Design, letter: int, clue: int)
    requires DesignOk(d)
    requires 0 <= letter < |d.answer| - 1 && 0 <= clue < |d.arrows|
    ensures DesignOk(Design(d.answer, d.clues, Toggle(d.arrows, letter, clue)))
  {
    var r := Design(d.answer, d.clues, Toggle(d.arrows, letter, clue));
    forall k, j | 0 <= k < |r.arrows| && 0 <= j < |r.arrows[k]|
      ensures 0 <= r.arrows[k][j] < |r.answer| - 1
    {
      var x := r.arrows[k][j];
      assert x in r.arrows[k];
      if k == clue && x != letter {
        assert x in d.arrows[k];
        var j' :| 0 <= j' < |d.arrows[k]| && d.arrows[k][j'] == x;
      }
    }
  }

  lemma MoveKeepsOk(d: Design, i: int, j: int)
    requires DesignOk(d) && 0 <= i < |d.arrows| && 0 <= j < |d.arrows|
    ensures DesignOk(MoveClue(d, i, j))
  {
  }

  lemma AddKeepsOk(d: Design)
    requires DesignOk(d)
    ensures DesignOk(AddClue(d))
  {
    var r := AddClue(d);
    assert forall k :: 0 <= k < |d.arrows| ==> r.arrows[k] == d.arrows[k];
  }

  lemma DeleteKeepsOk(d: Design, clue: int)
    requires DesignOk(d) && 0 <= clue < |d.arrows| && |d.arrows| > 1
    ensures DesignOk(DeleteClue(d, clue))
  {
  }

  lemma WriteKeepsOk(d: Design, letter: int, value: string)
    requires DesignOk(d)
    ensures DesignOk(WriteLetter(d, letter, value)) <==> !(letter == |d.answer| - 1 && value != "")
  {
    var r := WriteLetter(d, letter, value);
    if letter == |d.answer| - 1 && value != "" {
      assert r.answer[|r.answer| - 1] != "";
    }
  }

  /** Typing a letter into a cell keeps the invariant: into a letter it
      replaces it, into the blank it appends a new blank. */
  lemma TypedKeepsOk(d: Design, i: int, value: string)
    requires DesignOk(d) && 0 <= i < |d.answer| && value != ""
    ensures DesignOk(SetCell(d, i, value))
  {
    var n := |d.answer|;
    var r := SetCell(d, i, value);
    var a := d.answer[i := value];
    assert r.arrows == d.arrows;
    if i == n - 1 {
      assert r.answer == a + [""];
    } else {
      assert r.answer == a;
    }
  }

  /** Clearing the last letter shortens the answer by one, and that letter
      is gone from every clue. */
  lemma ClearedLast(d: Design, i: int)
    requires DesignOk(d) && 0 <= i == |d.answer| - 2
    ensures DesignOk(SetCell(d, i, ""))
    ensures forall k :: 0 <= k < |d.arrows| ==> i !in SetCell(d, i, "").arrows[k]
  {
    var r := SetCell(d, i, "");
    var cleared := ClearLetter(d.arrows, i);
    assert r.arrows == d.arrows || r.arrows == cleared;
    assert r.answer == d.answer[i := ""][..|d.answer| - 1];
    forall k | 0 <= k < |r.arrows| ensures StrictlySorted(r.arrows[k]) {
      RemoveKeepsStrict(d.arrows[k], i);
    }
    forall k, j | 0 <= k < |r.arrows| && 0 <= j < |r.arrows[k]|
      ensures 0 <= r.arrows[k][j] < |r.answer| - 1
    {
      var x := r.arrows[k][j];
      assert x in r.arrows[k] && x in d.arrows[k] && x != i;
      var j' :| 0 <= j' < |d.arrows[k]| && d.arrows[k][j'] == x;
    }
  }

  /** Clearing the blank cell changes nothing: no clue names it. */
  lemma ClearedBlank(d: Design, i: int)
    requires DesignOk(d) && i == |d.answer| - 1
    ensures SetCell(d, i, "") == d
  {
    forall k | 0 <= k < |d.arrows| ensures i !in d.arrows[k] {
    }
  }

  // ---- "Validate puzzle" -------------------------------------------------

  datatype Severity = Success | Warning | Error

  /** The alert: its severity and text, and which letters and clues to
      highlight. */
  datatype Validation = Validation(severity: Severity, message: string, letterFlags: seq<bool>, clueFlags: seq<bool>)

  const UNUSED_LETTERS: string := "some letters are not used"
  const UNUSED_CLUES: string := "some clues are not used"
  const NO_TEXT: string := "some clues have no text"
  const USED_ONCE: string := "some letters are used only once"
  const OVERUSED: string := "some letters are used excessively"
  const TOO_SHORT: string := "some clues are excessively short"
  const TOO_LONG: string := "some clues are excessively long"
  const UNEVEN: string := "letters are not used evenly"
  const VALID: string := "puzzle is valid"

  /** The counting loop: for each clue in turn, each of its targets adds
      one to that letter's count. */
  function TallyList(targets: seq<int>, usage: seq<int>): (r: seq<int>)
    requires forall j :: 0 <= j < |targets| ==> 0 <= targets[j] < |usage|
    ensures |r| == |usage|
  {
    if |targets| == 0 then usage
    else TallyList(targets[1..], usage[targets[0] := usage[targets[0]] + 1])
  }

  function Tally(arrows: seq<seq<int>>, usage: seq<int>): (r: seq<int>)
    requires forall k, j :: 0 <= k < |arrows| && 0 <= j < |arrows[k]| ==> 0 <= arrows[k][j] < |usage|
    ensures |r| == |usage|
  {
    if |arrows| == 0 then usage
    else
      var n := |arrows| - 1;
      TallyList(arrows[n], Tally(arrows[..n], usage))
  }

  /** How often position `x` is named, over all clues and all copies. */
  function Occurrences(arrows: seq<seq<int>>, x: int): nat {
    if |arrows| == 0 then 0
    else
      var n := |arrows| - 1;
      Occurrences(arrows[..n], x) + multiset(arrows[n])[x]
  }

  lemma {:induction false} TallyListCounts(targets: seq<int>, usage: seq<int>)
    requires forall j :: 0 <= j < |targets| ==> 0 <= targets[j] < |usage|
    ensures forall x :: 0 <= x < |usage| ==> TallyList(targets, usage)[x] == usage[x] + multiset(targets)[x]
    decreases |targets|
  {
    if |targets| > 0 {
      var t := targets[0];
      TallyListCounts(targets[1..], usage[t := usage[t] + 1]);
      assert targets == [t] + targets[1..];
    }
  }

  /** The counting loop counts every copy of every target. */
  lemma {:induction false} TallyCounts(arrows: seq<seq<int>>, usage: seq<int>)
    requires forall k, j :: 0 <= k < |arrows| && 0 <= j < |arrows[k]| ==> 0 <= arrows[k][j] < |usage|
    ensures forall x :: 0 <= x < |usage| ==> Tally(arrows, usage)[x] == usage[x] + Occurrences(arrows, x)
    decreases |arrows|
  {
    if |arrows| > 0 {
      var n := |arrows| - 1;
      assert forall k :: 0 <= k < n ==> arrows[..n][k] == arrows[k];
      TallyCounts(arrows[..n], usage);
      TallyListCounts(arrows[n], Tally(arrows[..n], usage));
    }
  }

  /** With no repeats inside a clue, a letter's count is the number of
      clues naming it. */
  lemma {:induction false} OccurrencesAreClues(arrows: seq<seq<int>>, x: int)
    requires forall k :: 0 <= k < |arrows| ==> StrictlySorted(arrows[k])
    ensures Occurrences(arrows, x) == CountHolding(arrows, x)
    decreases |arrows|
  {
    if |arrows| > 0 {
      var n := |arrows| - 1;
      OccurrencesAreClues(arrows[..n], x);
      StrictNoRepeats(arrows[n], x);
    }
  }

  /** How often letter `x` of the design is used. */
  function Uses(d: Design, x: int): nat {
    Occurrences(d.arrows, x)
  }

  function Letters(d: Design): nat {
    if |d.answer| == 0 then 0 else |d.answer| - 1
  }

  /** Some letter is named by no clue. */
  predicate UnusedLetter(d: Design) {
    exists x :: 0 <= x < Letters(d) && Uses(d, x) == 0
  }

  /** Some clue names no letter. */
  predicate UnusedClue(d: Design) {
    exists k :: 0 <= k < |d.arrows| && |d.arrows[k]| == 0
  }

  /** Some clue has no text. */
  predicate NoText(d: Design) {
    exists k :: 0 <= k < |d.clues| && |d.clues[k]| == 0
  }

  /** The error conditions. */
  predicate Broken(d: Design) {
    UnusedLetter(d) || UnusedClue(d) || NoText(d)
  }

  /** A letter used once or more than three times. */
  predicate OddLetter(d: Design, x: int) {
    Uses(d, x) == 1 || Uses(d, x) > 3
  }

  /** A clue with one or two targets, or with at least half the letters
      (the source compares with `letters / 2`, here kept in integers). */
  predicate OddClue(d: Design, k: int)
    requires 0 <= k < |d.arrows|
  {
    (0 < |d.arrows[k]| < 3) || 2 * |d.arrows[k]| >= Letters(d)
  }

  predicate LetterWarned(d: Design) {
    exists x :: 0 <= x < Letters(d) && OddLetter(d, x)
  }

  predicate ClueWarned(d: Design) {
    exists k :: 0 <= k < |d.arrows| && OddClue(d, k)
  }

  /** Two letters whose counts differ by more than one. */
  predicate Uneven(d: Design) {
    exists x, y :: 0 <= x < Letters(d) && 0 <= y < Letters(d) && Uses(d, x) - Uses(d, y) > 1
  }

  /** The warning conditions. */
  predicate Questionable(d: Design) {
    LetterWarned(d) || ClueWarned(d) || Uneven(d)
  }

  datatype Report = Report(severity: Severity, messages: seq<string>, letterFlags: seq<bool>, clueFlags: seq<bool>)

  /** The messages a check can add. */
  predicate Known(m: string) {
    || m == UNUSED_LETTERS || m == UNUSED_CLUES || m == NO_TEXT || m == USED_ONCE
    || m == OVERUSED || m == TOO_SHORT || m == TOO_LONG || m == UNEVEN
  }

  function Or(a: seq<bool>, b: seq<bool>): (r: seq<bool>)
    requires |a| == |b|
    ensures |r| == |a| && forall i :: 0 <= i < |a| ==> (r[i] <==> a[i] || b[i])
  {
    seq(|a|, i requires 0 <= i < |a| => a[i] || b[i])
  }

  /** An error condition: when it fires its message is added and the
      severity becomes an error. */
  function ErrorStep(r: Report, fired: bool, message: string): Report {
    if fired then r.(severity := Error, messages := r.messages + [message]) else r
  }

  /** A warning condition: when it fires its message is always added, but
      the severity and the highlights change only if there is no error. */
  function WarnStep(r: Report, fired: bool, message: string, letterMarks: seq<bool>, clueMarks: seq<bool>): (w: Report)
    requires |letterMarks| == |r.letterFlags| && |clueMarks| == |r.clueFlags|
    ensures w.severity == if fired && r.severity != Error then Warning else r.severity
    ensures w.messages == if fired then r.messages + [message] else r.messages
    ensures |w.letterFlags| == |r.letterFlags| && |w.clueFlags| == |r.clueFlags|
    ensures forall x :: 0 <= x < |r.letterFlags| ==>
              (w.letterFlags[x] <==> r.letterFlags[x] || (fired && r.severity != Error && letterMarks[x]))
    ensures forall k :: 0 <= k < |r.clueFlags| ==>
              (w.clueFlags[k] <==> r.clueFlags[k] || (fired && r.severity != Error && clueMarks[k]))
  {
    if !fired then r
    else if r.severity == Error then r.(messages := r.messages + [message])
    else Report(Warning, r.messages + [message], Or(r.letterFlags, letterMarks), Or(r.clueFlags, clueMarks))
  }

  /** `eachLetterUsage`: the counting loop run from all zeros counts how
      often each letter is named. */
  function Usage(d: Design): (u: seq<int>)
    requires |d.answer| >= 2 && Indexed(d)
    ensures |u| == Letters(d)
    ensures forall x :: 0 <= x < |u| ==> u[x] == Uses(d, x)
  {
    var zeros := seq(|d.answer| - 1, _ => 0);
    TallyCounts(d.arrows, zeros);
    Tally(d.arrows, zeros)
  }

  /** The two checks for unused letters and unused clues. */
  function UnusedChecks(d: Design): (r: Report)
    requires |d.answer| >= 2 && Indexed(d)
    ensures |r.letterFlags| == Letters(d) && |r.clueFlags| == |d.arrows|
    ensures r.severity == if UnusedLetter(d) || UnusedClue(d) then Error else Success
    ensures |r.messages| > 0 <==> UnusedLetter(d) || UnusedClue(d)
    ensures forall m :: m in r.messages ==> Known(m)
    ensures forall x :: 0 <= x < Letters(d) ==> (r.letterFlags[x] <==> Uses(d, x) == 0)
    ensures forall k :: 0 <= k < |d.arrows| ==> (r.clueFlags[k] <==> |d.arrows[k]| == 0)
  {
    var r0 := Report(Success, [], EqualMarks(Usage(d), 0), EmptyMarks(d.arrows));
    ErrorStep(ErrorStep(r0, UnusedLetter(d), UNUSED_LETTERS), UnusedClue(d), UNUSED_CLUES)
  }

  /** The three error checks. */
  function ErrorChecks(d: Design): (r: Report)
    requires |d.answer| >= 2 && Indexed(d)
    ensures |r.letterFlags| == Letters(d) && |r.clueFlags| == |d.arrows|
    ensures r.severity == if Broken(d) then Error else Success
    ensures |r.messages| > 0 <==> Broken(d)
    ensures forall m :: m in r.messages ==> Known(m)
    ensures forall x :: 0 <= x < Letters(d) ==> (r.letterFlags[x] <==> Uses(d, x) == 0)
    ensures forall k :: 0 <= k < |d.arrows| ==> (r.clueFlags[k] <==> |d.arrows[k]| == 0 || |d.clues[k]| == 0)
  {
    var r2 := UnusedChecks(d);
    if NoText(d) then
      r2.(severity := Error, messages := r2.messages + [NO_TEXT], clueFlags := Or(r2.clueFlags, EmptyMarks(d.clues)))
    else r2
  }

  /** Some letter is used exactly once. */
  predicate OnceLetter(d: Design) {
    exists x :: 0 <= x < Letters(d) && Uses(d, x) == 1
  }

  /** Some letter is used more than three times. */
  predicate OverusedLetter(d: Design) {
    exists x :: 0 <= x < Letters(d) && Uses(d, x) > 3
  }

  /** The two letter conditions fire together exactly when some letter is
      used once or more than three times. */
  lemma LetterConditions(d: Design)
    ensures OnceLetter(d) || OverusedLetter(d) <==> LetterWarned(d)
  {
    if LetterWarned(d) {
      var x :| 0 <= x < Letters(d) && OddLetter(d, x);
      assert Uses(d, x) == 1 || Uses(d, x) > 3;
    }
    if OnceLetter(d) {
      var x :| 0 <= x < Letters(d) && Uses(d, x) == 1;
      assert OddLetter(d, x);
    }
    if OverusedLetter(d) {
      var x :| 0 <= x < Letters(d) && Uses(d, x) > 3;
      assert OddLetter(d, x);
    }
  }

  /** Some clue has one or two targets. */
  predicate ShortClue(d: Design) {
    exists k :: 0 <= k < |d.arrows| && 0 < |d.arrows[k]| < 3
  }

  /** Some clue has at least half the letters. */
  predicate LongClue(d: Design) {
    exists k :: 0 <= k < |d.arrows| && 2 * |d.arrows[k]| >= Letters(d)
  }

  /** The two clue conditions fire together exactly when some clue has
      one or two targets or at least half the letters. */
  lemma ClueConditions(d: Design)
    ensures ShortClue(d) || LongClue(d) <==> ClueWarned(d)
  {
    if ClueWarned(d) {
      var k :| 0 <= k < |d.arrows| && OddClue(d, k);
      assert (0 < |d.arrows[k]| < 3) || 2 * |d.arrows[k]| >= Letters(d);
    }
    if ShortClue(d) {
      var k :| 0 <= k < |d.arrows| && 0 < |d.arrows[k]| < 3;
      assert OddClue(d, k);
    }
    if LongClue(d) {
      var k :| 0 <= k < |d.arrows| && 2 * |d.arrows[k]| >= Letters(d);
      assert OddClue(d, k);
    }
  }

  /** The warning for letters used only once. */
  function OnceLetters(d: Design): (r: Report)
    requires |d.answer| >= 2 && Indexed(d)
    ensures |r.letterFlags| == Letters(d) && |r.clueFlags| == |d.arrows|
    ensures r.severity == if Broken(d) then Error else if OnceLetter(d) then Warning else Success
    ensures |r.messages| > 0 <==> Broken(d) || OnceLetter(d)
    ensures forall m :: m in r.messages ==> Known(m)
    ensures forall x :: 0 <= x < Letters(d) ==>
              (r.letterFlags[x] <==> Uses(d, x) == 0 || (!Broken(d) && Uses(d, x) == 1))
    ensures forall k :: 0 <= k < |d.arrows| ==> (r.clueFlags[k] <==> |d.arrows[k]| == 0 || |d.clues[k]| == 0)
  {
    WarnStep(ErrorChecks(d), OnceLetter(d), USED_ONCE, EqualMarks(Usage(d), 1), NoMarks(|d.arrows|))
  }

  /** The two letter warnings: used only once, used more than three times. */
  function LetterWarnings(d: Design): (r: Report)
    requires |d.answer| >= 2 && Indexed(d)
    ensures |r.letterFlags| == Letters(d) && |r.clueFlags| == |d.arrows|
    ensures r.severity == if Broken(d) then Error else if LetterWarned(d) then Warning else Success
    ensures |r.messages| > 0 <==> Broken(d) || LetterWarned(d)
    ensures forall m :: m in r.messages ==> Known(m)
    ensures forall x :: 0 <= x < Letters(d) ==>
              (r.letterFlags[x] <==> Uses(d, x) == 0 || (!Broken(d) && OddLetter(d, x)))
    ensures forall k :: 0 <= k < |d.arrows| ==> (r.clueFlags[k] <==> |d.arrows[k]| == 0 || |d.clues[k]| == 0)
  {
    LetterConditions(d);
    WarnStep(OnceLetters(d), OverusedLetter(d), OVERUSED, AboveMarks(Usage(d), 3), NoMarks(|d.arrows|))
  }

  /** The letters counted exactly `n` times. */
  function EqualMarks(usage: seq<int>, n: int): (r: seq<bool>)
    ensures |r| == |usage| && forall x :: 0 <= x < |usage| ==> (r[x] <==> usage[x] == n)
  {
    seq(|usage|, x requires 0 <= x < |usage| => usage[x] == n)
  }

  /** The letters counted more than `n` times. */
  function AboveMarks(usage: seq<int>, n: int): (r: seq<bool>)
    ensures |r| == |usage| && forall x :: 0 <= x < |usage| ==> (r[x] <==> usage[x] > n)
  {
    seq(|usage|, x requires 0 <= x < |usage| => usage[x] > n)
  }

  /** The empty entries: clues naming no letter, or without text. */
  function EmptyMarks<T>(s: seq<seq<T>>): (r: seq<bool>)
    ensures |r| == |s| && forall k :: 0 <= k < |s| ==> (r[k] <==> |s[k]| == 0)
  {
    seq(|s|, k requires 0 <= k < |s| => |s[k]| == 0)
  }

  /** No highlights. */
  function NoMarks(n: nat): (r: seq<bool>)
    ensures |r| == n && forall i :: 0 <= i < n ==> !r[i]
  {
    seq(n, _ => false)
  }

  /** The clues with fewer than three targets. */
  function ShortMarks(d: Design): (r: seq<bool>)
    ensures |r| == |d.arrows| && forall k :: 0 <= k < |d.arrows| ==> (r[k] <==> |d.arrows[k]| < 3)
  {
    seq(|d.arrows|, k requires 0 <= k < |d.arrows| => |d.arrows[k]| < 3)
  }

  /** The clues with at least half the letters. */
  function LongMarks(d: Design): (r: seq<bool>)
    ensures |r| == |d.arrows| && forall k :: 0 <= k < |d.arrows| ==> (r[k] <==> 2 * |d.arrows[k]| >= Letters(d))
  {
    seq(|d.arrows|, k requires 0 <= k < |d.arrows| => 2 * |d.arrows[k]| >= Letters(d))
  }

  /** The warning for clues with one or two targets. */
  function ShortClues(d: Design): (r: Report)
    requires |d.answer| >= 2 && Indexed(d)
    ensures |r.letterFlags| == Letters(d) && |r.clueFlags| == |d.arrows|
    ensures r.severity == if Broken(d) then Error else if LetterWarned(d) || ShortClue(d) then Warning else Success
    ensures |r.messages| > 0 <==> Broken(d) || LetterWarned(d) || ShortClue(d)
    ensures forall m :: m in r.messages ==> Known(m)
    ensures forall x :: 0 <= x < Letters(d) ==>
              (r.letterFlags[x] <==> Uses(d, x) == 0 || (!Broken(d) && OddLetter(d, x)))
    ensures forall k :: 0 <= k < |d.arrows| ==>
              (r.clueFlags[k] <==> (|d.arrows[k]| == 0 || |d.clues[k]| == 0 || (!Broken(d) && |d.arrows[k]| < 3)))
  {
    var letters := |d.answer| - 1;
    WarnStep(LetterWarnings(d), ShortClue(d), TOO_SHORT, NoMarks(letters), ShortMarks(d))
  }

  /** The two clue warnings: one or two targets, at least half the letters. */
  function ClueWarnings(d: Design): (r: Report)
    requires |d.answer| >= 2 && Indexed(d)
    ensures |r.letterFlags| == Letters(d) && |r.clueFlags| == |d.arrows|
    ensures r.severity == if Broken(d) then Error else if LetterWarned(d) || ClueWarned(d) then Warning else Success
    ensures |r.messages| > 0 <==> Broken(d) || LetterWarned(d) || ClueWarned(d)
    ensures forall m :: m in r.messages ==> Known(m)
    ensures forall x :: 0 <= x < Letters(d) ==>
              (r.letterFlags[x] <==> Uses(d, x) == 0 || (!Broken(d) && OddLetter(d, x)))
    ensures forall k :: 0 <= k < |d.arrows| ==>
              (r.clueFlags[k] <==> (|d.arrows[k]| == 0 || |d.clues[k]| == 0
                                    || (!Broken(d) && (|d.arrows[k]| < 3 || 2 * |d.arrows[k]| >= Letters(d)))))
  {
    var letters := |d.answer| - 1;
    ClueConditions(d);
    WarnStep(ShortClues(d), LongClue(d), TOO_LONG, NoMarks(letters), LongMarks(d))
  }

  /** The spread between the largest and smallest count exceeds one
      exactly when two letters' counts differ by more than one. */
  lemma UnevenSpread(d: Design, usage: seq<int>)
    requires |usage| == Letters(d) > 0
    requires forall x :: 0 <= x < |usage| ==> usage[x] == Uses(d, x)
    ensures MaxOf(usage) - MinOf(usage) > 1 <==> Uneven(d)
  {
    if Uneven(d) {
      var x, y :| 0 <= x < Letters(d) && 0 <= y < Letters(d) && Uses(d, x) - Uses(d, y) > 1;
      assert usage[x] <= MaxOf(usage) && MinOf(usage) <= usage[y];
    }
    if MaxOf(usage) - MinOf(usage) > 1 {
      var x :| 0 <= x < |usage| && usage[x] == MaxOf(usage);
      var y :| 0 <= y < |usage| && usage[y] == MinOf(usage);
      assert Uses(d, x) - Uses(d, y) > 1;
    }
  }

  /** All the checks, ending with the spread between the most and least
      used letters. */
  function Checks(d: Design): (r: Report)
    requires |d.answer| >= 2 && Indexed(d)
    ensures |r.letterFlags| == Letters(d) && |r.clueFlags| == |d.arrows|
    ensures r.severity == if Broken(d) then Error else if Questionable(d) then Warning else Success
    ensures |r.messages| > 0 <==> Broken(d) || Questionable(d)
    ensures forall m :: m in r.messages ==> Known(m)
    ensures forall x :: 0 <= x < Letters(d) ==>
              (r.letterFlags[x] <==> Uses(d, x) == 0 || (!Broken(d) && OddLetter(d, x)))
    ensures forall k :: 0 <= k < |d.arrows| ==>
              (r.clueFlags[k] <==> (|d.arrows[k]| == 0 || |d.clues[k]| == 0
                                    || (!Broken(d) && (|d.arrows[k]| < 3 || 2 * |d.arrows[k]| >= Letters(d)))))
  {
    var usage := Usage(d);
    var r7 := ClueWarnings(d);
    var uneven := MaxOf(usage) - MinOf(usage) > 1;
    UnevenSpread(d, usage);
    if uneven then
      r7.(severity := if r7.severity == Error then Error else Warning, messages := r7.messages + [UNEVEN])
    else r7
  }

  /** The first message with its first letter upper-cased. */
  function Capitalise(m: string): (r: string)
    requires |m| > 0
    ensures |r| == |m| && r[0] == UpperChar(m[0]) && r[1..] == m[1..]
  {
    [UpperChar(m[0])] + m[1..]
  }

  /** `messages.join(", ")`. */
  function JoinMessages(ms: seq<string>): (r: string)
    requires |ms| > 0
    ensures |r| >= |ms[0]| && r[..|ms[0]|] == ms[0]
  {
    if |ms| == 1 then ms[0] else ms[0] + ", " + JoinMessages(ms[1..])
  }

  /** Every check's message starts with a lower-case 's' or 'l'. */
  lemma KnownStart(m: string)
    requires Known(m)
    ensures |m| > 0 && (m[0] == 's' || m[0] == 'l')
  {
  }

  /** The text shown: the messages joined after capitalising the first,
      or the validity message when there are none. It starts with a
      capital, and reads "Puzzle is valid" exactly when no check fired:
      every check's message starts with 's' or 'l'. */
  function Summary(messages: seq<string>): (t: string)
    requires forall m :: m in messages ==> Known(m)
    ensures |t| > 0 && 'A' <= t[0] <= 'Z'
    ensures t == "Puzzle is valid" <==> |messages| == 0
  {
    var ms := if |messages| == 0 then [VALID] else messages;
    assert |ms[0]| > 0 && (|messages| > 0 ==> ms[0][0] == 's' || ms[0][0] == 'l') by {
      if |messages| > 0 { KnownStart(messages[0]); }
    }
    var first := Capitalise(ms[0]);
    var t := JoinMessages([first] + ms[1..]);
    assert t[0] == first[0];
    if |messages| == 0 then
      assert t == "Puzzle is valid";
      t
    else t
  }

  /** The "Validate puzzle" button, shown once the answer has two letters
      and there are two clues. The severity is an error exactly when a
      letter or clue is unused or a clue has no text, otherwise a warning
      exactly when a warning condition holds; the text reads "Puzzle is
      valid" exactly when nothing fired, and always starts with a capital. */
  function Validate(d: Design): (v: Validation)
    requires |d.answer| > 2 && |d.clues| > 1 && Indexed(d)
    ensures |v.letterFlags| == |d.answer| - 1 && |v.clueFlags| == |d.arrows|
    ensures v.severity == Error <==> Broken(d)
    ensures v.severity == Warning <==> !Broken(d) && Questionable(d)
    ensures v.severity == Success <==> !Broken(d) && !Questionable(d)
    ensures v.message == "Puzzle is valid" <==> !Broken(d) && !Questionable(d)
    ensures |v.message| > 0 && 'A' <= v.message[0] <= 'Z'
    ensures forall x :: 0 <= x < |d.answer| - 1 ==>
              (v.letterFlags[x] <==> Uses(d, x) == 0 || (!Broken(d) && OddLetter(d, x)))
    ensures forall k :: 0 <= k < |d.arrows| ==>
              (v.clueFlags[k] <==> (|d.arrows[k]| == 0 || |d.clues[k]| == 0
                                    || (!Broken(d) && (|d.arrows[k]| < 3 || 2 * |d.arrows[k]| >= |d.answer| - 1))))
  {
    var r := Checks(d);
    var message := Summary(r.messages);
    Validation(r.severity, message, r.letterFlags, r.clueFlags)
  }
}
