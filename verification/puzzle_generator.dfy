/** The word assignment of `src/puzzle_generator.ts`: `backtrack` fills the
    answer slots clue by clue with dictionary words whose letters fit the
    slots already filled, never reusing a category; `generatePuzzle` runs
    it from an all-`.` answer and commits to the result with `hash`;
    `generateFullPuzzleFromSeed` chains the arrow sets and the assignment
    on one seeded generator. The dictionary is a parameter: a list of
    (word, category) pairs. */
module PuzzleGenerator {
  import opened Wrappers
  import opened Strings
  import opened Seqs
  import opened Random
  import opened Hash
  import ArrowSets
  import opened Puzzles

  /** An entry of the dictionary: a word and its category label. */
  type Entry = (string, string)

  /** The mark of an answer slot not filled yet. */
  const BLANK: char := '.'

  /** Three lower-case letters, so that a word is also a regular
      expression matching itself and nothing but a letter fills a slot. */
  predicate ValidWord(w: string) {
    |w| == ArrowSets.WORD_LENGTH && forall i :: 0 <= i < |w| ==> IsLowerLetter(w[i])
  }

  predicate ValidDictionary(dict: seq<Entry>) {
    forall e :: e in dict ==> ValidWord(e.0)
  }

  /** Every clue names three distinct slots of an answer of length `n`. */
  predicate ValidLists(arrows: seq<seq<int>>, n: int) {
    forall k :: 0 <= k < |arrows| ==>
      |arrows[k]| == ArrowSets.WORD_LENGTH && Distinct(arrows[k]) && InRange(arrows[k], n)
  }

  /** Every target names a slot of an answer of length `n`. */
  predicate InRange(targets: seq<int>, n: int) {
    forall i :: 0 <= i < |targets| ==> 0 <= targets[i] < n
  }

  /** `targets.map(i => answer[i]).join("")`. */
  function Spell(answer: seq<char>, targets: seq<int>): (r: string)
    requires InRange(targets, |answer|)
    ensures |r| == |targets|
    ensures forall i :: 0 <= i < |targets| ==> r[i] == answer[targets[i]]
  {
    seq(|targets|, i requires 0 <= i < |targets| => answer[targets[i]])
  }

  /** `for (i < word.length) answer[targets[i]] = word[i]`, in order; a
      letter beyond the last target lands on no slot. */
  function Write(answer: seq<char>, targets: seq<int>, word: string): (r: seq<char>)
    requires InRange(targets, |answer|)
    ensures |r| == |answer|
    ensures forall p :: 0 <= p < |answer| && p !in targets ==> r[p] == answer[p]
    decreases |targets|
  {
    if |targets| == 0 || |word| == 0 then answer
    else
      assert forall t :: t in targets[1..] ==> t in targets;
      Write(answer[targets[0] := word[0]], targets[1..], word[1..])
  }

  /** `new RegExp(pattern).test(word)` for a pattern of letters and `.`:
      some window of the word matches letter for letter, `.` matching any
      character. */
  function RegexTest(pattern: string, word: string): bool
    decreases |word|
  {
    |pattern| <= |word| && (Fits(pattern, word[..|pattern|]) || RegexTest(pattern, word[1..]))
  }

  /** A word of the pattern's length agrees with it wherever the pattern
      holds a letter. */
  predicate Fits(pattern: string, word: string) {
    |pattern| == |word| && forall i :: 0 <= i < |pattern| ==> pattern[i] == BLANK || pattern[i] == word[i]
  }

  /** For a pattern as long as the word the unanchored test is the
      position-wise match. */
  lemma RegexTestOfSameLength(pattern: string, word: string)
    requires |pattern| == |word|
    ensures RegexTest(pattern, word) <==> Fits(pattern, word)
  {
    assert word[..|pattern|] == word;
  }

  /** The `DICTIONARY.filter(...)` of the step: the entries, in dictionary
      order, whose category is not used yet and whose word the pattern
      accepts. */
  function Candidates(dict: seq<Entry>, used: seq<string>, pattern: string): (r: seq<Entry>)
    ensures forall e :: e in r <==> e in dict && e.1 !in used && RegexTest(pattern, e.0)
    ensures |r| <= |dict|
  {
    if |dict| == 0 then []
    else
      var rest := Candidates(dict[1..], used, pattern);
      assert forall e :: e in dict <==> e == dict[0] || e in dict[1..];
      if dict[0].1 !in used && RegexTest(pattern, dict[0].0) then [dict[0]] + rest else rest
  }

  /** Every slot holding a letter in `before` holds the same letter in `after`. */
  predicate Refines(after: seq<char>, before: seq<char>) {
    |after| == |before| && forall p :: 0 <= p < |before| && before[p] != BLANK ==> after[p] == before[p]
  }

  /** The outcome of a call: whether it succeeded, the clue and answer
      arrays as the call leaves them, and the generator after it. */
  datatype Search = Search(ok: bool, clues: seq<string>, answer: seq<char>, rng: Rng)

  /** The slots outside `targets` agree. */
  predicate AgreeOutside(a: seq<char>, b: seq<char>, targets: seq<int>) {
    |a| == |b| && forall p :: 0 <= p < |a| && p !in targets ==> a[p] == b[p]
  }

  /** Clue `k` for `k` from `from` on spells a dictionary word of its category
      and differs from every clue before it. */
  predicate NewCluesHold(dict: seq<Entry>, arrows: seq<seq<int>>, clues: seq<string>, answer: seq<char>, from: int)
    requires ValidLists(arrows, |answer|) && |clues| == |arrows| && 0 <= from
  {
    && (forall k :: from <= k < |arrows| ==> (Spell(answer, arrows[k]), clues[k]) in dict)
    && (forall k, j :: from <= k < |arrows| && 0 <= j < k ==> clues[j] != clues[k])
  }

  /** `backtrack(clues, arrows, random, answer)`: with every clue assigned
      it succeeds; otherwise it tries, in shuffled order, every candidate
      for the next clue. On success the clues are complete, the earlier
      ones kept, the new ones distinct and spelled by the answer, which
      only gained letters; on failure clues and answer are as on entry. */
  function Backtrack(dict: seq<Entry>, arrows: seq<seq<int>>, clues: seq<string>, answer: seq<char>, g: Rng): (r: Search)
    requires ValidDictionary(dict) && ValidLists(arrows, |answer|) && |clues| <= |arrows|
    ensures |r.answer| == |answer|
    ensures !r.ok ==> r.clues == clues && r.answer == answer
    ensures r.ok ==> |r.clues| == |arrows| && r.clues[..|clues|] == clues && Refines(r.answer, answer)
    ensures r.ok ==> NewCluesHold(dict, arrows, r.clues, r.answer, |clues|)
    decreases |arrows| - |clues|, 1, 0
  {
    if |clues| == |arrows| then Search(true, clues, answer, g)
    else
      var targets := arrows[|clues|];
      var pattern := Spell(answer, targets);
      var options := Candidates(dict, clues, pattern);
      var (shuffled, g1) := Shuffle(options, g);
      assert forall e :: e in shuffled ==> e in options by {
        assert forall e :: e in shuffled <==> e in multiset(shuffled);
      }
      var r := TryOptions(dict, arrows, clues, answer, answer, shuffled, g1);
      if r.ok then r
      else
        RestoreSlots(r.answer, targets, answer);
        Search(false, r.clues, Write(r.answer, targets, pattern), r.rng)
  }

  /** The `for (let [word, category] of options)` loop of `backtrack`:
      `base` is the answer on entry to `backtrack`, `answer` the array as
      the previous option left it. */
  function TryOptions(dict: seq<Entry>, arrows: seq<seq<int>>, clues: seq<string>,
                      base: seq<char>, answer: seq<char>, options: seq<Entry>, g: Rng): (r: Search)
    requires ValidDictionary(dict) && ValidLists(arrows, |base|) && |clues| < |arrows|
    requires AgreeOutside(answer, base, arrows[|clues|])
    requires forall e :: e in options ==>
      e in dict && e.1 !in clues && RegexTest(Spell(base, arrows[|clues|]), e.0)
    ensures |r.answer| == |base|
    ensures !r.ok ==> r.clues == clues && AgreeOutside(r.answer, base, arrows[|clues|])
    ensures r.ok ==> |r.clues| == |arrows| && r.clues[..|clues|] == clues && Refines(r.answer, base)
    ensures r.ok ==> NewCluesHold(dict, arrows, r.clues, r.answer, |clues|)
    decreases |arrows| - |clues|, 0, |options|
  {
    if |options| == 0 then Search(false, clues, answer, g)
    else
      var (word, category) := options[0];
      var targets := arrows[|clues|];
      var clues1 := clues + [category];
      var answer1 := Write(answer, targets, word);
      WriteFittingWord(answer, base, targets, word);
      var r := Backtrack(dict, arrows, clues1, answer1, g);
      if r.ok then
        AssignedClueHolds(dict, arrows, clues, base, answer1, word, category, r);
        r
      else
        assert r.clues[..|r.clues| - 1] == clues;
        assert forall e :: e in options[1..] ==> e in options;
        TryOptions(dict, arrows, r.clues[..|r.clues| - 1], base, r.answer, options[1..], r.rng)
  }

  /** Writing a candidate over the step's slots: whatever the previous
      option left there, the result is the candidate written over `base`;
      it spells the candidate and only gains letters over `base`. */
  lemma WriteFittingWord(answer: seq<char>, base: seq<char>, targets: seq<int>, word: string)
    requires |targets| == ArrowSets.WORD_LENGTH && Distinct(targets) && InRange(targets, |base|)
    requires AgreeOutside(answer, base, targets)
    requires ValidWord(word) && RegexTest(Spell(base, targets), word)
    ensures Write(answer, targets, word) == Write(base, targets, word)
    ensures Spell(Write(answer, targets, word), targets) == word
    ensures Refines(Write(answer, targets, word), base)
  {
    RegexTestOfSameLength(Spell(base, targets), word);
    WriteAt(answer, targets, word);
    WriteAt(base, targets, word);
    var x := Write(answer, targets, word);
    var y := Write(base, targets, word);
    forall p | 0 <= p < |base| ensures x[p] == y[p] {
      if p in targets {
        var i :| 0 <= i < |targets| && targets[i] == p;
        assert x[p] == word[i] == y[p];
      }
    }
    forall p | 0 <= p < |base| && base[p] != BLANK ensures y[p] == base[p] {
      if p in targets {
        var i :| 0 <= i < |targets| && targets[i] == p;
        assert Spell(base, targets)[i] == base[p];
      }
    }
  }

  /** With distinct targets each target ends up holding its own letter. */
  lemma {:induction false} WriteAt(answer: seq<char>, targets: seq<int>, word: string)
    requires Distinct(targets) && InRange(targets, |answer|) && |word| >= |targets|
    ensures forall i :: 0 <= i < |targets| ==> Write(answer, targets, word)[targets[i]] == word[i]
    decreases |targets|
  {
    if |targets| > 0 {
      var rest := targets[1..];
      assert forall t :: t in rest ==> t in targets;
      var a1 := answer[targets[0] := word[0]];
      WriteAt(a1, rest, word[1..]);
      assert targets[0] !in rest by {
        forall i | 0 <= i < |rest| ensures rest[i] != targets[0] {
          assert rest[i] == targets[i + 1];
        }
      }
      forall i | 0 <= i < |targets| ensures Write(answer, targets, word)[targets[i]] == word[i] {
        if i > 0 {
          assert targets[i] == rest[i - 1];
        }
      }
    }
  }

  /** The restore loop after the options run out: writing back the
      pattern read on entry returns every target slot to its old letter,
      and the other slots already agree. */
  lemma RestoreSlots(answer: seq<char>, targets: seq<int>, base: seq<char>)
    requires InRange(targets, |base|) && AgreeOutside(answer, base, targets)
    ensures Write(answer, targets, Spell(base, targets)) == base
  {
    WriteOwnLetters(answer, targets, base);
  }

  lemma {:induction false} WriteOwnLetters(answer: seq<char>, targets: seq<int>, base: seq<char>)
    requires InRange(targets, |base|) && |answer| == |base|
    ensures forall p :: 0 <= p < |base| && p in targets ==> Write(answer, targets, Spell(base, targets))[p] == base[p]
    decreases |targets|
  {
    if |targets| > 0 {
      var rest := targets[1..];
      assert forall t :: t in rest ==> t in targets;
      var a1 := answer[targets[0] := base[targets[0]]];
      assert Spell(base, targets)[1..] == Spell(base, rest);
      WriteOwnLetters(a1, rest, base);
      assert Write(answer, targets, Spell(base, targets)) == Write(a1, rest, Spell(base, rest));
      assert forall p :: p in targets ==> p == targets[0] || p in rest;
    }
  }

  /** A clue assigned in this step stays spelled under later refinement:
      the word's letters are not blanks, so no later step rewrites them. */
  lemma AssignedClueHolds(dict: seq<Entry>, arrows: seq<seq<int>>, clues: seq<string>, base: seq<char>,
                          answer1: seq<char>, word: string, category: string, r: Search)
    requires ValidDictionary(dict) && ValidLists(arrows, |base|) && |clues| < |arrows|
    requires (word, category) in dict && category !in clues
    requires |answer1| == |base| && Spell(answer1, arrows[|clues|]) == word
    requires Refines(answer1, base)
    requires |r.clues| == |arrows| && r.clues[..|clues| + 1] == clues + [category]
    requires Refines(r.answer, answer1)
    requires NewCluesHold(dict, arrows, r.clues, r.answer, |clues| + 1)
    ensures |r.clues| == |arrows| && r.clues[..|clues|] == clues && Refines(r.answer, base)
    ensures NewCluesHold(dict, arrows, r.clues, r.answer, |clues|)
  {
    var k0 := |clues|;
    var targets := arrows[k0];
    assert r.clues[k0] == category by {
      assert r.clues[..k0 + 1][k0] == category;
    }
    assert r.clues[..k0] == clues by {
      assert r.clues[..k0] == r.clues[..k0 + 1][..k0];
    }
    assert Spell(r.answer, targets) == word by {
      forall i | 0 <= i < |targets| ensures r.answer[targets[i]] == word[i] {
        assert answer1[targets[i]] == word[i];
        assert IsLowerLetter(word[i]);
      }
    }
    forall j | 0 <= j < k0 ensures r.clues[j] != r.clues[k0] {
      assert r.clues[j] == clues[j];
    }
  }

  /** Every clue spells a dictionary word of its category, and no two
      clues share a category. */
  predicate Solves(dict: seq<Entry>, arrows: seq<seq<int>>, clues: seq<string>, answer: seq<char>)
    requires ValidLists(arrows, |answer|)
  {
    && |clues| == |arrows|
    && (forall k :: 0 <= k < |arrows| ==> (Spell(answer, arrows[k]), clues[k]) in dict)
    && Distinct(clues)
    && BLANK !in answer
  }

  datatype GenerationError =
    | FailedToGenerate   // "Failed to generate puzzle": the search found no assignment
    | FailedToFill       // "Failed to fill in all outputs": a slot is still `.`
    | NoCandidateSlot    // the arrow-set loop found no slot to link

  datatype Generated = Generated(clues: seq<string>, outputCount: nat, answerHash: string, rng: Rng)

  /** The answer length `generatePuzzle` works with: one slot per distinct
      target. */
  function SlotCount(arrows: seq<seq<int>>): nat {
    |TargetSet(arrows)|
  }

  /** `generatePuzzle(arrows, random)`: the clue labels, the number of
      distinct slots and the hash of the filled answer. The source calls it
      only on generated arrow sets, whose slots are `0 .. 7` without a gap;
      the requirement that every target is below the slot count states
      that. */
  function GeneratePuzzle(dict: seq<Entry>, arrows: seq<seq<int>>, g: Rng): (r: Result<Generated, GenerationError>)
    requires ValidDictionary(dict) && ValidLists(arrows, SlotCount(arrows))
    ensures r.Success? ==> r.value.outputCount == SlotCount(arrows)
    ensures r.Success? ==>
              exists answer: seq<char> :: |answer| == SlotCount(arrows)
                && Solves(dict, arrows, r.value.clues, answer) && r.value.answerHash == Hash.Hash(answer)
  {
    var n := SlotCount(arrows);
    var answer := seq(n, _ => BLANK);
    var s := Backtrack(dict, arrows, [], answer, g);
    if !s.ok then Failure(FailedToGenerate)
    else if BLANK in s.answer then Failure(FailedToFill)
    else
      assert Solves(dict, arrows, s.clues, s.answer) by {
        assert forall j, k :: 0 <= j < k < |s.clues| ==> s.clues[j] != s.clues[k];
      }
      Success(Generated(s.clues, n, Hash.Hash(s.answer), s.rng))
  }

  /** The second throw of `generatePuzzle` cannot happen: every slot below
      the slot count is some clue's target, and a successful search spells
      a word of letters at every clue. */
  lemma GeneratePuzzleFillsEverySlot(dict: seq<Entry>, arrows: seq<seq<int>>, g: Rng)
    requires ValidDictionary(dict) && ValidLists(arrows, SlotCount(arrows))
    ensures GeneratePuzzle(dict, arrows, g) != Failure(FailedToFill)
  {
    var n := SlotCount(arrows);
    var answer := seq(n, _ => BLANK);
    var s := Backtrack(dict, arrows, [], answer, g);
    if s.ok {
      FullSetBelow(TargetSet(arrows), n);
      forall p | 0 <= p < n ensures s.answer[p] != BLANK {
        assert p in TargetSet(arrows);
        var k :| 0 <= k < |arrows| && p in arrows[k];
        var i :| 0 <= i < |arrows[k]| && arrows[k][i] == p;
        var w := Spell(s.answer, arrows[k]);
        assert (w, s.clues[k]) in dict;
        assert IsLowerLetter(w[i]);
      }
    }
  }

  /** A complete arrow topology names every slot `0 .. 7`, so the generator
      may call `generatePuzzle` on it. */
  lemma CompleteListsAreValid(arrows: seq<seq<int>>)
    requires ArrowSets.Complete(arrows)
    ensures SlotCount(arrows) == ArrowSets.NUM_OUTPUTS
    ensures ValidLists(arrows, ArrowSets.NUM_OUTPUTS)
  {
    CompleteNamesEverySlot(arrows);
    AscendingListsAreValid(arrows);
  }

  lemma AscendingListsAreValid(arrows: seq<seq<int>>)
    requires forall k :: 0 <= k < |arrows| ==>
      |arrows[k]| == ArrowSets.WORD_LENGTH && StrictlySorted(arrows[k])
      && forall t :: t in arrows[k] ==> 0 <= t < ArrowSets.NUM_OUTPUTS
    ensures ValidLists(arrows, ArrowSets.NUM_OUTPUTS)
  {
    forall k | 0 <= k < |arrows|
      ensures Distinct(arrows[k]) && InRange(arrows[k], ArrowSets.NUM_OUTPUTS)
    {
      var xs := arrows[k];
      assert StrictlySorted(xs);
      assert forall i :: 0 <= i < |xs| ==> xs[i] in xs;
    }
  }

  lemma CompleteNamesEverySlot(arrows: seq<seq<int>>)
    requires ArrowSets.Complete(arrows)
    ensures TargetSet(arrows) == Below(ArrowSets.NUM_OUTPUTS)
  {
    var s := TargetSet(arrows);
    forall d | 0 <= d < ArrowSets.NUM_OUTPUTS ensures d in s {
      CountHoldingWitness(arrows, d);
    }
  }

  /** `generateFullPuzzleFromSeed(seed, isDaily)`, one pass of its retry
      loop: the arrow sets and then the assignment, both drawing from
      `makeRandom(seed)`. A success is a seeded puzzle with six clues over
      eight slots whose hash some solution validates. */
  function GenerateFullPuzzleFromSeed(dict: seq<Entry>, seed: int, isDaily: bool): (r: Result<PuzzleData, GenerationError>)
    requires ValidDictionary(dict)
    ensures r.Success? ==> ArrowSets.Complete(r.value.arrows)
    ensures r.Success? ==> |r.value.clues| == ArrowSets.NUM_WORDS && r.value.outputCount == ArrowSets.NUM_OUTPUTS
    ensures r.Success? ==> r.value.origin == Seeded(seed, isDaily)
    ensures r.Success? ==>
              exists solution: seq<char> :: |solution| == ArrowSets.NUM_OUTPUTS
                && ValidLists(r.value.arrows, |solution|)
                && Solves(dict, r.value.arrows, r.value.clues, solution)
                && ValidatePuzzleSolution(solution, r.value.answerHash)
  {
    var g := MakeRandom(seed);
    var a := ArrowSets.GenerateArrowSets(g);
    if a.NoCandidate? then Failure(NoCandidateSlot)
    else
      CompleteListsAreValid(a.arrows);
      var p := GeneratePuzzle(dict, a.arrows, a.rng);
      if p.Failure? then Failure(p.error)
      else
        var solution :| |solution| == SlotCount(a.arrows)
              && Solves(dict, a.arrows, p.value.clues, solution) && p.value.answerHash == Hash.Hash(solution);
        ValidateOwnHash(solution);
        Success(PuzzleData(a.arrows, p.value.clues, p.value.outputCount, p.value.answerHash, Seeded(seed, isDaily)))
  }
}
