/** `generateArrowSets` of `src/arrow_sets.ts`: the clue-to-slot topology.
    Six word lists start empty; word 0 is linked to slot 0 and word 5 to
    slot 7; then, while some word has fewer than three targets, one such
    word is picked at random and linked to a random slot among those of
    least use that the word does not hold yet. The source has no
    relabelling pass after the loop. */
module ArrowSets {
  import opened Seqs
  import opened Random

  const NUM_WORDS: nat := 6
  const NUM_OUTPUTS: nat := 8
  /** The loop fills every word up to this many targets. */
  const WORD_LENGTH: nat := 3

  /** The loop state: each word's targets and each slot's use counter. */
  datatype Builder = Builder(arrows: seq<seq<int>>, outputUse: seq<int>)

  /** How the loop ends: every word full, or a pick with no candidate slot,
      where the source would link `undefined` (the model stops there). */
  datatype ArrowOutcome =
    | Built(arrows: seq<seq<int>>, rng: Rng)
    | NoCandidate(arrows: seq<seq<int>>, rng: Rng)

  /** `link(source, dest)`: push the slot, re-sort the list numerically
      and count one more use of the slot. The lists are kept sorted, so
      the push and sort is the insertion of the slot in place
      (`LinkIsPushAndSort`). */
  function Link(b: Builder, w: int, d: int): (r: Builder)
    requires 0 <= w < |b.arrows| && 0 <= d < |b.outputUse|
    ensures |r.arrows| == |b.arrows| && |r.outputUse| == |b.outputUse|
    ensures d in r.arrows[w]
    ensures multiset(r.arrows[w]) == multiset(b.arrows[w]) + multiset{d}
    ensures Sorted(b.arrows[w]) ==> Sorted(r.arrows[w])
    ensures forall k :: 0 <= k < |b.arrows| && k != w ==> r.arrows[k] == b.arrows[k]
    ensures r.outputUse[d] == b.outputUse[d] + 1
    ensures forall e :: 0 <= e < |b.outputUse| && e != d ==> r.outputUse[e] == b.outputUse[e]
  {
    assert Sorted(b.arrows[w]) ==> Sorted(Insert(b.arrows[w], d)) by {
      if Sorted(b.arrows[w]) { InsertKeepsSorted(b.arrows[w], d); }
    }
    Builder(b.arrows[w := Insert(b.arrows[w], d)], b.outputUse[d := b.outputUse[d] + 1])
  }

  /** The indices of the words not yet holding three targets, ascending
      (`Object.values(arrows).filter(a => a.length != 3)`). */
  function WordsLeft(arrows: seq<seq<int>>): (r: seq<int>)
    ensures forall k :: k in r <==> 0 <= k < |arrows| && |arrows[k]| != WORD_LENGTH
  {
    if |arrows| == 0 then []
    else
      var n := |arrows| - 1;
      var front := WordsLeft(arrows[..n]);
      assert forall k :: 0 <= k < n ==> arrows[..n][k] == arrows[k];
      front + (if |arrows[n]| != WORD_LENGTH then [n] else [])
  }

  /** The slots of use `m` that `word` does not hold, ascending. */
  function Available(use: seq<int>, word: seq<int>, m: int): (r: seq<int>)
    ensures forall i :: i in r <==> 0 <= i < |use| && use[i] == m && i !in word
  {
    if |use| == 0 then []
    else
      var n := |use| - 1;
      var front := Available(use[..n], word, m);
      assert forall i :: 0 <= i < n ==> use[..n][i] == use[i];
      front + (if use[n] == m && n !in word then [n] else [])
  }

  /** Each list is short, strictly ascending and within the slots. */
  predicate Shaped(arrows: seq<seq<int>>) {
    && |arrows| == NUM_WORDS
    && forall k :: 0 <= k < NUM_WORDS ==>
         |arrows[k]| <= WORD_LENGTH && StrictlySorted(arrows[k])
         && forall t :: t in arrows[k] ==> 0 <= t < NUM_OUTPUTS
  }

  /** Each counter is the number of lists holding its slot, and the
      counters add up to the number of links made. */
  predicate Counted(arrows: seq<seq<int>>, use: seq<int>) {
    && |use| == NUM_OUTPUTS
    && (forall d :: 0 <= d < NUM_OUTPUTS ==> use[d] == CountHolding(arrows, d))
    && Sum(use) == TotalLength(arrows)
  }

  predicate WellFormed(b: Builder) {
    Shaped(b.arrows) && Counted(b.arrows, b.outputUse)
  }

  /** No slot is used more than once more than any other. */
  predicate Balanced(use: seq<int>) {
    forall i, j :: 0 <= i < |use| && 0 <= j < |use| ==> use[i] <= use[j] + 1
  }

  /** The first word holds the first slot and the last word the last slot. */
  predicate Anchored(arrows: seq<seq<int>>) {
    |arrows| == NUM_WORDS && 0 in arrows[0] && NUM_OUTPUTS - 1 in arrows[NUM_WORDS - 1]
  }

  /** Every list of `before` is kept, element for element, in `after`. */
  predicate Extends(after: seq<seq<int>>, before: seq<seq<int>>) {
    |after| == |before| && forall k, t :: 0 <= k < |before| && t in before[k] ==> t in after[k]
  }

  /** The finished topology: six lists of exactly three ascending slots,
      anchored at both ends, every slot held by two or three lists. */
  predicate Complete(arrows: seq<seq<int>>) {
    && |arrows| == NUM_WORDS
    && (forall k :: 0 <= k < NUM_WORDS ==>
          |arrows[k]| == WORD_LENGTH && StrictlySorted(arrows[k])
          && forall t :: t in arrows[k] ==> 0 <= t < NUM_OUTPUTS)
    && Anchored(arrows)
    && forall d :: 0 <= d < NUM_OUTPUTS ==> 2 <= CountHolding(arrows, d) <= 3
  }

  /** Linking a word below three targets to a slot it lacks keeps the
      builder well formed, adds exactly one link and only appends. */
  lemma LinkKeepsWellFormed(b: Builder, w: int, d: int)
    requires WellFormed(b)
    requires 0 <= w < NUM_WORDS && |b.arrows[w]| < WORD_LENGTH
    requires 0 <= d < NUM_OUTPUTS && d !in b.arrows[w]
    ensures WellFormed(Link(b, w, d))
    ensures TotalLength(Link(b, w, d).arrows) == TotalLength(b.arrows) + 1
    ensures Extends(Link(b, w, d).arrows, b.arrows)
  {
    var xs := b.arrows[w];
    var ys := Insert(xs, d);
    var b1 := Link(b, w, d);
    LinkKeepsShape(b.arrows, w, ys, d, b1.arrows);
    LinkKeepsCounts(b.arrows, b.outputUse, w, ys, d, b1.arrows, b1.outputUse);
  }

  /** On a sorted list, the link is the source's push followed by a numeric sort. */
  lemma LinkIsPushAndSort(b: Builder, w: int, d: int)
    requires 0 <= w < |b.arrows| && 0 <= d < |b.outputUse|
    requires Sorted(b.arrows[w])
    ensures Link(b, w, d).arrows[w] == Sort(b.arrows[w] + [d])
  {
    SortPushed(b.arrows[w], d);
  }

  lemma LinkKeepsShape(arrows: seq<seq<int>>, w: int, ys: seq<int>, d: int, after: seq<seq<int>>)
    requires Shaped(arrows) && 0 <= w < NUM_WORDS
    requires |arrows[w]| < WORD_LENGTH && 0 <= d < NUM_OUTPUTS && d !in arrows[w]
    requires ys == Insert(arrows[w], d)
    requires after == arrows[w := ys]
    ensures Shaped(after)
    ensures Extends(after, arrows)
  {
    forall k | 0 <= k < NUM_WORDS
      ensures |after[k]| <= WORD_LENGTH && StrictlySorted(after[k])
      ensures forall t :: t in after[k] ==> 0 <= t < NUM_OUTPUTS
    {
      if k == w {
        InsertKeepsStrict(arrows[w], d);
      } else {
        assert after[k] == arrows[k];
      }
    }
  }

  lemma LinkKeepsCounts(arrows: seq<seq<int>>, use: seq<int>, w: int, ys: seq<int>, d: int,
                        after: seq<seq<int>>, use1: seq<int>)
    requires Counted(arrows, use) && |arrows| == NUM_WORDS
    requires 0 <= w < NUM_WORDS && 0 <= d < NUM_OUTPUTS && d !in arrows[w]
    requires ys == Insert(arrows[w], d)
    requires after == arrows[w := ys] && use1 == use[d := use[d] + 1]
    ensures Counted(after, use1)
    ensures TotalLength(after) == TotalLength(arrows) + 1
  {
    CountAfterAdding(arrows, w, ys, d);
    TotalAfterAdding(arrows, w, ys);
    SumIncrement(use, d);
  }

  /** Raising a least-used counter keeps the counters balanced. */
  lemma IncrementMinimumKeepsBalance(use: seq<int>, d: int)
    requires Balanced(use) && 0 <= d < |use|
    requires forall i :: 0 <= i < |use| ==> use[d] <= use[i]
    ensures Balanced(use[d := use[d] + 1])
  {}

  /** Six full lists with balanced counters use every slot two or three
      times: the 18 links spread over 8 slots leave no slot orphaned. */
  lemma FullUseIsTwoOrThree(b: Builder)
    requires WellFormed(b) && Balanced(b.outputUse)
    requires forall k :: 0 <= k < NUM_WORDS ==> |b.arrows[k]| == WORD_LENGTH
    ensures forall d :: 0 <= d < NUM_OUTPUTS ==> 2 <= b.outputUse[d] <= 3
  {
    TotalBound(b.arrows, WORD_LENGTH);
    var m := MinOf(b.outputUse);
    SumBounds(b.outputUse, m, m + 1);
    assert 8 * m <= 18 <= 8 * m + 8;
  }

  /** The links still to make before every word is full. */
  function LinksLeft(arrows: seq<seq<int>>): (n: nat)
    requires Shaped(arrows)
    ensures n == 0 <==> forall k :: 0 <= k < NUM_WORDS ==> |arrows[k]| == WORD_LENGTH
  {
    TotalBound(arrows, WORD_LENGTH);
    NUM_WORDS * WORD_LENGTH - TotalLength(arrows)
  }

  lemma ExtendsTransitive(a: seq<seq<int>>, b: seq<seq<int>>, c: seq<seq<int>>)
    requires Extends(a, b) && Extends(b, c)
    ensures Extends(a, c)
  {}

  /** One iteration: linking a word that is not full to a least-used slot
      it lacks keeps every invariant of the loop and leaves one link fewer. */
  lemma StepKeepsInvariant(b: Builder, w: int, d: int)
    requires WellFormed(b) && Balanced(b.outputUse) && Anchored(b.arrows)
    requires 0 <= w < NUM_WORDS && |b.arrows[w]| != WORD_LENGTH
    requires 0 <= d < NUM_OUTPUTS && d !in b.arrows[w]
    requires forall i :: 0 <= i < NUM_OUTPUTS ==> b.outputUse[d] <= b.outputUse[i]
    ensures WellFormed(Link(b, w, d)) && Balanced(Link(b, w, d).outputUse)
    ensures Anchored(Link(b, w, d).arrows)
    ensures Extends(Link(b, w, d).arrows, b.arrows)
    ensures LinksLeft(Link(b, w, d).arrows) == LinksLeft(b.arrows) - 1
  {
    LinkKeepsWellFormed(b, w, d);
    IncrementMinimumKeepsBalance(b.outputUse, d);
    var a1 := Link(b, w, d).arrows;
    assert 0 in b.arrows[0] && NUM_OUTPUTS - 1 in b.arrows[NUM_WORDS - 1];
    assert 0 in a1[0] && NUM_OUTPUTS - 1 in a1[NUM_WORDS - 1];
  }

  /** Two draws after `2 * n` draws are `2 * (n + 1)` draws. */
  lemma TwoMoreDraws(g: Rng, n: nat)
    ensures Advance(Advance(Advance(g, 1), 1), 2 * n) == Advance(g, 2 * (n + 1))
  {
    AdvanceAdd(g, 1, 1);
    AdvanceAdd(g, 2, 2 * n);
  }

  /** With no word left below three targets the loop's invariants make
      the topology complete. */
  lemma NothingLeft(b: Builder)
    requires WellFormed(b) && Balanced(b.outputUse) && Anchored(b.arrows)
    requires |WordsLeft(b.arrows)| == 0
    ensures Complete(b.arrows) && LinksLeft(b.arrows) == 0
  {
    var left := WordsLeft(b.arrows);
    assert forall k :: 0 <= k < NUM_WORDS ==> k !in left;
    FullUseIsTwoOrThree(b);
  }

  /** What the rest of the loop returns from the linked builder is what
      the loop returns from the builder before the link, two draws on. */
  lemma StepResult(b: Builder, b1: Builder, g: Rng, r: ArrowOutcome)
    requires Shaped(b.arrows) && Shaped(b1.arrows)
    requires Extends(b1.arrows, b.arrows)
    requires LinksLeft(b1.arrows) == LinksLeft(b.arrows) - 1
    requires Extends(r.arrows, b1.arrows)
    requires r.Built? ==> r.rng == Advance(Advance(Advance(g, 1), 1), 2 * LinksLeft(b1.arrows))
    ensures Extends(r.arrows, b.arrows)
    ensures r.Built? ==> r.rng == Advance(g, 2 * LinksLeft(b.arrows))
  {
    ExtendsTransitive(r.arrows, b1.arrows, b.arrows);
    TwoMoreDraws(g, LinksLeft(b1.arrows));
  }

  /** The `while` loop, one iteration per call: two draws per link. */
  function Fill(b: Builder, g: Rng): (r: ArrowOutcome)
    requires WellFormed(b) && Balanced(b.outputUse) && Anchored(b.arrows)
    ensures Extends(r.arrows, b.arrows)
    ensures r.Built? ==> Complete(r.arrows)
    ensures r.Built? ==> r.rng == Advance(g, 2 * LinksLeft(b.arrows))
    decreases LinksLeft(b.arrows)
  {
    var left := WordsLeft(b.arrows);
    if |left| == 0 then
      NothingLeft(b);
      Built(b.arrows, g)
    else
      var (w, g1) := Select(left, g);
      var m := MinOf(b.outputUse);
      var avail := Available(b.outputUse, b.arrows[w], m);
      if |avail| == 0 then NoCandidate(b.arrows, g1)
      else
        var (d, g2) := Select(avail, g1);
        StepKeepsInvariant(b, w, d);
        var r := Fill(Link(b, w, d), g2);
        StepResult(b, Link(b, w, d), g, r);
        r
  }

  /** The builder before any link: six empty lists, all counters zero. */
  function EmptyBuilder(): (b: Builder)
    ensures WellFormed(b) && Balanced(b.outputUse)
    ensures forall k :: 0 <= k < NUM_WORDS ==> b.arrows[k] == []
    ensures forall d :: 0 <= d < NUM_OUTPUTS ==> b.outputUse[d] == 0
  {
    var b0 := Builder(seq(NUM_WORDS, _ => []), seq(NUM_OUTPUTS, _ => 0));
    CountHoldingOfEmpty(b0.arrows, 0);
    forall d | 0 <= d < NUM_OUTPUTS ensures b0.outputUse[d] == CountHolding(b0.arrows, d) {
      CountHoldingOfEmpty(b0.arrows, d);
    }
    SumOfZeros(b0.outputUse);
    b0
  }

  /** The two anchor links on the empty builder keep it well formed and
      balanced: the first and last slots are used once, the others not. */
  lemma AnchorLinks(b0: Builder)
    requires WellFormed(b0)
    requires forall k :: 0 <= k < NUM_WORDS ==> b0.arrows[k] == []
    requires forall d :: 0 <= d < NUM_OUTPUTS ==> b0.outputUse[d] == 0
    ensures var b2 := Link(Link(b0, 0, 0), NUM_WORDS - 1, NUM_OUTPUTS - 1);
      && WellFormed(b2) && Balanced(b2.outputUse) && Anchored(b2.arrows)
      && TotalLength(b2.arrows) == 2
  {
    CountHoldingOfEmpty(b0.arrows, 0);
    LinkKeepsWellFormed(b0, 0, 0);
    var b1 := Link(b0, 0, 0);
    LinkKeepsWellFormed(b1, NUM_WORDS - 1, NUM_OUTPUTS - 1);
    var b2 := Link(b1, NUM_WORDS - 1, NUM_OUTPUTS - 1);
    assert forall d :: 0 <= d < NUM_OUTPUTS ==> b2.outputUse[d] == if d == 0 || d == NUM_OUTPUTS - 1 then 1 else 0;
  }

  /** The builder after the two anchor links. */
  function Anchors(): (b: Builder)
    ensures WellFormed(b) && Balanced(b.outputUse) && Anchored(b.arrows)
    ensures TotalLength(b.arrows) == 2
  {
    var b0 := EmptyBuilder();
    AnchorLinks(b0);
    Link(Link(b0, 0, 0), NUM_WORDS - 1, NUM_OUTPUTS - 1)
  }

  /** `generateArrowSets(random)`. When every pick finds a candidate slot
      the result is a complete topology after exactly sixteen links, each
      costing two draws. */
  function GenerateArrowSets(g: Rng): (r: ArrowOutcome)
    ensures r.Built? ==> Complete(r.arrows)
    ensures r.Built? ==> r.rng == Advance(g, 32)
  {
    Fill(Anchors(), g)
  }
}
