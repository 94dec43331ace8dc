/** The `PuzzleData` record of `src/puzzle_generator.ts`: the clue-to-slot
    lists, one category label per clue, the number of answer slots, the
    hash that commits to the answer, and where the puzzle came from. */
module Puzzles {

  /** `generatedFromSeed: true` with its seed and daily flag, or a puzzle
      read from text (`generatedFromSeed: false, isDaily: false`). */
  datatype Origin = Seeded(randomSeed: int, isDaily: bool) | Custom

  datatype PuzzleData = PuzzleData(
    arrows: seq<seq<int>>,
    clues: seq<string>,
    outputCount: nat,
    answerHash: string,
    origin: Origin)

  /** The slots named by any clue: the `uniqueOutputs` set both the
      generator and the parser build. */
  function TargetSet(arrows: seq<seq<int>>): (r: set<int>)
    ensures forall t :: t in r <==> exists k :: 0 <= k < |arrows| && t in arrows[k]
  {
    if |arrows| == 0 then {}
    else
      var n := |arrows| - 1;
      var front := TargetSet(arrows[..n]);
      assert forall k :: 0 <= k < n ==> arrows[..n][k] == arrows[k];
      front + set t | t in arrows[n]
  }

  /** The integers `0 .. n - 1`. */
  function Below(n: nat): (r: set<int>)
    ensures |r| == n
    ensures forall i :: i in r <==> 0 <= i < n
  {
    if n == 0 then {} else Below(n - 1) + {n - 1}
  }

  /** A set of `n` integers all below `n` is exactly `0 .. n - 1`. */
  lemma FullSetBelow(s: set<int>, n: nat)
    requires |s| == n
    requires forall t :: t in s ==> 0 <= t < n
    ensures forall i :: 0 <= i < n ==> i in s
  {
    var all := Below(n);
    assert s <= all;
    if exists i :: 0 <= i < n && i !in s {
      var i :| 0 <= i < n && i !in s;
      assert s <= all - {i};
      assert |all - {i}| == n - 1;
      SubsetCard(s, all - {i});
    }
  }

  lemma SubsetCard<T>(a: set<T>, b: set<T>)
    requires a <= b
    ensures |a| <= |b|
  {
    var c := b - a;
    assert b == a + c;
    assert a * c == {};
  }
}
