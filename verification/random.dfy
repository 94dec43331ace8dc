/** The seeded generator of `src/random.ts`: a Weyl sequence on a 32-bit
    state (stepped by 0x9e3779b9) whose every value goes through a two-round
    xor-shift/multiply avalanche. The closure's hidden state is made an
    explicit value `Rng` that every caller threads through. A draw is the
    unsigned 32-bit word `t`; the source returns `t / 2^32`, so
    `Math.floor(random() * n)` is `(t * n) div 2^32`. */
module Random {
  import Seqs


  type Uint32 = x: int | 0 <= x < 0x1_0000_0000

  datatype Rng = Rng(state: Uint32)

  /** `makeRandom(seed)`: `a |= 0` keeps the low 32 bits of the seed. */
  function MakeRandom(seed: int): (g: Rng)
    ensures (g.state - seed) % 0x1_0000_0000 == 0
  {
    Rng(seed % 0x1_0000_0000)
  }

  /** The avalanche applied to the advanced state; `Math.imul` is the
      wrapping 32-bit product and `>>>` the unsigned shift. */
  function Mix(a: bv32): bv32 {
    var t0 := a ^ (a >> 16);
    var t1 := t0 * 0x21f0aaad;
    var t2 := t1 ^ (t1 >> 15);
    var t3 := t2 * 0x735a2d97;
    t3 ^ (t3 >> 15)
  }

  /** One call of the returned closure: the state steps by the odd
      constant 0x9e3779b9, and the result is the 32-bit word `t` behind the
      float `t / 2^32`, with the advanced generator. */
  function Next(g: Rng): (r: (Uint32, Rng))
    ensures r.1 == Step(g)
    ensures r.1.state == (g.state + 0x9e37_79b9) % 0x1_0000_0000
  {
    var g1 := Step(g);
    (Output(g1.state), g1)
  }

  /** The state update alone, without the avalanche. */
  function Step(g: Rng): Rng {
    Rng((g.state + 0x9e37_79b9) % 0x1_0000_0000)
  }

  /** The unsigned word `(t ^ t >>> 15) >>> 0` the call returns for state `a`. */
  function Output(a: Uint32): Uint32 {
    Mix(a as bv32) as int
  }

  /** The generator after `k` calls. */
  function Advance(g: Rng, k: nat): Rng
    decreases k
  {
    if k == 0 then g else Advance(Step(g), k - 1)
  }

  lemma AddMod(a: int, b: int)
    ensures ((a % 0x1_0000_0000) + b) % 0x1_0000_0000 == (a + b) % 0x1_0000_0000
  {}

  /** After `k` calls the state is the seed plus `k` steps of the constant. */
  lemma {:induction false} AdvanceState(g: Rng, k: nat)
    ensures Advance(g, k).state == (g.state + k * 0x9e37_79b9) % 0x1_0000_0000
    decreases k
  {
    if k > 0 {
      AdvanceState(Step(g), k - 1);
      AddMod(g.state + 0x9e37_79b9, (k - 1) * 0x9e37_79b9);
      assert g.state + 0x9e37_79b9 + (k - 1) * 0x9e37_79b9 == g.state + k * 0x9e37_79b9;
    }
  }

  /** The value of the `k`-th call (counting from zero) is a pure function
      of the seed and `k`. */
  lemma DrawDependsOnSeedAndIndex(seed: int, k: nat)
    ensures Next(Advance(MakeRandom(seed), k)).0
            == Output((seed + (k + 1) * 0x9e37_79b9) % 0x1_0000_0000)
  {
    var before := Advance(MakeRandom(seed), k);
    StateAfterCalls(seed, k + 1);
    AdvanceLast(MakeRandom(seed), k);
    assert Next(before).0 == Output(Next(before).1.state);
  }

  /** The state after `k` calls of a seeded generator. */
  lemma StateAfterCalls(seed: int, k: nat)
    ensures Advance(MakeRandom(seed), k).state == (seed + k * 0x9e37_79b9) % 0x1_0000_0000
  {
    var g := MakeRandom(seed);
    AdvanceState(g, k);
    AddMod(seed, k * 0x9e37_79b9);
  }

  /** One more call after `k` calls is `k + 1` calls. */
  lemma {:induction false} AdvanceLast(g: Rng, k: nat)
    ensures Next(Advance(g, k)).1 == Advance(g, k + 1)
    decreases k
  {
    if k > 0 {
      AdvanceLast(Step(g), k - 1);
    }
  }

  lemma ScaleBound(t: nat, n: nat)
    requires t < 0x1_0000_0000 && n > 0
    ensures 0 <= t * n / 0x1_0000_0000 < n
  {
    assert t * n < 0x1_0000_0000 * n;
  }

  /** `Math.floor(random() * n)`: an index below `n` from one call. */
  function DrawBelow(g: Rng, n: nat): (r: (nat, Rng))
    requires n > 0
    ensures r.0 < n
    ensures r.1 == Advance(g, 1)
  {
    var (t, g1) := Next(g);
    ScaleBound(t, n);
    var k: nat := t * n / 0x1_0000_0000;
    assert Advance(g, 1) == g1;
    (k, g1)
  }

  /** `select(array, random)`: an element of a non-empty array, at the
      cost of exactly one call. */
  function Select<T>(s: seq<T>, g: Rng): (r: (T, Rng))
    requires |s| > 0
    ensures r.0 in s
    ensures r.1 == Advance(g, 1)
  {
    var (k, g1) := DrawBelow(g, |s|);
    (s[k], g1)
  }

  /** The Fisher-Yates pass of `shuffle` from index `i` down to 1. */
  function ShuffleDown<T>(s: seq<T>, i: int, g: Rng): (r: (seq<T>, Rng))
    requires i < |s|
    ensures multiset(r.0) == multiset(s)
    ensures |r.0| == |s|
    ensures r.1 == Advance(g, if i > 0 then i else 0)
    decreases i
  {
    if i <= 0 then (s, g)
    else
      var (j, g1) := DrawBelow(g, i + 1);
      var s1 := if i != j then Seqs.Swap(s, i, j) else s;
      Seqs.SwapPermutes(s, i, j);
      var r := ShuffleDown(s1, i - 1, g1);
      AdvanceSplit(g, i - 1);
      r
  }

  lemma AdvanceSplit(g: Rng, k: nat)
    ensures Advance(Advance(g, 1), k) == Advance(g, k + 1)
  {}

  /** `a` calls followed by `b` calls are `a + b` calls. */
  lemma {:induction false} AdvanceAdd(g: Rng, a: nat, b: nat)
    ensures Advance(Advance(g, a), b) == Advance(g, a + b)
    decreases a
  {
    if a > 0 {
      AdvanceAdd(Step(g), a - 1, b);
    }
  }

  /** `shuffle(array, random)`: a permutation of the array that costs one
      call per index from the last down to 1, and leaves arrays of at most
      one element untouched. */
  function Shuffle<T>(s: seq<T>, g: Rng): (r: (seq<T>, Rng))
    ensures |r.0| == |s|
    ensures multiset(r.0) == multiset(s)
    ensures r.1 == Advance(g, if |s| > 0 then |s| - 1 else 0)
    ensures |s| <= 1 ==> r.0 == s
  {
    ShuffleDown(s, |s| - 1, g)
  }
}
