/** The commitment hash of `src/puzzle_generator.ts` (a cyrb53-style mix)
    and the solution check built on it. Two 32-bit accumulators absorb the
    UTF-16 code units of the input, are cross-mixed in two avalanche
    rounds, and 21 bits of the second plus all 32 bits of the first are
    printed as 16 zero-padded lower-case hex digits. */
module Hash {
  import opened Strings

  /** The UTF-16 code units `charCodeAt` reads: one per character of the
      Basic Multilingual Plane, a surrogate pair for any other. */
  function CodeUnits(s: string): (r: seq<int>)
    ensures |r| >= |s|
    ensures forall i :: 0 <= i < |r| ==> 0 <= r[i] < 0x10000
    ensures (forall i :: 0 <= i < |s| ==> s[i] as int < 0x10000) ==>
              r == seq(|s|, i requires 0 <= i < |s| => s[i] as int)
  {
    if |s| == 0 then []
    else
      var c := s[0] as int;
      var head :=
        if c < 0x10000 then [c]
        else [0xD800 + (c - 0x10000) / 0x400, 0xDC00 + (c - 0x10000) % 0x400];
      head + CodeUnits(s[1..])
  }

  /** The two 32-bit accumulators. */
  type Accumulators = (bv32, bv32)

  /** One iteration of the per-character loop: xor the code unit into
      both accumulators, then multiply each by its constant. */
  function AbsorbUnit(ch: bv32, h: Accumulators): Accumulators {
    ((h.0 ^ ch) * 2654435761, (h.1 ^ ch) * 1597334677)
  }

  /** The per-character loop over the code units. */
  function Absorb(units: seq<int>, h: Accumulators): Accumulators
    requires forall i :: 0 <= i < |units| ==> 0 <= units[i] < 0x10000
  {
    if |units| == 0 then h
    else Absorb(units[1..], AbsorbUnit(units[0] as bv32, h))
  }

  /** The loop is a left fold over the code units: running it over a
      concatenation runs it over the second part from the accumulators the
      first part left. */
  lemma {:induction false} AbsorbAppend(a: seq<int>, b: seq<int>, h: Accumulators)
    requires forall i :: 0 <= i < |a| ==> 0 <= a[i] < 0x10000
    requires forall i :: 0 <= i < |b| ==> 0 <= b[i] < 0x10000
    ensures Absorb(a + b, h) == Absorb(b, Absorb(a, h))
    decreases |a|
  {
    if |a| == 0 {
      assert a + b == b;
    } else {
      assert (a + b)[0] == a[0] && (a + b)[1..] == a[1..] + b;
      AbsorbAppend(a[1..], b, AbsorbUnit(a[0] as bv32, h));
    }
  }

  /** The two avalanche rounds after the loop; the second round of each
      line reads the other accumulator, the last line the already updated
      first accumulator. */
  function Finish(h1: bv32, h2: bv32): (bv32, bv32) {
    var a1 := (h1 ^ (h1 >> 16)) * 2246822507;
    var b1 := a1 ^ ((h2 ^ (h2 >> 13)) * 3266489909);
    var a2 := (h2 ^ (h2 >> 16)) * 2246822507;
    var b2 := a2 ^ ((b1 ^ (b1 >> 13)) * 3266489909);
    (b1, b2)
  }

  /** The two 32-bit words the hash prints. */
  function Digest(s: string): (bv32, bv32) {
    var (h1, h2) := Absorb(CodeUnits(s), (0xdeadbeef, 0x41c6ce57));
    Finish(h1, h2)
  }

  /** `4294967296 * (2097151 & h2) + (h1 >>> 0)`: a 53-bit number. The
      mask keeps the low 21 bits of `h2`, its value modulo 2^21. */
  function Combine(h1: bv32, h2: bv32): (v: nat)
    ensures v < 0x20_0000 * 0x1_0000_0000
  {
    var high: int := (h2 as int) % 0x20_0000;
    var low: int := h1 as int;
    high * 0x1_0000_0000 + low
  }

  /** `hash(input)`: exactly 16 lower-case hex digits, the first two
      always `0` because the value has at most 53 bits. */
  function Hash(s: string): (r: string)
    ensures |r| == 16
    ensures AllLowerHexDigits(r)
    ensures r[0] == '0' && r[1] == '0'
  {
    var (h1, h2) := Digest(s);
    var v := Combine(h1, h2);
    assert Pow(16, 14) == 0x100_0000_0000_0000;
    RadixLength(v, 16, 14);
    var digits := ToHex(v);
    PadStart(digits, 16, '0')
  }

  /** `validatePuzzleSolution(solution, answer)`: the candidate's hash and
      the stored hash agree once both are lower-cased. A stored hash that
      passes is therefore 16 hex digits starting `00`. */
  function ValidatePuzzleSolution(solution: string, answer: string): (ok: bool)
    ensures ok ==> |answer| == 16 && AllHexDigits(answer) && answer[0] == '0' && answer[1] == '0'
  {
    var expected := Lower(Hash(solution));
    var given := Lower(answer);
    assert given == expected ==> forall i :: 0 <= i < |answer| ==> IsHexDigit(answer[i]) by {
      if given == expected {
        forall i | 0 <= i < |answer| ensures IsHexDigit(answer[i]) {
          assert IsLowerHexDigit(given[i]);
        }
      }
    }
    given == expected
  }

  lemma LowerOfLowerHex(s: string)
    requires AllLowerHexDigits(s)
    ensures Lower(s) == s
  {}

  /** The hash of a string validates that string. */
  lemma ValidateOwnHash(s: string)
    ensures ValidatePuzzleSolution(s, Hash(s))
  {
    LowerOfLowerHex(Hash(s));
  }

  /** The verdict ignores the case of the stored hash: any two stored
      hashes that agree after lower-casing get the same verdict, so an
      upper-cased hash of the solution still validates. */
  lemma ValidateIgnoresCase(s: string, a: string, b: string)
    requires Lower(a) == Lower(b)
    ensures ValidatePuzzleSolution(s, a) == ValidatePuzzleSolution(s, b)
  {}

  lemma LowerUpperOfLowerHex(h: string)
    requires AllLowerHexDigits(h)
    ensures Lower(Upper(h)) == h
  {
    forall i | 0 <= i < |h| ensures LowerChar(UpperChar(h[i])) == h[i] {
      assert IsLowerHexDigit(h[i]);
    }
  }

  lemma ValidateUpperCasedHash(s: string)
    ensures ValidatePuzzleSolution(s, Upper(Hash(s)))
  {
    var h := Hash(s);
    LowerUpperOfLowerHex(h);
    ValidateOwnHash(s);
  }

  /** A stored hash validates exactly the candidates whose own hash it is,
      up to case. */
  lemma ValidateMeansSameHash(s: string, a: string)
    ensures ValidatePuzzleSolution(s, a) <==> Lower(a) == Hash(s)
  {
    LowerOfLowerHex(Hash(s));
  }
}
