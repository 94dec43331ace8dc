/** The JavaScript string operations the puzzle engine relies on, over
    `string` (a sequence of Unicode scalar values):
    `Number.prototype.toString(radix)`, `padStart`, `split`/`join` on one
    separator character, a simplified `parseInt`, and ASCII case mapping. */
module Strings {
  import opened Wrappers

  predicate IsDigit(c: char) { '0' <= c <= '9' }

  /** A character of `[0-9a-fA-F]`, the set the parser accepts in a hash. */
  predicate IsHexDigit(c: char) { IsDigit(c) || 'a' <= c <= 'f' || 'A' <= c <= 'F' }

  /** A character that `toString(16)` can emit. */
  predicate IsLowerHexDigit(c: char) { IsDigit(c) || 'a' <= c <= 'f' }

  predicate IsLowerLetter(c: char) { 'a' <= c <= 'z' }

  predicate IsAsciiLetter(c: char) { 'a' <= c <= 'z' || 'A' <= c <= 'Z' }

  predicate AllDigits(s: string) { forall i :: 0 <= i < |s| ==> IsDigit(s[i]) }

  predicate AllHexDigits(s: string) { forall i :: 0 <= i < |s| ==> IsHexDigit(s[i]) }

  predicate AllLowerHexDigits(s: string) { forall i :: 0 <= i < |s| ==> IsLowerHexDigit(s[i]) }

  function Pow(b: nat, k: nat): nat {
    if k == 0 then 1 else b * Pow(b, k - 1)
  }

  /** The digit character for `d` in radix up to 16, lower case as JavaScript prints it. */
  function DigitChar(d: nat): (c: char)
    requires d < 16
    ensures IsLowerHexDigit(c) && CharValue(c) == d
    ensures d < 10 <==> IsDigit(c)
  {
    if d < 10 then ('0' as int + d) as char else ('a' as int + d - 10) as char
  }

  /** The numeric value of a digit character of `[0-9a-f]`. */
  function CharValue(c: char): nat
    requires IsLowerHexDigit(c)
  {
    if IsDigit(c) then c as int - '0' as int else c as int - 'a' as int + 10
  }

  predicate DigitsIn(s: string, radix: nat) {
    forall i :: 0 <= i < |s| ==> IsLowerHexDigit(s[i]) && CharValue(s[i]) < radix
  }

  /** The number a digit string denotes in the given radix (most significant digit first). */
  function DigitsValue(s: string, radix: nat): nat
    requires DigitsIn(s, radix)
  {
    if |s| == 0 then 0 else DigitsValue(s[..|s| - 1], radix) * radix + CharValue(s[|s| - 1])
  }

  /** `n.toString(radix)` for a non-negative integer: the shortest digit
      string, "0" for zero, and no leading zero otherwise. */
  function NatToRadix(n: nat, radix: nat): (r: string)
    requires 2 <= radix <= 16
    ensures |r| >= 1
    ensures DigitsIn(r, radix)
    ensures DigitsValue(r, radix) == n
    ensures r[0] == '0' ==> r == "0"
    decreases n
  {
    if n < radix then [DigitChar(n)]
    else
      DivMod(n, radix);
      var prefix := NatToRadix(n / radix, radix);
      var last := DigitChar(n % radix);
      var r := prefix + [last];
      assert r[..|r| - 1] == prefix;
      assert DigitsIn(r, radix);
      assert prefix != "0" by { assert DigitsValue("0", radix) == 0; }
      r
  }

  lemma DivMod(n: nat, radix: nat)
    requires 2 <= radix <= n
    ensures 1 <= n / radix < n && n % radix < radix
    ensures (n / radix) * radix + n % radix == n
  {}

  /** Decimal `toString` of a non-negative integer. */
  function NatToString(n: nat): (r: string)
    ensures |r| >= 1 && AllDigits(r)
  {
    var r := NatToRadix(n, 10);
    assert forall i :: 0 <= i < |r| ==> IsDigit(r[i]) by {
      forall i | 0 <= i < |r| ensures IsDigit(r[i]) {
        assert IsLowerHexDigit(r[i]) && CharValue(r[i]) < 10;
      }
    }
    r
  }

  /** Decimal `toString` of any integer. */
  function IntToString(x: int): (r: string)
    ensures |r| >= 1
    ensures x >= 0 ==> AllDigits(r)
    ensures x < 0 ==> r[0] == '-' && AllDigits(r[1..])
  {
    if x < 0 then "-" + NatToString(-x) else NatToString(x)
  }

  /** `toString(16)` of a non-negative integer. */
  function ToHex(n: nat): (r: string)
    ensures |r| >= 1 && AllLowerHexDigits(r)
  {
    NatToRadix(n, 16)
  }

  /** A number below `radix^k` needs at most `k` digits. */
  lemma {:induction false} RadixLength(n: nat, radix: nat, k: nat)
    requires 2 <= radix <= 16 && k >= 1
    requires n < Pow(radix, k)
    ensures |NatToRadix(n, radix)| <= k
    decreases k
  {
    if n >= radix {
      var p := Pow(radix, k - 1);
      var q := n / radix;
      DivMod(n, radix);
      assert n < radix * p;
      assert q * radix < p * radix;
      assert q < p;
      assert k != 1;
      RadixLength(q, radix, k - 1);
    }
  }

  /** `s.padStart(width, fill)`. */
  function PadStart(s: string, width: nat, fill: char): (r: string)
    ensures |r| == if |s| >= width then |s| else width
    ensures r[|r| - |s|..] == s
    ensures forall i :: 0 <= i < |r| - |s| ==> r[i] == fill
  {
    if |s| >= width then s else seq(width - |s|, _ => fill) + s
  }

  /** `parts.join(sep)`. */
  function Join(parts: seq<string>, sep: char): string {
    if |parts| == 0 then ""
    else if |parts| == 1 then parts[0]
    else parts[0] + [sep] + Join(parts[1..], sep)
  }

  /** `s.split(sep)` for a one-character separator: never empty, no piece
      holds the separator, and joining the pieces gives back `s`. */
  function Split(s: string, sep: char): (r: seq<string>)
    ensures |r| >= 1
    ensures forall i :: 0 <= i < |r| ==> sep !in r[i]
    ensures Join(r, sep) == s
    decreases |s|
  {
    if |s| == 0 then [""]
    else
      var rest := Split(s[1..], sep);
      if s[0] == sep then
        var r := [""] + rest;
        assert r[1..] == rest;
        r
      else
        var r := [[s[0]] + rest[0]] + rest[1..];
        assert r[1..] == rest[1..];
        assert s == [s[0]] + s[1..];
        if |rest| == 1 then r
        else
          assert Join(rest, sep) == rest[0] + [sep] + Join(rest[1..], sep);
          r
  }

  lemma {:induction false} SplitWithoutSeparator(p: string, sep: char)
    requires sep !in p
    ensures Split(p, sep) == [p]
    decreases |p|
  {
    if |p| > 0 {
      SplitWithoutSeparator(p[1..], sep);
      assert [p[0]] + p[1..] == p;
    }
  }

  lemma {:induction false} SplitAfterPiece(p: string, sep: char, t: string)
    requires sep !in p
    ensures Split(p + [sep] + t, sep) == [p] + Split(t, sep)
    decreases |p|
  {
    var s := p + [sep] + t;
    if |p| == 0 {
      assert s[1..] == t;
    } else {
      assert s[1..] == p[1..] + [sep] + t;
      SplitAfterPiece(p[1..], sep, t);
      assert [p[0]] + p[1..] == p;
    }
  }

  /** Splitting undoes joining when no piece holds the separator. */
  lemma {:induction false} SplitJoin(parts: seq<string>, sep: char)
    requires |parts| >= 1
    requires forall i :: 0 <= i < |parts| ==> sep !in parts[i]
    ensures Split(Join(parts, sep), sep) == parts
    decreases |parts|
  {
    if |parts| == 1 {
      SplitWithoutSeparator(parts[0], sep);
    } else {
      SplitAfterPiece(parts[0], sep, Join(parts[1..], sep));
      SplitJoin(parts[1..], sep);
      assert [parts[0]] + parts[1..] == parts;
    }
  }

  /** The white space `parseInt` skips before a number: tab, the line
      terminators, vertical tab, form feed, the byte-order mark, and the
      space separators (U+0020, U+00A0, U+1680, U+2000 to U+200A, U+202F,
      U+205F, U+3000). */
  predicate IsParseSpace(c: char) {
    c == ' ' || c == '\t' || c == '\n' || c == '\r'
    || c as int == 0x0B || c as int == 0x0C || c as int == 0xA0
    || c as int == 0x1680 || 0x2000 <= c as int <= 0x200A
    || c as int == 0x2028 || c as int == 0x2029 || c as int == 0x202F
    || c as int == 0x205F || c as int == 0x3000 || c as int == 0xFEFF
  }

  function TrimStart(s: string): (r: string)
    ensures |r| <= |s| && r == s[|s| - |r|..]
    ensures |r| > 0 ==> !IsParseSpace(r[0])
    ensures forall i :: 0 <= i < |s| - |r| ==> IsParseSpace(s[i])
  {
    if |s| > 0 && IsParseSpace(s[0]) then TrimStart(s[1..]) else s
  }

  /** The longest prefix of decimal digits. */
  function DigitPrefix(s: string): (r: string)
    ensures |r| <= |s| && r == s[..|r|]
    ensures AllDigits(r)
    ensures |r| < |s| ==> !IsDigit(s[|r|])
  {
    if |s| > 0 && IsDigit(s[0]) then [s[0]] + DigitPrefix(s[1..]) else []
  }

  function DecimalValue(s: string): nat
    requires AllDigits(s)
  {
    if |s| == 0 then 0 else DecimalValue(s[..|s| - 1]) * 10 + (s[|s| - 1] as int - '0' as int)
  }

  /** The value of a digit of `[0-9a-fA-F]`. */
  function HexDigitValue(c: char): (v: nat)
    requires IsHexDigit(c)
    ensures v < 16
  {
    if IsDigit(c) then c as int - '0' as int
    else if 'a' <= c <= 'f' then c as int - 'a' as int + 10
    else c as int - 'A' as int + 10
  }

  function HexValue(s: string): nat
    requires AllHexDigits(s)
  {
    if |s| == 0 then 0 else HexValue(s[..|s| - 1]) * 16 + HexDigitValue(s[|s| - 1])
  }

  /** The longest prefix of hex digits. */
  function HexPrefix(s: string): (r: string)
    ensures |r| <= |s| && r == s[..|r|]
    ensures AllHexDigits(r)
    ensures |r| < |s| ==> !IsHexDigit(s[|r|])
  {
    if |s| > 0 && IsHexDigit(s[0]) then [s[0]] + HexPrefix(s[1..]) else []
  }

  /** A text that, after its sign, starts with `0x` or `0X`. */
  predicate HexMarked(body: string) {
    |body| >= 2 && body[0] == '0' && (body[1] == 'x' || body[1] == 'X')
  }

  /** The magnitude `parseInt` reads after the sign: hex digits after a
      `0x` mark, otherwise the longest run of decimal digits; `None` when
      there is no digit to read. */
  function Magnitude(body: string): Option<nat> {
    if HexMarked(body) then
      var h := HexPrefix(body[2..]);
      if |h| == 0 then None else Some(HexValue(h))
    else
      var d := DigitPrefix(body);
      if |d| == 0 then None else Some(DecimalValue(d))
  }

  /** What `parseInt` reads once the white space is skipped: an optional
      sign, then the magnitude. */
  function ParseSigned(s: string): Option<int> {
    var signed := |s| > 0 && (s[0] == '-' || s[0] == '+');
    var body := if signed then s[1..] else s;
    match Magnitude(body)
    case None => None
    case Some(m) => if signed && s[0] == '-' then Some(0 - m) else Some(m)
  }

  /** `parseInt(tok)` with no radix: leading white space, an optional
      sign, a `0x` mark choosing base 16, then the longest run of digits of
      the base; `None` (NaN) when there is no digit. */
  function ParseInt(tok: string): (r: Option<int>)
    ensures |tok| > 0 && AllDigits(tok) ==> r == Some(DecimalValue(tok))
    ensures (forall i :: 0 <= i < |tok| ==> !IsDigit(tok[i])) ==> r == None
  {
    var s := TrimStart(tok);
    assert |tok| > 0 && AllDigits(tok) ==> ParseSigned(s) == Some(DecimalValue(tok)) by {
      if |tok| > 0 && AllDigits(tok) {
        assert !IsParseSpace(tok[0]);
        ParseSignedOfDigits(tok);
      }
    }
    assert (forall i :: 0 <= i < |tok| ==> !IsDigit(tok[i])) ==> ParseSigned(s) == None by {
      if forall i :: 0 <= i < |tok| ==> !IsDigit(tok[i]) {
        assert forall i :: 0 <= i < |s| ==> s[i] == tok[|tok| - |s| + i];
        ParseSignedOfNoDigit(s);
      }
    }
    ParseSigned(s)
  }

  lemma ParseSignedOfDigits(d: string)
    requires |d| > 0 && AllDigits(d)
    ensures ParseSigned(d) == Some(DecimalValue(d))
  {
    assert IsDigit(d[0]);
    assert !HexMarked(d) by {
      if |d| >= 2 {
        assert IsDigit(d[1]);
      }
    }
    DigitPrefixOfDigits(d);
  }

  lemma ParseSignedOfNoDigit(s: string)
    requires forall i :: 0 <= i < |s| ==> !IsDigit(s[i])
    ensures ParseSigned(s) == None
  {
    var signed := |s| > 0 && (s[0] == '-' || s[0] == '+');
    var body := if signed then s[1..] else s;
    assert forall i :: 0 <= i < |body| ==> !IsDigit(body[i]);
    if |body| > 0 {
      assert !IsDigit(body[0]);
    }
    assert !HexMarked(body);
    assert DigitPrefix(body) == [];
  }

  /** White space in front of a number changes nothing. */
  lemma ParseIntSkipsSpace(pre: string, tok: string)
    requires forall i :: 0 <= i < |pre| ==> IsParseSpace(pre[i])
    ensures ParseInt(pre + tok) == ParseInt(tok)
  {
    TrimStartSkips(pre, tok);
  }

  lemma {:induction false} TrimStartSkips(pre: string, tok: string)
    requires forall i :: 0 <= i < |pre| ==> IsParseSpace(pre[i])
    ensures TrimStart(pre + tok) == TrimStart(tok)
    decreases |pre|
  {
    if |pre| > 0 {
      assert (pre + tok)[0] == pre[0];
      assert (pre + tok)[1..] == pre[1..] + tok;
      TrimStartSkips(pre[1..], tok);
    } else {
      assert pre + tok == tok;
    }
  }

  /** A minus sign before decimal digits negates their value. */
  lemma ParseIntOfNegative(digits: string)
    requires |digits| > 0 && AllDigits(digits)
    ensures ParseInt("-" + digits) == Some(0 - DecimalValue(digits))
  {
    var tok := "-" + digits;
    assert !IsParseSpace(tok[0]);
    assert TrimStart(tok) == tok;
    NegativeSigned(digits);
  }

  lemma NegativeSigned(digits: string)
    requires |digits| > 0 && AllDigits(digits)
    ensures ParseSigned("-" + digits) == Some(0 - DecimalValue(digits))
  {
    var tok := "-" + digits;
    assert tok[0] == '-';
    assert tok[1..] == digits;
    MagnitudeOfDigits(digits);
  }

  lemma MagnitudeOfDigits(d: string)
    requires |d| > 0 && AllDigits(d)
    ensures Magnitude(d) == Some(DecimalValue(d))
  {
    assert IsDigit(d[0]);
    assert !HexMarked(d) by {
      if |d| >= 2 {
        assert IsDigit(d[1]);
      }
    }
    DigitPrefixOfDigits(d);
  }

  /** A `0x` mark reads the hex digits after it. */
  lemma ParseIntOfHex(digits: string)
    requires |digits| > 0 && AllHexDigits(digits)
    ensures ParseInt("0x" + digits) == Some(HexValue(digits))
  {
    var tok := "0x" + digits;
    assert !IsParseSpace(tok[0]);
    assert TrimStart(tok) == tok;
    assert tok[2..] == digits;
    HexPrefixOfHex(digits);
  }

  lemma {:induction false} DigitPrefixOfDigits(s: string)
    requires AllDigits(s)
    ensures DigitPrefix(s) == s
    decreases |s|
  {
    if |s| > 0 {
      DigitPrefixOfDigits(s[1..]);
      assert [s[0]] + s[1..] == s;
    }
  }

  lemma {:induction false} HexPrefixOfHex(s: string)
    requires AllHexDigits(s)
    ensures HexPrefix(s) == s
    decreases |s|
  {
    if |s| > 0 {
      HexPrefixOfHex(s[1..]);
      assert [s[0]] + s[1..] == s;
    }
  }

  lemma {:induction false} DecimalValueIsRadixValue(s: string)
    requires AllDigits(s)
    ensures DigitsIn(s, 10)
    ensures DecimalValue(s) == DigitsValue(s, 10)
    decreases |s|
  {
    if |s| > 0 {
      DecimalValueIsRadixValue(s[..|s| - 1]);
    }
  }

  /** `parseInt` reads back what decimal `toString` prints. */
  lemma ParseIntOfNatToString(n: nat)
    ensures ParseInt(NatToString(n)) == Some(n)
  {
    var r := NatToString(n);
    DecimalValueIsRadixValue(r);
  }

  /** `parseInt` reads back what decimal `toString` prints, sign included. */
  lemma ParseIntOfIntToString(x: int)
    ensures ParseInt(IntToString(x)) == Some(x)
  {
    if x < 0 {
      var d := NatToString(-x);
      DecimalValueIsRadixValue(d);
      ParseIntOfNegative(d);
    } else {
      ParseIntOfNatToString(x);
    }
  }

  function LowerChar(c: char): char {
    if 'A' <= c <= 'Z' then (c as int + 32) as char else c
  }

  /** `toLowerCase` restricted to the ASCII letters. */
  function Lower(s: string): (r: string)
    ensures |r| == |s|
    ensures forall i :: 0 <= i < |s| ==> r[i] == LowerChar(s[i])
  {
    seq(|s|, i requires 0 <= i < |s| => LowerChar(s[i]))
  }

  function UpperChar(c: char): char {
    if 'a' <= c <= 'z' then (c as int - 32) as char else c
  }

  /** `toUpperCase` restricted to the ASCII letters. */
  function Upper(s: string): (r: string)
    ensures |r| == |s|
    ensures forall i :: 0 <= i < |s| ==> r[i] == UpperChar(s[i])
  {
    seq(|s|, i requires 0 <= i < |s| => UpperChar(s[i]))
  }
}
