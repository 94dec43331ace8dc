/** `formatTime` of `src/util.ts`: a duration in milliseconds shown as
    `mm:ss`, or `hh:mm:ss` once it reaches an hour. */
module Util {
  import opened Wrappers
  import opened Strings

  const TIME_SEP: char := ':'

  /** JavaScript's `%` for a positive divisor: the remainder takes the sign
      of the dividend (it truncates toward zero). */
  function JsRem(a: int, b: int): (r: int)
    requires b > 0
    ensures a >= 0 ==> r == a % b
    ensures -b < r < b
  {
    if a >= 0 then a % b else -((-a) % b)
  }

  /** `n.toString().padStart(2, "0")`. */
  function TwoDigits(n: int): string {
    PadStart(IntToString(n), 2, '0')
  }

  /** The fields `formatTime` joins: hours only when positive, then the
      minutes and seconds within the hour and minute. */
  function TimeFields(millis: int): (r: seq<string>)
    ensures |r| == 2 || |r| == 3
  {
    var seconds := millis / 1000;
    var minutes := seconds / 60;
    var hours := minutes / 60;
    (if hours > 0 then [TwoDigits(hours)] else [])
      + [TwoDigits(JsRem(minutes, 60)), TwoDigits(JsRem(seconds, 60))]
  }

  /** `formatTime(millis)` for a whole number of milliseconds. A
      non-negative duration shown this way reads back as its whole
      seconds. */
  function FormatTime(millis: int): (r: string)
    ensures millis >= 0 ==> ReadTime(r) == Some(millis / 1000)
  {
    assert millis >= 0 ==> ReadTime(Join(TimeFields(millis), TIME_SEP)) == Some(millis / 1000) by {
      if millis >= 0 {
        DigitFields(millis);
        ReadTimeFields(millis);
        ReadJoinedFields(TimeFields(millis));
      }
    }
    Join(TimeFields(millis), TIME_SEP)
  }

  /** A padded non-negative number is all digits, keeps its value, and is
      exactly two characters when it is below one hundred. */
  lemma TwoDigitsOfNat(n: nat)
    ensures |TwoDigits(n)| >= 2 && AllDigits(TwoDigits(n))
    ensures DecimalValue(TwoDigits(n)) == n
    ensures n < 100 ==> |TwoDigits(n)| == 2
  {
    var s := NatToString(n);
    DecimalValueIsRadixValue(s);
    if n < 100 {
      assert Pow(10, 2) == 100;
      RadixLength(n, 10, 2);
    }
    if |s| < 2 {
      var p := TwoDigits(n);
      assert p == "0" + s;
      assert p[..|p| - 1] == "0";
      assert DecimalValue("0"[..0]) == 0;
    }
  }

  /** Whole minutes and hours of a duration, computed through the
      whole seconds or directly, and the whole seconds put back together
      from the hours, the minutes within the hour and the seconds within
      the minute. */
  lemma WholeUnits(millis: nat)
    ensures millis / 1000 / 60 == millis / 60_000
    ensures millis / 1000 / 60 / 60 == millis / 3_600_000
    ensures millis / 3_600_000 * 3600 + (millis / 60_000) % 60 * 60 + (millis / 1000) % 60 == millis / 1000
  {
    var s := millis / 1000;
    var m := s / 60;
    var h := m / 60;
    assert 1000 * s <= millis < 1000 * s + 1000;
    assert 60 * m <= s < 60 * m + 60;
    assert 60 * h <= m < 60 * h + 60;
    assert 60_000 * m <= millis < 60_000 * m + 60_000;
    assert 3_600_000 * h <= millis < 3_600_000 * h + 3_600_000;
    assert s == m * 60 + s % 60;
    assert m == h * 60 + m % 60;
  }

  /** The last field shows the seconds within the minute. */
  lemma SecondsField(millis: nat)
    ensures var f := TimeFields(millis); f[|f| - 1] == TwoDigits((millis / 1000) % 60)
  {
    var seconds := millis / 1000;
    assert JsRem(seconds, 60) == seconds % 60;
  }

  /** The field before it shows the minutes within the hour. */
  lemma MinutesField(millis: nat)
    ensures var f := TimeFields(millis); f[|f| - 2] == TwoDigits((millis / 60_000) % 60)
  {
    var minutes := millis / 1000 / 60;
    WholeUnits(millis);
    assert JsRem(minutes, 60) == minutes % 60;
  }

  /** A third, leading field shows the whole hours, and it is there
      exactly when the duration reaches an hour. */
  lemma HoursField(millis: nat)
    ensures |TimeFields(millis)| == 3 <==> millis / 3_600_000 > 0
    ensures var f := TimeFields(millis); |f| == 3 ==> f[0] == TwoDigits(millis / 3_600_000)
  {
    WholeUnits(millis);
  }

  /** Reading a shown time back as whole seconds: two or three `:`
      fields of decimal digits, hours first when there are three. */
  function ReadTime(shown: string): (r: Option<int>)
    ensures r.Some? ==> |Split(shown, TIME_SEP)| == 2 || |Split(shown, TIME_SEP)| == 3
  {
    ReadFields(Split(shown, TIME_SEP))
  }

  predicate Numeral(s: string) {
    |s| > 0 && AllDigits(s)
  }

  function ReadFields(f: seq<string>): (r: Option<int>)
    ensures r.Some? ==> |f| == 2 || |f| == 3
  {
    if |f| == 2 && Numeral(f[0]) && Numeral(f[1]) then
      Some(DecimalValue(f[0]) * 60 + DecimalValue(f[1]))
    else if |f| == 3 && Numeral(f[0]) && Numeral(f[1]) && Numeral(f[2]) then
      Some(DecimalValue(f[0]) * 3600 + DecimalValue(f[1]) * 60 + DecimalValue(f[2]))
    else None
  }

  /** Fields of digits come back out of the joined text unchanged. */
  lemma ReadJoinedFields(f: seq<string>)
    requires |f| >= 1
    requires forall i :: 0 <= i < |f| ==> AllDigits(f[i])
    ensures ReadTime(Join(f, TIME_SEP)) == ReadFields(f)
  {
    forall i | 0 <= i < |f| ensures TIME_SEP !in f[i] {
      assert forall k :: 0 <= k < |f[i]| ==> IsDigit(f[i][k]);
    }
    SplitJoin(f, TIME_SEP);
  }

  /** Fields of two or three numerals holding the units of a duration
      read back as its whole seconds. */
  lemma ReadDurationFields(f: seq<string>, millis: nat)
    requires |f| == 2 || |f| == 3
    requires |f| == 3 <==> millis / 3_600_000 > 0
    requires Numeral(f[|f| - 1]) && DecimalValue(f[|f| - 1]) == (millis / 1000) % 60
    requires Numeral(f[|f| - 2]) && DecimalValue(f[|f| - 2]) == (millis / 60_000) % 60
    requires |f| == 3 ==> Numeral(f[0]) && DecimalValue(f[0]) == millis / 3_600_000
    ensures ReadFields(f) == Some(millis / 1000)
  {
    assert |f| == 3 ==> f[1] == f[|f| - 2];
    WholeUnits(millis);
  }

  /** Every field of a non-negative duration is made of digits. */
  lemma DigitFields(millis: nat)
    ensures var f := TimeFields(millis); forall i :: 0 <= i < |f| ==> AllDigits(f[i])
  {
    var f := TimeFields(millis);
    SecondsField(millis);
    MinutesField(millis);
    HoursField(millis);
    TwoDigitsOfNat((millis / 1000) % 60);
    TwoDigitsOfNat((millis / 60_000) % 60);
    TwoDigitsOfNat(millis / 3_600_000);
    forall i | 0 <= i < |f| ensures AllDigits(f[i]) {
      assert i == |f| - 1 || i == |f| - 2 || (|f| == 3 && i == 0);
    }
  }

  /** The fields of a non-negative duration add back up to its whole
      seconds, with or without the hours field. */
  lemma ReadTimeFields(millis: nat)
    ensures ReadFields(TimeFields(millis)) == Some(millis / 1000)
  {
    var f := TimeFields(millis);
    SecondsField(millis);
    MinutesField(millis);
    HoursField(millis);
    TwoDigitsOfNat((millis / 1000) % 60);
    TwoDigitsOfNat((millis / 60_000) % 60);
    TwoDigitsOfNat(millis / 3_600_000);
    assert |f| == 3 ==> f[1] == f[|f| - 2];
    ReadDurationFields(f, millis);
  }
}
