/** The puzzle text format of `src/puzzle_generator.ts`: `serialise` writes
    one `;`-separated record per clue, `clue,t1,...,tk`, and the answer
    hash last; `puzzleFromString` reads it back, rejecting a hash that is
    not hex and target lists that are not ascending non-negative
    integers. */
module Codec {
  import opened Wrappers
  import opened Strings
  import opened Seqs
  import opened Puzzles

  const RECORD_SEP: char := ';'
  const FIELD_SEP: char := ','

  /** The exceptions `puzzleFromString` throws on text that the format
      rejects. (The "missing answer" and "empty part" throws cannot fire:
      a split always yields at least one piece.) */
  datatype ParseError =
    | CorruptedAnswer   // the last field holds a character outside [0-9a-fA-F]
    | NotANumber        // a target field has no leading integer
    | NegativeTarget    // a target is below zero
    | NotAscending      // a target does not exceed the ones before it in its record

  /** `arrows[i].map(i => i.toString())`: texts that hold neither
      separator and that `parseInt` reads back as the targets. */
  function TargetTokens(targets: seq<int>): (r: seq<string>)
    ensures |r| == |targets|
    ensures forall i :: 0 <= i < |targets| ==> FIELD_SEP !in r[i] && RECORD_SEP !in r[i]
    ensures forall i :: 0 <= i < |targets| ==> ParseInt(r[i]) == Some(targets[i])
  {
    var r := seq(|targets|, i requires 0 <= i < |targets| => IntToString(targets[i]));
    assert forall i :: 0 <= i < |targets| ==>
             FIELD_SEP !in r[i] && RECORD_SEP !in r[i] && ParseInt(r[i]) == Some(targets[i]) by {
      forall i | 0 <= i < |targets|
        ensures FIELD_SEP !in r[i] && RECORD_SEP !in r[i] && ParseInt(r[i]) == Some(targets[i])
      {
        IntToStringAvoids(targets[i], FIELD_SEP);
        IntToStringAvoids(targets[i], RECORD_SEP);
        ParseIntOfIntToString(targets[i]);
      }
    }
    r
  }

  /** `clues[i]`, which `join` prints as the empty string when missing. */
  function Label(clues: seq<string>, i: nat): string {
    if i < |clues| then clues[i] else ""
  }

  /** `[clues[i], ...targets].join(",")`: with a label free of both
      separators, the record holds no `;` and splits at `,` into the label
      and the target texts. */
  function Record(clue: string, targets: seq<int>): (r: string)
    ensures PlainLabel(clue) ==> RECORD_SEP !in r && Split(r, FIELD_SEP) == [clue] + TargetTokens(targets)
  {
    var fields := [clue] + TargetTokens(targets);
    assert PlainLabel(clue) ==>
             RECORD_SEP !in Join(fields, FIELD_SEP) && Split(Join(fields, FIELD_SEP), FIELD_SEP) == fields by {
      if PlainLabel(clue) {
        assert forall i :: 0 <= i < |fields| ==> FIELD_SEP !in fields[i] && RECORD_SEP !in fields[i] by {
          forall i | 0 <= i < |fields| ensures FIELD_SEP !in fields[i] && RECORD_SEP !in fields[i] {
            if i > 0 {
              assert fields[i] == TargetTokens(targets)[i - 1];
            }
          }
        }
        JoinAvoids(fields, FIELD_SEP, RECORD_SEP);
        SplitJoin(fields, FIELD_SEP);
      }
    }
    Join(fields, FIELD_SEP)
  }

  function Records(arrows: seq<seq<int>>, clues: seq<string>): (r: seq<string>)
    ensures |r| == |arrows|
    ensures forall i :: 0 <= i < |arrows| ==> r[i] == Record(Label(clues, i), arrows[i])
  {
    seq(|arrows|, i requires 0 <= i < |arrows| => Record(Label(clues, i), arrows[i]))
  }

  /** `serialise({arrows, clues, answerHash})`: when no label holds a
      separator and the hash holds no `;`, splitting the text at `;` gives
      one part per word index and the hash last, and each part splits at
      `,` into its label and the decimal texts of its targets. */
  function Serialise(arrows: seq<seq<int>>, clues: seq<string>, answerHash: string): (r: string)
    ensures (forall i :: 0 <= i < |clues| ==> PlainLabel(clues[i])) && RECORD_SEP !in answerHash ==>
              var parts := Split(r, RECORD_SEP);
              |parts| == |arrows| + 1 && parts[|arrows|] == answerHash &&
              forall k :: 0 <= k < |arrows| ==>
                Split(parts[k], FIELD_SEP) == [Label(clues, k)] + TargetTokens(arrows[k])
  {
    var all := Records(arrows, clues) + [answerHash];
    assert (forall i :: 0 <= i < |clues| ==> PlainLabel(clues[i])) && RECORD_SEP !in answerHash ==>
             Split(Join(all, RECORD_SEP), RECORD_SEP) == all by {
      if (forall i :: 0 <= i < |clues| ==> PlainLabel(clues[i])) && RECORD_SEP !in answerHash {
        assert forall i :: 0 <= i < |all| ==> RECORD_SEP !in all[i] by {
          forall i | 0 <= i < |all| ensures RECORD_SEP !in all[i] {
            if i < |arrows| {
              assert PlainLabel(Label(clues, i));
            }
          }
        }
        SplitJoin(all, RECORD_SEP);
      }
    }
    assert forall k :: 0 <= k < |arrows| && PlainLabel(Label(clues, k)) ==>
             Split(all[k], FIELD_SEP) == [Label(clues, k)] + TargetTokens(arrows[k]);
    Join(all, RECORD_SEP)
  }

  /** `parseInt` of each target field; `None` stands for `NaN`. The source
      parses each field as its loop reaches it, and `parseInt` has no side
      effect, so reading them all first changes nothing. */
  function TargetValues(tokens: seq<string>): (r: seq<Option<int>>)
    ensures |r| == |tokens|
    ensures forall i :: 0 <= i < |tokens| ==> r[i] == ParseInt(tokens[i])
  {
    seq(|tokens|, i requires 0 <= i < |tokens| => ParseInt(tokens[i]))
  }

  /** `parseInt` of each field after the clue in one record. */
  function FieldValues(part: string): seq<Option<int>> {
    TargetValues(Split(part, FIELD_SEP)[1..])
  }

  /** Some target field has no leading integer. */
  predicate NaNField(values: seq<Option<int>>) {
    exists i :: 0 <= i < |values| && values[i].None?
  }

  /** Some target field reads as a negative integer. */
  predicate NegativeField(values: seq<Option<int>>) {
    exists i :: 0 <= i < |values| && values[i].Some? && values[i].value < 0
  }

  /** Some target field reads as an integer no larger than an earlier one. */
  predicate OrderFault(values: seq<Option<int>>) {
    exists i, j :: 0 <= j < i < |values| && values[i].Some? && values[j].Some? &&
      values[i].value <= values[j].value
  }

  /** The targets in a list that are all non-negative and rise strictly. */
  predicate Ascending(xs: seq<int>) {
    StrictlySorted(xs) && forall i :: 0 <= i < |xs| ==> xs[i] >= 0
  }

  /** The inner loop over one record's target values, `acc` holding the
      targets accepted so far (`Math.max()` of none is `-Infinity`, so the
      first target only has to be a non-negative number). */
  function ParseTargets(values: seq<Option<int>>, acc: seq<int>): (r: Result<seq<int>, ParseError>)
    requires Ascending(acc)
    ensures r.Success? ==> |r.value| == |acc| + |values| && r.value[..|acc|] == acc && Ascending(r.value)
    ensures r.Success? ==> forall i :: 0 <= i < |values| ==> values[i] == Some(r.value[|acc| + i])
    ensures r.Failure? ==> r.error != CorruptedAnswer
    decreases |values|
  {
    if |values| == 0 then Success(acc)
    else
      match values[0]
      case None => Failure(NotANumber)
      case Some(t) =>
        if t < 0 then Failure(NegativeTarget)
        else if |acc| > 0 && t <= MaxOf(acc) then Failure(NotAscending)
        else
          AppendAbove(acc, t);
          var r := ParseTargets(values[1..], acc + [t]);
          if r.Success? then
            AcceptedTargets(values, acc, t, r.value);
            r
          else r
  }

  /** The targets the rest of the loop accepts after `t` are the targets
      accepted from the whole record. */
  lemma AcceptedTargets(values: seq<Option<int>>, acc: seq<int>, t: int, out: seq<int>)
    requires |values| > 0 && values[0] == Some(t)
    requires |out| == |acc| + 1 + |values| - 1 && out[..|acc| + 1] == acc + [t]
    requires forall i :: 0 <= i < |values| - 1 ==> values[1..][i] == Some(out[|acc| + 1 + i])
    ensures out[..|acc|] == acc
    ensures forall i :: 0 <= i < |values| ==> values[i] == Some(out[|acc| + i])
  {
    assert out[..|acc|] == out[..|acc| + 1][..|acc|];
    assert out[|acc|] == out[..|acc| + 1][|acc|];
    forall i | 1 <= i < |values| ensures values[i] == Some(out[|acc| + i]) {
      assert values[i] == values[1..][i - 1];
    }
  }

  /** A target above every accepted one keeps the list ascending. */
  lemma AppendAbove(acc: seq<int>, t: int)
    requires Ascending(acc) && t >= 0
    requires |acc| > 0 ==> t > MaxOf(acc)
    ensures Ascending(acc + [t])
  {
    if |acc| > 0 {
      assert acc[|acc| - 1] <= MaxOf(acc);
    }
  }

  /** The parser names a field with no integer only when there is one. */
  lemma {:induction false} NotANumberHasCause(values: seq<Option<int>>, acc: seq<int>)
    requires Ascending(acc)
    requires ParseTargets(values, acc) == Failure(NotANumber)
    ensures exists i :: 0 <= i < |values| && values[i].None?
    decreases |values|
  {
    if values[0].Some? {
      var t := values[0].value;
      AppendAbove(acc, t);
      NotANumberHasCause(values[1..], acc + [t]);
      var i :| 0 <= i < |values| - 1 && values[1..][i].None?;
      assert values[1..][i] == values[i + 1];
    }
  }

  /** The parser reports a negative target only when a field holds one. */
  lemma {:induction false} NegativeTargetHasCause(values: seq<Option<int>>, acc: seq<int>)
    requires Ascending(acc)
    requires ParseTargets(values, acc) == Failure(NegativeTarget)
    ensures exists i :: 0 <= i < |values| && values[i].Some? && values[i].value < 0
    decreases |values|
  {
    var t := values[0].value;
    if t >= 0 {
      AppendAbove(acc, t);
      NegativeTargetHasCause(values[1..], acc + [t]);
      var i :| 0 <= i < |values| - 1 && values[1..][i].Some? && values[1..][i].value < 0;
      assert values[1..][i] == values[i + 1];
    }
  }

  /** The parser reports an order fault only when some field's number does
      not exceed an earlier one (or an accepted target). */
  lemma {:induction false} NotAscendingHasCause(values: seq<Option<int>>, acc: seq<int>)
    requires Ascending(acc)
    requires ParseTargets(values, acc) == Failure(NotAscending)
    ensures exists i :: 0 <= i < |values| && values[i].Some? &&
              ((exists j :: 0 <= j < |acc| && values[i].value <= acc[j]) ||
               (exists j :: 0 <= j < i && values[j].Some? && values[i].value <= values[j].value))
    decreases |values|
  {
    var t := values[0].value;
    if |acc| > 0 && t <= MaxOf(acc) {
      var j :| 0 <= j < |acc| && acc[j] == MaxOf(acc);
      assert values[0].Some? && t <= acc[j];
    } else {
      AppendAbove(acc, t);
      var acc1 := acc + [t];
      NotAscendingHasCause(values[1..], acc1);
      var i :| 0 <= i < |values| - 1 && values[1..][i].Some? &&
              ((exists j :: 0 <= j < |acc1| && values[1..][i].value <= acc1[j]) ||
               (exists j :: 0 <= j < i && values[1..][j].Some? && values[1..][i].value <= values[1..][j].value));
      assert values[1..][i] == values[i + 1];
      if exists j :: 0 <= j < |acc1| && values[1..][i].value <= acc1[j] {
        var j :| 0 <= j < |acc1| && values[1..][i].value <= acc1[j];
        if j == |acc| {
          assert values[i + 1].value <= values[0].value;
        } else {
          assert values[i + 1].value <= acc[j];
        }
      } else {
        var j :| 0 <= j < i && values[1..][j].Some? && values[1..][i].value <= values[1..][j].value;
        assert values[1..][j] == values[j + 1];
      }
    }
  }

  /** Values that are all numbers, non-negative, rising strictly and
      starting above the accepted targets are accepted, one per field. */
  lemma {:induction false} ParseTargetsAccepts(values: seq<Option<int>>, acc: seq<int>, xs: seq<int>)
    requires Ascending(acc) && Ascending(acc + xs)
    requires |xs| == |values| && forall i :: 0 <= i < |values| ==> values[i] == Some(xs[i])
    ensures ParseTargets(values, acc) == Success(acc + xs)
    decreases |values|
  {
    if |values| > 0 {
      var t := xs[0];
      assert (acc + xs)[|acc|] == t;
      if |acc| > 0 {
        var j :| 0 <= j < |acc| && acc[j] == MaxOf(acc);
        assert (acc + xs)[j] == acc[j];
      }
      var acc1 := acc + [t];
      assert acc + xs == acc1 + xs[1..];
      AppendAbove(acc, t);
      assert forall i :: 0 <= i < |values| - 1 ==> values[1..][i] == values[i + 1];
      ParseTargetsAccepts(values[1..], acc1, xs[1..]);
    } else {
      assert acc + xs == acc;
    }
  }

  /** One record `clue,t1,...,tk`: the clue is the first field, and each
      later field is read with `parseInt` as one target. What a reading
      means is stated once, in `ParseRecordMeaning`. */
  function ParseRecord(part: string): (r: Result<(string, seq<int>), ParseError>)
    ensures r.Failure? ==> r.error != CorruptedAnswer
  {
    var fields := Split(part, FIELD_SEP);
    match ParseTargets(FieldValues(part), [])
    case Failure(e) => Failure(e)
    case Success(xs) => Success((fields[0], xs))
  }

  /** The error names a fault of the record's target fields. */
  predicate Explains(e: ParseError, part: string) {
    && (e == NotANumber ==> NaNField(FieldValues(part)))
    && (e == NegativeTarget ==> NegativeField(FieldValues(part)))
    && (e == NotAscending ==> OrderFault(FieldValues(part)))
  }

  /** A failing record's error names a fault of its fields. */
  lemma ParseRecordFaults(part: string)
    requires ParseRecord(part).Failure?
    ensures Explains(ParseRecord(part).error, part)
  {
    var values := FieldValues(part);
    var targets := ParseTargets(values, []);
    if targets.error == NotANumber {
      NotANumberHasCause(values, []);
    } else if targets.error == NegativeTarget {
      NegativeTargetHasCause(values, []);
    } else if targets.error == NotAscending {
      NotAscendingHasCause(values, []);
    }
  }

  /** A success takes the clue from the first field and one target from
      each later field, read with `parseInt`, rising strictly from zero or
      above; a failure happens exactly when some field is not a number, is
      negative or does not exceed an earlier one, and the error names such
      a fault. */
  lemma ParseRecordMeaning(part: string)
    ensures var r := ParseRecord(part);
      && (r.Success? ==> r.value.0 == Split(part, FIELD_SEP)[0])
      && (r.Success? ==> |r.value.1| == |FieldValues(part)| && Ascending(r.value.1))
      && (r.Success? ==> forall i :: 0 <= i < |r.value.1| ==> FieldValues(part)[i] == Some(r.value.1[i]))
      && (r.Success? <==> !NaNField(FieldValues(part)) && !NegativeField(FieldValues(part)) && !OrderFault(FieldValues(part)))
      && (r == Failure(NotANumber) ==> NaNField(FieldValues(part)))
      && (r == Failure(NegativeTarget) ==> NegativeField(FieldValues(part)))
      && (r == Failure(NotAscending) ==> OrderFault(FieldValues(part)))
  {
    var targets := ParseTargets(FieldValues(part), []);
    if targets.Failure? {
      ParseRecordFaults(part);
    } else {
      assert [] + targets.value == targets.value;
    }
  }

  type Readings = Result<(seq<seq<int>>, seq<string>), ParseError>

  /** What reading the first `n` parts as records means: a success holds
      each record's own reading; a failure happens exactly when some record
      fails, and reports the error of the first record that does. */
  predicate RecordsRead(parts: seq<string>, n: nat, r: Readings)
    requires n <= |parts|
  {
    && (r.Success? ==> |r.value.0| == n && |r.value.1| == n)
    && (r.Success? ==> forall k :: 0 <= k < n ==>
          ParseRecord(parts[k]) == Success((r.value.1[k], r.value.0[k])))
    && (r.Success? <==> forall k :: 0 <= k < n ==> ParseRecord(parts[k]).Success?)
    && (r.Failure? ==>
          exists k :: 0 <= k < n && ParseRecord(parts[k]) == Failure(r.error) &&
            forall j :: 0 <= j < k ==> ParseRecord(parts[j]).Success?)
  }

  /** The outer loop over the first `n` parts, the records, in order. */
  function ParseRecords(parts: seq<string>, n: nat): (r: Readings)
    requires n <= |parts|
    ensures RecordsRead(parts, n, r)
  {
    if n == 0 then Success(([], []))
    else
      var front := ParseRecords(parts, n - 1);
      if front.Failure? then
        EarlierFailure(parts, n, front.error);
        Failure(front.error)
      else
        var last := ParseRecord(parts[n - 1]);
        if last.Failure? then
          LastFailure(parts, n, front);
          Failure(last.error)
        else
          ReadingExtends(parts, n, front);
          Success((front.value.0 + [last.value.1], front.value.1 + [last.value.0]))
  }

  /** A record that failed among the first `n - 1` is still the first to fail. */
  lemma EarlierFailure(parts: seq<string>, n: nat, e: ParseError)
    requires 0 < n <= |parts|
    requires RecordsRead(parts, n - 1, Failure(e))
    ensures RecordsRead(parts, n, Failure(e))
  {
    var k :| 0 <= k < n - 1 && ParseRecord(parts[k]) == Failure(e) &&
             forall j :: 0 <= j < k ==> ParseRecord(parts[j]).Success?;
    assert !ParseRecord(parts[k]).Success?;
  }

  /** When the first `n - 1` records read, a failing record `n - 1` is the
      first failure. */
  lemma LastFailure(parts: seq<string>, n: nat, front: Readings)
    requires 0 < n <= |parts| && front.Success?
    requires RecordsRead(parts, n - 1, front)
    requires ParseRecord(parts[n - 1]).Failure?
    ensures RecordsRead(parts, n, Failure(ParseRecord(parts[n - 1]).error))
  {
    assert !ParseRecord(parts[n - 1]).Success?;
  }

  /** When the first `n - 1` records read and record `n - 1` reads too, the
      readings extend by its reading. */
  lemma ReadingExtends(parts: seq<string>, n: nat, front: Readings)
    requires 0 < n <= |parts| && front.Success?
    requires RecordsRead(parts, n - 1, front)
    requires ParseRecord(parts[n - 1]).Success?
    ensures var last := ParseRecord(parts[n - 1]).value;
      RecordsRead(parts, n, Success((front.value.0 + [last.1], front.value.1 + [last.0])))
  {
    var last := ParseRecord(parts[n - 1]).value;
    var arrows, clues := front.value.0 + [last.1], front.value.1 + [last.0];
    forall k | 0 <= k < n ensures ParseRecord(parts[k]) == Success((clues[k], arrows[k])) {
      if k < n - 1 {
        assert clues[k] == front.value.1[k] && arrows[k] == front.value.0[k];
      }
    }
  }

  /** What `puzzleFromString` promises about the `;` parts of its input:
      the last part is the hash and every earlier part a record. The hash
      is checked first: "corrupted answer data" is raised exactly when it
      is not all hex digits. Otherwise the text is accepted exactly when
      every record is, as a custom puzzle holding each record's reading and
      counting its distinct targets; a rejection reports the first failing
      record's error, which names a fault of one of that record's target
      fields. */
  predicate ReadsAsPuzzle(parts: seq<string>, r: Result<PuzzleData, ParseError>)
    requires |parts| > 0
  {
    && (r == Failure(CorruptedAnswer) <==> !AllHexDigits(parts[|parts| - 1]))
    && (r.Success? <==>
          AllHexDigits(parts[|parts| - 1]) &&
          forall k :: 0 <= k < |parts| - 1 ==> ParseRecord(parts[k]).Success?)
    && (r.Success? ==>
          r.value.origin == Custom && r.value.outputCount == |TargetSet(r.value.arrows)| &&
          r.value.answerHash == parts[|parts| - 1] &&
          |r.value.arrows| == |r.value.clues| == |parts| - 1 &&
          forall k :: 0 <= k < |parts| - 1 ==>
            ParseRecord(parts[k]) == Success((r.value.clues[k], r.value.arrows[k])) &&
            Ascending(r.value.arrows[k]))
    && (r.Failure? && r.error != CorruptedAnswer ==>
          exists k :: 0 <= k < |parts| - 1 && ParseRecord(parts[k]) == Failure(r.error) &&
            (forall j :: 0 <= j < k ==> ParseRecord(parts[j]).Success?) &&
            Explains(r.error, parts[k]))
  }

  /** `puzzleFromString(input)`, read from `input.split(";")`. */
  function PuzzleFromString(input: string): (r: Result<PuzzleData, ParseError>)
    ensures ReadsAsPuzzle(Split(input, RECORD_SEP), r)
  {
    PuzzleFromParts(Split(input, RECORD_SEP))
  }

  /** The body of `puzzleFromString` after the split: the last part is
      popped off as the hash, and the loop reads the parts before it. */
  function PuzzleFromParts(parts: seq<string>): (r: Result<PuzzleData, ParseError>)
    requires |parts| > 0
    ensures ReadsAsPuzzle(parts, r)
  {
    var n := |parts| - 1;
    var answer := parts[n];
    if !AllHexDigits(answer) then Failure(CorruptedAnswer)
    else
      match ParseRecords(parts, n)
      case Failure(e) =>
        FailureExplained(parts, n, e);
        Failure(e)
      case Success((arrows, clues)) =>
        ReadingsAscend(parts, n, arrows, clues);
        Success(PuzzleData(arrows, clues, |TargetSet(arrows)|, answer, Custom))
  }

  /** The first failing record's error names a fault of its fields. */
  lemma FailureExplained(parts: seq<string>, n: nat, e: ParseError)
    requires n <= |parts|
    requires exists k :: 0 <= k < n && ParseRecord(parts[k]) == Failure(e) &&
               forall j :: 0 <= j < k ==> ParseRecord(parts[j]).Success?
    ensures e != CorruptedAnswer
    ensures exists k :: 0 <= k < n && ParseRecord(parts[k]) == Failure(e) &&
              (forall j :: 0 <= j < k ==> ParseRecord(parts[j]).Success?) &&
              Explains(e, parts[k])
  {
    var k :| 0 <= k < n && ParseRecord(parts[k]) == Failure(e) &&
             forall j :: 0 <= j < k ==> ParseRecord(parts[j]).Success?;
    ParseRecordFaults(parts[k]);
  }

  /** Every record that reads has its targets strictly ascending. */
  lemma ReadingsAscend(parts: seq<string>, n: nat, arrows: seq<seq<int>>, clues: seq<string>)
    requires n <= |parts| && |arrows| == |clues| == n
    requires forall k :: 0 <= k < n ==> ParseRecord(parts[k]) == Success((clues[k], arrows[k]))
    ensures forall k :: 0 <= k < n ==> Ascending(arrows[k])
  {
    forall k | 0 <= k < n ensures Ascending(arrows[k]) {
      ParseRecordMeaning(parts[k]);
    }
  }

  /** A character other than the separator stays out of a join of pieces
      that do not hold it. */
  lemma {:induction false} JoinAvoids(parts: seq<string>, sep: char, c: char)
    requires c != sep && forall i :: 0 <= i < |parts| ==> c !in parts[i]
    ensures c !in Join(parts, sep)
    decreases |parts|
  {
    if |parts| > 1 {
      JoinAvoids(parts[1..], sep, c);
    }
  }

  lemma IntToStringAvoids(x: int, c: char)
    requires c != '-' && !IsDigit(c)
    ensures c !in IntToString(x)
  {
    var r := IntToString(x);
    assert forall i :: 0 <= i < |r| ==> r[i] == '-' || IsDigit(r[i]) by {
      if x < 0 {
        assert forall i :: 1 <= i < |r| ==> r[i] == r[1..][i - 1];
      }
    }
  }

  /** The labels a record can carry without breaking the format. */
  predicate PlainLabel(clue: string) {
    FIELD_SEP !in clue && RECORD_SEP !in clue
  }

  /** A record whose fields are a label and the decimal texts of a
      strictly rising list of non-negative targets reads back as that label
      and list. */
  lemma ParseRecordOfFields(part: string, clue: string, targets: seq<int>)
    requires Split(part, FIELD_SEP) == [clue] + TargetTokens(targets)
    requires Ascending(targets)
    ensures ParseRecord(part) == Success((clue, targets))
  {
    assert Split(part, FIELD_SEP)[1..] == TargetTokens(targets);
    var values := FieldValues(part);
    assert forall i :: 0 <= i < |values| ==> values[i] == Some(targets[i]);
    assert [] + targets == targets;
    ParseTargetsAccepts(values, [], targets);
  }

  /** Reading back a record that `serialise` wrote. */
  lemma RecordRoundTrip(clue: string, targets: seq<int>)
    requires PlainLabel(clue)
    requires Ascending(targets)
    ensures ParseRecord(Record(clue, targets)) == Success((clue, targets))
  {
    ParseRecordOfFields(Record(clue, targets), clue, targets);
  }

  /** Round trip: a puzzle whose labels hold neither separator, whose hash
      is hex and whose target lists rise strictly from zero or above reads
      back with the same lists, labels and hash, as a custom puzzle. */
  lemma ParseSerialised(arrows: seq<seq<int>>, clues: seq<string>, answerHash: string)
    requires |clues| == |arrows|
    requires forall i :: 0 <= i < |clues| ==> PlainLabel(clues[i])
    requires AllHexDigits(answerHash)
    requires forall k :: 0 <= k < |arrows| ==>
      Ascending(arrows[k])
    ensures PuzzleFromString(Serialise(arrows, clues, answerHash))
            == Success(PuzzleData(arrows, clues, |TargetSet(arrows)|, answerHash, Custom))
  {
    assert RECORD_SEP !in answerHash by {
      assert forall i :: 0 <= i < |answerHash| ==> IsHexDigit(answerHash[i]);
    }
    var input := Serialise(arrows, clues, answerHash);
    var parts := Split(input, RECORD_SEP);
    forall k | 0 <= k < |arrows| ensures ParseRecord(parts[k]) == Success((clues[k], arrows[k])) {
      assert Label(clues, k) == clues[k];
      ParseRecordOfFields(parts[k], clues[k], arrows[k]);
    }
    ReadRecordsBack(parts, arrows, clues);
  }

  /** Parts that are records reading as the given lists, followed by a hex
      hash, read back as the custom puzzle holding them. */
  lemma ReadRecordsBack(parts: seq<string>, arrows: seq<seq<int>>, clues: seq<string>)
    requires |parts| == |arrows| + 1 && |clues| == |arrows|
    requires AllHexDigits(parts[|arrows|])
    requires forall k :: 0 <= k < |arrows| ==> ParseRecord(parts[k]) == Success((clues[k], arrows[k]))
    ensures PuzzleFromParts(parts) == Success(PuzzleData(arrows, clues, |TargetSet(arrows)|, parts[|arrows|], Custom))
  {
    var r := PuzzleFromParts(parts);
    assert ReadsAsPuzzle(parts, r);
    assert r.Success?;
    assert r.value.arrows == arrows by {
      forall k | 0 <= k < |arrows| ensures r.value.arrows[k] == arrows[k] {
        assert ParseRecord(parts[k]) == Success((r.value.clues[k], r.value.arrows[k]));
      }
    }
    assert r.value.clues == clues by {
      forall k | 0 <= k < |arrows| ensures r.value.clues[k] == clues[k] {
        assert ParseRecord(parts[k]) == Success((r.value.clues[k], r.value.arrows[k]));
      }
    }
  }

  /** A text without `;` is a puzzle with no clues whose hash is the whole
      text, provided it is hex. */
  lemma NoSeparatorMeansNoClues(input: string)
    requires RECORD_SEP !in input && AllHexDigits(input)
    ensures PuzzleFromString(input) == Success(PuzzleData([], [], 0, input, Custom))
  {
    SplitWithoutSeparator(input, RECORD_SEP);
  }
}
