/** The player's grid of `src/Puzzle.tsx`: one row per answer slot, one
    cell per clue, each cell empty or one letter. The shown letter of a
    slot is the row's agreed value, the guess is those letters in order,
    and the grid is saved and reloaded as JSON. */
module PlayGrid {
  import opened Wrappers
  import opened Strings
  import Hash
  import Puzzles

  /** `inputValues[letter][clue]`. */
  type Grid = seq<seq<string>>

  const CONFLICT: string := "!"

  /** The entries of a row that are not empty, in order. */
  function Filled(vals: seq<string>): (r: seq<string>)
    ensures forall v :: v in r <==> v in vals && v != ""
    ensures |r| <= |vals|
    ensures |r| == 0 <==> forall i :: 0 <= i < |vals| ==> vals[i] == ""
  {
    if |vals| == 0 then []
    else (if vals[0] == "" then [] else [vals[0]]) + Filled(vals[1..])
  }

  /** `getUnique`: the one value every filled cell agrees on, `"!"` when
      they disagree, and `""` when nothing is filled. */
  function GetUnique(vals: seq<string>): (r: string)
    ensures r == "" || r == CONFLICT || r in vals
    ensures r != CONFLICT ==>
              forall i, j :: 0 <= i < |vals| && 0 <= j < |vals| && vals[i] != "" && vals[j] != "" ==>
                vals[i] == vals[j]
  {
    var filled := Filled(vals);
    var unique := set v | v in filled;
    if |unique| > 1 then CONFLICT
    else
      assert forall i, j :: 0 <= i < |vals| && 0 <= j < |vals| && vals[i] != "" && vals[j] != "" ==>
               vals[i] == vals[j] by {
        forall i, j | 0 <= i < |vals| && 0 <= j < |vals| && vals[i] != "" && vals[j] != ""
          ensures vals[i] == vals[j]
        {
          if vals[i] != vals[j] {
            assert {vals[i], vals[j]} <= unique;
            assert |{vals[i], vals[j]}| == 2;
            Puzzles.SubsetCard({vals[i], vals[j]}, unique);
          }
        }
      }
      if |filled| == 0 then ""
      else
        assert filled[0] in filled;
        filled[0]
  }

  /** A row shows nothing exactly when none of its cells is filled. */
  lemma UniqueIsEmptyExactly(vals: seq<string>)
    ensures GetUnique(vals) == "" <==> forall i :: 0 <= i < |vals| ==> vals[i] == ""
  {
    var filled := Filled(vals);
    if |filled| > 0 {
      assert filled[0] in filled;
    } else {
      assert (set v | v in filled) == {};
    }
  }

  /** When every filled cell holds `v` and one does, the row shows `v`. */
  lemma UniqueOfAgreement(vals: seq<string>, v: string)
    requires exists i :: 0 <= i < |vals| && vals[i] != ""
    requires forall i :: 0 <= i < |vals| && vals[i] != "" ==> vals[i] == v
    ensures GetUnique(vals) == v
  {
    var filled := Filled(vals);
    var i :| 0 <= i < |vals| && vals[i] != "";
    assert vals[i] in filled;
    assert filled[0] in vals;
    assert (set w | w in filled) == {v};
  }

  /** The text an input event may leave in a cell: `event.data`, kept only
      when it is exactly one ASCII letter (`/^[a-zA-Z]$/`). */
  function TypedLetter(data: Option<string>): (r: string)
    ensures r == "" || (|r| == 1 && IsAsciiLetter(r[0]))
    ensures r != "" <==> data.Some? && |data.value| == 1 && IsAsciiLetter(data.value[0])
    ensures r != "" ==> r == data.value
  {
    var value := if data.Some? then data.value else "";
    if |value| == 1 && IsAsciiLetter(value[0]) then value else ""
  }

  /** The value the play view hands to the grid updaters: the typed
      letter in lower case, or empty. */
  function CellValue(data: Option<string>): (r: string)
    ensures r == "" || (|r| == 1 && IsLowerLetter(r[0]))
    ensures r != "" <==> TypedLetter(data) != ""
    ensures r != "" ==> UpperChar(r[0]) == UpperChar(data.value[0])
  {
    Lower(TypedLetter(data))
  }

  /** `updateInput`: cell `[letter][clue]` takes `value`. */
  function UpdateInput(grid: Grid, letter: int, clue: int, value: string): (r: Grid)
    ensures |r| == |grid|
    ensures forall i :: 0 <= i < |grid| ==> |r[i]| == |grid[i]|
    ensures 0 <= letter < |grid| && 0 <= clue < |grid[letter]| ==> r[letter][clue] == value
    ensures forall i, j :: 0 <= i < |grid| && 0 <= j < |grid[i]| && (i != letter || j != clue) ==>
              r[i][j] == grid[i][j]
  {
    seq(|grid|, i requires 0 <= i < |grid| =>
      if i == letter then
        seq(|grid[i]|, j requires 0 <= j < |grid[i]| => if j == clue then value else grid[i][j])
      else grid[i])
  }

  /** `updateOutput`: every cell of row `letter` takes `value`. */
  function UpdateOutput(grid: Grid, letter: int, value: string): (r: Grid)
    ensures |r| == |grid|
    ensures forall i :: 0 <= i < |grid| ==> |r[i]| == |grid[i]|
    ensures forall j :: 0 <= letter < |grid| && 0 <= j < |grid[letter]| ==> r[letter][j] == value
    ensures forall i :: 0 <= i < |grid| && i != letter ==> r[i] == grid[i]
  {
    seq(|grid|, i requires 0 <= i < |grid| =>
      if i == letter then seq(|grid[i]|, _ => value) else grid[i])
  }

  /** "Clear all": every cell emptied. */
  function ClearAll(grid: Grid): (r: Grid)
    ensures |r| == |grid|
    ensures forall i :: 0 <= i < |grid| ==> |r[i]| == |grid[i]|
    ensures forall i, j :: 0 <= i < |r| && 0 <= j < |r[i]| ==> r[i][j] == ""
  {
    seq(|grid|, i requires 0 <= i < |grid| => seq(|grid[i]|, _ => ""))
  }

  /** Writing a letter into a slot's shown cell makes the slot show that
      letter, as long as the puzzle has a clue. */
  lemma OutputShowsValue(grid: Grid, letter: int, value: string)
    requires 0 <= letter < |grid| && |grid[letter]| > 0
    ensures var row := UpdateOutput(grid, letter, value)[letter];
      GetUnique(row) == value
  {
    var row := UpdateOutput(grid, letter, value)[letter];
    if value != "" {
      assert row[0] != "";
      UniqueOfAgreement(row, value);
    }
  }

  /** `s.length` in JavaScript: the number of UTF-16 code units. */
  function JsLength(s: string): (n: nat)
    ensures n >= |s|
    ensures (forall i :: 0 <= i < |s| ==> s[i] as int < 0x10000) ==> n == |s|
  {
    |Hash.CodeUnits(s)|
  }

  /** A grid of the expected shape: `rows` rows of `cols` cells, each cell
      empty or a single UTF-16 code unit long. */
  predicate Shaped(grid: Grid, rows: nat, cols: nat) {
    && |grid| == rows
    && (forall i :: 0 <= i < rows ==> |grid[i]| == cols)
    && (forall i, j :: 0 <= i < rows && 0 <= j < cols ==> JsLength(grid[i][j]) <= 1)
  }

  /** Typing into a cell or a slot keeps the grid's shape. */
  lemma InputKeepsShape(grid: Grid, rows: nat, cols: nat, letter: int, clue: int, data: Option<string>)
    requires Shaped(grid, rows, cols)
    ensures Shaped(UpdateInput(grid, letter, clue, CellValue(data)), rows, cols)
    ensures Shaped(UpdateOutput(grid, letter, CellValue(data)), rows, cols)
  {
    var v := CellValue(data);
    assert JsLength(v) <= 1 by {
      if v != "" {
        assert v[0] as int < 0x10000;
      }
    }
  }

  /** The values `JSON.parse` can give back. */
  datatype Json =
    | JNull
    | JBool(b: bool)
    | JNumber(n: int)
    | JString(s: string)
    | JArray(items: seq<Json>)
    | JObject(members: seq<(string, Json)>)

  /** `JSON.stringify` of a grid, as the save effect writes it. */
  function GridToJson(grid: Grid): (r: Json)
    ensures r.JArray? && |r.items| == |grid|
    ensures forall i :: 0 <= i < |grid| ==>
              r.items[i].JArray? && |r.items[i].items| == |grid[i]|
    ensures forall i, j :: 0 <= i < |grid| && 0 <= j < |grid[i]| ==>
              r.items[i].items[j] == JString(grid[i][j])
  {
    JArray(seq(|grid|, i requires 0 <= i < |grid| =>
      JArray(seq(|grid[i]|, j requires 0 <= j < |grid[i]| => JString(grid[i][j])))))
  }

  /** A row of the saved data as the load check wants it: an array of
      `cols` strings, none longer than one UTF-16 code unit. */
  predicate SavedRow(v: Json, cols: nat) {
    && v.JArray?
    && |v.items| == cols
    && (forall j :: 0 <= j < |v.items| ==> v.items[j].JString?)
    && (forall j :: 0 <= j < |v.items| ==> v.items[j].JString? && JsLength(v.items[j].s) <= 1)
  }

  /** The load check on the parsed save data. */
  predicate SavedGridOk(saved: Json, rows: nat, cols: nat) {
    && saved.JArray?
    && |saved.items| == rows
    && (forall i :: 0 <= i < |saved.items| ==> SavedRow(saved.items[i], cols))
  }

  function RowStrings(v: Json): (r: seq<string>)
    requires v.JArray? && forall j :: 0 <= j < |v.items| ==> v.items[j].JString?
    ensures |r| == |v.items|
    ensures forall j :: 0 <= j < |r| ==> v.items[j] == JString(r[j])
  {
    seq(|v.items|, j requires 0 <= j < |v.items| => v.items[j].s)
  }

  function EmptyGrid(rows: nat, cols: nat): (r: Grid)
    ensures Shaped(r, rows, cols)
    ensures forall i, j :: 0 <= i < rows && 0 <= j < cols ==> r[i][j] == ""
  {
    seq(rows, _ => seq(cols, _ => ""))
  }

  datatype Loaded = Loaded(grid: Grid, corrupted: bool)

  /** Loading a puzzle's saved grid. `stored` is the saved text already
      parsed (`None` when nothing is stored, where the source parses
      `"null"`). Saved data of the right shape is kept; anything else is
      replaced by an empty grid, and reported as corrupted when something
      was stored. */
  function LoadGrid(stored: Option<Json>, rows: nat, cols: nat): (r: Loaded)
    ensures Shaped(r.grid, rows, cols)
    ensures r.corrupted <==> stored.Some? && !SavedGridOk(stored.value, rows, cols)
    ensures stored.Some? && SavedGridOk(stored.value, rows, cols) ==>
              forall i, j :: 0 <= i < rows && 0 <= j < cols ==>
                stored.value.items[i].items[j] == JString(r.grid[i][j])
    ensures !(stored.Some? && SavedGridOk(stored.value, rows, cols)) ==> r.grid == EmptyGrid(rows, cols)
  {
    var saved := if stored.Some? then stored.value else JNull;
    if SavedGridOk(saved, rows, cols) then
      var grid := seq(rows, i requires 0 <= i < rows => RowStrings(saved.items[i]));
      Loaded(grid, false)
    else
      Loaded(EmptyGrid(rows, cols), stored.Some?)
  }

  /** Saving a grid of the right shape and loading it back gives the same
      grid, with no corruption reported. */
  lemma LoadSavedGrid(grid: Grid, rows: nat, cols: nat)
    requires Shaped(grid, rows, cols)
    ensures LoadGrid(Some(GridToJson(grid)), rows, cols) == Loaded(grid, false)
  {
    var saved := GridToJson(grid);
    forall i | 0 <= i < rows ensures SavedRow(saved.items[i], cols) {
    }
    var r := LoadGrid(Some(saved), rows, cols);
    assert forall i :: 0 <= i < rows ==> r.grid[i] == grid[i];
  }

  /** A grid saved with the wrong shape is not kept. */
  lemma LoadMisshapenGrid(grid: Grid, rows: nat, cols: nat)
    requires !Shaped(grid, rows, cols)
    ensures LoadGrid(Some(GridToJson(grid)), rows, cols) == Loaded(EmptyGrid(rows, cols), true)
  {
    var saved := GridToJson(grid);
    if SavedGridOk(saved, rows, cols) {
      forall i, j | 0 <= i < rows && 0 <= j < cols ensures JsLength(grid[i][j]) <= 1 {
        assert SavedRow(saved.items[i], cols);
        assert saved.items[i].items[j] == JString(grid[i][j]);
      }
      assert false;
    }
  }

  /** The load check accepts exactly the saved forms of grids of the
      expected shape. */
  lemma SavedGridOkIsSavedShape(saved: Json, rows: nat, cols: nat)
    ensures SavedGridOk(saved, rows, cols) <==>
              exists grid :: Shaped(grid, rows, cols) && GridToJson(grid) == saved
  {
    if SavedGridOk(saved, rows, cols) {
      var grid := seq(rows, i requires 0 <= i < rows => RowStrings(saved.items[i]));
      assert GridToJson(grid).items == saved.items by {
        forall i | 0 <= i < rows ensures GridToJson(grid).items[i] == saved.items[i] {
          assert GridToJson(grid).items[i].items == saved.items[i].items;
        }
      }
      assert Shaped(grid, rows, cols);
    }
    if exists grid :: Shaped(grid, rows, cols) && GridToJson(grid) == saved {
      var grid :| Shaped(grid, rows, cols) && GridToJson(grid) == saved;
      forall i | 0 <= i < rows ensures SavedRow(saved.items[i], cols) {
      }
    }
  }

  /** A cell holding one character outside the Basic Multilingual Plane
      is two code units long, so a saved grid holding one is reported as
      corrupted and replaced. */
  lemma AstralCellIsCorrupt(grid: Grid, rows: nat, cols: nat, i: nat, j: nat, c: char)
    requires |grid| == rows && 0 <= i < rows && 0 <= j < cols && |grid[i]| == cols
    requires grid[i][j] == [c] && c as int >= 0x10000
    ensures LoadGrid(Some(GridToJson(grid)), rows, cols) == Loaded(EmptyGrid(rows, cols), true)
  {
    assert JsLength([c]) == 2;
    LoadMisshapenGrid(grid, rows, cols);
  }

  /** The guess: what slots `0 .. outputCount - 1` show, in order. When
      every slot shows a single character, the guess has one character per
      slot, the one that slot shows. */
  function Solution(grid: Grid, outputCount: nat): (r: string)
    requires outputCount <= |grid|
    ensures (forall i :: 0 <= i < outputCount ==> |GetUnique(grid[i])| == 1) ==>
              |r| == outputCount && forall i :: 0 <= i < outputCount ==> [r[i]] == GetUnique(grid[i])
  {
    if outputCount == 0 then ""
    else
      var front := Solution(grid, outputCount - 1);
      var last := GetUnique(grid[outputCount - 1]);
      assert (forall i :: 0 <= i < outputCount ==> |GetUnique(grid[i])| == 1) ==>
               forall i :: 0 <= i < outputCount ==> [(front + last)[i]] == GetUnique(grid[i]) by {
        if forall i :: 0 <= i < outputCount ==> |GetUnique(grid[i])| == 1 {
          forall i | 0 <= i < outputCount ensures [(front + last)[i]] == GetUnique(grid[i]) {
            if i == outputCount - 1 {
              assert (front + last)[i] == last[0];
            }
          }
        }
      }
      front + last
  }

  /** A row of a shaped grid shows at most one character. */
  lemma UniqueOfShapedRow(vals: seq<string>)
    requires forall j :: 0 <= j < |vals| ==> JsLength(vals[j]) <= 1
    ensures |GetUnique(vals)| <= 1
  {
    var u := GetUnique(vals);
    if u != "" && u != CONFLICT {
      var j :| 0 <= j < |vals| && vals[j] == u;
    }
  }

  /** On a shaped grid the guess has one character for each slot that
      shows something, so it is as long as the answer exactly when every
      slot shows something. */
  lemma SolutionLength(grid: Grid, rows: nat, cols: nat, outputCount: nat)
    requires Shaped(grid, rows, cols) && outputCount <= rows
    ensures |Solution(grid, outputCount)| <= outputCount
    ensures |Solution(grid, outputCount)| == outputCount <==>
              forall i :: 0 <= i < outputCount ==> GetUnique(grid[i]) != ""
  {
    forall i | 0 <= i < outputCount ensures |GetUnique(grid[i])| <= 1 {
      UniqueOfShapedRow(grid[i]);
    }
    GuessLength(grid, outputCount);
  }

  /** Every one of the first `k` slots shows something. */
  predicate AllShow(grid: Grid, k: nat)
    requires k <= |grid|
  {
    forall i :: 0 <= i < k ==> GetUnique(grid[i]) != ""
  }

  lemma AllShowStep(grid: Grid, n: nat)
    requires n < |grid|
    ensures AllShow(grid, n + 1) <==> AllShow(grid, n) && GetUnique(grid[n]) != ""
  {
    if AllShow(grid, n) && GetUnique(grid[n]) != "" {
      forall i | 0 <= i < n + 1 ensures GetUnique(grid[i]) != "" {
        if i < n {
          assert GetUnique(grid[i]) != "";
        }
      }
    }
  }

  lemma SolutionStep(grid: Grid, n: nat)
    requires n < |grid|
    ensures |Solution(grid, n + 1)| == |Solution(grid, n)| + |GetUnique(grid[n])|
  {
  }

  /** The guess has one character for each slot that shows one. */
  lemma {:induction false} GuessLength(grid: Grid, outputCount: nat)
    requires outputCount <= |grid|
    requires forall i :: 0 <= i < outputCount ==> |GetUnique(grid[i])| <= 1
    ensures |Solution(grid, outputCount)| <= outputCount
    ensures |Solution(grid, outputCount)| == outputCount <==> AllShow(grid, outputCount)
    decreases outputCount
  {
    if outputCount > 0 {
      var n := outputCount - 1;
      GuessLength(grid, n);
      SolutionStep(grid, n);
      AllShowStep(grid, n);
      assert |GetUnique(grid[n])| <= 1;
    }
  }

  /** A row whose every cell holds one slot letter. */
  predicate RowSpells(row: seq<string>, c: char) {
    |row| > 0 && forall j :: 0 <= j < |row| ==> row[j] == [c]
  }

  /** When every slot's cells all hold the answer's letter, the guess is
      the answer. */
  lemma {:induction false} SolutionOfFilledGrid(grid: Grid, answer: string)
    requires |answer| <= |grid|
    requires forall i :: 0 <= i < |answer| ==> RowSpells(grid[i], answer[i])
    ensures Solution(grid, |answer|) == answer
    decreases |answer|
  {
    if |answer| > 0 {
      var n := |answer| - 1;
      SolutionOfFilledGrid(grid, answer[..n]);
      assert grid[n][0] == [answer[n]];
      UniqueOfAgreement(grid[n], [answer[n]]);
      assert answer[..n] + [answer[n]] == answer;
    }
  }

  /** "Reveal answer": each slot's row filled with its letter of the
      answer in every clue's cell. */
  function RevealGrid(answer: string, cols: nat): (r: Grid)
    ensures |r| == |answer|
    ensures forall i :: 0 <= i < |answer| ==> |r[i]| == cols
    ensures forall i, j :: 0 <= i < |answer| && 0 <= j < cols ==> r[i][j] == [answer[i]]
  {
    seq(|answer|, i requires 0 <= i < |answer| => seq(cols, _ => [answer[i]]))
  }

  /** The completion check: the guess assembled from the grid validates
      against the puzzle's hash, that is, the stored hash is the guess's
      hash up to case. */
  function Won(grid: Grid, outputCount: nat, answerHash: string): (won: bool)
    requires outputCount <= |grid|
    ensures won <==> Lower(answerHash) == Hash.Hash(Solution(grid, outputCount))
  {
    Hash.ValidateMeansSameHash(Solution(grid, outputCount), answerHash);
    Hash.ValidatePuzzleSolution(Solution(grid, outputCount), answerHash)
  }

  /** A revealed grid wins the puzzle it was revealed for: its guess is
      the answer, whose hash the puzzle stores. */
  lemma RevealedGridWins(answer: string, cols: nat)
    requires cols > 0
    ensures Solution(RevealGrid(answer, cols), |answer|) == answer
    ensures Won(RevealGrid(answer, cols), |answer|, Hash.Hash(answer))
  {
    var grid := RevealGrid(answer, cols);
    assert forall i :: 0 <= i < |answer| ==> RowSpells(grid[i], answer[i]);
    SolutionOfFilledGrid(grid, answer);
    Hash.ValidateOwnHash(answer);
  }
}
