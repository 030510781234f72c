/**
 * The `clean_data` pass over the raw task log: drop duplicate rows, coerce the
 * Date column, strip and title-case the four text columns, map Completed from
 * "Yes"/"No" to 1/0, and forward-fill missing cells. The CSV read and write
 * are outside the model: the pass takes the parsed rows and returns the rows
 * that would be written.
 */
module Cleaning {
  import opened Wrappers
  import opened Sequences
  import Text

  /** A present cell holds text or a whole number. */
  datatype Value = Str(s: string) | Num(n: int)

  /** A missing cell (NaN / NaT) is None. */
  type Cell = Option<Value>

  /** Columns of the task log, in file order. */
  const Width: nat := 7
  const DateCol: nat := 0
  const TaskCol: nat := 1
  const CategoryCol: nat := 2
  const PriorityCol: nat := 3
  const MoodCol: nat := 4
  const TimeCol: nat := 5
  const CompletedCol: nat := 6

  /** The columns that are stripped and title-cased, in the order the loop visits them. */
  const TextColumns: seq<nat> := [TaskCol, CategoryCol, PriorityCol, MoodCol]

  /** Every row of the frame has one cell per column. */
  type Row = r: seq<Cell> | |r| == Width witness [None, None, None, None, None, None, None]

  /** The table after `f` is applied to every cell of column `col`; other columns are untouched. */
  function SetColumn(t: seq<Row>, col: nat, f: Cell -> Cell): (r: seq<Row>)
    requires col < Width
    ensures |r| == |t|
    ensures forall i :: 0 <= i < |t| ==> r[i][col] == f(t[i][col])
    ensures forall i, c :: 0 <= i < |t| && 0 <= c < Width && c != col ==> r[i][c] == t[i][c]
  {
    seq(|t|, i requires 0 <= i < |t| => t[i][col := f(t[i][col])])
  }

  // ---------------------------------------------------------------- dedup

  /** `drop_duplicates()`: a row is kept when no equal row came before it. */
  method DropDuplicates(t: seq<Row>) returns (kept: seq<Row>)
    ensures kept == Unique(t)
  {
    var seen: set<Row> := {};
    kept := [];
    var i := 0;
    while i < |t|
      invariant 0 <= i <= |t|
      invariant kept == Unique(t[..i])
      invariant forall r :: r in seen <==> r in t[..i]
    {
      assert t[..i + 1][..i] == t[..i];
      if t[i] !in seen {
        kept := kept + [t[i]];
      }
      seen := seen + {t[i]};
      i := i + 1;
    }
    assert t[..|t|] == t;
  }

  // ---------------------------------------------------------------- dates

  /** `to_datetime(errors="coerce")`: a missing cell stays missing; `parse` gives None for text it cannot read. */
  function CoerceDate(parse: Value -> Option<Value>): (f: Cell -> Cell)
    ensures f(None) == None
    ensures forall v :: f(Some(v)) == parse(v)
  {
    (c: Cell) => match c
         case None => None
         case Some(v) => parse(v)
  }

  // ---------------------------------------------------------------- text

  /**
   * `astype(str)`: a missing cell becomes the text "nan", text is kept, and a
   * number becomes decimal text that reads back as the same number.
   */
  function AsStr(c: Cell): (r: string)
    ensures c.None? ==> r == "nan"
    ensures c.Some? && c.value.Str? ==> r == c.value.s
    ensures c.Some? && c.value.Num? ==> r == Text.IntToString(c.value.n) && Text.IntValue(r) == c.value.n
  {
    match c
    case None => "nan"
    case Some(Str(s)) => s
    case Some(Num(n)) => Text.IntToString(n)
  }

  /** One text cell after `astype(str).str.strip().str.title()`: always present, even when it was missing. */
  function NormalizeCell(c: Cell): (r: Cell)
    ensures r.Some? && r.value.Str?
  {
    Some(Str(Text.Normalize(AsStr(c))))
  }

  /** A normalised cell is normalised already: its text is trimmed and a second pass changes nothing. */
  lemma NormalizeCellIdempotent(c: Cell)
    ensures Text.Trimmed(NormalizeCell(c).value.s)
    ensures NormalizeCell(NormalizeCell(c)) == NormalizeCell(c)
  {
    Text.NormalizeTrimmed(AsStr(c));
    Text.NormalizeIdempotent(AsStr(c));
  }

  /** A number in a text column becomes its decimal text, which strip and title leave alone. */
  lemma NumberCellBecomesDecimalText(n: int)
    ensures NormalizeCell(Some(Num(n))) == Some(Str(Text.IntToString(n)))
    ensures Text.IntValue(NormalizeCell(Some(Num(n))).value.s) == n
  {
    Text.NormalizeIntText(n);
  }

  /**
   * Text cells that differ only in surrounding whitespace and in letter case
   * normalise to the same cell.
   */
  lemma TextCellsNormaliseAlike(w1: string, s: string, w2: string, t: string)
    requires Text.AllSpace(w1) && Text.AllSpace(w2)
    requires Text.SameUpToCase(s, t)
    ensures NormalizeCell(Some(Str(w1 + s + w2))) == NormalizeCell(Some(Str(t)))
  {
    Text.NormalizeIgnoresSpacingAndCase(w1, s, w2, t);
  }

  /** The table after `f` is applied to the columns `cols`, one column after another. */
  function MapColumns(t: seq<Row>, cols: seq<nat>, f: Cell -> Cell): (r: seq<Row>)
    requires forall k :: 0 <= k < |cols| ==> cols[k] < Width
    ensures |r| == |t|
  {
    if cols == [] then t
    else SetColumn(MapColumns(t, cols[..|cols| - 1], f), cols[|cols| - 1], f)
  }

  /**
   * When no column is listed twice, a cell of a listed column has had `f`
   * applied once and a cell of any other column is as it was.
   */
  lemma {:induction false} MapColumnsAt(t: seq<Row>, cols: seq<nat>, f: Cell -> Cell, i: nat, c: nat)
    requires forall k :: 0 <= k < |cols| ==> cols[k] < Width
    requires Distinct(cols)
    requires i < |t| && c < Width
    ensures MapColumns(t, cols, f)[i][c] == if c in cols then f(t[i][c]) else t[i][c]
  {
    if cols != [] {
      var init, last := cols[..|cols| - 1], cols[|cols| - 1];
      assert Distinct(init);
      MapColumnsAt(t, init, f, i, c);
      assert cols == init + [last];
      assert last !in init;
    }
  }

  // ---------------------------------------------------------------- Completed

  /**
   * `map({"Yes": 1, "No": 0})`: exactly the text "Yes" becomes 1, exactly "No"
   * becomes 0, and every other cell (other spellings, numbers, missing) becomes missing.
   */
  function YesNo(c: Cell): (r: Cell)
    ensures r == Some(Num(1)) <==> c == Some(Str("Yes"))
    ensures r == Some(Num(0)) <==> c == Some(Str("No"))
    ensures r.None? <==> c != Some(Str("Yes")) && c != Some(Str("No"))
  {
    if c == Some(Str("Yes")) then Some(Num(1))
    else if c == Some(Str("No")) then Some(Num(0))
    else None
  }

  // ---------------------------------------------------------------- forward fill

  /** The last present value of column `col` in `t`, or missing when there is none. */
  function LastSeen(t: seq<Row>, col: nat): Cell
    requires col < Width
  {
    if t == [] then None
    else if t[|t| - 1][col].Some? then t[|t| - 1][col]
    else LastSeen(t[..|t| - 1], col)
  }

  /** The values carried forward after reading all of `t`: one per column. */
  function Carried(t: seq<Row>): Row
  {
    seq(Width, c requires 0 <= c < Width => LastSeen(t, c))
  }

  /** `ffill()`: row i holds, in each column, the last present value among rows 0 .. i. */
  function FFill(t: seq<Row>): (r: seq<Row>)
    ensures |r| == |t|
  {
    if t == [] then [] else FFill(t[..|t| - 1]) + [Carried(t)]
  }

  /** Row i of the filled table is what is carried after reading rows 0 .. i. */
  lemma {:induction false} FFillRow(t: seq<Row>, i: nat)
    requires i < |t|
    ensures FFill(t)[i] == Carried(t[..i + 1])
  {
    var init := t[..|t| - 1];
    if i < |t| - 1 {
      assert init[..i + 1] == t[..i + 1];
      FFillRow(init, i);
    } else {
      assert t[..i + 1] == t;
    }
  }

  /**
   * The index of the nearest row at or before `i` whose `col` cell is
   * present, or -1 when rows 0 .. i are all missing there.
   */
  function LastPresent(t: seq<Row>, col: nat, i: int): (j: int)
    requires col < Width && -1 <= i < |t|
    ensures -1 <= j <= i
    ensures j >= 0 ==> t[j][col].Some?
    ensures forall k :: j < k <= i ==> t[k][col].None?
  {
    if i < 0 then -1 else if t[i][col].Some? then i else LastPresent(t, col, i - 1)
  }

  lemma {:induction false} LastSeenIsLastPresent(t: seq<Row>, col: nat, i: int)
    requires col < Width && -1 <= i < |t|
    ensures LastSeen(t[..i + 1], col) ==
      (var j := LastPresent(t, col, i); if j >= 0 then t[j][col] else None)
  {
    if i >= 0 {
      assert t[..i + 1][..i] == t[..i];
      LastSeenIsLastPresent(t, col, i - 1);
    }
  }

  /** The nearest present cell depends only on the cells of that column. */
  lemma {:induction false} LastPresentSameColumn(t: seq<Row>, u: seq<Row>, col: nat, i: int)
    requires col < Width && -1 <= i < |t| && |t| == |u|
    requires forall k :: 0 <= k <= i ==> t[k][col] == u[k][col]
    ensures LastPresent(t, col, i) == LastPresent(u, col, i)
  {
    if i >= 0 && t[i][col].None? {
      LastPresentSameColumn(t, u, col, i - 1);
    }
  }

  /**
   * Forward fill gives every cell the value of the nearest row at or before
   * it where that column is present, and leaves it missing when there is none.
   */
  lemma FFillTakesNearestEarlier(t: seq<Row>, i: nat, col: nat)
    requires i < |t| && col < Width
    ensures FFill(t)[i][col] ==
      (var j := LastPresent(t, col, i); if j >= 0 then t[j][col] else None)
  {
    FFillRow(t, i);
    LastSeenIsLastPresent(t, col, i);
  }

  /**
   * Forward fill keeps the row count and every present cell; a missing cell
   * stays missing exactly when every cell above it in its column is missing.
   */
  lemma FFillProperties(t: seq<Row>, i: nat, col: nat)
    requires i < |t| && col < Width
    ensures |FFill(t)| == |t|
    ensures t[i][col].Some? ==> FFill(t)[i][col] == t[i][col]
    ensures FFill(t)[i][col].None? <==> forall k :: 0 <= k <= i ==> t[k][col].None?
  {
    FFillTakesNearestEarlier(t, i, col);
  }

  /** A row that repeats the row above it is filled exactly like the row above. */
  lemma FFillRepeatedRow(t: seq<Row>, i: nat)
    requires 0 < i < |t| && t[i] == t[i - 1]
    ensures FFill(t)[i] == FFill(t)[i - 1]
  {
    forall c | 0 <= c < Width
      ensures FFill(t)[i][c] == FFill(t)[i - 1][c]
    {
      FFillTakesNearestEarlier(t, i, c);
      FFillTakesNearestEarlier(t, i - 1, c);
    }
  }

  /** The forward-fill loop: carry the last present value of each column down the rows. */
  method ForwardFill(t: seq<Row>) returns (filled: seq<Row>)
    ensures filled == FFill(t)
  {
    var last: Row := Carried([]);
    filled := [];
    var i := 0;
    while i < |t|
      invariant 0 <= i <= |t|
      invariant filled == FFill(t[..i])
      invariant last == Carried(t[..i])
    {
      var next: seq<Cell> := last;
      var c := 0;
      while c < Width
        invariant 0 <= c <= Width && |next| == Width
        invariant forall k :: 0 <= k < c ==> next[k] == LastSeen(t[..i + 1], k)
        invariant forall k :: c <= k < Width ==> next[k] == last[k]
      {
        assert t[..i + 1][..i] == t[..i];
        if t[i][c].Some? {
          next := next[c := t[i][c]];
        }
        c := c + 1;
      }
      last := next;
      assert t[..i + 1][..i] == t[..i];
      assert last == Carried(t[..i + 1]);
      assert FFill(t[..i + 1]) == FFill(t[..i]) + [Carried(t[..i + 1])];
      filled := filled + [last];
      i := i + 1;
    }
    assert t[..|t|] == t;
  }

  // ---------------------------------------------------------------- the pass

  /**
   * The steps after dedup, with the date coercion and the text normalisation
   * as parameters, so that facts which do not depend on them are proved once.
   */
  function AfterDedup(deduped: seq<Row>, date: Cell -> Cell, text: Cell -> Cell): (r: seq<Row>)
    ensures |r| == |deduped|
  {
    var dated := SetColumn(deduped, DateCol, date);
    var normalized := MapColumns(dated, TextColumns, text);
    var mapped := SetColumn(normalized, CompletedCol, YesNo);
    FFill(mapped)
  }

  /** The whole cleaning pass as one function of the raw rows. */
  function Clean(raw: seq<Row>, parseDate: Value -> Option<Value>): (r: seq<Row>)
    ensures |r| == |Unique(raw)|
  {
    AfterDedup(Unique(raw), CoerceDate(parseDate), NormalizeCell)
  }

  /** `clean_data` without its file reads and writes: the frame is replaced step by step. */
  method CleanData(raw: seq<Row>, parseDate: Value -> Option<Value>) returns (df: seq<Row>)
    ensures df == Clean(raw, parseDate)
  {
    df := DropDuplicates(raw);
    df := SetColumn(df, DateCol, CoerceDate(parseDate));
    ghost var dated := df;
    for k := 0 to |TextColumns|
      invariant df == MapColumns(dated, TextColumns[..k], NormalizeCell)
    {
      assert TextColumns[..k + 1][..k] == TextColumns[..k];
      df := SetColumn(df, TextColumns[k], NormalizeCell);
    }
    assert TextColumns[..|TextColumns|] == TextColumns;
    df := SetColumn(df, CompletedCol, YesNo);
    df := ForwardFill(df);
  }

  /** Only dedup removes rows. */
  lemma CleanRowCount(raw: seq<Row>, parseDate: Value -> Option<Value>)
    ensures |Clean(raw, parseDate)| == |Unique(raw)| <= |raw|
    ensures Distinct(raw) ==> |Clean(raw, parseDate)| == |raw|
  {
    if Distinct(raw) {
      UniqueOfDistinct(raw);
    }
  }

  /** No row among rows 0 .. i holds exactly "Yes" or "No" in Completed. */
  predicate NoOutcomeUpTo(t: seq<Row>, i: nat)
    requires i < |t|
  {
    forall k :: 0 <= k <= i ==> t[k][CompletedCol] != Some(Str("Yes")) && t[k][CompletedCol] != Some(Str("No"))
  }

  /** Each cell before forward fill: which step, if any, rewrote it. */
  lemma {:induction false} BeforeFillCell(deduped: seq<Row>, date: Cell -> Cell, text: Cell -> Cell, i: nat, c: nat)
    requires i < |deduped| && c < Width
    ensures
      var mapped := SetColumn(MapColumns(SetColumn(deduped, DateCol, date), TextColumns, text), CompletedCol, YesNo);
      |mapped| == |deduped| &&
      mapped[i][c] ==
        if c == DateCol then date(deduped[i][c])
        else if c in TextColumns then text(deduped[i][c])
        else if c == CompletedCol then YesNo(deduped[i][c])
        else deduped[i][c]
  {
    MapColumnsAt(SetColumn(deduped, DateCol, date), TextColumns, text, i, c);
  }

  /** No row among rows 0 .. i has a value in column `col` after the step `f`. */
  predicate NoValueUpTo(t: seq<Row>, col: nat, f: Cell -> Cell, i: nat)
    requires col < Width && i < |t|
  {
    forall k :: 0 <= k <= i ==> f(t[k][col]).None?
  }

  /**
   * The date after the pass: a date the step can read is kept, one it cannot
   * read takes the date of the row above, and the date is missing exactly
   * when no row at or above has a readable date.
   */
  lemma {:induction false} AfterDedupDate(deduped: seq<Row>, date: Cell -> Cell, text: Cell -> Cell, i: nat)
    requires i < |deduped|
    ensures |AfterDedup(deduped, date, text)| == |deduped|
    ensures AfterDedup(deduped, date, text)[i][DateCol].None? <==> NoValueUpTo(deduped, DateCol, date, i)
    ensures date(deduped[i][DateCol]).Some? ==>
      AfterDedup(deduped, date, text)[i][DateCol] == date(deduped[i][DateCol])
    ensures date(deduped[i][DateCol]).None? && i > 0 ==>
      AfterDedup(deduped, date, text)[i][DateCol] == AfterDedup(deduped, date, text)[i - 1][DateCol]
  {
    var mapped := SetColumn(MapColumns(SetColumn(deduped, DateCol, date), TextColumns, text), CompletedCol, YesNo);
    forall k | 0 <= k < |mapped|
      ensures mapped[k][DateCol] == date(deduped[k][DateCol])
    {
      BeforeFillCell(deduped, date, text, k, DateCol);
    }
    FFillTakesNearestEarlier(mapped, i, DateCol);
    FFillProperties(mapped, i, DateCol);
    if i > 0 {
      FFillTakesNearestEarlier(mapped, i - 1, DateCol);
    }
  }

  /**
   * Time spent is touched only by forward fill: each row gets its own time
   * when present, and otherwise the nearest present time above it, or none.
   */
  lemma {:induction false} AfterDedupTime(deduped: seq<Row>, date: Cell -> Cell, text: Cell -> Cell, i: nat)
    requires i < |deduped|
    ensures |AfterDedup(deduped, date, text)| == |deduped|
    ensures AfterDedup(deduped, date, text)[i][TimeCol] ==
      (var j := LastPresent(deduped, TimeCol, i); if j >= 0 then deduped[j][TimeCol] else None)
    ensures deduped[i][TimeCol].Some? ==> AfterDedup(deduped, date, text)[i][TimeCol] == deduped[i][TimeCol]
  {
    var mapped := SetColumn(MapColumns(SetColumn(deduped, DateCol, date), TextColumns, text), CompletedCol, YesNo);
    forall k | 0 <= k < |mapped|
      ensures mapped[k][TimeCol] == deduped[k][TimeCol]
    {
      BeforeFillCell(deduped, date, text, k, TimeCol);
    }
    LastPresentSameColumn(mapped, deduped, TimeCol, i);
    FFillTakesNearestEarlier(mapped, i, TimeCol);
  }

  /** A text column whose step always yields a value is never filled: it keeps its own value. */
  lemma {:induction false} AfterDedupText(deduped: seq<Row>, date: Cell -> Cell, text: Cell -> Cell, i: nat, k: nat)
    requires i < |deduped| && k < |TextColumns|
    requires forall x :: text(x).Some?
    ensures |AfterDedup(deduped, date, text)| == |deduped|
    ensures AfterDedup(deduped, date, text)[i][TextColumns[k]] == text(deduped[i][TextColumns[k]])
  {
    var mapped := SetColumn(MapColumns(SetColumn(deduped, DateCol, date), TextColumns, text), CompletedCol, YesNo);
    BeforeFillCell(deduped, date, text, i, TextColumns[k]);
    FFillProperties(mapped, i, TextColumns[k]);
  }

  /**
   * Completed after the pass is 1, 0 or missing; it is missing exactly when
   * no row at or above holds exactly "Yes" or "No".
   */
  lemma {:induction false} AfterDedupCompleted(deduped: seq<Row>, date: Cell -> Cell, text: Cell -> Cell, i: nat)
    requires i < |deduped|
    ensures |AfterDedup(deduped, date, text)| == |deduped|
    ensures AfterDedup(deduped, date, text)[i][CompletedCol] in {None, Some(Num(0)), Some(Num(1))}
    ensures AfterDedup(deduped, date, text)[i][CompletedCol].None? <==>
      NoOutcomeUpTo(deduped, i)
    ensures YesNo(deduped[i][CompletedCol]).Some? ==>
      AfterDedup(deduped, date, text)[i][CompletedCol] == YesNo(deduped[i][CompletedCol])
    ensures YesNo(deduped[i][CompletedCol]).None? && i > 0 ==>
      AfterDedup(deduped, date, text)[i][CompletedCol] == AfterDedup(deduped, date, text)[i - 1][CompletedCol]
  {
    var mapped := SetColumn(MapColumns(SetColumn(deduped, DateCol, date), TextColumns, text), CompletedCol, YesNo);
    forall k | 0 <= k < |mapped|
      ensures mapped[k][CompletedCol] == YesNo(deduped[k][CompletedCol])
    {
      BeforeFillCell(deduped, date, text, k, CompletedCol);
    }
    FFillTakesNearestEarlier(mapped, i, CompletedCol);
    FFillProperties(mapped, i, CompletedCol);
    if i > 0 {
      FFillTakesNearestEarlier(mapped, i - 1, CompletedCol);
    }
  }

  /**
   * Two adjacent rows that agree outside the text columns, and whose text
   * cells normalise alike, come out of the pass identical.
   */
  lemma {:induction false} AfterDedupMergesRows(deduped: seq<Row>, date: Cell -> Cell, text: Cell -> Cell, i: nat)
    requires 0 < i < |deduped|
    requires forall c :: 0 <= c < Width && c !in TextColumns ==> deduped[i][c] == deduped[i - 1][c]
    requires forall k :: 0 <= k < |TextColumns| ==> text(deduped[i][TextColumns[k]]) == text(deduped[i - 1][TextColumns[k]])
    ensures |AfterDedup(deduped, date, text)| == |deduped|
    ensures AfterDedup(deduped, date, text)[i] == AfterDedup(deduped, date, text)[i - 1]
  {
    var mapped := SetColumn(MapColumns(SetColumn(deduped, DateCol, date), TextColumns, text), CompletedCol, YesNo);
    forall c | 0 <= c < Width
      ensures mapped[i][c] == mapped[i - 1][c]
    {
      BeforeFillCell(deduped, date, text, i, c);
      BeforeFillCell(deduped, date, text, i - 1, c);
      if c in TextColumns {
        var k :| 0 <= k < |TextColumns| && TextColumns[k] == c;
      }
    }
    FFillRepeatedRow(mapped, i);
  }

  /**
   * After cleaning, each of the four text columns holds, in every row, the
   * stripped and title-cased text of that row's deduplicated cell: never
   * missing, so forward fill has nothing to fill there.
   */
  lemma CleanTextColumns(raw: seq<Row>, parseDate: Value -> Option<Value>, i: nat, k: nat)
    requires i < |Clean(raw, parseDate)| && k < |TextColumns|
    ensures Clean(raw, parseDate)[i][TextColumns[k]] == NormalizeCell(Unique(raw)[i][TextColumns[k]])
    ensures Clean(raw, parseDate)[i][TextColumns[k]].Some?
  {
    AfterDedupText(Unique(raw), CoerceDate(parseDate), NormalizeCell, i, k);
  }

  /** A missing text cell is written as the text "Nan". */
  lemma MissingTextBecomesNan(raw: seq<Row>, parseDate: Value -> Option<Value>, i: nat, k: nat)
    requires i < |Clean(raw, parseDate)| && k < |TextColumns|
    requires Unique(raw)[i][TextColumns[k]].None?
    ensures Clean(raw, parseDate)[i][TextColumns[k]] == Some(Str("Nan"))
  {
    CleanTextColumns(raw, parseDate, i, k);
    assert Text.Strip("nan") == "nan";
    assert Text.Title("nan") == "Nan";
  }

  /** A date cell `to_datetime` turns into NaT: missing, or text the parser cannot read. */
  predicate Unreadable(parseDate: Value -> Option<Value>, c: Cell)
  {
    c.None? || parseDate(c.value).None?
  }

  /** The coerced date column has no value up to row i exactly when every date there is unreadable. */
  lemma NoDateUpTo(t: seq<Row>, parseDate: Value -> Option<Value>, i: nat)
    requires i < |t|
    ensures NoValueUpTo(t, DateCol, CoerceDate(parseDate), i) <==>
      forall k :: 0 <= k <= i ==> Unreadable(parseDate, t[k][DateCol])
  {
    var date := CoerceDate(parseDate);
    forall k | 0 <= k <= i
      ensures date(t[k][DateCol]).None? <==> Unreadable(parseDate, t[k][DateCol])
    {
    }
  }

  /**
   * After cleaning, a row whose date the parser reads holds the parsed date;
   * a row whose date is missing or unreadable holds the date of the row
   * above; and the date is missing exactly when every date at or above is
   * missing or unreadable.
   */
  lemma CleanDate(raw: seq<Row>, parseDate: Value -> Option<Value>, i: nat)
    requires i < |Clean(raw, parseDate)|
    ensures Clean(raw, parseDate)[i][DateCol].None? <==>
      forall k :: 0 <= k <= i ==> Unreadable(parseDate, Unique(raw)[k][DateCol])
    ensures !Unreadable(parseDate, Unique(raw)[i][DateCol]) ==>
      Clean(raw, parseDate)[i][DateCol] == parseDate(Unique(raw)[i][DateCol].value)
    ensures Unreadable(parseDate, Unique(raw)[i][DateCol]) && i > 0 ==>
      Clean(raw, parseDate)[i][DateCol] == Clean(raw, parseDate)[i - 1][DateCol]
  {
    var after := AfterDedup(Unique(raw), CoerceDate(parseDate), NormalizeCell);
    assert Clean(raw, parseDate) == after;
    AfterDedupDate(Unique(raw), CoerceDate(parseDate), NormalizeCell, i);
    NoDateUpTo(Unique(raw), parseDate, i);
    assert after[i][DateCol].None? <==> NoValueUpTo(Unique(raw), DateCol, CoerceDate(parseDate), i);
  }

  /**
   * After cleaning, each row's time spent is its own deduplicated time when
   * present, and otherwise the nearest present time above it, or missing.
   */
  lemma CleanTime(raw: seq<Row>, parseDate: Value -> Option<Value>, i: nat)
    requires i < |Clean(raw, parseDate)|
    ensures Clean(raw, parseDate)[i][TimeCol] ==
      (var j := LastPresent(Unique(raw), TimeCol, i); if j >= 0 then Unique(raw)[j][TimeCol] else None)
  {
    AfterDedupTime(Unique(raw), CoerceDate(parseDate), NormalizeCell, i);
  }

  /**
   * After cleaning, Completed is 1, 0 or missing; it is missing exactly when
   * no deduplicated row at or above holds exactly "Yes" or "No".
   */
  lemma CleanCompleted(raw: seq<Row>, parseDate: Value -> Option<Value>, i: nat)
    requires i < |Clean(raw, parseDate)|
    ensures Clean(raw, parseDate)[i][CompletedCol] in {None, Some(Num(0)), Some(Num(1))}
    ensures Clean(raw, parseDate)[i][CompletedCol].None? <==>
      NoOutcomeUpTo(Unique(raw), i)
  {
    AfterDedupCompleted(Unique(raw), CoerceDate(parseDate), NormalizeCell, i);
  }

  /**
   * Dedup runs before normalisation: two different rows that agree except
   * for the spacing and case of their text cells both survive dedup, and the
   * pass turns them into two identical rows.
   */
  lemma NearDuplicatesSurvive(a: Row, b: Row, parseDate: Value -> Option<Value>)
    requires a != b
    requires forall c :: 0 <= c < Width && c !in TextColumns ==> a[c] == b[c]
    requires forall k :: 0 <= k < |TextColumns| ==> NormalizeCell(b[TextColumns[k]]) == NormalizeCell(a[TextColumns[k]])
    ensures |Clean([a, b], parseDate)| == 2
    ensures Clean([a, b], parseDate)[0] == Clean([a, b], parseDate)[1]
  {
    assert Distinct([a, b]);
    UniqueOfDistinct([a, b]);
    AfterDedupMergesRows([a, b], CoerceDate(parseDate), NormalizeCell, 1);
  }

  /**
   * Completed is mapped without title-casing: a lower-case "yes" becomes
   * missing, and forward fill then copies the outcome of the row above.
   */
  lemma LowerCaseYesTakesRowAbove(a: Row, b: Row, parseDate: Value -> Option<Value>)
    requires a[CompletedCol] == Some(Str("No")) && b[CompletedCol] == Some(Str("yes"))
    ensures |Clean([a, b], parseDate)| == 2
    ensures Clean([a, b], parseDate)[1][CompletedCol] == Some(Num(0))
  {
    assert a[CompletedCol] != b[CompletedCol];
    assert Distinct([a, b]);
    UniqueOfDistinct([a, b]);
    AfterDedupCompleted([a, b], CoerceDate(parseDate), NormalizeCell, 0);
    AfterDedupCompleted([a, b], CoerceDate(parseDate), NormalizeCell, 1);
  }
}
