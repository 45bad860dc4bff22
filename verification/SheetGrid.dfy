/**
 * A strict reader of the sheet and of the shared-string table. It goes by the references: each cell says in which row
 * and column it stands, each row says its number, and the table says how many cells and values there are.
 */
module SheetGrid {
  import opened Common
  import opened Scanning
  import opened SharedStrings
  import opened Sheet
  import Numerals

  // ----- scanning -----

  /** What follows an expected text. */
  function After(s: string, expected: string): (r: Option<string>)
    ensures r.Some? ==> s == expected + r.value
  {
    if expected <= s then Some(s[|expected|..]) else None
  }

  predicate IsLetter(c: char) {
    'A' <= c <= 'Z'
  }

  /** How many digits stand in front. */
  function DigitRun(s: string): (n: nat)
    ensures n <= |s| && Numerals.AllDigits(s[..n])
  {
    if s != [] && Numerals.IsDigit(s[0]) then 1 + DigitRun(s[1..]) else 0
  }

  function LetterRun(s: string): (n: nat)
    ensures n <= |s| && AllLetters(s[..n])
  {
    if s != [] && IsLetter(s[0]) then 1 + LetterRun(s[1..]) else 0
  }

  /** The number in front, and what follows it. */
  function NumberInFront(s: string): (r: Option<(nat, string)>)
    ensures r.Some? ==> |r.value.1| < |s|
  {
    var n := DigitRun(s);
    if n == 0 then None else Some((Numerals.Value(s[..n], 10), s[n..]))
  }

  /** The column that letters in front name, and what follows them. */
  function ColumnInFront(s: string): (r: Option<(nat, string)>)
    ensures r.Some? ==> |r.value.1| < |s|
  {
    var n := LetterRun(s);
    if n == 0 then None else Some((ColumnNumber(s[..n]), s[n..]))
  }

  // ----- cells, rows, the sheet -----

  /** A cell: where its reference says it stands, and the number of its shared string. */
  datatype Placed = Placed(row: nat, column: nat, index: nat)

  const CELL_START := "<c r=\""
  const CELL_MIDDLE := "\" t=\"s\"><v>"
  const CELL_END := "</v></c>"
  const ROW_START := "<row r=\""
  const ROW_MIDDLE := "\">"
  const ROW_END := "</row>"

  function CellInFront(s: string): (r: Option<(Placed, string)>)
    ensures r.Some? ==> |r.value.1| < |s|
  {
    match After(s, CELL_START)
    case None => None
    case Some(a) =>
      match ColumnInFront(a)
      case None => None
      case Some((column, b)) =>
        match NumberInFront(b)
        case None => None
        case Some((row, c)) =>
          match After(c, CELL_MIDDLE)
          case None => None
          case Some(d) =>
            match NumberInFront(d)
            case None => None
            case Some((index, e)) =>
              match After(e, CELL_END)
              case None => None
              case Some(rest) => Some((Placed(row, column, index), rest))
  }

  /** The cells up to the end of the row; all of them must say that they stand in it. */
  function RowCells(s: string, row: nat): (r: Option<(seq<Placed>, string)>)
    ensures r.Some? ==> |r.value.1| < |s|
    decreases |s|
  {
    match After(s, ROW_END)
    case Some(rest) => Some(([], rest))
    case None =>
      match CellInFront(s)
      case None => None
      case Some((cell, a)) =>
        if cell.row != row then None
        else
          match RowCells(a, row)
          case None => None
          case Some((cells, rest)) => Some(([cell] + cells, rest))
  }

  /** The rows up to the end of the sheet. */
  function SheetRows(s: string): Option<seq<Placed>>
    decreases |s|
  {
    if s == SHEET_END then Some([])
    else
      match After(s, ROW_START)
      case None => None
      case Some(a) =>
        match NumberInFront(a)
        case None => None
        case Some((row, b)) =>
          match After(b, ROW_MIDDLE)
          case None => None
          case Some(c) =>
            match RowCells(c, row)
            case None => None
            case Some((cells, d)) =>
              match SheetRows(d)
              case None => None
              case Some(others) => Some(cells + others)
  }

  function SheetCells(s: string): Option<seq<Placed>> {
    match After(s, "<" + PROLOG + "<" + SHEET_START + "<sheetData>")
    case None => None
    case Some(rows) => SheetRows(rows)
  }

  /** How many cells and how many values the table says there are. */
  function TableCounts(s: string): Option<(nat, nat)> {
    match After(s, "<" + PROLOG + "<" + TABLE_START)
    case None => None
    case Some(a) =>
      match NumberInFront(a)
      case None => None
      case Some((count, b)) =>
        match After(b, TABLE_MIDDLE)
        case None => None
        case Some(c) =>
          match NumberInFront(c)
          case None => None
          case Some((unique, d)) => if After(d, "\">").Some? then Some((count, unique)) else None
  }

  type Grid = map<(nat, nat), string>

  /** Each cell's text at its place; none if two stand at one place or a number is not in the table. */
  function PlaceAll(cells: seq<Placed>, shared: seq<string>): Option<Grid> {
    if cells == [] then Some(map[])
    else
      var x := cells[0];
      match PlaceAll(cells[1..], shared)
      case None => None
      case Some(others) =>
        if (x.row, x.column) in others || x.index >= |shared| then None
        else Some(others[(x.row, x.column) := shared[x.index]])
  }

  /** The cells of a sheet, by row and column, if sheet and table are in order and agree. */
  function ReadGrid(table: string, sheet: string): Option<Grid> {
    match SheetCells(sheet)
    case None => None
    case Some(cells) =>
      if TableCounts(table) != Some((|cells|, |Extract(table)|)) then None else PlaceAll(cells, Extract(table))
  }

  /** The grid has each row's cells at their places, counted from one, and no others. */
  ghost predicate Tabulates(grid: Grid, rows: seq<seq<string>>) {
    (forall p: (nat, nat) :: p in grid <==> 1 <= p.0 <= |rows| && 1 <= p.1 <= |rows[p.0 - 1]|) &&
    forall p :: p in grid ==> grid[p] == rows[p.0 - 1][p.1 - 1]
  }

  // ----- the round trip -----

  lemma AfterText(expected: string, rest: string)
    ensures After(expected + rest, expected) == Some(rest)
  {
  }

  lemma {:induction false} DigitsInFront(digits: string, rest: string)
    requires Numerals.AllDigits(digits) && (rest == [] || !Numerals.IsDigit(rest[0]))
    ensures DigitRun(digits + rest) == |digits|
    decreases |digits|
  {
    if digits == [] {
      assert digits + rest == rest;
    } else {
      assert (digits + rest)[1..] == digits[1..] + rest;
      DigitsInFront(digits[1..], rest);
    }
  }

  lemma {:induction false} LettersInFront(letters: string, rest: string)
    requires AllLetters(letters) && (rest == [] || !IsLetter(rest[0]))
    ensures LetterRun(letters + rest) == |letters|
    decreases |letters|
  {
    if letters == [] {
      assert letters + rest == rest;
    } else {
      assert (letters + rest)[1..] == letters[1..] + rest;
      LettersInFront(letters[1..], rest);
    }
  }

  lemma NumberIsRead(n: nat, rest: string)
    requires rest == [] || !Numerals.IsDigit(rest[0])
    ensures NumberInFront(Numerals.Decimal(n) + rest) == Some((n, rest))
  {
    var digits := Numerals.Decimal(n);
    DecimalIsDigits(n);
    Numerals.DigitsValue(n, 10);
    DigitsInFront(digits, rest);
    hide Numerals.Decimal, Numerals.Digits, Numerals.Value, DigitRun;
    assert (digits + rest)[..|digits|] == digits && (digits + rest)[|digits|..] == rest;
  }

  lemma ColumnIsRead(c: nat, rest: string)
    requires rest == [] || !IsLetter(rest[0])
    ensures ColumnInFront(Letters(c + 1) + rest) == Some((c + 1, rest))
  {
    var letters := Letters(c + 1);
    ColumnRoundTrip(c + 1);
    LettersInFront(letters, rest);
    assert letters != [];
    hide Letters, ColumnNumber, LetterRun;
    assert (letters + rest)[..|letters|] == letters && (letters + rest)[|letters|..] == rest;
  }

  lemma CellText(n: nat, r: nat, c: nat)
    ensures CellXml(n, r, c) ==
            CELL_START + (Letters(c + 1) + (Numerals.Decimal(r + 1) + (CELL_MIDDLE + (Numerals.Decimal(n) + CELL_END))))
  {
    hide Letters, Numerals.Decimal;
    assert "<c" + " r=\"" == CELL_START && "\" t=\"s\"" + ">" + "<v>" == CELL_MIDDLE && "</v>" + "</c>" == CELL_END;
    Nested("<c", " r=\"", Letters(c + 1), Numerals.Decimal(r + 1), "\" t=\"s\"", ">", "<v>", Numerals.Decimal(n), "</v>",
           "</c>");
  }

  lemma Nested(a: string, b: string, l: string, r: string, t: string, g: string, v: string, n: string, w: string, e: string)
    ensures a + (b + l + r + t) + g + (v + n + w) + e == (a + b) + (l + (r + ((t + g + v) + (n + (w + e)))))
  {
  }

  lemma DigitFirst(n: nat, rest: string)
    ensures Numerals.Decimal(n) + rest != [] && !IsLetter((Numerals.Decimal(n) + rest)[0])
  {
    hide Numerals.Digits;
  }

  /** A rendered cell is read at its own place. */
  lemma CellIsPlaced(n: nat, r: nat, c: nat, rest: string)
    ensures CellInFront(CellXml(n, r, c) + rest) == Some((Placed(r + 1, c + 1, n), rest))
    ensures After(CellXml(n, r, c) + rest, ROW_END).None?
  {
    hide Letters, Numerals.Decimal, After, ColumnInFront, NumberInFront;
    CellText(n, r, c);
    var s5 := CELL_END + rest;
    var s4 := Numerals.Decimal(n) + s5;
    var s3 := CELL_MIDDLE + s4;
    var s2 := Numerals.Decimal(r + 1) + s3;
    var s1 := Letters(c + 1) + s2;
    CellParts(CELL_START, Letters(c + 1), Numerals.Decimal(r + 1), CELL_MIDDLE, Numerals.Decimal(n), CELL_END, rest);
    assert CellXml(n, r, c) + rest == CELL_START + s1;
    AfterText(CELL_START, s1);
    DigitFirst(r + 1, s3);
    ColumnIsRead(c, s2);
    assert s3[0] == '"' && s5[0] == '<';
    NumberIsRead(r + 1, s3);
    AfterText(CELL_MIDDLE, s4);
    NumberIsRead(n, s5);
    AfterText(CELL_END, rest);
    NotRowEnd(s1);
  }

  lemma NotRowEnd(s: string)
    ensures After(CELL_START + s, ROW_END).None?
  {
    assert (CELL_START + s)[1] == 'c' && ROW_END[1] == '/';
  }

  lemma CellParts(a: string, l: string, r: string, m: string, n: string, e: string, rest: string)
    ensures a + (l + (r + (m + (n + e)))) + rest == a + (l + (r + (m + (n + (e + rest)))))
  {
  }

  /** The cells of one row, from a column on. */
  function PlacedRow(row: seq<nat>, r: nat, c: nat): (cells: seq<Placed>)
    ensures |cells| == |row| && forall j :: 0 <= j < |row| ==> cells[j] == Placed(r + 1, c + j + 1, row[j])
    decreases |row|
  {
    if row == [] then [] else [Placed(r + 1, c + 1, row[0])] + PlacedRow(row[1..], r, c + 1)
  }

  function PlacedRows(rows: seq<seq<nat>>, r: nat): seq<Placed>
    decreases |rows|
  {
    if rows == [] then [] else PlacedRow(rows[0], r, 0) + PlacedRows(rows[1..], r + 1)
  }

  lemma {:induction false} RowIsPlaced(row: seq<nat>, r: nat, c: nat, rest: string)
    ensures RowCells(CellsXml(row, r, c) + (ROW_END + rest), r + 1) == Some((PlacedRow(row, r, c), rest))
    decreases |row|
  {
    hide CellXml, CellInFront, After;
    if row == [] {
      assert CellsXml(row, r, c) + (ROW_END + rest) == ROW_END + rest;
      AfterText(ROW_END, rest);
    } else {
      var others := CellsXml(row[1..], r, c + 1) + (ROW_END + rest);
      assert CellsXml(row, r, c) + (ROW_END + rest) == CellXml(row[0], r, c) + others;
      CellIsPlaced(row[0], r, c, others);
      RowIsPlaced(row[1..], r, c + 1, rest);
    }
  }

  lemma {:induction false} RowsArePlaced(rows: seq<seq<nat>>, r: nat)
    ensures SheetRows(RowsXml(rows, r) + SHEET_END) == Some(PlacedRows(rows, r))
    decreases |rows|
  {
    hide CellsXml, RowCells, After, NumberInFront, Numerals.Decimal;
    if rows == [] {
      assert RowsXml(rows, r) + SHEET_END == SHEET_END;
    } else {
      var others := RowsXml(rows[1..], r + 1) + SHEET_END;
      var c := CellsXml(rows[0], r, 0) + (ROW_END + others);
      var b := ROW_MIDDLE + c;
      var a := Numerals.Decimal(r + 1) + b;
      RowParts(ROW_START, Numerals.Decimal(r + 1), ROW_MIDDLE, CellsXml(rows[0], r, 0), ROW_END, others);
      assert RowsXml(rows, r) + SHEET_END == RowXml(rows[0], r) + others;
      assert RowsXml(rows, r) + SHEET_END == ROW_START + a;
      AfterText(ROW_START, a);
      assert b[0] == '"';
      NumberIsRead(r + 1, b);
      AfterText(ROW_MIDDLE, c);
      RowIsPlaced(rows[0], r, 0, others);
      RowsArePlaced(rows[1..], r + 1);
      assert ROW_START + a != SHEET_END by { assert (ROW_START + a)[1] == 'r' && SHEET_END[1] == '/'; }
    }
  }

  lemma RowParts(a: string, n: string, m: string, cells: string, e: string, rest: string)
    ensures a + n + m + cells + e + rest == a + (n + (m + (cells + (e + rest))))
  {
  }

  lemma SheetIsPlaced(numbers: seq<seq<nat>>)
    ensures SheetCells(SheetXml(numbers)) == Some(PlacedRows(numbers, 0))
  {
    hide RowsXml, SheetRows, PROLOG, SHEET_START, SHEET_END;
    RowsArePlaced(numbers, 0);
    var start := "<" + PROLOG + "<" + SHEET_START + "<sheetData>";
    Assoc(start, RowsXml(numbers, 0), SHEET_END);
    AfterText(start, RowsXml(numbers, 0) + SHEET_END);
  }

  lemma CountsAreRead(count: nat, values: seq<string>)
    ensures TableCounts(TableXml(count, values)) == Some((count, |values|))
  {
    hide Numerals.Decimal, ItemsXml, PROLOG, TABLE_START, After, NumberInFront;
    var rest := ItemsXml(values) + "</sst>";
    var d := "\">" + rest;
    var c := Numerals.Decimal(|values|) + d;
    var b := TABLE_MIDDLE + c;
    var a := Numerals.Decimal(count) + b;
    var start := "<" + PROLOG + "<" + TABLE_START;
    TableParts("<" + PROLOG + "<", TABLE_START, Numerals.Decimal(count), TABLE_MIDDLE, Numerals.Decimal(|values|), "\">",
               ItemsXml(values), "</sst>");
    assert TableXml(count, values) == start + a;
    AfterText(start, a);
    assert b[0] == '"' && d[0] == '"';
    NumberIsRead(count, b);
    AfterText(TABLE_MIDDLE, c);
    NumberIsRead(|values|, d);
    AfterText("\">", rest);
  }

  lemma TableParts(p: string, t: string, c: string, m: string, u: string, q: string, items: string, e: string)
    ensures p + t + c + m + u + q + items + e == (p + t) + (c + (m + (u + (q + (items + e)))))
  {
  }

  // ----- the grid -----

  /** The cells have the rows' texts at their places, from a row on. */
  ghost predicate TabulatesFrom(grid: Grid, rows: seq<seq<string>>, r: nat) {
    (forall p: (nat, nat) :: p in grid <==> r + 1 <= p.0 <= r + |rows| && 1 <= p.1 <= |rows[p.0 - r - 1]|) &&
    forall p :: p in grid ==> grid[p] == rows[p.0 - r - 1][p.1 - 1]
  }

  predicate InRow(p: (nat, nat), r: nat, c: nat, n: nat) {
    p.0 == r + 1 && c + 1 <= p.1 <= c + n
  }

  /** The grid has what the others have, and the cells of one row from a column on. */
  ghost predicate Joins(grid: Grid, others: Grid, cells: seq<string>, r: nat, c: nat) {
    (forall p: (nat, nat) :: p in grid <==> p in others || InRow(p, r, c, |cells|)) &&
    (forall p :: p in others ==> grid[p] == others[p]) &&
    forall p :: p in grid && InRow(p, r, c, |cells|) ==> grid[p] == cells[p.1 - c - 1]
  }

  lemma JoinsOne(middle: Grid, others: Grid, cells: seq<string>, r: nat, c: nat)
    requires cells != [] && Joins(middle, others, cells[1..], r, c + 1) && forall p :: p in others ==> p.0 > r + 1
    ensures (r + 1, c + 1) !in middle && Joins(middle[(r + 1, c + 1) := cells[0]], others, cells, r, c)
  {
  }

  lemma PlaceOne(x: Placed, rest: seq<Placed>, shared: seq<string>)
    requires PlaceAll(rest, shared).Some? && (x.row, x.column) !in PlaceAll(rest, shared).value && x.index < |shared|
    ensures PlaceAll([x] + rest, shared) == Some(PlaceAll(rest, shared).value[(x.row, x.column) := shared[x.index]])
  {
    assert ([x] + rest)[0] == x && ([x] + rest)[1..] == rest;
  }

  lemma FirstPlaced(row: seq<nat>, r: nat, c: nat, later: seq<Placed>)
    requires row != []
    ensures PlacedRow(row, r, c) + later == [Placed(r + 1, c + 1, row[0])] + (PlacedRow(row[1..], r, c + 1) + later)
  {
  }

  lemma RestoresFirst(row: seq<nat>, cells: seq<string>, shared: seq<string>)
    requires Restores(row, cells, shared) && row != []
    ensures cells != [] && row[0] < |shared| && shared[row[0]] == cells[0] && Restores(row[1..], cells[1..], shared)
  {
  }

  lemma NothingJoins(grid: Grid, r: nat, c: nat)
    ensures Joins(grid, grid, [], r, c)
  {
  }

  lemma {:induction false} PlaceRow(row: seq<nat>, cells: seq<string>, r: nat, c: nat, later: seq<Placed>, shared: seq<string>)
    requires Restores(row, cells, shared) && PlaceAll(later, shared).Some?
    requires forall p :: p in PlaceAll(later, shared).value ==> p.0 > r + 1
    ensures PlaceAll(PlacedRow(row, r, c) + later, shared).Some?
    ensures Joins(PlaceAll(PlacedRow(row, r, c) + later, shared).value, PlaceAll(later, shared).value, cells, r, c)
    decreases |row|
  {
    if row == [] {
      assert PlacedRow(row, r, c) + later == later;
      NothingJoins(PlaceAll(later, shared).value, r, c);
    } else {
      var rest := PlacedRow(row[1..], r, c + 1) + later;
      RestoresFirst(row, cells, shared);
      PlaceRow(row[1..], cells[1..], r, c + 1, later, shared);
      hide *;
      JoinsOne(PlaceAll(rest, shared).value, PlaceAll(later, shared).value, cells, r, c);
      PlaceOne(Placed(r + 1, c + 1, row[0]), rest, shared);
      FirstPlaced(row, r, c, later);
    }
  }

  lemma {:induction false} PlaceRows(numbers: seq<seq<nat>>, rows: seq<seq<string>>, r: nat, shared: seq<string>)
    requires AllRestore(numbers, rows, shared)
    ensures PlaceAll(PlacedRows(numbers, r), shared).Some?
    ensures TabulatesFrom(PlaceAll(PlacedRows(numbers, r), shared).value, rows, r)
    decreases |rows|
  {
    if rows != [] {
      PlaceRows(numbers[1..], rows[1..], r + 1, shared);
      var later := PlacedRows(numbers[1..], r + 1);
      PlaceRow(numbers[0], rows[0], r, 0, later, shared);
      hide PlacedRow, PlacedRows, PlaceAll, Restores, Joins;
      assert Restores(numbers[0], rows[0], shared);
      OneMoreRow(PlaceAll(later, shared).value, PlaceAll(PlacedRow(numbers[0], r, 0) + later, shared).value, rows, r);
    }
  }

  lemma OneMoreRow(others: Grid, grid: Grid, rows: seq<seq<string>>, r: nat)
    requires rows != [] && TabulatesFrom(others, rows[1..], r + 1)
    requires Joins(grid, others, rows[0], r, 0)
    ensures TabulatesFrom(grid, rows, r)
  {
    assert forall i :: 1 <= i < |rows| ==> rows[1..][i - 1] == rows[i];
    forall p: (nat, nat)
      ensures p in grid <==> r + 1 <= p.0 <= r + |rows| && 1 <= p.1 <= |rows[p.0 - r - 1]|
      ensures p in grid ==> grid[p] == rows[p.0 - r - 1][p.1 - 1]
    {
      if r + 2 <= p.0 <= r + |rows| {
        assert rows[1..][p.0 - (r + 1) - 1] == rows[p.0 - r - 1];
      }
    }
  }

  lemma {:induction false} CellsCount(numbers: seq<seq<nat>>, rows: seq<seq<string>>, r: nat, shared: seq<string>)
    requires AllRestore(numbers, rows, shared)
    ensures |PlacedRows(numbers, r)| == |Flatten(rows)|
    decreases |rows|
  {
    if rows != [] {
      CellsCount(numbers[1..], rows[1..], r + 1, shared);
      FlattenFront(rows);
      assert Restores(numbers[0], rows[0], shared);
      hide Flatten;
    }
  }

  /**
   * Read by its references, a rendered sheet has exactly the table's cells: in row i and column j stands the j-th cell
   * of the i-th row, and nowhere else is there any; and the table counts the cells and the values right.
   */
  lemma GridRoundTrip(numbers: seq<seq<nat>>, rows: seq<seq<string>>, values: seq<string>)
    requires AllRestore(numbers, rows, values)
    ensures var grid := ReadGrid(TableXml(|Flatten(rows)|, values), SheetXml(numbers));
            grid.Some? && Tabulates(grid.value, rows)
  {
    hide SheetCells, TableCounts, Extract, TableXml, SheetXml, PlaceAll, PlacedRows, AllRestore;
    SheetIsPlaced(numbers);
    CountsAreRead(|Flatten(rows)|, values);
    TableRoundTrip(|Flatten(rows)|, values);
    CellsCount(numbers, rows, 0, values);
    PlaceRows(numbers, rows, 0, values);
    FromNought(PlaceAll(PlacedRows(numbers, 0), values).value, rows);
  }

  lemma FromNought(grid: Grid, rows: seq<seq<string>>)
    requires TabulatesFrom(grid, rows, 0)
    ensures Tabulates(grid, rows)
  {
  }
}
