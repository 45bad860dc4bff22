/** The sheet of a minimal XLSX workbook: writing numbered cells, and reading their texts back. */
module Sheet {
  import opened Common
  import opened Scanning
  import opened SharedStrings
  import XmlText
  import Numerals

  // ----- column names -----

  function LetterChar(d: nat): (c: char)
    requires d < 26
    ensures 'A' <= c <= 'Z'
  {
    'A' + d as char
  }

  ghost predicate AllLetters(s: string) {
    forall i :: 0 <= i < |s| ==> 'A' <= s[i] <= 'Z'
  }

  /** The letters of a number of at least one; there is no letter for nought. */
  function Letters(n: nat): (s: string)
    ensures AllLetters(s)
  {
    if n == 0 then [] else Letters((n - 1) / 26) + [LetterChar((n - 1) % 26)]
  }

  method ColumnName(index: nat) returns (name: string)
    ensures name == Letters(index + 1)
  {
    var current: nat := index + 1;
    name := "";
    while current > 0
      invariant Letters(index + 1) == Letters(current) + name
      decreases current
    {
      var remainder := (current - 1) % 26;
      assert Letters((current - 1) / 26) + [LetterChar(remainder)] + name ==
             Letters((current - 1) / 26) + ([LetterChar(remainder)] + name);
      name := [LetterChar(remainder)] + name;
      current := (current - 1) / 26;
    }
  }

  /** The number a column name stands for: A is 1, Z is 26, AA is 27. */
  function ColumnNumber(s: string): nat
    requires AllLetters(s)
  {
    if s == [] then 0 else ColumnNumber(s[..|s| - 1]) * 26 + (s[|s| - 1] - 'A') as nat + 1
  }

  /** Every column has its own name. */
  lemma {:induction false} ColumnRoundTrip(n: nat)
    ensures ColumnNumber(Letters(n)) == n
  {
    if n > 0 {
      var m := (n - 1) / 26;
      ColumnRoundTrip(m);
      assert Letters(n)[..|Letters(n)| - 1] == Letters(m);
      assert n - 1 == m * 26 + (n - 1) % 26;
    }
  }

  // ----- the sheet -----

  function Attributes(r: nat, c: nat): string {
    " r=\"" + Letters(c + 1) + Numerals.Decimal(r + 1) + "\" t=\"s\""
  }

  function CellXml(n: nat, r: nat, c: nat): string {
    "<c" + Attributes(r, c) + ">" + ("<v>" + Numerals.Decimal(n) + "</v>") + "</c>"
  }

  function CellsXml(row: seq<nat>, r: nat, c: nat): string
    decreases |row|
  {
    if row == [] then [] else CellXml(row[0], r, c) + CellsXml(row[1..], r, c + 1)
  }

  function RowXml(row: seq<nat>, r: nat): string {
    "<row r=\"" + Numerals.Decimal(r + 1) + "\">" + CellsXml(row, r, 0) + "</row>"
  }

  /** Rows that are numbered from `r`, counting from nought. */
  function RowsXml(rows: seq<seq<nat>>, r: nat): string
    decreases |rows|
  {
    if rows == [] then [] else RowXml(rows[0], r) + RowsXml(rows[1..], r + 1)
  }

  const SHEET_START: string := "worksheet xmlns=\"" + NAMESPACE + "\">"
  const SHEET_END: string := "</sheetData>" + "</worksheet>"

  function SheetXml(rows: seq<seq<nat>>): string {
    "<" + PROLOG + "<" + SHEET_START + "<sheetData>" + RowsXml(rows, 0) + SHEET_END
  }

  // ----- reading a sheet -----

  /** How long the attributes of the cell start tag in front are. */
  function CellTag(s: string): (r: Option<nat>)
    ensures r.Some? ==> 3 + r.value <= |s|
  {
    if |s| > 2 && "<c" <= s && !IsWord(s[2]) then IndexOf(s[2..], ">") else None
  }

  datatype Cell = Cell(attributes: string, body: string)

  function Cells(s: string): seq<Cell>
    decreases |s|
  {
    if s == [] then []
    else
      match CellTag(s)
      case None => Cells(s[1..])
      case Some(n) =>
        var rest := s[3 + n..];
        match IndexOf(rest, "</c>")
        case None => Cells(s[1..])
        case Some(m) => [Cell(s[2..2 + n], rest[..m])] + Cells(rest[m + 4..])
  }

  /** The text between the first start tag and the next end tag. */
  function Between(s: string, open: string, close: string): Option<string> {
    match IndexOf(s, open)
    case None => None
    case Some(i) =>
      var rest := s[i + |open|..];
      match IndexOf(rest, close)
      case None => None
      case Some(n) => Some(rest[..n])
  }

  /** Whether `t="s"` stands anywhere at a word boundary; `boundary` says whether there is one in front. */
  predicate HasSharedType(s: string, boundary: bool)
    decreases |s|
  {
    s != [] && ((boundary && "t=\"s\"" <= s) || HasSharedType(s[1..], !IsWord(s[0])))
  }

  /** The number a run of digits stands for; an empty one stands for nought. */
  function NumberOf(s: string): Option<nat> {
    if Numerals.AllDigits(s) then Some(Numerals.Value(s, 10)) else None
  }

  function CellText(cell: Cell, shared: seq<string>): string {
    var value := match Between(cell.body, "<v>", "</v>") case None => "" case Some(v) => v;
    if HasSharedType(cell.attributes, true) then
      match NumberOf(value)
      case None => ""
      case Some(n) => if n < |shared| then shared[n] else ""
    else
      var texts := TextBodies(cell.body);
      XmlText.XmlUnescape(if texts == [] then value else texts[0])
  }

  function CellTexts(cells: seq<Cell>, shared: seq<string>): seq<string> {
    if cells == [] then [] else [CellText(cells[0], shared)] + CellTexts(cells[1..], shared)
  }

  // ----- the round trip -----

  lemma TagInFront(c: char, s: string)
    requires !("<c" <= [c] + s)
    ensures Cells([c] + s) == Cells(s)
  {
    assert ([c] + s)[1..] == s;
  }

  lemma {:induction false} CellsPastText(x: string, rest: string)
    requires '<' !in x
    ensures Cells(x + rest) == Cells(rest)
    decreases |x|
  {
    hide Cells;
    if x == [] {
      assert x + rest == rest;
    } else {
      assert x + rest == [x[0]] + (x[1..] + rest);
      assert (x + rest)[0] == x[0];
      TagInFront(x[0], x[1..] + rest);
      CellsPastText(x[1..], rest);
    }
  }

  /** A tag that starts no cell is passed over, with the text after it. */
  lemma CellsPastTag(tag: string, x: string, text: string, rest: string)
    requires tag == "<" + x && '<' !in x && '<' !in text && x != [] && x[0] != 'c'
    ensures Cells(tag + text + rest) == Cells(rest)
  {
    hide Cells;
    var s := "<" + ((x + text) + rest);
    assert s == tag + text + rest && s[1] == x[0];
    TagInFront('<', (x + text) + rest);
    CellsPastText(x + text, rest);
  }

  lemma CellsPastBareTag(tag: string, x: string, rest: string)
    requires tag == "<" + x && '<' !in x && x != [] && x[0] != 'c'
    ensures Cells(tag + rest) == Cells(rest)
  {
    hide Cells;
    CellsPastTag(tag, x, [], rest);
    assert tag + [] == tag;
  }

  lemma NoTagInLetters(n: nat)
    ensures '<' !in Letters(n) && '>' !in Letters(n)
  {
  }

  lemma AttributesAreText(r: nat, c: nat)
    ensures '<' !in Attributes(r, c) && '>' !in Attributes(r, c)
    ensures Attributes(r, c) != [] && Attributes(r, c)[0] == ' '
    ensures HasSharedType(Attributes(r, c), true)
  {
    hide Letters, Numerals.Decimal, HasSharedType;
    NoTagInLetters(c + 1);
    NoTagInNumber(r + 1);
    var front, back := " r=\"" + Letters(c + 1) + Numerals.Decimal(r + 1) + "\"", " t=\"s\"";
    assert Attributes(r, c) == front + back;
    TypeAfter(front, back, true);
    TypeAtEnd();
  }

  lemma TypeAtEnd()
    ensures forall boundary :: HasSharedType(" t=\"s\"", boundary)
  {
    assert " t=\"s\""[1..] == "t=\"s\"";
  }

  lemma {:induction false} TypeAfter(front: string, back: string, boundary: bool)
    ensures (forall b :: HasSharedType(back, b)) ==> HasSharedType(front + back, boundary)
    decreases |front|
  {
    if front == [] {
      assert front + back == back;
    } else {
      assert (front + back)[1..] == front[1..] + back;
      TypeAfter(front[1..], back, !IsWord(front[0]));
    }
  }

  /** A cell's body ends at its own end tag. */
  lemma CellEnd(digits: string, rest: string)
    requires '<' !in digits
    ensures IndexOf("<v>" + digits + "</v>" + ("</c>" + rest), "</c>") == Some(|digits| + 7)
  {
    hide IndexOf;
    var after := "</c>" + rest;
    IndexHere(after, "</c>");
    IndexPastTagAndText("</v>", "/v>", [], after, "</c>", 2);
    assert "</v>" + [] == "</v>";
    IndexPastTagAndText("<v>", "v>", digits, "</v>" + after, "</c>", 1);
    Assoc("<v>" + digits, "</v>", after);
  }

  lemma CellIsSplit(attributes: string, body: string, rest: string)
    requires '>' !in attributes && attributes != [] && attributes[0] == ' '
    requires IndexOf(body + ("</c>" + rest), "</c>") == Some(|body|)
    ensures Cells("<c" + attributes + ">" + body + "</c>" + rest) == [Cell(attributes, body)] + Cells(rest)
  {
    hide IndexOf, Cells;
    var after := body + ("</c>" + rest);
    var s := "<c" + attributes + ">" + body + "</c>" + rest;
    SplitCell("<c", attributes, ">", body, "</c>", rest);
    assert s[2] == s[2..][0] == attributes[0];
    IndexHere(">" + after, ">");
    IndexPastText(attributes, ">" + after, ">");
    assert CellTag(s) == Some(|attributes|);
    hide CellTag;
    CellInFront(s, |attributes|, |body|);
  }

  lemma CellInFront(s: string, n: nat, m: nat)
    requires CellTag(s) == Some(n) && IndexOf(s[3 + n..], "</c>") == Some(m)
    ensures Cells(s) == [Cell(s[2..2 + n], s[3 + n..][..m])] + Cells(s[3 + n..][m + 4..])
  {
    hide IndexOf, CellTag;
  }

  lemma SplitCell(a: string, attributes: string, b: string, body: string, c: string, rest: string)
    requires |a| == 2 && |b| == 1 && |c| == 4
    ensures var s := a + attributes + b + body + c + rest;
            s[2..] == attributes + (b + (body + (c + rest))) && s[2..2 + |attributes|] == attributes &&
            s[3 + |attributes|..] == body + (c + rest) && a <= s
    ensures (body + (c + rest))[..|body|] == body && (body + (c + rest))[|body| + 4..] == rest
  {
  }

  lemma ValueIsRead(digits: string)
    requires '<' !in digits
    ensures Between("<v>" + digits + "</v>", "<v>", "</v>") == Some(digits)
  {
    hide IndexOf;
    var s := "<v>" + digits + "</v>";
    IndexHere(s, "<v>");
    assert s[0 + 3..] == digits + "</v>";
    IndexHere("</v>", "</v>");
    IndexPastText(digits, "</v>", "</v>");
    assert (digits + "</v>")[..|digits|] == digits;
  }

  /** A rendered cell reads as the value its number stands for. */
  lemma CellIsRead(n: nat, r: nat, c: nat, shared: seq<string>, rest: string)
    requires n < |shared|
    ensures CellTexts(Cells(CellXml(n, r, c) + rest), shared) == [shared[n]] + CellTexts(Cells(rest), shared)
  {
    hide IndexOf, Cells, Attributes, HasSharedType, Between, Numerals.Decimal, TextBodies, XmlText.XmlUnescape;
    var digits := Numerals.Decimal(n);
    NoTagInNumber(n);
    AttributesAreText(r, c);
    CellEnd(digits, rest);
    CellIsSplit(Attributes(r, c), "<v>" + digits + "</v>", rest);
    ValueIsRead(digits);
    Numerals.DigitsValue(n, 10);
    assert NumberOf(digits) == Some(n) by { DecimalIsDigits(n); }
    var cell := Cell(Attributes(r, c), "<v>" + digits + "</v>");
    assert CellText(cell, shared) == shared[n];
    assert ([cell] + Cells(rest))[1..] == Cells(rest);
  }

  lemma DecimalIsDigits(n: nat)
    ensures Numerals.Decimal(n) == Numerals.Digits(n, 10)
  {
  }

  lemma {:induction false} RowIsRead(row: seq<nat>, cells: seq<string>, r: nat, c: nat, shared: seq<string>, rest: string)
    requires Restores(row, cells, shared)
    ensures CellTexts(Cells(CellsXml(row, r, c) + rest), shared) == cells + CellTexts(Cells(rest), shared)
    decreases |row|
  {
    hide Cells, CellXml, CellTexts;
    if row == [] {
      assert CellsXml(row, r, c) + rest == rest;
    } else {
      var others := CellsXml(row[1..], r, c + 1) + rest;
      assert CellsXml(row, r, c) + rest == CellXml(row[0], r, c) + others;
      CellIsRead(row[0], r, c, shared, others);
      RowIsRead(row[1..], cells[1..], r, c + 1, shared, rest);
      assert cells == [shared[row[0]]] + cells[1..];
    }
  }

  lemma RowTagsPass(row: seq<nat>, r: nat, rest: string)
    ensures Cells(RowXml(row, r) + rest) == Cells(CellsXml(row, r, 0) + ("</row>" + rest))
    ensures Cells("</row>" + rest) == Cells(rest)
  {
    hide Cells, CellsXml, Numerals.Decimal;
    NoTagInNumber(r + 1);
    var cells, number := CellsXml(row, r, 0), Numerals.Decimal(r + 1);
    var text := "r=\"" + number + "\">";
    CellsPastTag("<row ", "row ", text, cells + ("</row>" + rest));
    assert "<row r=\"" == "<row " + "r=\"";
    Regroup("<row ", "r=\"", number, "\">", cells, "</row>", rest);
    CellsPastBareTag("</row>", "/row>", rest);
  }

  lemma Regroup(a: string, b: string, c: string, d: string, e: string, f: string, rest: string)
    ensures (a + b) + c + d + e + f + rest == a + (b + c + d) + (e + (f + rest))
  {
  }

  lemma FlattenLast(rows: seq<seq<string>>)
    requires rows != []
    ensures Flatten(rows) == Flatten(rows[..|rows| - 1]) + rows[|rows| - 1]
  {
  }

  lemma {:induction false} FlattenFront(rows: seq<seq<string>>)
    requires rows != []
    ensures Flatten(rows) == rows[0] + Flatten(rows[1..])
    decreases |rows|
  {
    var n := |rows| - 1;
    if n == 0 {
      assert rows[..n] == [] && rows[1..] == [];
    } else {
      var front, back, middle := rows[..n], rows[1..], rows[1..n];
      FlattenFront(front);
      assert front[1..] == middle && back[..n - 1] == middle && back[n - 1] == rows[n] && front[0] == rows[0];
      FlattenLast(rows);
      FlattenLast(back);
      hide Flatten;
      Assoc(rows[0], Flatten(middle), rows[n]);
    }
  }

  lemma {:induction false} RowsAreRead(numbers: seq<seq<nat>>, rows: seq<seq<string>>, r: nat, shared: seq<string>, rest: string)
    requires AllRestore(numbers, rows, shared)
    ensures CellTexts(Cells(RowsXml(numbers, r) + rest), shared) == Flatten(rows) + CellTexts(Cells(rest), shared)
    decreases |rows|
  {
    hide Cells, RowXml, CellsXml, CellTexts, Restores;
    if rows == [] {
      assert RowsXml(numbers, r) + rest == rest;
    } else {
      var others := RowsXml(numbers[1..], r + 1) + rest;
      assert RowsXml(numbers, r) + rest == RowXml(numbers[0], r) + others;
      RowTagsPass(numbers[0], r, others);
      RowIsRead(numbers[0], rows[0], r, 0, shared, "</row>" + others);
      RowsAreRead(numbers[1..], rows[1..], r + 1, shared, rest);
      FlattenFront(rows);
    }
  }

  lemma NoTagInSheetStart()
    ensures '<' !in SHEET_START && SHEET_START != [] && SHEET_START[0] == 'w'
  {
    hide NAMESPACE;
    NoTagInNamespace();
  }

  lemma NoCellAtEnd()
    ensures Cells(SHEET_END) == []
  {
    hide Cells;
    assert Cells([]) == [] by { NoCellInNothing(); }
    CellsPastBareTag("</worksheet>", "/worksheet>", []);
    assert "</worksheet>" + [] == "</worksheet>";
    CellsPastBareTag("</sheetData>", "/sheetData>", "</worksheet>");
  }

  lemma NoCellInNothing()
    ensures Cells([]) == []
  {
  }

  lemma SheetTagsPass(prolog: string, start: string, data: string, rest: string)
    requires '<' !in prolog && prolog != [] && prolog[0] == '?'
    requires '<' !in start && start != [] && start[0] == 'w'
    requires data == "<sheetData>"
    ensures Cells("<" + prolog + "<" + start + data + rest) == Cells(rest)
  {
    hide Cells;
    CellsPastBareTag(data, "sheetData>", rest);
    CellsPastBareTag("<" + start, start, data + rest);
    CellsPastBareTag("<" + prolog, prolog, ("<" + start) + (data + rest));
    assert "<" + prolog + "<" + start + data + rest == ("<" + prolog) + (("<" + start) + (data + rest));
  }

  /** Every cell of the sheet is read, in row and column order. */
  lemma SheetRoundTrip(numbers: seq<seq<nat>>, rows: seq<seq<string>>, shared: seq<string>)
    requires AllRestore(numbers, rows, shared)
    ensures CellTexts(Cells(SheetXml(numbers)), shared) == Flatten(rows)
  {
    hide Cells, RowsXml, Flatten, AllRestore, PROLOG, SHEET_START, SHEET_END;
    NoCellAtEnd();
    RowsAreRead(numbers, rows, 0, shared, SHEET_END);
    NoTagInSheetStart();
    NoTagInProlog();
    SheetTagsPass(PROLOG, SHEET_START, "<sheetData>", RowsXml(numbers, 0) + SHEET_END);
    Assoc("<" + PROLOG + "<" + SHEET_START + "<sheetData>", RowsXml(numbers, 0), SHEET_END);
  }
}
