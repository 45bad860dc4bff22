/** The minimal XLSX workbook: cells to octets and back. */
module Workbook {
  import opened Common
  import opened FirstUse
  import opened SharedStrings
  import opened Sheet
  import opened SheetGrid
  import Utf8
  import Zip
  import ZipRoundTrip

  // ----- the parts of a workbook -----

  /** The text of the parts that hold no cells. */
  datatype FixedParts = FixedParts(contentTypes: string, rels: string, workbook: string, workbookRels: string, styles: string)

  function Part(name: string, text: string): Zip.Entry {
    Zip.Entry(Utf8.Encode(name), Utf8.Encode(text))
  }

  const TABLE_NAME: string := "xl/sharedStrings.xml"
  const SHEET_NAME: string := "xl/worksheets/sheet1.xml"

  function Parts(table: string, sheet: string, fixed: FixedParts): seq<Zip.Entry> {
    [Part("[Content_Types].xml", fixed.contentTypes),
     Part("_rels/.rels", fixed.rels),
     Part("xl/workbook.xml", fixed.workbook),
     Part("xl/_rels/workbook.xml.rels", fixed.workbookRels),
     Part(SHEET_NAME, sheet),
     Part(TABLE_NAME, table),
     Part("xl/styles.xml", fixed.styles)]
  }

  datatype ReadError = UnknownMethod(compression: nat) | NeedsInflate | NotUtf8 | NoSheet

  /** The text of a part; a missing one reads as empty. */
  function PartText(entries: Zip.Entries, name: string): Result<string, ReadError> {
    if Utf8.Encode(name) !in entries then Ok("")
    else
      match entries[Utf8.Encode(name)]
      case Deflated(_) => Err(NeedsInflate)
      case Stored(data) =>
        match Utf8.Decode(data)
        case None => Err(NotUtf8)
        case Some(text) => Ok(text)
  }

  function Join(lines: seq<string>): string {
    if lines == [] then "" else if |lines| == 1 then lines[0] else lines[0] + "\n" + Join(lines[1..])
  }

  /** The text of a workbook: its cells, one to a line. */
  function ReadText(b: Bytes): Result<string, ReadError> {
    match Zip.ReadFrom(b, 0, map[])
    case Err(compression) => Err(UnknownMethod(compression))
    case Ok(entries) =>
      match PartText(entries, TABLE_NAME)
      case Err(e) => Err(e)
      case Ok(table) =>
        match PartText(entries, SHEET_NAME)
        case Err(e) => Err(e)
        case Ok(sheet) =>
          if sheet == "" then Err(NoSheet) else Ok(Join(CellTexts(Cells(sheet), Extract(table))))
  }

  /** The cells of a workbook by row and column, as its references place them. */
  function ReadCells(b: Bytes): Option<Grid> {
    match Zip.ReadFrom(b, 0, map[])
    case Err(_) => None
    case Ok(entries) =>
      match (PartText(entries, TABLE_NAME), PartText(entries, SHEET_NAME))
      case (Ok(table), Ok(sheet)) => ReadGrid(table, sheet)
      case _ => None
  }

  /** Write rows of cells as a workbook; reading it gives every cell back, in order and at its place. */
  method Create(rows: seq<seq<string>>, fixed: FixedParts) returns (archive: Option<Bytes>)
    ensures archive.Some? ==> ReadText(archive.value) == Ok(Join(Flatten(rows)))
    ensures archive.Some? ==> ReadCells(archive.value).Some? && Tabulates(ReadCells(archive.value).value, rows)
    ensures archive.None? ==>
      exists numbers :: AllRestore(numbers, rows, FirstUses(Flatten(rows))) &&
        !Zip.Fits(Parts(TableXml(|Flatten(rows)|, FirstUses(Flatten(rows))), SheetXml(numbers), fixed))
  {
    hide ReadText, ReadCells, Tabulates, TableXml, SheetXml, AllRestore, FirstUses, Parts, Zip.Archive, Zip.Fits;
    var numbers, values := Build(rows);
    var table, sheet := TableXml(|Flatten(rows)|, values), SheetXml(numbers);
    archive := Zip.Write(Parts(table, sheet, fixed));
    if archive.Some? {
      WorkbookRoundTrip(rows, numbers, values, fixed);
    }
  }

  lemma NamesDiffer(a: string, b: string)
    requires a != b
    ensures Utf8.Encode(a) != Utf8.Encode(b)
  {
    hide Utf8.Encode, Utf8.Decode;
    Utf8.RoundTrip(a);
    Utf8.RoundTrip(b);
  }

  lemma PartIsRead(entries: Zip.Entries, name: string, text: string)
    requires Utf8.Encode(name) in entries && entries[Utf8.Encode(name)] == Zip.Stored(Utf8.Encode(text))
    ensures PartText(entries, name) == Ok(text)
  {
    hide Utf8.Encode, Utf8.Decode;
    Utf8.RoundTrip(text);
  }

  lemma NamesAreDistinct(table: string, sheet: string, fixed: FixedParts)
    ensures ZipRoundTrip.DistinctNames(Parts(table, sheet, fixed))
  {
    hide Utf8.Encode;
    var es := Parts(table, sheet, fixed);
    var names := ["[Content_Types].xml", "_rels/.rels", "xl/workbook.xml", "xl/_rels/workbook.xml.rels", SHEET_NAME,
                  TABLE_NAME, "xl/styles.xml"];
    forall i, j | 0 <= i < j < 7 ensures es[i].name != es[j].name {
      assert es[i].name == Utf8.Encode(names[i]) && es[j].name == Utf8.Encode(names[j]);
      assert |names[i]| != |names[j]|;
      NamesDiffer(names[i], names[j]);
    }
  }

  /** Writing and reading a workbook gives every cell back, in order. */
  lemma WorkbookRoundTrip(rows: seq<seq<string>>, numbers: seq<seq<nat>>, values: seq<string>, fixed: FixedParts)
    requires AllRestore(numbers, rows, values)
    requires Zip.Fits(Parts(TableXml(|Flatten(rows)|, values), SheetXml(numbers), fixed))
    ensures ReadText(Zip.Archive(Parts(TableXml(|Flatten(rows)|, values), SheetXml(numbers), fixed))) ==
            Ok(Join(Flatten(rows)))
    ensures var cells := ReadCells(Zip.Archive(Parts(TableXml(|Flatten(rows)|, values), SheetXml(numbers), fixed)));
            cells.Some? && Tabulates(cells.value, rows)
  {
    hide Tabulates, ReadGrid, TableXml, AllRestore, Zip.Archive, Zip.Fits, Zip.ReadFrom, PartText, Cells, CellTexts, Extract, Flatten,
         Utf8.Encode;
    var table, sheet := TableXml(|Flatten(rows)|, values), SheetXml(numbers);
    var es := Parts(table, sheet, fixed);
    NamesAreDistinct(table, sheet, fixed);
    ZipRoundTrip.RoundTrip(es);
    var entries := Zip.ReadFrom(Zip.Archive(es), 0, map[]).value;
    assert es[4].name in entries && es[5].name in entries;
    PartIsRead(entries, SHEET_NAME, sheet);
    PartIsRead(entries, TABLE_NAME, table);
    TableRoundTrip(|Flatten(rows)|, values);
    SheetRoundTrip(numbers, rows, values);
    GridRoundTrip(numbers, rows, values);
    assert sheet != "" by { assert sheet[0] == '<'; }
  }

  /** A part in an archive with distinct names is found under its name. */
  lemma PartIsFound(es: seq<Zip.Entry>, i: nat, name: string, text: string)
    requires Zip.Fits(es) && ZipRoundTrip.DistinctNames(es) && i < |es| && es[i] == Part(name, text)
    ensures var r := Zip.ReadFrom(Zip.Archive(es), 0, map[]); r.Ok? && PartText(r.value, name) == Ok(text)
  {
    hide Zip.Archive, Zip.Fits, Zip.ReadFrom, PartText, Utf8.Encode;
    ZipRoundTrip.RoundTrip(es);
    var entries := Zip.ReadFrom(Zip.Archive(es), 0, map[]).value;
    assert es[i].name in entries;
    PartIsRead(entries, name, text);
  }

  ghost predicate Reads(b: Bytes, name: string, text: string) {
    var r := Zip.ReadFrom(b, 0, map[]); r.Ok? && PartText(r.value, name) == Ok(text)
  }

  /** Every part is found under its name. */
  lemma PartsAreFound(table: string, sheet: string, fixed: FixedParts)
    requires Zip.Fits(Parts(table, sheet, fixed))
    ensures var b := Zip.Archive(Parts(table, sheet, fixed));
            && Reads(b, "[Content_Types].xml", fixed.contentTypes) && Reads(b, "_rels/.rels", fixed.rels)
            && Reads(b, "xl/workbook.xml", fixed.workbook) && Reads(b, "xl/_rels/workbook.xml.rels", fixed.workbookRels)
            && Reads(b, "xl/worksheets/sheet1.xml", sheet) && Reads(b, "xl/sharedStrings.xml", table)
            && Reads(b, "xl/styles.xml", fixed.styles)
  {
    var es := Parts(table, sheet, fixed);
    NamesAreDistinct(table, sheet, fixed);
    hide Zip.Archive, Zip.Fits, Zip.ReadFrom, PartText, Part, ZipRoundTrip.DistinctNames;
    PartIsFound(es, 0, "[Content_Types].xml", fixed.contentTypes);
    PartIsFound(es, 1, "_rels/.rels", fixed.rels);
    PartIsFound(es, 2, "xl/workbook.xml", fixed.workbook);
    PartIsFound(es, 3, "xl/_rels/workbook.xml.rels", fixed.workbookRels);
    PartIsFound(es, 4, "xl/worksheets/sheet1.xml", sheet);
    PartIsFound(es, 5, "xl/sharedStrings.xml", table);
    PartIsFound(es, 6, "xl/styles.xml", fixed.styles);
  }

  lemma OneItem()
    ensures ItemsXml(["a"]) == "<si><t>a</t></si>"
  {
    assert ["a"][1..] == [];
    assert "a"[1..] == "";
  }

  /** The table of three cells that are all "a". */
  lemma SampleTable()
    ensures TableXml(3, ["a"]) ==
            "<" + PROLOG + "<" + ("sst xmlns=\"" + NAMESPACE + "\" count=\"") + "3" + "\" uniqueCount=\"" + "1" + "\">"
            + "<si><t>a</t></si>" + "</sst>"
  {
    OneItem();
    hide PROLOG, NAMESPACE, ItemsXml;
  }
}
