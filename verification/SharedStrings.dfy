/** The shared-string table of an XLSX workbook: building it, writing it and reading it back. */
module SharedStrings {
  import opened Common
  import opened FirstUse
  import opened Scanning
  import opened XmlText
  import Numerals

  function Flatten(rows: seq<seq<string>>): seq<string> {
    if rows == [] then [] else Flatten(rows[..|rows| - 1]) + rows[|rows| - 1]
  }

  // ----- building -----

  ghost predicate Indexes(index: map<string, nat>, values: seq<string>) {
    (forall i :: 0 <= i < |values| ==> values[i] in index && index[values[i]] == i) &&
    (forall v :: v in index ==> index[v] < |values| && values[index[v]] == v)
  }

  /** Looking the numbers up in the table gives the cells. */
  ghost predicate Restores(numbers: seq<nat>, cells: seq<string>, values: seq<string>) {
    |numbers| == |cells| && forall c :: 0 <= c < |cells| ==> numbers[c] < |values| && values[numbers[c]] == cells[c]
  }

  ghost predicate AllRestore(numbers: seq<seq<nat>>, rows: seq<seq<string>>, values: seq<string>) {
    |numbers| == |rows| && forall r :: 0 <= r < |rows| ==> Restores(numbers[r], rows[r], values)
  }

  lemma LongerTableRestores(numbers: seq<seq<nat>>, rows: seq<seq<string>>, values: seq<string>, more: seq<string>)
    requires AllRestore(numbers, rows, values) && values <= more
    ensures AllRestore(numbers, rows, more)
  {
  }

  lemma KnownCell(index: map<string, nat>, values: seq<string>, cells: seq<string>, cell: string)
    requires Indexes(index, values) && values == FirstUses(cells)
    ensures cell in index <==> cell in cells
    ensures FirstUses(cells + [cell]) == if cell in index then values else values + [cell]
    ensures cell in index ==> index[cell] < |values| && values[index[cell]] == cell
  {
    hide FirstUses;
    SameMembers(cells);
    FirstUsesNext(cells, cell);
    assert cell in values ==> cell in index;
    assert cell in index ==> values[index[cell]] in values;
  }

  lemma NewCell(index: map<string, nat>, values: seq<string>, cell: string)
    requires Indexes(index, values) && cell !in index
    ensures Indexes(index[cell := |values|], values + [cell])
  {
  }

  lemma OneMoreNumber(numbers: seq<nat>, cells: seq<string>, values: seq<string>, more: seq<string>, n: nat)
    requires Restores(numbers, cells, values) && values <= more && n < |more|
    ensures Restores(numbers + [n], cells + [more[n]], more)
  {
  }

  /** One row's cells: known ones by their number, new ones appended to the table. */
  method IndexRow(row: seq<string>, index0: map<string, nat>, values0: seq<string>, ghost done: seq<string>)
    returns (numbers: seq<nat>, index: map<string, nat>, values: seq<string>)
    requires Indexes(index0, values0) && values0 == FirstUses(done)
    ensures Indexes(index, values) && values == FirstUses(done + row)
    ensures values0 <= values && Restores(numbers, row, values)
  {
    numbers, index, values := [], index0, values0;
    var c := 0;
    ghost var seen, taken := done, [];
    while c < |row|
      invariant 0 <= c <= |row|
      invariant seen == done + row[..c] && taken == row[..c]
      invariant Indexes(index, values) && values == FirstUses(seen)
      invariant values0 <= values && Restores(numbers, taken, values)
    {
      hide FirstUses, Restores, Indexes;
      var cell := row[c];
      KnownCell(index, values, seen, cell);
      TakeOneMore(done, row, c);
      seen := seen + [cell];
      if cell in index {
        OneMoreNumber(numbers, taken, values, values, index[cell]);
        numbers := numbers + [index[cell]];
      } else {
        NewCell(index, values, cell);
        OneMoreNumber(numbers, taken, values, values + [cell], |values|);
        index := index[cell := |values|];
        numbers := numbers + [|values|];
        values := values + [cell];
      }
      taken := taken + [cell];
      c := c + 1;
    }
    assert row[..c] == row;
  }

  lemma TakeOneMore<T>(done: seq<T>, row: seq<T>, c: nat)
    requires c < |row|
    ensures done + row[..c + 1] == (done + row[..c]) + [row[c]]
    ensures row[..c + 1] == row[..c] + [row[c]]
  {
  }

  /** The table of all cells and every row as numbers into it. */
  method Build(rows: seq<seq<string>>) returns (numbers: seq<seq<nat>>, values: seq<string>)
    ensures values == FirstUses(Flatten(rows))
    ensures AllRestore(numbers, rows, values)
  {
    var index: map<string, nat>;
    numbers, index, values := [], map[], [];
    var r := 0;
    while r < |rows|
      invariant 0 <= r <= |rows|
      invariant Indexes(index, values) && values == FirstUses(Flatten(rows[..r]))
      invariant AllRestore(numbers, rows[..r], values)
    {
      hide FirstUses, Restores;
      ghost var before := values;
      var row: seq<nat>;
      row, index, values := IndexRow(rows[r], index, values, Flatten(rows[..r]));
      LongerTableRestores(numbers, rows[..r], before, values);
      assert rows[..r + 1][..r] == rows[..r];
      numbers := numbers + [row];
      r := r + 1;
    }
    assert rows[..r] == rows;
  }

  // ----- writing -----

  function Item(value: string): string {
    "<si><t>" + XmlEscape(value) + "</t></si>"
  }

  function ItemsXml(values: seq<string>): string {
    if values == [] then [] else Item(values[0]) + ItemsXml(values[1..])
  }

  /** The parts' fixed text, after its `<`. */
  const PROLOG: string := "?xml version=\"1.0\" " + "encoding=\"UTF-8\" " + "standalone=\"yes\"?>\n"
  const NAMESPACE: string := "http://" + "schemas.openxmlformats.org/" + "spreadsheetml/2006/main"
  const TABLE_START: string := "sst xmlns=\"" + NAMESPACE + "\" count=\""
  const TABLE_MIDDLE: string := "\" uniqueCount=\""

  /** The part for `count` cells that share the given values. */
  function TableXml(count: nat, values: seq<string>): string {
    "<" + PROLOG + "<" + TABLE_START + Numerals.Decimal(count) + TABLE_MIDDLE + Numerals.Decimal(|values|) + "\">"
    + ItemsXml(values) + "</sst>"
  }

  // ----- reading -----

  /** The bodies of the items, each up to the next end tag. */
  function ItemBodies(s: string): seq<string>
    decreases |s|
  {
    if s == [] then []
    else if "<si>" <= s then
      match IndexOf(s[4..], "</si>")
      case None => ItemBodies(s[1..])
      case Some(n) => [s[4..4 + n]] + ItemBodies(s[4 + n + 5..])
    else ItemBodies(s[1..])
  }

  /** The length of the text start tag in front, with or without attributes. */
  function TextTag(s: string): (r: Option<nat>)
    ensures r.Some? ==> 3 <= r.value <= |s|
  {
    if "<t>" <= s then Some(3)
    else if "<t" <= s && |s| > 2 && IsSpace(s[2]) then
      match IndexOf(s[3..], ">")
      case None => None
      case Some(n) => Some(3 + n + 1)
    else None
  }

  function TextBodies(s: string): seq<string>
    decreases |s|
  {
    if s == [] then []
    else
      match TextTag(s)
      case None => TextBodies(s[1..])
      case Some(open) =>
        match IndexOf(s[open..], "</t>")
        case None => TextBodies(s[1..])
        case Some(n) => [s[open..open + n]] + TextBodies(s[open + n + 4..])
  }

  function UnescapeAll(texts: seq<string>): string {
    if texts == [] then [] else XmlUnescape(texts[0]) + UnescapeAll(texts[1..])
  }

  function ValuesOf(bodies: seq<string>): seq<string> {
    if bodies == [] then [] else [UnescapeAll(TextBodies(bodies[0]))] + ValuesOf(bodies[1..])
  }

  function Extract(xml: string): seq<string> {
    ValuesOf(ItemBodies(xml))
  }

  // ----- the round trip -----

  lemma NoTagInText(s: string)
    ensures '<' !in XmlEscape(s) && '>' !in XmlEscape(s)
  {
    hide XmlEscape;
    EscapeIsSimultaneous(s);
    EscapedIsText(s);
  }

  lemma ItemsPastOne(c: char, s: string)
    requires !("<si>" <= [c] + s)
    ensures ItemBodies([c] + s) == ItemBodies(s)
  {
    assert ([c] + s)[1..] == s;
  }

  lemma {:induction false} ItemsPastText(x: string, rest: string)
    requires '<' !in x
    ensures ItemBodies(x + rest) == ItemBodies(rest)
    decreases |x|
  {
    hide ItemBodies;
    if x == [] {
      assert x + rest == rest;
    } else {
      assert x + rest == [x[0]] + (x[1..] + rest);
      assert (x + rest)[0] == x[0];
      ItemsPastOne(x[0], x[1..] + rest);
      ItemsPastText(x[1..], rest);
    }
  }

  lemma ItemsPastTag(x: string, rest: string)
    requires '<' !in x && |x| > 1 && (x[0] != 's' || x[1] != 'i')
    ensures ItemBodies("<" + (x + rest)) == ItemBodies(rest)
  {
    hide ItemBodies;
    var s := "<" + (x + rest);
    assert s[1] == x[0] && s[2] == x[1];
    ItemsPastOne('<', x + rest);
    ItemsPastText(x, rest);
  }

  lemma TextEndPasses(after: string)
    requires "</si>" <= after
    ensures IndexOf("</t>" + after, "</si>") == Some(4)
  {
    hide IndexOf;
    var s := "<" + ("/t>" + after);
    assert s == "</t>" + after && s[2] == 't';
    IndexPastTag("/t>", after, "</si>");
    IndexHere(after, "</si>");
  }

  lemma TextStartPasses(text: string, after: string)
    requires '<' !in text
    ensures IndexOf("<t>" + text + after, "</si>") == Shifted(IndexOf(after, "</si>"), |text| + 3)
  {
    hide IndexOf;
    var x := "t>" + text;
    var s := "<" + (x + after);
    assert s == "<t>" + text + after && s[1] == 't';
    IndexPastTag(x, after, "</si>");
  }

  /** An item's body ends at its own end tag. */
  lemma ItemEnd(escaped: string, rest: string)
    requires '<' !in escaped
    ensures IndexOf("<t>" + escaped + "</t>" + ("</si>" + rest), "</si>") == Some(|escaped| + 7)
  {
    hide IndexOf;
    var after := "</t>" + ("</si>" + rest);
    TextEndPasses("</si>" + rest);
    TextStartPasses(escaped, after);
    assert "<t>" + escaped + "</t>" + ("</si>" + rest) == "<t>" + escaped + after;
  }

  lemma ItemIsRead(value: string, rest: string)
    ensures ItemBodies(Item(value) + rest) == ["<t>" + XmlEscape(value) + "</t>"] + ItemBodies(rest)
  {
    hide IndexOf, XmlEscape;
    var escaped := XmlEscape(value);
    NoTagInText(value);
    var body := "<t>" + escaped + "</t>";
    var s := Item(value) + rest;
    assert s == "<si>" + body + "</si>" + rest;
    assert s[4..] == body + ("</si>" + rest);
    ItemEnd(escaped, rest);
    assert s[4..4 + |body|] == body;
    assert s[4 + |body| + 5..] == rest;
  }

  lemma TextIsRead(value: string)
    ensures UnescapeAll(TextBodies("<t>" + XmlEscape(value) + "</t>")) == value
  {
    hide IndexOf, XmlEscape, XmlUnescape;
    var escaped := XmlEscape(value);
    NoTagInText(value);
    var s := "<t>" + escaped + "</t>";
    assert s[3..] == escaped + "</t>";
    IndexHere("</t>", "</t>");
    IndexPastText(escaped, "</t>", "</t>");
    assert s[3..3 + |escaped|] == escaped && s[3 + |escaped| + 4..] == [];
    assert TextBodies(s) == [escaped] + TextBodies([]) == [escaped];
    RoundTrip(value);
    assert [escaped][1..] == [];
    assert XmlUnescape(escaped) + [] == value;
  }

  lemma {:induction false} ItemsAreRead(values: seq<string>, rest: string)
    requires ItemBodies(rest) == []
    ensures ValuesOf(ItemBodies(ItemsXml(values) + rest)) == values
    decreases |values|
  {
    hide ItemBodies, Item, UnescapeAll, XmlEscape, TextBodies;
    if values == [] {
      assert ItemsXml(values) + rest == rest;
    } else {
      var value, others := values[0], ItemsXml(values[1..]) + rest;
      assert ItemsXml(values) + rest == Item(value) + others;
      ItemIsRead(value, others);
      ItemsAreRead(values[1..], rest);
      TextIsRead(value);
      var body := "<t>" + XmlEscape(value) + "</t>";
      assert ([body] + ItemBodies(others))[1..] == ItemBodies(others);
      assert [value] + values[1..] == values;
    }
  }

  lemma NoTagInProlog()
    ensures '<' !in PROLOG && |PROLOG| > 1 && PROLOG[0] == '?'
  {
  }

  lemma NoTagInNamespace()
    ensures '<' !in NAMESPACE
  {
  }

  lemma NoTagInTableStart()
    ensures '<' !in TABLE_START && |TABLE_START| > 1 && TABLE_START[1] == 's' && '<' !in TABLE_MIDDLE
  {
    hide NAMESPACE;
    NoTagInNamespace();
  }

  lemma NoTagInNumber(n: nat)
    ensures '<' !in Numerals.Decimal(n) && '>' !in Numerals.Decimal(n)
  {
    Numerals.DigitsAvoid(Numerals.Decimal(n), '<');
    Numerals.DigitsAvoid(Numerals.Decimal(n), '>');
  }

  /** Reading the rendered table gives its values back, whatever characters they hold. */
  lemma TableRoundTrip(count: nat, values: seq<string>)
    ensures Extract(TableXml(count, values)) == values
  {
    hide ItemBodies, ValuesOf, ItemsXml, Numerals.Decimal, PROLOG, TABLE_START, TABLE_MIDDLE;
    var rest := ItemsXml(values) + "</sst>";
    NoItemAtEnd();
    ItemsAreRead(values, "</sst>");
    NoTagInProlog();
    NoTagInTableStart();
    NoTagInNumber(count);
    NoTagInNumber(|values|);
    var head := TABLE_START + Numerals.Decimal(count) + TABLE_MIDDLE + Numerals.Decimal(|values|) + "\">";
    assert head[1] == TABLE_START[1];
    ItemsPastTag(head, rest);
    ItemsPastTag(PROLOG, "<" + (head + rest));
    assert TableXml(count, values) == "<" + (PROLOG + ("<" + (head + rest)));
  }

  lemma NoItemAtEnd()
    ensures ItemBodies("</sst>") == []
  {
    ItemsPastTag("/sst>", []);
    assert "</sst>" == "<" + ("/sst>" + []);
  }
}
