/** What the reader makes of sheets and tables that other programs wrote: inline texts, plain values and rich text. */
module SheetForeign {
  import opened Common
  import opened Scanning
  import opened SharedStrings
  import opened Sheet
  import XmlText
  import Numerals

  // ----- text elements -----

  /** Nothing, or white space and attributes after it. */
  predicate IsAttributes(a: string) {
    a == "" || (IsSpace(a[0]) && '<' !in a && '>' !in a)
  }

  lemma ShorterTag(s: string)
    ensures "<t>" <= s ==> "<t" <= s
  {
  }

  lemma TextsPastOne(c: char, s: string)
    requires !("<t" <= [c] + s)
    ensures TextBodies([c] + s) == TextBodies(s)
  {
    assert ([c] + s)[1..] == s;
    ShorterTag([c] + s);
  }

  lemma {:induction false} TextsPastText(x: string, rest: string)
    requires '<' !in x
    ensures TextBodies(x + rest) == TextBodies(rest)
    decreases |x|
  {
    hide TextBodies;
    if x == [] {
      assert x + rest == rest;
    } else {
      assert x + rest == [x[0]] + (x[1..] + rest);
      assert (x + rest)[0] == x[0];
      TextsPastOne(x[0], x[1..] + rest);
      TextsPastText(x[1..], rest);
    }
  }

  /** A tag that starts no text is passed over, with the text after it. */
  lemma TextsPastTag(tag: string, x: string, rest: string)
    requires tag == "<" + x && '<' !in x && x != [] && x[0] != 't'
    ensures TextBodies(tag + rest) == TextBodies(rest)
  {
    hide TextBodies;
    assert tag + rest == ['<'] + (x + rest);
    assert (tag + rest)[1] == x[0];
    TextsPastOne('<', x + rest);
    TextsPastText(x, rest);
  }

  lemma TagIsSkipped(attributes: string, after: string)
    requires IsAttributes(attributes)
    ensures TextTag("<t" + attributes + ">" + after) == Some(3 + |attributes|)
  {
    hide IndexOf, IsSpace;
    var s := "<t" + attributes + ">" + after;
    if attributes == "" {
      assert "<t" + attributes + ">" == "<t>";
      assert s[..3] == "<t>";
    } else {
      assert s[2] == attributes[0] && s[..2] == "<t";
      assert IsSpace('>') == false by { AngleIsNoSpace(); }
      assert attributes[0] in attributes;
      assert s[3..] == attributes[1..] + (">" + after);
      IndexHere(">" + after, ">");
      IndexPastText(attributes[1..], ">" + after, ">");
    }
  }

  lemma AngleIsNoSpace()
    ensures !IsSpace('>')
  {
  }

  lemma SplitElement(a: string, escaped: string, b: string, rest: string)
    requires |b| == 4
    ensures var s := a + escaped + b + rest;
            s == a + (escaped + b + rest) && s[|a|..] == escaped + (b + rest) &&
            s[|a|..|a| + |escaped|] == escaped && s[|a| + |escaped| + 4..] == rest
  {
  }

  lemma BodyInFront(s: string, open: nat, n: nat)
    requires s != [] && TextTag(s) == Some(open) && IndexOf(s[open..], "</t>") == Some(n)
    ensures TextBodies(s) == [s[open..open + n]] + TextBodies(s[open + n + 4..])
  {
    hide IndexOf, TextTag;
  }

  /** A text element in front gives its body. */
  lemma TextElement(attributes: string, escaped: string, rest: string)
    requires IsAttributes(attributes) && '<' !in escaped
    ensures TextBodies("<t" + attributes + ">" + escaped + "</t>" + rest) == [escaped] + TextBodies(rest)
  {
    hide IndexOf, IsAttributes, TextTag, TextBodies;
    var tag := "<t" + attributes + ">";
    var s := tag + escaped + "</t>" + rest;
    TagIsSkipped(attributes, escaped + "</t>" + rest);
    IndexHere("</t>" + rest, "</t>");
    IndexPastText(escaped, "</t>" + rest, "</t>");
    SplitElement(tag, escaped, "</t>", rest);
    BodyInFront(s, |tag|, |escaped|);
  }

  // ----- rich text -----

  datatype Run = Run(attributes: string, text: string)

  function RunXml(run: Run): string {
    "<r>" + ("<t" + run.attributes + ">" + XmlText.XmlEscape(run.text) + "</t>") + "</r>"
  }

  function RunsXml(runs: seq<Run>): string {
    if runs == [] then "" else RunXml(runs[0]) + RunsXml(runs[1..])
  }

  function Texts(runs: seq<Run>): string {
    if runs == [] then "" else runs[0].text + Texts(runs[1..])
  }

  lemma RunIsRead(run: Run, rest: string)
    requires IsAttributes(run.attributes)
    ensures TextBodies(RunXml(run) + rest) == [XmlText.XmlEscape(run.text)] + TextBodies(rest)
  {
    hide TextBodies, XmlText.XmlEscape, IsAttributes;
    var escaped := XmlText.XmlEscape(run.text);
    var element, after := "<t" + run.attributes + ">" + escaped + "</t>", "</r>" + rest;
    NoTagInText(run.text);
    assert RunXml(run) + rest == "<r>" + (element + after);
    TextsPastTag("<r>", "r>", element + after);
    TextElement(run.attributes, escaped, after);
    TextsPastTag("</r>", "/r>", rest);
  }

  /** An item in several runs, with attributes or without, is one text: the runs' texts one after another. */
  lemma {:induction false} RunsAreJoined(runs: seq<Run>)
    requires forall run :: run in runs ==> IsAttributes(run.attributes)
    ensures UnescapeAll(TextBodies(RunsXml(runs))) == Texts(runs)
    decreases |runs|
  {
    hide TextBodies, XmlText.XmlEscape, XmlText.XmlUnescape, IsAttributes, RunXml;
    if runs == [] {
      assert TextBodies("") == [] by { NoTexts(); }
    } else {
      RunIsRead(runs[0], RunsXml(runs[1..]));
      RunsAreJoined(runs[1..]);
      XmlText.RoundTrip(runs[0].text);
      var bodies := TextBodies(RunsXml(runs[1..]));
      assert ([XmlText.XmlEscape(runs[0].text)] + bodies)[1..] == bodies;
    }
  }

  lemma NoTexts()
    ensures TextBodies("") == []
  {
  }

  // ----- cells without a shared string -----

  lemma {:induction false} NotShared(attributes: string, boundary: bool)
    requires forall i :: 0 <= i <= |attributes| ==> !OccursAt(attributes, "t=\"s\"", i)
    ensures !HasSharedType(attributes, boundary)
    decreases |attributes|
  {
    if attributes != [] {
      assert attributes[0..] == attributes;
      assert !OccursAt(attributes, "t=\"s\"", 0);
      forall i | 0 <= i <= |attributes[1..]| ensures !OccursAt(attributes[1..], "t=\"s\"", i) {
        assert attributes[1..][i..] == attributes[i + 1..];
        assert !OccursAt(attributes, "t=\"s\"", i + 1);
      }
      NotShared(attributes[1..], !IsWord(attributes[0]));
    }
  }

  /** A cell with an inline text reads as that text. */
  lemma InlineTextIsRead(attributes: string, textAttributes: string, text: string, shared: seq<string>)
    requires forall i :: 0 <= i <= |attributes| ==> !OccursAt(attributes, "t=\"s\"", i)
    requires IsAttributes(textAttributes)
    ensures CellText(Cell(attributes, "<is>" + ("<t" + textAttributes + ">" + XmlText.XmlEscape(text) + "</t>") + "</is>"), shared)
            == text
  {
    hide TextBodies, XmlText.XmlEscape, XmlText.XmlUnescape, IsAttributes, HasSharedType, Between, NumberOf;
    NotShared(attributes, true);
    NoTagInText(text);
    var escaped := XmlText.XmlEscape(text);
    var element := "<t" + textAttributes + ">" + escaped + "</t>";
    assert "<is>" + element + "</is>" == "<is>" + (element + "</is>");
    TextsPastTag("<is>", "is>", element + "</is>");
    TextElement(textAttributes, escaped, "</is>");
    XmlText.RoundTrip(text);
  }

  /** A cell with a value of its own reads as that value. */
  lemma OwnValueIsRead(attributes: string, text: string, shared: seq<string>)
    requires forall i :: 0 <= i <= |attributes| ==> !OccursAt(attributes, "t=\"s\"", i)
    ensures CellText(Cell(attributes, "<v>" + XmlText.XmlEscape(text) + "</v>"), shared) == text
  {
    hide TextBodies, XmlText.XmlEscape, XmlText.XmlUnescape, HasSharedType, Between, NumberOf;
    NotShared(attributes, true);
    NoTagInText(text);
    var escaped := XmlText.XmlEscape(text);
    ValueIsRead(escaped);
    assert "<v>" + escaped + "</v>" == "<v>" + (escaped + "</v>");
    TextsPastTag("<v>", "v>", escaped + "</v>");
    TextsPastText(escaped, "</v>");
    TextsPastTag("</v>", "/v>", "");
    assert "</v>" + "" == "</v>";
    NoTexts();
    XmlText.RoundTrip(text);
  }

  /** A cell whose number the table does not have reads as nothing. */
  lemma NumberBeyondTable(attributes: string, n: nat, shared: seq<string>)
    requires HasSharedType(attributes, true) && n >= |shared|
    ensures CellText(Cell(attributes, "<v>" + Numerals.Decimal(n) + "</v>"), shared) == ""
  {
    hide TextBodies, XmlText.XmlUnescape, HasSharedType, Between, Numerals.Decimal;
    NoTagInNumber(n);
    ValueIsRead(Numerals.Decimal(n));
    Numerals.DigitsValue(n, 10);
    assert NumberOf(Numerals.Decimal(n)) == Some(n) by { DecimalIsDigits(n); }
  }
}
