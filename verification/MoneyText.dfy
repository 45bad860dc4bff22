/** What is shown for a text, and which texts a search takes for amounts, in terms of the text's own parts. */
module MoneyText {
  import opened Common
  import opened Money
  import opened Scanning
  import Numerals

  /** A point and the digits after it, or nothing. */
  function Tail(fraction: string): string {
    if fraction == [] then "" else "." + fraction
  }

  /** A sign or none, at least one digit, and after a point more digits or no point at all. */
  ghost predicate Reads(t: string, sign: string, whole: string, fraction: string) {
    && sign in {"", "+", "-"} && whole != [] && Numerals.AllDigits(whole) && Numerals.AllDigits(fraction)
    && t == sign + (whole + Tail(fraction))
  }

  /** A sign for amounts below nought, the cents' hundreds, and the rest of them with two digits. */
  ghost predicate Shows(shown: string, negative: bool, cents: nat) {
    exists tail :: |tail| == 2 && Numerals.AllDigits(tail) && Numerals.Value(tail, 10) == cents % 100 &&
      shown == (if negative then "-" else "") + Numerals.Decimal(cents / 100) + "." + tail
  }

  lemma RenderShows(negative: bool, cents: nat)
    ensures Shows(Render(negative, cents), negative, cents)
  {
    hide Numerals.Decimal, Numerals.Padded, Numerals.Value;
    var tail := Numerals.Padded(Numerals.Decimal(cents % 100), 2);
    CentsHaveTwoDigits(cents % 100);
    DecimalValue(cents % 100);
    Numerals.PaddingValue(Numerals.Decimal(cents % 100), 2, 10);
  }

  lemma UnsignedReads(whole: string, fraction: string)
    requires whole != [] && Numerals.AllDigits(whole) && Numerals.AllDigits(fraction)
    ensures ParseUnsigned(whole + Tail(fraction)) == Some((whole, fraction))
  {
    hide Leading;
    if fraction == [] {
      assert whole + "" == whole;
      ParseWhole(whole);
    } else {
      assert whole + ("." + fraction) == whole + "." + fraction;
      ParseDecimal(whole, fraction);
    }
  }

  lemma ParsedUnsigned(u: string)
    requires ParseUnsigned(u).Some?
    ensures var (whole, fraction) := ParseUnsigned(u).value; whole != [] && u == whole + Tail(fraction)
  {
    hide Leading;
    var n := Leading(u);
    if n == |u| {
      assert u == u + "";
    } else {
      assert u == u[..n] + ("." + u[n + 1..]);
    }
  }

  /** Text that reads as an amount is parsed as that amount. */
  lemma ReadsParses(t: string, sign: string, whole: string, fraction: string)
    requires Reads(t, sign, whole, fraction)
    ensures t != [] && Parse(t) == Some(Amount(sign == "-", whole, fraction))
  {
    hide ParseUnsigned;
    var u := whole + Tail(fraction);
    assert t == sign + u && u[0] == whole[0];
    UnsignedReads(whole, fraction);
    if sign != "" {
      assert t[0] == sign[0] && t[1..] == u;
    } else {
      assert t == u && Numerals.IsDigit(t[0]);
    }
  }

  /** What is parsed reads as an amount. */
  lemma ParsedReads(t: string)
    requires Parse(t).Some?
    ensures exists sign, whole, fraction :: Reads(t, sign, whole, fraction)
  {
    hide ParseUnsigned, Tail;
    if t != [] && (t[0] == '+' || t[0] == '-') {
      ParsedUnsigned(t[1..]);
      var (whole, fraction) := ParseUnsigned(t[1..]).value;
      assert t == [t[0]] + t[1..];
      assert Reads(t, if t[0] == '+' then "+" else "-", whole, fraction);
    } else {
      ParsedUnsigned(t);
      var (whole, fraction) := ParseUnsigned(t).value;
      assert t == "" + t;
      assert Reads(t, "", whole, fraction);
    }
  }

  /**
   * An amount is shown as its cents, rounded to the nearest with halves away from nought, and its sign if that is a
   * minus; white space around it and commas in it do not matter.
   */
  lemma FormatsExactly(raw: string, emptyValue: string, sign: string, whole: string, fraction: string)
    requires Reads(WithoutCommas(Trim(raw)), sign, whole, fraction)
    ensures exists cents :: Shows(FormatMoney(raw, emptyValue), sign == "-", cents) &&
                            Nearest(cents, Numerals.Value(whole + fraction, 10), Tens(|fraction|))
  {
    hide Trim, Parse, Render, MinorUnits, Nearest, Shows, Numerals.Value;
    ReadsParses(WithoutCommas(Trim(raw)), sign, whole, fraction);
    var a := Amount(sign == "-", whole, fraction);
    RoundsExactly(a);
    RenderShows(a.negative, MinorUnits(a));
    assert Trim(raw) != "";
  }

  /** Of other texts an empty one is shown as its stand-in, and the rest as they are but for white space around them. */
  lemma OtherTextIsKept(raw: string, emptyValue: string)
    ensures Trim(raw) == "" ==> FormatMoney(raw, emptyValue) == emptyValue
    ensures Trim(raw) != "" && !(exists sign, whole, fraction :: Reads(WithoutCommas(Trim(raw)), sign, whole, fraction)) ==>
              FormatMoney(raw, emptyValue) == Trim(raw)
  {
    hide Trim, Parse, Render, MinorUnits, WithoutCommas;
    var t := WithoutCommas(Trim(raw));
    if Parse(t).Some? {
      ParsedReads(t);
    }
  }

  // ----- searches -----

  /** Groups of three digits, each after a comma. */
  ghost predicate InGroups(s: string, groups: seq<string>)
    decreases |groups|
  {
    if groups == [] then s == ""
    else
      |groups[0]| == 3 && Numerals.AllDigits(groups[0]) &&
      exists rest :: s == "," + groups[0] + rest && InGroups(rest, groups[1..])
  }

  /** Digits, or one to three of them and then at least one group of three. */
  ghost predicate IsWholePart(s: string) {
    (s != [] && Numerals.AllDigits(s)) ||
    exists head, tail, groups :: s == head + tail && 1 <= |head| <= 3 && Numerals.AllDigits(head) && groups != [] &&
                                 InGroups(tail, groups)
  }

  ghost predicate IsAmountText(t: string) {
    exists sign, whole, fraction :: sign in {"", "+", "-"} && IsWholePart(whole) && Numerals.AllDigits(fraction) &&
      t == sign + (whole + Tail(fraction))
  }

  lemma {:induction false} GroupsFound(s: string) returns (groups: seq<string>)
    requires GroupsFrom(s)
    ensures groups != [] && InGroups(s, groups)
    decreases |s|
  {
    var group, rest := s[1..4], s[4..];
    assert group[..3] == group;
    assert s == "," + group + rest;
    var later: seq<string> := [];
    if |s| == 4 {
      assert InGroups(rest, later);
    } else {
      later := GroupsFound(rest);
    }
    groups := [group] + later;
    assert groups[1..] == later;
  }

  lemma {:induction false} GroupsAreFound(s: string, groups: seq<string>)
    requires groups != [] && InGroups(s, groups)
    ensures GroupsFrom(s)
    decreases |groups|
  {
    var rest :| s == "," + groups[0] + rest && InGroups(rest, groups[1..]);
    assert s[1..4] == groups[0] && s[4..] == rest;
    LeadingRun(groups[0], []);
    assert groups[0] + [] == groups[0];
    if groups[1..] != [] {
      GroupsAreFound(rest, groups[1..]);
    }
  }

  lemma WholeReads(s: string)
    requires IsWhole(s)
    ensures IsWholePart(s)
  {
    hide GroupsFrom, InGroups, Leading;
    var n := Leading(s);
    if n == |s| {
      assert s[..n] == s;
    } else {
      var groups := GroupsFound(s[n..]);
      assert s == s[..n] + s[n..];
    }
  }

  lemma GroupedIsWhole(head: string, tail: string, groups: seq<string>)
    requires 1 <= |head| <= 3 && Numerals.AllDigits(head) && groups != [] && InGroups(tail, groups)
    ensures IsWhole(head + tail)
  {
    GroupsAreFound(tail, groups);
    StartsWithComma(tail);
    hide GroupsFrom, InGroups, Leading;
    LeadingRun(head, tail);
    assert (head + tail)[|head|..] == tail;
  }

  lemma WholeExactly(s: string)
    ensures IsWhole(s) <==> IsWholePart(s)
  {
    hide InGroups, Leading;
    if s != [] && Numerals.AllDigits(s) {
      LeadingRun(s, []);
      assert s + [] == s;
    }
    if IsWhole(s) {
      WholeReads(s);
    } else if IsWholePart(s) {
      var head, tail, groups :| s == head + tail && 1 <= |head| <= 3 && Numerals.AllDigits(head) && groups != [] &&
        InGroups(tail, groups);
      GroupedIsWhole(head, tail, groups);
    }
  }

  lemma StartsWithComma(s: string)
    requires GroupsFrom(s)
    ensures s != [] && s[0] == ',' && !Numerals.IsDigit(s[0])
  {
  }

  lemma WholePartAvoids(s: string, c: char)
    requires IsWholePart(s) && !Numerals.IsDigit(c) && c != ','
    ensures c !in s && s != []
  {
    hide InGroups;
    if head, tail, groups :| s == head + tail && 1 <= |head| <= 3 && Numerals.AllDigits(head) && groups != [] &&
                             InGroups(tail, groups) {
      GroupsAvoid(tail, groups, c);
      Numerals.DigitsAvoid(head, c);
    } else {
      Numerals.DigitsAvoid(s, c);
    }
  }

  lemma {:induction false} GroupsAvoid(s: string, groups: seq<string>, c: char)
    requires InGroups(s, groups) && !Numerals.IsDigit(c) && c != ','
    ensures c !in s
    decreases |groups|
  {
    if groups != [] {
      var rest :| s == "," + groups[0] + rest && InGroups(rest, groups[1..]);
      GroupsAvoid(rest, groups[1..], c);
      Numerals.DigitsAvoid(groups[0], c);
    }
  }

  /** Without a sign. */
  predicate IsUnsignedQuery(u: string) {
    match IndexOf(u, ".")
    case None => IsWhole(u)
    case Some(p) => IsWhole(u[..p]) && p + 1 < |u| && Leading(u[p + 1..]) == |u| - p - 1
  }

  lemma UnsignedQueryReads(u: string)
    requires IsUnsignedQuery(u)
    ensures exists whole, fraction :: IsWholePart(whole) && Numerals.AllDigits(fraction) &&
              u == whole + Tail(fraction)
  {
    hide IsWholePart, IsWhole, Leading;
    match IndexOf(u, ".")
    case None =>
      WholeExactly(u);
      var none := "";
      assert u == u + Tail(none);
    case Some(p) =>
      IndexIsFirst(u, ".");
      WholeExactly(u[..p]);
      var fraction := u[p + 1..];
      assert fraction[..|fraction|] == fraction;
      assert u == u[..p] + ("." + fraction);
  }

  lemma ReadIsUnsignedQuery(whole: string, fraction: string)
    requires IsWholePart(whole) && Numerals.AllDigits(fraction)
    ensures IsUnsignedQuery(whole + Tail(fraction))
  {
    hide IsWholePart, IsWhole, Leading, IndexOf;
    WholeExactly(whole);
    WholePartAvoids(whole, '.');
    var tail := Tail(fraction);
    IndexPastText(whole, tail, ".");
    if fraction == [] {
      assert whole + tail == whole;
      NoPoint();
    } else {
      IndexHere(tail, ".");
      var u := whole + tail;
      assert u[..|whole|] == whole && u[|whole| + 1..] == fraction;
      LeadingRun(fraction, []);
      assert fraction + [] == fraction;
    }
  }

  lemma NoPoint()
    ensures IndexOf("", ".") == None
  {
  }

  lemma QueryReads(t: string)
    requires IsMoneyQuery(t)
    ensures IsAmountText(t)
  {
    hide IsWholePart, IsWhole, Leading, IndexOf, Tail;
    if t != [] && (t[0] == '+' || t[0] == '-') {
      UnsignedQueryReads(t[1..]);
      assert t == (if t[0] == '+' then "+" else "-") + t[1..];
    } else {
      UnsignedQueryReads(t);
      assert t == "" + t;
    }
  }

  lemma SignedIsQuery(sign: string, u: string)
    requires sign in {"", "+", "-"} && u != [] && u[0] != '+' && u[0] != '-' && IsUnsignedQuery(u)
    ensures IsMoneyQuery(sign + u)
  {
    hide IsWhole, Leading, IndexOf;
    if sign == "" {
      assert sign + u == u;
    } else {
      assert (sign + u)[0] == sign[0] && (sign + u)[1..] == u;
    }
  }

  lemma ReadIsQuery(sign: string, whole: string, fraction: string)
    requires sign in {"", "+", "-"} && IsWholePart(whole) && Numerals.AllDigits(fraction)
    ensures IsMoneyQuery(sign + (whole + Tail(fraction)))
  {
    hide IsMoneyQuery, IsUnsignedQuery, IsWholePart, Tail;
    WholePartAvoids(whole, '+');
    WholePartAvoids(whole, '-');
    ReadIsUnsignedQuery(whole, fraction);
    assert whole[0] in whole;
    SignedIsQuery(sign, whole + Tail(fraction));
  }

  lemma QueryExactly(t: string)
    ensures IsMoneyQuery(t) <==> IsAmountText(t)
  {
    hide IsWholePart, IsMoneyQuery, Tail;
    if IsMoneyQuery(t) {
      QueryReads(t);
    }
    if IsAmountText(t) {
      var sign, whole, fraction :| sign in {"", "+", "-"} && IsWholePart(whole) && Numerals.AllDigits(fraction) &&
        t == sign + (whole + Tail(fraction));
      ReadIsQuery(sign, whole, fraction);
    }
  }

  /** A search loses its commas if and only if it is an amount whose commas part groups of three digits. */
  lemma NormalizesExactly(value: string)
    ensures NormalizeMoneySearchQuery(value) == if IsAmountText(Trim(value)) then WithoutCommas(Trim(value)) else Trim(value)
  {
    hide Trim, WithoutCommas, IsMoneyQuery, IsAmountText;
    QueryExactly(Trim(value));
  }
}
