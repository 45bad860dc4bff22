/** Money text: decimals of any length rounded to cents, exactly. */
module Money {
  import opened Common
  import Numerals
  import opened Scanning

  type Digits = s: string | Numerals.AllDigits(s)

  function WithoutCommas(s: string): (r: string)
    ensures ',' !in r
  {
    if s == [] then [] else if s[0] == ',' then WithoutCommas(s[1..]) else [s[0]] + WithoutCommas(s[1..])
  }

  /** A decimal: a sign, at least one digit, and after a point at least one more. */
  datatype Amount = Amount(negative: bool, whole: Digits, fraction: Digits)

  /** The longest run of digits in front. */
  function Leading(s: string): (n: nat)
    ensures n <= |s| && Numerals.AllDigits(s[..n]) && (n < |s| ==> !Numerals.IsDigit(s[n]))
  {
    if s == [] || !Numerals.IsDigit(s[0]) then 0
    else
      var n := Leading(s[1..]);
      assert s[..n + 1] == [s[0]] + s[1..][..n];
      n + 1
  }

  /** Digits, and after a point digits again, and nothing else. */
  function ParseUnsigned(s: string): Option<(Digits, Digits)> {
    var n := Leading(s);
    if n == 0 then None
    else if n == |s| then Some((s, []))
    else if s[n] == '.' && n + 1 < |s| && Leading(s[n + 1..]) == |s| - n - 1 then
      assert s[n + 1..][..|s| - n - 1] == s[n + 1..];
      Some((s[..n], s[n + 1..]))
    else None
  }

  function Parse(s: string): Option<Amount> {
    var signed := s != [] && (s[0] == '+' || s[0] == '-');
    match ParseUnsigned(if signed then s[1..] else s)
    case None => None
    case Some((whole, fraction)) => Some(Amount(signed && s[0] == '-', whole, fraction))
  }

  // ----- the program -----

  /** The cents of an amount: two digits of the fraction, and one more if the third is five or above. */
  function MinorUnits(a: Amount): nat {
    var padded := a.fraction + "00";
    var cents := Numerals.Value(a.whole, 10) * 100 + Numerals.Value(padded[..2], 10);
    if |a.fraction| > 2 && Numerals.DigitValue(a.fraction[2]) >= 5 then cents + 1 else cents
  }

  function Render(negative: bool, cents: nat): string {
    (if negative then "-" else "") + Numerals.Decimal(cents / 100) + "." + Numerals.Padded(Numerals.Decimal(cents % 100), 2)
  }

  /** `raw` is the text of the value, empty for none. */
  function FormatMoney(raw: string, emptyValue: string): string {
    var trimmed := Trim(raw);
    if trimmed == "" then emptyValue
    else
      match Parse(WithoutCommas(trimmed))
      case None => trimmed
      case Some(a) => Render(a.negative, MinorUnits(a))
  }

  // ----- rounding -----

  function Tens(k: nat): (t: nat)
    ensures t > 0
  {
    if k == 0 then 1 else 10 * Tens(k - 1)
  }

  lemma TensAdd(k: nat)
    ensures Tens(k + 1) == 10 * Tens(k) && Tens(k + 2) == 100 * Tens(k) && Tens(k + 3) == 1000 * Tens(k)
  {
  }

  lemma {:induction false} ValueConcat(a: string, b: string)
    requires Numerals.AllDigits(a) && Numerals.AllDigits(b)
    ensures Numerals.Value(a + b, 10) == Numerals.Value(a, 10) * Tens(|b|) + Numerals.Value(b, 10)
    decreases |b|
  {
    if b == [] {
      assert a + b == a;
    } else {
      hide Numerals.Value;
      var front, last := b[..|b| - 1], b[|b| - 1];
      ValueConcat(a, front);
      assert a + b == (a + front) + [last] && b == front + [last];
      Numerals.ValueOfLast(a + front, last, 10);
      Numerals.ValueOfLast(front, last, 10);
      OneMoreDigit(Numerals.Value(a, 10), Tens(|front|), Numerals.Value(front, 10), Numerals.DigitValue(last));
    }
  }

  lemma OneMoreDigit(x: nat, t: nat, y: nat, d: nat)
    ensures (x * t + y) * 10 + d == x * (10 * t) + (y * 10 + d)
  {
  }

  lemma {:induction false} ValueBound(a: string)
    requires Numerals.AllDigits(a)
    ensures Numerals.Value(a, 10) < Tens(|a|)
    decreases |a|
  {
    if a != [] {
      ValueBound(a[..|a| - 1]);
    }
  }

  /** The magnitude of an amount is `Scaled(a) / Tens(|a.fraction|)`. */
  function Scaled(a: Amount): nat {
    Numerals.Value(a.whole + a.fraction, 10)
  }

  /** `m` cents are nearest to `v` tenths to the power that `t` stands for, halves going up. */
  predicate Nearest(m: nat, v: nat, t: nat) {
    2 * t * m <= 200 * v + t < 2 * t * (m + 1)
  }

  lemma DigitTimes(d: nat, q: nat)
    requires d < 10
    ensures 5 <= d ==> 5 * q <= d * q <= 9 * q
    ensures d < 5 ==> 0 <= d * q <= 4 * q
  {
  }

  lemma Distribute(m: nat, d: nat, q: nat)
    ensures (10 * m + d) * q == 10 * (m * q) + d * q
    ensures 2 * (1000 * q) * m == 2000 * (m * q)
    ensures 2 * (1000 * q) * (m + 1) == 2000 * (m * q) + 2000 * q
  {
  }

  /** The third digit alone decides. */
  lemma ThirdDigitDecides(m: nat, d: nat, r: nat, q: nat)
    requires r < q && d < 10
    ensures Nearest(m + (if d >= 5 then 1 else 0), (10 * m + d) * q + r, 1000 * q)
  {
    Distribute(m, d, q);
    DigitTimes(d, q);
    if d >= 5 {
      Distribute(m + 1, d, q);
      assert (m + 1) * q == m * q + q;
    }
  }

  lemma TwoDigits(s: string)
    requires |s| == 2 && Numerals.AllDigits(s)
    ensures Numerals.Value(s, 10) == 10 * Numerals.DigitValue(s[0]) + Numerals.DigitValue(s[1])
  {
    OneDigit(s[..1]);
  }

  lemma FewDigits(a: Amount)
    requires |a.fraction| <= 2
    ensures Nearest(MinorUnits(a), Scaled(a), Tens(|a.fraction|))
  {
    hide Numerals.Value;
    var w, padded := Numerals.Value(a.whole, 10), a.fraction + "00";
    ValueConcat(a.whole, a.fraction);
    TwoDigits(padded[..2]);
    assert Tens(1) == 10 && Tens(2) == 100;
    if |a.fraction| == 0 {
      assert a.whole + a.fraction == a.whole;
    } else if |a.fraction| == 1 {
      assert Numerals.Value(a.fraction, 10) == Numerals.DigitValue(a.fraction[0]) by { OneDigit(a.fraction); }
    } else {
      assert padded[..2] == a.fraction;
    }
  }

  lemma OneDigit(s: string)
    requires |s| == 1 && Numerals.AllDigits(s)
    ensures Numerals.Value(s, 10) == Numerals.DigitValue(s[0])
  {
    assert s[..0] == [];
  }

  lemma Gather(w: nat, p: nat, d: nat, q: nat)
    ensures w * (1000 * q) + (p * 10 + d) * q == (10 * (100 * w + p) + d) * q
  {
  }

  lemma ManyDigits(a: Amount)
    requires |a.fraction| >= 3
    ensures Nearest(MinorUnits(a), Scaled(a), Tens(|a.fraction|))
  {
    hide Numerals.Value, Nearest;
    var f := a.fraction;
    var w, p, d, r := Numerals.Value(a.whole, 10), Numerals.Value(f[..2], 10), Numerals.DigitValue(f[2]),
                      Numerals.Value(f[3..], 10);
    var q := Tens(|f| - 3);
    assert (f + "00")[..2] == f[..2];
    TensAdd(|f| - 3);
    assert f == f[..2] + [f[2]] + f[3..];
    ValueConcat(a.whole, f);
    ValueConcat(f[..2] + [f[2]], f[3..]);
    Numerals.ValueOfLast(f[..2], f[2], 10);
    ValueBound(f[3..]);
    ThirdDigitDecides(100 * w + p, d, r, q);
    Gather(w, p, d, q);
  }

  /** The cents are the magnitude rounded to the nearest, halves away from nought, however long the digits are. */
  lemma RoundsExactly(a: Amount)
    ensures Nearest(MinorUnits(a), Scaled(a), Tens(|a.fraction|))
  {
    if |a.fraction| <= 2 {
      FewDigits(a);
    } else {
      ManyDigits(a);
    }
  }

  lemma Cancel(p: nat, a: nat, b: nat)
    requires p > 0 && p * a < p * b
    ensures a < b
  {
    if b <= a {
      Times(p, b, a);
    }
  }

  lemma Times(p: nat, a: nat, b: nat)
    requires a <= b
    ensures p * a <= p * b
  {
  }

  lemma Reorder(s: nat, t: nat, m: nat)
    ensures t * (2 * s * m) == 2 * (s * t * m) && s * (2 * t * m) == 2 * (s * t * m)
  {
    assert t * (2 * s * m) == 2 * (t * (s * m)) == 2 * ((t * s) * m);
    assert s * (2 * t * m) == 2 * (s * (t * m)) == 2 * ((s * t) * m);
  }

  lemma NearestIsMonotone(m: nat, v: nat, s: nat, n: nat, w: nat, t: nat)
    requires s > 0 && t > 0 && Nearest(m, v, s) && Nearest(n, w, t) && v * t <= w * s
    ensures m <= n
  {
    Times(t, 2 * s * m, 200 * v + s);
    StrictTimes(s, 200 * w + t, 2 * t * (n + 1));
    Reorder(s, t, m);
    Reorder(s, t, n + 1);
    Expand(t, v, s);
    Expand(s, w, t);
    assert s * t == t * s;
    assert 2 * (s * t * m) <= 200 * (v * t) + s * t <= 200 * (w * s) + s * t < 2 * (s * t * (n + 1));
    Cancel(s * t, m, n + 1);
  }

  lemma Expand(t: nat, v: nat, s: nat)
    ensures t * (200 * v + s) == 200 * (v * t) + t * s
  {
  }

  lemma StrictTimes(p: nat, a: nat, b: nat)
    requires p > 0 && a < b
    ensures p * a < p * b
  {
  }

  /** A greater magnitude is never shown as fewer cents. */
  lemma RoundingIsMonotone(a: Amount, b: Amount)
    requires Scaled(a) * Tens(|b.fraction|) <= Scaled(b) * Tens(|a.fraction|)
    ensures MinorUnits(a) <= MinorUnits(b)
  {
    hide Scaled, MinorUnits, Nearest;
    RoundsExactly(a);
    RoundsExactly(b);
    NearestIsMonotone(MinorUnits(a), Scaled(a), Tens(|a.fraction|), MinorUnits(b), Scaled(b), Tens(|b.fraction|));
  }

  // ----- formatting again -----

  lemma {:induction false} LeadingRun(d: string, rest: string)
    requires Numerals.AllDigits(d) && (rest == [] || !Numerals.IsDigit(rest[0]))
    ensures Leading(d + rest) == |d|
    decreases |d|
  {
    if d == [] {
      assert d + rest == rest;
    } else {
      assert (d + rest)[1..] == d[1..] + rest;
      LeadingRun(d[1..], rest);
    }
  }

  lemma ParseDecimal(whole: string, fraction: string)
    requires whole != [] && fraction != [] && Numerals.AllDigits(whole) && Numerals.AllDigits(fraction)
    ensures ParseUnsigned(whole + "." + fraction) == Some((whole, fraction))
  {
    hide Leading;
    var s := whole + "." + fraction;
    assert s == whole + ("." + fraction);
    LeadingRun(whole, "." + fraction);
    assert s[|whole| + 1..] == fraction && s[..|whole|] == whole && s[|whole|] == '.';
    LeadingRun(fraction, []);
    assert fraction + [] == fraction;
  }

  /** A rendered amount reads as itself. */
  lemma ParseRendered(negative: bool, cents: nat)
    ensures var fraction := Numerals.Padded(Numerals.Decimal(cents % 100), 2);
            Parse(Render(negative, cents)) == Some(Amount(negative, Numerals.Decimal(cents / 100), fraction))
  {
    hide ParseUnsigned, Numerals.Decimal, Numerals.Padded;
    var whole, fraction := Numerals.Decimal(cents / 100), Numerals.Padded(Numerals.Decimal(cents % 100), 2);
    ParseDecimal(whole, fraction);
    var u := whole + "." + fraction;
    if negative {
      assert Render(negative, cents) == "-" + u;
      assert ("-" + u)[1..] == u;
    } else {
      assert Render(negative, cents) == u;
      assert Numerals.IsDigit(u[0]) by { assert u[0] == whole[0]; }
    }
  }

  lemma CentsHaveTwoDigits(n: nat)
    requires n < 100
    ensures |Numerals.Padded(Numerals.Decimal(n), 2)| == 2
  {
    if n >= 10 {
      assert Numerals.Digits(n / 10, 10) == [Numerals.DigitChar(n / 10)];
    }
  }

  lemma MinorUnitsOfRendered(negative: bool, cents: nat)
    ensures MinorUnits(Parse(Render(negative, cents)).value) == cents
    ensures Parse(Render(negative, cents)).Some? && |Parse(Render(negative, cents)).value.fraction| == 2
  {
    hide Parse, Render, Numerals.Padded, Numerals.Value, Numerals.Decimal;
    var fraction := Numerals.Padded(Numerals.Decimal(cents % 100), 2);
    ParseRendered(negative, cents);
    CentsHaveTwoDigits(cents % 100);
    assert (fraction + "00")[..2] == fraction;
    DecimalValue(cents / 100);
    DecimalValue(cents % 100);
    Numerals.PaddingValue(Numerals.Decimal(cents % 100), 2, 10);
  }

  lemma DecimalValue(n: nat)
    ensures Numerals.Value(Numerals.Decimal(n), 10) == n
  {
    Numerals.DigitsValue(n, 10);
  }

  lemma {:induction false} NoCommasStays(s: string)
    requires ',' !in s
    ensures WithoutCommas(s) == s
    decreases |s|
  {
    if s != [] {
      assert s[0] in s;
      NoCommasStays(s[1..]);
      assert [s[0]] + s[1..] == s;
    }
  }

  lemma RenderedIsPlain(negative: bool, cents: nat)
    ensures IsTrimmed(Render(negative, cents)) && ',' !in Render(negative, cents) && Render(negative, cents) != ""
  {
    hide Numerals.Decimal, Numerals.Padded;
    var whole, fraction := Numerals.Decimal(cents / 100), Numerals.Padded(Numerals.Decimal(cents % 100), 2);
    Numerals.DigitsAvoid(whole, ',');
    Numerals.DigitsAvoid(fraction, ',');
    var s := Render(negative, cents);
    assert s[|s| - 1] == fraction[|fraction| - 1];
    assert s[0] == if negative then '-' else whole[0];
  }

  /** Formatting formatted money changes nothing, whatever went in, unless there was nothing and its stand-in is reformatted. */
  lemma FormattingIsIdempotent(raw: string, emptyValue: string)
    ensures FormatMoney(FormatMoney(raw, emptyValue), emptyValue) == FormatMoney(raw, emptyValue) <==>
            (Trim(raw) != "" || FormatMoney(emptyValue, emptyValue) == emptyValue)
  {
    hide Trim, Parse, WithoutCommas, Render, MinorUnits;
    var trimmed := Trim(raw);
    TrimTrims(raw);
    TrimTrims(trimmed);
    if trimmed != "" && Parse(WithoutCommas(trimmed)).Some? {
      var a := Parse(WithoutCommas(trimmed)).value;
      var shown := Render(a.negative, MinorUnits(a));
      RenderedIsPlain(a.negative, MinorUnits(a));
      TrimTrims(shown);
      NoCommasStays(shown);
      MinorUnitsOfRendered(a.negative, MinorUnits(a));
      ParseRendered(a.negative, MinorUnits(a));
    }
  }

  // ----- searching -----

  predicate GroupsFrom(s: string)
    decreases |s|
  {
    |s| >= 4 && s[0] == ',' && Leading(s[1..4]) == 3 && (|s| == 4 || GroupsFrom(s[4..]))
  }

  /** Digits, or at most three of them and then groups of three after commas. */
  predicate IsWhole(s: string) {
    var n := Leading(s);
    (n > 0 && n == |s|) || (1 <= n <= 3 && n < |s| && GroupsFrom(s[n..]))
  }

  /** What a search for an amount may look like. */
  predicate IsMoneyQuery(s: string) {
    var u := if s != [] && (s[0] == '+' || s[0] == '-') then s[1..] else s;
    match IndexOf(u, ".")
    case None => IsWhole(u)
    case Some(p) => IsWhole(u[..p]) && p + 1 < |u| && Leading(u[p + 1..]) == |u| - p - 1
  }

  function NormalizeMoneySearchQuery(value: string): string {
    var trimmed := Trim(value);
    if IsMoneyQuery(trimmed) then WithoutCommas(trimmed) else trimmed
  }

  lemma {:induction false} CommasConcat(a: string, b: string)
    ensures WithoutCommas(a + b) == WithoutCommas(a) + WithoutCommas(b)
    decreases |a|
  {
    if a == [] {
      assert a + b == b;
    } else {
      assert (a + b)[1..] == a[1..] + b;
      CommasConcat(a[1..], b);
    }
  }

  lemma DigitsHaveNoCommas(s: string)
    requires Numerals.AllDigits(s)
    ensures WithoutCommas(s) == s
  {
    Numerals.DigitsAvoid(s, ',');
    NoCommasStays(s);
  }

  lemma {:induction false} GroupsAreDigits(s: string)
    requires GroupsFrom(s)
    ensures Numerals.AllDigits(WithoutCommas(s))
    decreases |s|
  {
    hide WithoutCommas;
    var group, rest := s[1..4], s[4..];
    assert group[..3] == group;
    DigitsHaveNoCommas(group);
    assert s == "," + (group + rest);
    CommasConcat(",", group + rest);
    CommasConcat(group, rest);
    OneComma();
    if |s| == 4 {
      assert rest == [];
      assert WithoutCommas([]) == [] by { DigitsHaveNoCommas([]); }
    } else {
      GroupsAreDigits(rest);
    }
  }

  lemma OneComma()
    ensures WithoutCommas(",") == ""
  {
  }

  lemma WholeIsDigits(s: string)
    requires IsWhole(s)
    ensures WithoutCommas(s) != [] && Numerals.AllDigits(WithoutCommas(s)) && Numerals.IsDigit(s[0])
  {
    hide WithoutCommas;
    var n := Leading(s);
    DigitsHaveNoCommas(s[..n]);
    assert s == s[..n] + s[n..] && s[..n][0] == s[0];
    if n < |s| {
      CommasConcat(s[..n], s[n..]);
      GroupsAreDigits(s[n..]);
    } else {
      assert s[..n] == s;
    }
  }

  lemma ParseWhole(d: string)
    requires d != [] && Numerals.AllDigits(d)
    ensures ParseUnsigned(d) == Some((d, []))
  {
    LeadingRun(d, []);
    assert d + [] == d;
  }

  /** The unsigned part of a query parses once its commas are gone. */
  lemma UnsignedParses(u: string)
    requires match IndexOf(u, ".")
             case None => IsWhole(u)
             case Some(p) => IsWhole(u[..p]) && p + 1 < |u| && Leading(u[p + 1..]) == |u| - p - 1
    ensures var c := WithoutCommas(u);
            c != [] && ParseUnsigned(c).Some? && Numerals.IsDigit(c[0]) && Numerals.IsDigit(c[|c| - 1])
  {
    hide WithoutCommas, IsWhole, Leading, ParseUnsigned;
    match IndexOf(u, ".")
    case None =>
      WholeIsDigits(u);
      ParseWhole(WithoutCommas(u));
    case Some(p) =>
      IndexIsFirst(u, ".");
      var whole, fraction := u[..p], u[p + 1..];
      assert u == whole + ("." + fraction);
      WholeIsDigits(whole);
      assert Numerals.AllDigits(fraction) by { assert fraction[..|fraction|] == fraction; }
      CommasConcat(whole, "." + fraction);
      CommasConcat(".", fraction);
      DigitsHaveNoCommas(fraction);
      assert WithoutCommas(".") == "." by { NoCommasStays("."); }
      ParseDecimal(WithoutCommas(whole), fraction);
      assert WithoutCommas(u) == WithoutCommas(whole) + "." + fraction;
  }

  lemma QueryParses(t: string)
    requires IsMoneyQuery(t)
    ensures var c := WithoutCommas(t); c != [] && IsTrimmed(c) && Parse(c).Some?
  {
    hide WithoutCommas, IsWhole, Leading, ParseUnsigned;
    if t != [] && (t[0] == '+' || t[0] == '-') {
      var u := t[1..];
      UnsignedParses(u);
      assert t == [t[0]] + u;
      CommasConcat([t[0]], u);
      assert WithoutCommas([t[0]]) == [t[0]] by { NoCommasStays([t[0]]); }
      assert WithoutCommas(t)[1..] == WithoutCommas(u);
    } else {
      UnsignedParses(t);
    }
  }

  /** A search and a display of the same text show the same amount. */
  lemma SearchAgreesWithDisplay(value: string, emptyValue: string)
    ensures FormatMoney(NormalizeMoneySearchQuery(value), emptyValue) == FormatMoney(value, emptyValue)
  {
    hide Trim, Parse, WithoutCommas, Render, MinorUnits, IsMoneyQuery;
    var trimmed := Trim(value);
    TrimTrims(value);
    TrimTrims(trimmed);
    if IsMoneyQuery(trimmed) {
      var c := WithoutCommas(trimmed);
      QueryParses(trimmed);
      TrimTrims(c);
      NoCommasStays(c);
      assert trimmed != [] by { if trimmed == [] { DigitsHaveNoCommas([]); } }
    }
  }
}
