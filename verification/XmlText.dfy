/**
 * Escaping of the predefined entities of section 4.6 of XML 1.0. The program applies four global replacements
 * one after another; the references treat all four at once, in one pass over the text.
 */
module XmlText {

  /** A global replacement: every occurrence from the left, without overlap. */
  function Replace(s: string, pattern: string, with: string): string
    requires pattern != []
    decreases |s|
  {
    if s == [] then []
    else if pattern <= s then with + Replace(s[|pattern|..], pattern, with)
    else [s[0]] + Replace(s[1..], pattern, with)
  }

  function XmlEscape(s: string): string {
    Replace(Replace(Replace(Replace(s, "&", "&amp;"), "<", "&lt;"), ">", "&gt;"), "\"", "&quot;")
  }

  function XmlUnescape(s: string): string {
    Replace(Replace(Replace(Replace(s, "&quot;", "\""), "&gt;", ">"), "&lt;", "<"), "&amp;", "&")
  }

  // ----- the references -----

  /** The four characters, numbered in the order in which the program takes their entities back. */
  function Special(k: nat): char
    requires k < 4
  {
    if k == 0 then '\"' else if k == 1 then '>' else if k == 2 then '<' else '&'
  }

  function Entity(k: nat): (e: string)
    requires k < 4
    ensures |e| >= 4 && e[0] == '&'
  {
    if k == 0 then "&quot;" else if k == 1 then "&gt;" else if k == 2 then "&lt;" else "&amp;"
  }

  /** One character with the specials from number `k` up written as their entities. */
  function EncodeChar(c: char, k: nat): string
    requires k <= 4
  {
    if k <= 0 && c == Special(0) then Entity(0)
    else if k <= 1 && c == Special(1) then Entity(1)
    else if k <= 2 && c == Special(2) then Entity(2)
    else if k <= 3 && c == Special(3) then Entity(3)
    else [c]
  }

  function Encode(s: string, k: nat): string
    requires k <= 4
  {
    if s == [] then [] else EncodeChar(s[0], k) + Encode(s[1..], k)
  }

  /** The number below `k` of the entity a text starts with, or `k`. */
  function EntityAt(s: string, k: nat): (r: nat)
    requires k <= 4
    ensures r <= k
    ensures r < k ==> Entity(r) <= s
    ensures r == k ==> forall i :: 0 <= i < k ==> !(Entity(i) <= s)
    decreases k
  {
    if k == 0 then 0
    else
      var r := EntityAt(s, k - 1);
      if r < k - 1 then r else if Entity(k - 1) <= s then k - 1 else k
  }

  /** One pass from the left that takes back the entities numbered below `k`. */
  function Decode(s: string, k: nat): string
    requires k <= 4
    decreases |s|
  {
    if s == [] then []
    else
      var i := EntityAt(s, k);
      if i < k then [Special(i)] + Decode(s[|Entity(i)|..], k) else [s[0]] + Decode(s[1..], k)
  }

  // ----- escaping is simultaneous -----

  lemma {:induction false} ReplaceConcat(a: string, b: string, c: char, with: string)
    ensures Replace(a + b, [c], with) == Replace(a, [c], with) + Replace(b, [c], with)
    decreases |a|
  {
    if a == [] {
      assert a + b == b;
    } else {
      assert (a + b)[1..] == a[1..] + b;
      ReplaceConcat(a[1..], b, c, with);
      assert [c] <= a <==> [c] <= a + b;
    }
  }

  /** Replacing one more character extends the encoding of a single character. */
  lemma EncodeCharStep(c: char, k: nat)
    requires k < 4
    ensures Replace(EncodeChar(c, k + 1), [Special(k)], Entity(k)) == EncodeChar(c, k)
  {
    var x := EncodeChar(c, k + 1);
    if |x| == 1 {
      assert x[1..] == [];
      assert Replace([], [Special(k)], Entity(k)) == [];
    } else {
      assert Special(k) !in x;
      NothingToReplace(x, Special(k), Entity(k));
    }
  }

  lemma {:induction false} NothingToReplace(x: string, c: char, with: string)
    requires c !in x
    ensures Replace(x, [c], with) == x
    decreases |x|
  {
    if x != [] {
      assert x[0] in x;
      NothingToReplace(x[1..], c, with);
      assert [x[0]] + x[1..] == x;
    }
  }

  lemma {:induction false} EncodeStep(s: string, k: nat)
    requires k < 4
    ensures Replace(Encode(s, k + 1), [Special(k)], Entity(k)) == Encode(s, k)
    decreases |s|
  {
    hide EncodeChar, Special, Entity;
    if s != [] {
      EncodeCharStep(s[0], k);
      EncodeStep(s[1..], k);
      ReplaceConcat(EncodeChar(s[0], k + 1), Encode(s[1..], k + 1), Special(k), Entity(k));
    }
  }

  lemma {:induction false} EncodeNothing(s: string)
    ensures Encode(s, 4) == s
  {
    if s != [] {
      EncodeNothing(s[1..]);
      assert [s[0]] + s[1..] == s;
    }
  }

  /** Four replacements one after another escape every character once. */
  lemma EscapeIsSimultaneous(s: string)
    ensures XmlEscape(s) == Encode(s, 0)
  {
    hide Replace, Encode;
    EncodeNothing(s);
    EncodeStep(s, 3);
    EncodeStep(s, 2);
    EncodeStep(s, 1);
    EncodeStep(s, 0);
  }

  // ----- unescaping is one pass -----

  /** Characters that no entity gives back and that start none. */
  predicate Ordinary(c: char) {
    c != '\"' && c != '>' && c != '<' && c != '&'
  }

  /** Ordinary text at the front of a decoded text was at the front of the text. */
  lemma {:induction false} OrdinaryWasThere(t: string, s: string, k: nat)
    requires k <= 4 && t <= Decode(s, k) && forall i :: 0 <= i < |t| ==> Ordinary(t[i])
    ensures t <= s
    decreases |t|
  {
    if t != [] {
      assert Ordinary(t[0]) && t[0] == Decode(s, k)[0];
      assert s != [] && EntityAt(s, k) == k;
      assert t[1..] <= Decode(s, k)[1..] == Decode(s[1..], k);
      OrdinaryWasThere(t[1..], s[1..], k);
      assert t == [t[0]] + t[1..] && s == [s[0]] + s[1..];
    }
  }

  lemma OrdinaryStartsNone(s: string, k: nat)
    requires k <= 4 && s != [] && Ordinary(s[0])
    ensures EntityAt(s, k) == k
  {
    hide Entity;
  }

  lemma DecodeOne(s: string, k: nat)
    requires k <= 4 && s != [] && EntityAt(s, k) == k
    ensures Decode(s, k) == [s[0]] + Decode(s[1..], k)
  {
    hide EntityAt, Entity, Special;
  }

  /** Ordinary text in front is decoded to itself. */
  lemma {:induction false} OrdinaryStays(t: string, s: string, k: nat)
    requires k <= 4 && forall i :: 0 <= i < |t| ==> Ordinary(t[i])
    ensures Decode(t + s, k) == t + Decode(s, k)
    decreases |t|
  {
    hide Decode, EntityAt, Entity, Special, Ordinary;
    if t == [] {
      assert t + s == s;
    } else {
      OrdinaryStartsNone(t + s, k);
      DecodeOne(t + s, k);
      assert (t + s)[1..] == t[1..] + s;
      OrdinaryStays(t[1..], s, k);
      assert [t[0]] + (t[1..] + Decode(s, k)) == t + Decode(s, k);
    }
  }

  lemma EntitiesAreOrdinary(k: nat)
    requires k < 4
    ensures forall i :: 1 <= i < |Entity(k)| ==> Ordinary(Entity(k)[i])
  {
  }

  lemma EntitiesDiffer(s: string, i: nat, j: nat)
    requires i < 4 && j < 4 && Entity(i) <= s && Entity(j) <= s
    ensures i == j
  {
    assert Entity(i)[1] == s[1] == Entity(j)[1];
  }

  /** A later entity in front is left alone by the earlier passes. */
  lemma EntityStays(k: nat, s: string)
    requires k < 4 && Entity(k) <= s
    ensures Decode(s, k) == Entity(k) + Decode(s[|Entity(k)|..], k)
  {
    hide Entity, Special, Decode, EntityAt, Ordinary;
    var e, rest := Entity(k), s[|Entity(k)|..];
    if EntityAt(s, k) < k {
      EntitiesDiffer(s, EntityAt(s, k), k);
    }
    DecodeOne(s, k);
    EntitiesAreOrdinary(k);
    assert s[1..] == e[1..] + rest;
    OrdinaryStays(e[1..], rest, k);
    assert ['&'] + (e[1..] + Decode(rest, k)) == e + Decode(rest, k);
  }

  lemma DecodedAmpersand(s: string, k: nat)
    requires k < 4 && Decode(s, k) != [] && Decode(s, k)[0] == '&'
    ensures s != [] && EntityAt(s, k) == k
  {
    hide EntityAt, Entity;
  }

  /** If a text decodes to one that starts with a later entity, the text starts with it. */
  lemma EntityWasThere(k: nat, s: string)
    requires k < 4 && Entity(k) <= Decode(s, k)
    ensures Entity(k) <= s
  {
    hide Entity, Special, Decode, EntityAt, Ordinary;
    var e := Entity(k);
    DecodedAmpersand(s, k);
    DecodeOne(s, k);
    EntitiesAreOrdinary(k);
    assert e[1..] <= Decode(s, k)[1..] == Decode(s[1..], k);
    OrdinaryWasThere(e[1..], s[1..], k);
    assert e == ['&'] + e[1..] && s == [s[0]] + s[1..];
  }

  lemma EntityAtNext(s: string, k: nat)
    requires k < 4
    ensures EntityAt(s, k) < k ==> EntityAt(s, k + 1) == EntityAt(s, k)
    ensures EntityAt(s, k) == k && Entity(k) <= s ==> EntityAt(s, k + 1) == k
    ensures EntityAt(s, k) == k && !(Entity(k) <= s) ==> EntityAt(s, k + 1) == k + 1
  {
  }

  lemma SpecialIsNoAmpersand(i: nat)
    requires i < 3
    ensures Special(i) != '&'
  {
  }

  /** One more replacement takes one more entity back. */
  lemma {:induction false} DecodeStep(s: string, k: nat)
    requires k < 4
    ensures Replace(Decode(s, k), Entity(k), [Special(k)]) == Decode(s, k + 1)
    decreases |s|
  {
    hide Entity, Special, EntityAt;
    if s != [] {
      var e, d := Entity(k), Decode(s, k);
      EntityAtNext(s, k);
      var i := EntityAt(s, k);
      if i < k {
        SpecialIsNoAmpersand(i);
        assert !(e <= d);
        assert d[1..] == Decode(s[|Entity(i)|..], k);
        DecodeStep(s[|Entity(i)|..], k);
      } else if e <= s {
        EntityStays(k, s);
        assert d[|e|..] == Decode(s[|e|..], k);
        DecodeStep(s[|e|..], k);
      } else {
        assert !(e <= d) by {
          if e <= d { EntityWasThere(k, s); }
        }
        assert d[1..] == Decode(s[1..], k);
        DecodeStep(s[1..], k);
      }
    }
  }

  lemma {:induction false} DecodeNothing(s: string)
    ensures Decode(s, 0) == s
  {
    if s != [] {
      DecodeNothing(s[1..]);
      assert [s[0]] + s[1..] == s;
    }
  }

  /** On any text, the four replacements amount to one pass that takes each entity back once. */
  lemma UnescapeIsOnePass(s: string)
    ensures XmlUnescape(s) == Decode(s, 4)
  {
    hide Replace, Decode;
    DecodeNothing(s);
    DecodeStep(s, 0);
    DecodeStep(s, 1);
    DecodeStep(s, 2);
    DecodeStep(s, 3);
  }

  // ----- the round trip -----

  lemma EncodedChar(c: char)
    ensures (EncodeChar(c, 0) == [c] && Ordinary(c)) ||
            exists k :: 0 <= k < 4 && EncodeChar(c, 0) == Entity(k) && c == Special(k)
  {
    if c == Special(0) { assert EncodeChar(c, 0) == Entity(0); }
    if c == Special(1) { assert EncodeChar(c, 0) == Entity(1); }
    if c == Special(2) { assert EncodeChar(c, 0) == Entity(2); }
    if c == Special(3) { assert EncodeChar(c, 0) == Entity(3); }
  }

  lemma DecodeEntity(k: nat, rest: string)
    requires k < 4
    ensures Decode(Entity(k) + rest, 4) == [Special(k)] + Decode(rest, 4)
  {
    hide Special, Entity;
    var s := Entity(k) + rest;
    assert Entity(k) <= s;
    var i := EntityAt(s, 4);
    EntitiesDiffer(s, i, k);
    assert s[|Entity(k)|..] == rest;
  }

  lemma {:induction false} DecodeOfEncode(s: string)
    ensures Decode(Encode(s, 0), 4) == s
    decreases |s|
  {
    hide EncodeChar, Special, Entity, Decode, EntityAt, Ordinary;
    if s != [] {
      var rest := Encode(s[1..], 0);
      EncodedChar(s[0]);
      DecodeOfEncode(s[1..]);
      if EncodeChar(s[0], 0) == [s[0]] && Ordinary(s[0]) {
        OrdinaryStays([s[0]], rest, 4);
      } else {
        var k :| 0 <= k < 4 && EncodeChar(s[0], 0) == Entity(k) && s[0] == Special(k);
        DecodeEntity(k, rest);
      }
      assert [s[0]] + s[1..] == s;
    } else {
      DecodeNoText();
    }
  }

  lemma DecodeNoText()
    ensures Decode([], 4) == []
  {
  }

  /** Every text survives escaping and unescaping. */
  lemma RoundTrip(s: string)
    ensures XmlUnescape(XmlEscape(s)) == s
  {
    hide XmlEscape, XmlUnescape;
    EscapeIsSimultaneous(s);
    UnescapeIsOnePass(XmlEscape(s));
    DecodeOfEncode(s);
  }

  /** Escaped text opens and closes nothing. */
  lemma {:induction false} EscapedIsText(s: string)
    ensures forall i :: 0 <= i < |Encode(s, 0)| ==> Encode(s, 0)[i] !in {'<', '>', '\"'}
    decreases |s|
  {
    if s != [] {
      EscapedIsText(s[1..]);
    }
  }
}
