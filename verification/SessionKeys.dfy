/** Keys of the per-user session cache, and when one user's keys can be taken for another's. */
module SessionKeys {
  import opened Common
  import Scanning

  predicate IsPlain(c: char) {
    Scanning.IsWord(c) || c == '.' || c == ':' || c == '-'
  }

  /** A character that is not plain becomes an underscore for each of its 16-bit units. */
  function CleanChar(c: char): string {
    if IsPlain(c) then [c] else if c as int < 0x10000 then "_" else "__"
  }

  function Clean(s: string): string {
    if s == [] then [] else CleanChar(s[0]) + Clean(s[1..])
  }

  function NormalizeKeyPart(s: string): string {
    var cleaned := Clean(Scanning.Trim(s));
    if cleaned == "" then "default" else cleaned
  }

  const STORAGE_PREFIX: string := "finops:pageSession:v1"

  datatype Triple = Triple(user: string, page: string, name: string)

  /** A key without the prefix that all keys share. */
  function Tail(t: Triple): string {
    NormalizeKeyPart(t.user) + ":" + NormalizeKeyPart(t.page) + ":" + NormalizeKeyPart(t.name)
  }

  function StorageKey(t: Triple): string {
    STORAGE_PREFIX + ":" + Tail(t)
  }

  function UserPrefix(user: string): string {
    STORAGE_PREFIX + ":" + (NormalizeKeyPart(user) + ":")
  }

  function Normalized(t: Triple): Triple {
    Triple(NormalizeKeyPart(t.user), NormalizeKeyPart(t.page), NormalizeKeyPart(t.name))
  }

  predicate HasNoColon(t: Triple) {
    var n := Normalized(t);
    ':' !in n.user && ':' !in n.page && ':' !in n.name
  }

  lemma SamePrefix(a: string, b: string)
    ensures STORAGE_PREFIX + ":" + a == STORAGE_PREFIX + ":" + b <==> a == b
    ensures STORAGE_PREFIX + ":" + a <= STORAGE_PREFIX + ":" + b <==> a <= b
  {
    var p := STORAGE_PREFIX + ":";
    assert (p + a)[|p|..] == a && (p + b)[|p|..] == b;
    if p + a <= p + b {
      assert (p + b)[..|p + a|] == p + a;
      assert b[..|a|] == (p + b)[|p|..|p + a|];
    }
    if a <= b {
      assert p + b == (p + a) + b[|a|..];
    }
  }

  /** Without colons in its parts, a key tells its whole normalised triple. */
  lemma KeysAreInjective(t: Triple, u: Triple)
    requires HasNoColon(t) && HasNoColon(u)
    ensures StorageKey(t) == StorageKey(u) <==> Normalized(t) == Normalized(u)
  {
    hide NormalizeKeyPart, STORAGE_PREFIX;
    var a, b := Normalized(t), Normalized(u);
    SamePrefix(Tail(t), Tail(u));
    if Tail(t) == Tail(u) {
      var x, y := a.page + ":" + a.name, b.page + ":" + b.name;
      assert Tail(t) == a.user + [':'] + x && Tail(u) == b.user + [':'] + y;
      SplitAtFirst(a.user, x, b.user, y, ':');
      SplitAtFirst(a.page, a.name, b.page, b.name, ':');
    }
  }

  lemma NormalizedPlainly(w: string)
    requires w != [] && forall i :: 0 <= i < |w| ==> IsPlain(w[i])
    ensures NormalizeKeyPart(w) == w
  {
    Scanning.TrimTrims(w);
    CleanPlain(w);
  }

  lemma {:induction false} CleanPlain(w: string)
    requires forall i :: 0 <= i < |w| ==> IsPlain(w[i])
    ensures Clean(w) == w
    decreases |w|
  {
    if w != [] {
      CleanPlain(w[1..]);
      assert [w[0]] + w[1..] == w;
    }
  }

  lemma {:induction false} CleanIsPlain(s: string)
    ensures forall i :: 0 <= i < |Clean(s)| ==> IsPlain(Clean(s)[i])
    decreases |s|
  {
    if s != [] {
      CleanIsPlain(s[1..]);
    }
  }

  lemma NormalizedIsPlain(s: string)
    ensures forall i :: 0 <= i < |NormalizeKeyPart(s)| ==> IsPlain(NormalizeKeyPart(s)[i])
    ensures NormalizeKeyPart(s) != ""
  {
    CleanIsPlain(Scanning.Trim(s));
  }

  // ----- whose keys a user's prefix finds -----

  /** `a` is `b` with something added after a colon. */
  predicate Extends(a: string, b: string) {
    b + ":" <= a
  }

  /** What a caller can check before two users share one browser tab. */
  predicate MayClash(user: string, other: string) {
    var a, b := NormalizeKeyPart(user), NormalizeKeyPart(other);
    a == b || Extends(a, b) || Extends(b, a)
  }

  ghost predicate Finds(user: string, t: Triple) {
    UserPrefix(user) <= StorageKey(t)
  }

  lemma FindsOnlyClashes(user: string, t: Triple)
    requires Finds(user, t)
    ensures MayClash(t.user, user)
  {
    hide NormalizeKeyPart, STORAGE_PREFIX;
    var a, b := NormalizeKeyPart(t.user), NormalizeKeyPart(user);
    SamePrefix(b + ":", Tail(t));
    var rest := NormalizeKeyPart(t.page) + ":" + NormalizeKeyPart(t.name);
    assert Tail(t) == a + (":" + rest);
    assert b + ":" <= a + (":" + rest);
    if |b| < |a| {
      assert b + ":" == (a + (":" + rest))[..|b| + 1] == a[..|b| + 1];
    } else if |b| == |a| {
      assert b == (a + (":" + rest))[..|a|] == a;
    } else {
      assert (a + ":") == (a + (":" + rest))[..|a| + 1] == b[..|a| + 1];
    }
  }

  /** A user's prefix finds every key of a user who normalises alike. */
  lemma OwnKeysAreFound(user: string, t: Triple)
    requires NormalizeKeyPart(t.user) == NormalizeKeyPart(user)
    ensures Finds(user, t)
  {
    hide NormalizeKeyPart, STORAGE_PREFIX;
    var rest := NormalizeKeyPart(t.page) + ":" + NormalizeKeyPart(t.name);
    assert Tail(t) == (NormalizeKeyPart(user) + ":") + rest;
    SamePrefix(NormalizeKeyPart(user) + ":", Tail(t));
  }

  /** One page and name have the same key for two users exactly when the users normalise alike. */
  lemma SameSlotKeys(user: string, other: string, page: string, name: string)
    ensures StorageKey(Triple(user, page, name)) == StorageKey(Triple(other, page, name)) <==>
            NormalizeKeyPart(user) == NormalizeKeyPart(other)
  {
    hide NormalizeKeyPart, STORAGE_PREFIX;
    var a, b := NormalizeKeyPart(user), NormalizeKeyPart(other);
    var rest := ":" + NormalizeKeyPart(page) + ":" + NormalizeKeyPart(name);
    SamePrefix(Tail(Triple(user, page, name)), Tail(Triple(other, page, name)));
    assert Tail(Triple(user, page, name)) == a + rest && Tail(Triple(other, page, name)) == b + rest;
    if a + rest == b + rest {
      assert |a| == |b|;
      assert a == (a + rest)[..|a|] == (b + rest)[..|b|] == b;
    }
  }

  /** A page and a name under which the other user's prefix finds this user's key. */
  lemma ClashesAreFound(user: string, other: string) returns (t: Triple)
    requires MayClash(user, other)
    ensures t.user == user && Finds(other, t)
  {
    hide NormalizeKeyPart, STORAGE_PREFIX;
    var a, b := NormalizeKeyPart(user), NormalizeKeyPart(other);
    if a == b || Extends(a, b) {
      t := Triple(user, "", "");
      var rest := NormalizeKeyPart(t.page) + ":" + NormalizeKeyPart(t.name);
      assert Tail(t) == a + (":" + rest);
      if a == b {
        assert Tail(t) == (b + ":") + rest;
      } else {
        assert Tail(t) == (b + ":") + (a[|b| + 1..] + (":" + rest));
      }
      SamePrefix(b + ":", Tail(t));
    } else {
      t := Colliding(user, other);
      SamePrefix(b + ":", Tail(t));
    }
  }

  lemma ColonIsPlain()
    ensures IsPlain(':')
  {
  }

  lemma Colliding(user: string, other: string) returns (t: Triple)
    requires Extends(NormalizeKeyPart(other), NormalizeKeyPart(user))
    ensures t.user == user && NormalizeKeyPart(other) + ":" <= Tail(t)
  {
    hide NormalizeKeyPart, IsPlain;
    var a, b := NormalizeKeyPart(user), NormalizeKeyPart(other);
    NormalizedIsPlain(other);
    var w := b[|a| + 1..];
    var page := if w == "" then ":" else w;
    assert IsPlain(':') by { ColonIsPlain(); }
    NormalizedPlainly(page);
    t := Triple(user, page, "");
    var last := NormalizeKeyPart(t.name);
    assert b == a + ":" + w;
    if w == "" {
      assert Tail(t) == (b + ":") + (":" + last);
    } else {
      assert Tail(t) == (b + ":") + last;
    }
  }

  lemma SharedAfterColon(user: string, other: string) returns (t: Triple, u: Triple)
    requires NormalizeKeyPart(user) == NormalizeKeyPart(other) + ":"
    ensures t.user == user && u.user == other && StorageKey(t) == StorageKey(u)
  {
    NormalizedPlainly("n");
    NormalizedPlainly(":");
    NormalizedPlainly(":n");
    hide NormalizeKeyPart, IsPlain;
    t, u := Triple(user, ":", "n"), Triple(other, ":", ":n");
    assert Tail(t) == Tail(u);
  }

  lemma SharedAfterText(user: string, other: string, w: string) returns (t: Triple, u: Triple)
    requires w != "" && NormalizeKeyPart(user) == NormalizeKeyPart(other) + ":" + w
    requires forall i :: 0 <= i < |w| ==> IsPlain(w[i])
    ensures t.user == user && u.user == other && StorageKey(t) == StorageKey(u)
  {
    NormalizedPlainly("p");
    NormalizedPlainly("n");
    NormalizedPlainly("p:n");
    NormalizedPlainly(w);
    hide NormalizeKeyPart, IsPlain;
    t, u := Triple(user, "p", "n"), Triple(other, w, "p:n");
    assert Tail(t) == Tail(u);
  }

  /** A key that two users share, each for a page and a name of their own. */
  lemma SharedKey(user: string, other: string) returns (t: Triple, u: Triple)
    requires Extends(NormalizeKeyPart(user), NormalizeKeyPart(other))
    ensures t.user == user && u.user == other && StorageKey(t) == StorageKey(u)
  {
    NormalizedIsPlain(user);
    hide NormalizeKeyPart, IsPlain, StorageKey;
    var a, b := NormalizeKeyPart(user), NormalizeKeyPart(other);
    var w := a[|b| + 1..];
    assert a == b + ":" + w;
    if w == "" {
      assert a == b + ":";
      t, u := SharedAfterColon(user, other);
    } else {
      t, u := SharedAfterText(user, other, w);
    }
  }

  /**
   * Clearing one user's entries can take another user's with them if and only if their normalised names are equal
   * or one is the other with something added after a colon.
   */
  lemma ClashesExactly(user: string, other: string)
    ensures (exists t: Triple :: t.user == user && Finds(other, t)) <==> MayClash(user, other)
  {
    hide MayClash, Finds;
    if MayClash(user, other) {
      var t := ClashesAreFound(user, other);
      assert t.user == user && Finds(other, t);
    }
    if t: Triple :| t.user == user && Finds(other, t) {
      FindsOnlyClashes(other, t);
    }
  }

  /** Two users whose keys clash although they differ. */
  lemma ColonClashes()
    ensures MayClash("a", "a:b") && NormalizeKeyPart("a") != NormalizeKeyPart("a:b")
    ensures Finds("a:b", Triple("a", "b", "c"))
  {
    NormalizedPlainly("a");
    NormalizedPlainly("b");
    NormalizedPlainly("c");
    assert IsPlain(':');
    NormalizedPlainly("a:b");
    assert "a:b"[..2] == "a" + ":";
    assert Tail(Triple("a", "b", "c")) == ("a:b" + ":") + "c";
    SamePrefix("a:b" + ":", Tail(Triple("a", "b", "c")));
  }

  /** Two users who normalise alike although they differ. */
  lemma SpaceNormalises()
    ensures NormalizeKeyPart("a b") == NormalizeKeyPart("a_b")
  {
    NormalizedPlainly("a_b");
    Scanning.TrimTrims("a b");
    assert Clean("a b") == "a_b" by {
      assert "a b"[1..] == " b" && " b"[1..] == "b" && "b"[1..] == "";
    }
  }
}
