/** Text searches as the regular expressions make them (leftmost match, shortest body), and trimming. */
module Scanning {
  import opened Common

  ghost predicate OccursAt(s: string, pattern: string, i: nat) {
    i <= |s| && pattern <= s[i..]
  }

  /** Where a pattern first occurs. */
  function IndexOf(s: string, pattern: string): (r: Option<nat>)
    ensures r.Some? ==> r.value + |pattern| <= |s|
    decreases |s|
  {
    if pattern <= s then Some(0)
    else if s == [] then None
    else Shifted(IndexOf(s[1..], pattern), 1)
  }

  lemma {:induction false} IndexIsFirst(s: string, pattern: string)
    ensures var r := IndexOf(s, pattern);
            (r.Some? ==> OccursAt(s, pattern, r.value)) &&
            forall i :: 0 <= i < (if r.Some? then r.value else |s| + 1) ==> !OccursAt(s, pattern, i)
    decreases |s|
  {
    assert s[0..] == s;
    if s != [] {
      IndexIsFirst(s[1..], pattern);
      assert forall i :: 1 <= i <= |s| ==> s[i..] == s[1..][i - 1..];
      assert forall i :: 1 <= i <= |s| ==> (OccursAt(s, pattern, i) <==> OccursAt(s[1..], pattern, i - 1));
    }
  }

  function Shifted(r: Option<nat>, k: nat): Option<nat> {
    match r
    case None => None
    case Some(i) => Some(i + k)
  }

  /** White space as `\s` takes it. */
  predicate IsSpace(c: char) {
    var n := c as int;
    9 <= n <= 13 || n == 32 || n == 0xA0 || n == 0x1680 || 0x2000 <= n <= 0x200A || n == 0x2028 || n == 0x2029 ||
    n == 0x202F || n == 0x205F || n == 0x3000 || n == 0xFEFF
  }

  /** A word character as `\b` takes it. */
  predicate IsWord(c: char) {
    'a' <= c <= 'z' || 'A' <= c <= 'Z' || '0' <= c <= '9' || c == '_'
  }

  lemma IndexHere(s: string, pattern: string)
    requires pattern <= s
    ensures IndexOf(s, pattern) == Some(0)
  {
  }

  lemma IndexPastOne(c: char, s: string, pattern: string)
    requires !(pattern <= [c] + s)
    ensures IndexOf([c] + s, pattern) == Shifted(IndexOf(s, pattern), 1)
  {
    assert ([c] + s)[1..] == s;
  }

  /** Text without the first character of a pattern is passed over. */
  lemma {:induction false} IndexPastText(x: string, rest: string, pattern: string)
    requires pattern != [] && pattern[0] !in x
    ensures IndexOf(x + rest, pattern) == Shifted(IndexOf(rest, pattern), |x|)
    decreases |x|
  {
    hide IndexOf;
    if x == [] {
      assert x + rest == rest;
    } else {
      assert x + rest == [x[0]] + (x[1..] + rest);
      IndexPastText(x[1..], rest, pattern);
      IndexPastOne(x[0], x[1..] + rest, pattern);
    }
  }

  /** So is a tag, with the text after it, that does not start the pattern. */
  lemma IndexPastTag(x: string, rest: string, pattern: string)
    requires pattern != [] && pattern[0] == '<' && '<' !in x && !(pattern <= "<" + (x + rest))
    ensures IndexOf("<" + (x + rest), pattern) == Shifted(IndexOf(rest, pattern), 1 + |x|)
  {
    hide IndexOf;
    IndexPastOne('<', x + rest, pattern);
    IndexPastText(x, rest, pattern);
  }

  lemma Assoc<T>(a: seq<T>, b: seq<T>, c: seq<T>)
    ensures (a + b) + c == a + (b + c)
  {
  }

  /** A tag and the text after it are passed over if the tag differs from the pattern somewhere. */
  lemma IndexPastTagAndText(tag: string, x: string, text: string, rest: string, pattern: string, k: nat)
    requires tag == "<" + x && '<' !in x && '<' !in text && pattern != [] && pattern[0] == '<'
    requires k < |tag| && k < |pattern| && tag[k] != pattern[k]
    ensures IndexOf(tag + text + rest, pattern) == Shifted(IndexOf(rest, pattern), |tag| + |text|)
  {
    hide IndexOf;
    var s := "<" + ((x + text) + rest);
    assert s == tag + text + rest;
    assert s[k] == tag[k];
    IndexPastTag(x + text, rest, pattern);
  }

  // ----- trimming -----

  function TrimStart(s: string): string {
    if s != [] && IsSpace(s[0]) then TrimStart(s[1..]) else s
  }

  function TrimEnd(s: string): string {
    if s != [] && IsSpace(s[|s| - 1]) then TrimEnd(s[..|s| - 1]) else s
  }

  function Trim(s: string): string {
    TrimEnd(TrimStart(s))
  }

  /** Text that neither starts nor ends with white space. */
  predicate IsTrimmed(s: string) {
    s == [] || (!IsSpace(s[0]) && !IsSpace(s[|s| - 1]))
  }

  lemma {:induction false} TrimEndTrims(s: string)
    ensures TrimEnd(s) <= s
    ensures TrimEnd(s) != [] ==> !IsSpace(TrimEnd(s)[|TrimEnd(s)| - 1])
    decreases |s|
  {
    hide IsSpace;
    if s != [] {
      TrimEndTrims(s[..|s| - 1]);
    }
  }

  lemma {:induction false} TrimStartTrims(s: string)
    ensures TrimStart(s) != [] ==> !IsSpace(TrimStart(s)[0])
    decreases |s|
  {
    hide IsSpace;
    if s != [] {
      TrimStartTrims(s[1..]);
    }
  }

  lemma TrimTrims(s: string)
    ensures IsTrimmed(Trim(s))
    ensures IsTrimmed(s) ==> Trim(s) == s
  {
    hide IsSpace;
    TrimStartTrims(s);
    TrimEndTrims(TrimStart(s));
  }

  predicate AllSpace(s: string) {
    forall i :: 0 <= i < |s| ==> IsSpace(s[i])
  }

  lemma {:induction false} TrimStartTakesSpace(s: string) returns (front: string)
    ensures s == front + TrimStart(s) && AllSpace(front)
    decreases |s|
  {
    hide IsSpace;
    if s != [] && IsSpace(s[0]) {
      var rest := TrimStartTakesSpace(s[1..]);
      front := [s[0]] + rest;
      assert s == [s[0]] + (rest + TrimStart(s[1..]));
    } else {
      front := [];
    }
  }

  lemma {:induction false} TrimEndTakesSpace(s: string) returns (back: string)
    ensures s == TrimEnd(s) + back && AllSpace(back)
    decreases |s|
  {
    hide IsSpace;
    if s != [] && IsSpace(s[|s| - 1]) {
      var rest := TrimEndTakesSpace(s[..|s| - 1]);
      back := rest + [s[|s| - 1]];
      assert s == s[..|s| - 1] + [s[|s| - 1]];
      assert s == TrimEnd(s) + back;
    } else {
      back := [];
    }
  }

  /** Trimming takes white space off both ends and nothing else. */
  lemma TrimTakesSpaceOnly(s: string)
    ensures exists front, back :: s == front + Trim(s) + back && AllSpace(front) && AllSpace(back)
  {
    hide TrimStart, TrimEnd, AllSpace;
    var front := TrimStartTakesSpace(s);
    var back := TrimEndTakesSpace(TrimStart(s));
    assert s == front + Trim(s) + back;
  }
}
