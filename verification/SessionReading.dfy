/** What a read of the session cache gives and removes, and when a state reads again; and what keys look like. */
module SessionReading {
  import opened Common
  import opened SessionKeys
  import opened SessionStores
  import Scanning

  // ----- keys -----

  const LOWER: string := "abcdefghijklmnopqrstuvwxyz"
  const UPPER: string := "ABCDEFGHIJKLMNOPQRSTUVWXYZ"
  const DIGITS: string := "0123456789"
  const KEPT: string := LOWER + UPPER + DIGITS + "_.:-"

  lemma Lower(c: char)
    ensures c in LOWER <==> 'a' <= c <= 'z'
  {
    assert forall i :: 0 <= i < 26 ==> LOWER[i] == 'a' + i as char;
    if 'a' <= c <= 'z' {
      assert LOWER[c as int - 'a' as int] == c;
    }
  }

  lemma Upper(c: char)
    ensures c in UPPER <==> 'A' <= c <= 'Z'
  {
    assert forall i :: 0 <= i < 26 ==> UPPER[i] == 'A' + i as char;
    if 'A' <= c <= 'Z' {
      assert UPPER[c as int - 'A' as int] == c;
    }
  }

  lemma Digit(c: char)
    ensures c in DIGITS <==> '0' <= c <= '9'
  {
    assert forall i :: 0 <= i < 10 ==> DIGITS[i] == '0' + i as char;
    if '0' <= c <= '9' {
      assert DIGITS[c as int - '0' as int] == c;
    }
  }

  lemma KeptExactly(c: char)
    ensures c in KEPT <==> IsPlain(c)
  {
    Lower(c);
    Upper(c);
    Digit(c);
    hide LOWER, UPPER, DIGITS;
  }

  lemma {:induction false} CleanedExactly(s: string)
    requires forall i :: 0 <= i < |s| ==> s[i] as int < 0x10000
    ensures |Clean(s)| == |s| && forall i :: 0 <= i < |s| ==> Clean(s)[i] == if s[i] in KEPT then s[i] else '_'
    decreases |s|
  {
    hide IsPlain, KEPT;
    if s != [] {
      KeptExactly(s[0]);
      CleanedExactly(s[1..]);
    }
  }

  /** Letters, digits and four marks are kept, and every other unit of 16 bits becomes an underscore. */
  lemma NormalizedExactly(s: string)
    requires forall i :: 0 <= i < |Scanning.Trim(s)| ==> Scanning.Trim(s)[i] as int < 0x10000
    ensures var t, r := Scanning.Trim(s), NormalizeKeyPart(s);
            if t == "" then r == "default"
            else |r| == |t| && forall i :: 0 <= i < |t| ==> r[i] == if t[i] in KEPT then t[i] else '_'
  {
    hide Scanning.Trim, KEPT;
    CleanedExactly(Scanning.Trim(s));
  }

  /** Text is treated piece by piece, and a character beyond 16 bits has two units. */
  lemma {:induction false} CleanedApart(a: string, c: char, b: string)
    ensures Clean(a + [c] + b) == Clean(a) + Clean([c]) + Clean(b)
    ensures c as int >= 0x10000 ==> Clean([c]) == "__"
    decreases |a|
  {
    hide CleanChar;
    if a == [] {
      assert a + [c] + b == [c] + b;
      assert ([c] + b)[1..] == b && [c][1..] == [];
    } else {
      assert (a + [c] + b)[1..] == a[1..] + [c] + b;
      CleanedApart(a[1..], c, b);
    }
    assert c as int >= 0x10000 ==> CleanChar(c) == "__" by { Beyond(c); }
    assert [c][1..] == [] && Clean([]) == [];
  }

  lemma Beyond(c: char)
    ensures c as int >= 0x10000 ==> CleanChar(c) == "__"
  {
  }

  lemma Joined(p: string, user: string, page: string, name: string)
    ensures p + ":" + (user + ":" + page + ":" + name) == (p + ":") + user + ":" + page + ":" + name
    ensures p + ":" + (user + ":") == (p + ":") + user + ":"
  {
  }

  /** A key is its parts after a common prefix, and a user's prefix is the start of that. */
  lemma KeyIsWritten(user: string, page: string, name: string)
    requires user != "" && page != "" && name != ""
    requires (forall c :: c in user ==> IsPlain(c)) && (forall c :: c in page ==> IsPlain(c)) && forall c :: c in name ==> IsPlain(c)
    ensures StorageKey(Triple(user, page, name)) == "finops:pageSession:v1:" + user + ":" + page + ":" + name
    ensures UserPrefix(user) == "finops:pageSession:v1:" + user + ":"
  {
    NormalizedPlainly(user);
    NormalizedPlainly(page);
    NormalizedPlainly(name);
    assert STORAGE_PREFIX + ":" == "finops:pageSession:v1:";
    hide NormalizeKeyPart, IsPlain, STORAGE_PREFIX;
    Joined(STORAGE_PREFIX, user, page, name);
  }

  // ----- reads -----

  /** What a read comes upon: an entry in memory, or in the browser's store if that is meant and can be read. */
  predicate Meets(s: State, key: string, kind: Kind, works: bool, e: Stored) {
    if kind == Memory || !works || (key in s.session && s.session[key].Garbled?) then key in s.memory && s.memory[key] == e
    else key in s.session && s.session[key] == e && !e.Null?
  }

  /** The entry can be given back now, and the page takes it. */
  predicate IsGiven(e: Stored, version: int, now: int, restored: Option<string>) {
    e.Payload? && e.version == version && now < e.expiresAt && restored.Some?
  }

  /**
   * A read gives back what it comes upon if that is of the version, unexpired and taken by the page, and changes nothing
   * then; otherwise it gives the initial value and removes what it came upon from memory, and from the browser's store
   * if the state is kept there and it works. Nothing else is touched.
   */
  lemma ReadExactly(s: State, key: string, version: int, kind: Kind, initial: string, now: int, works: bool,
                    restored: Option<string>)
    ensures var value := ValueAt(s, key, version, kind, initial, now, works, restored);
            var t := ReadAt(s, key, version, kind, now, works, restored.Some?);
            (forall e :: Meets(s, key, kind, works, e) ==>
               if IsGiven(e, version, now, restored) then value == Val(restored.value, e.value.authors) && t == s
               else value == Val(initial, {}) &&
                    t == s.(memory := s.memory - {key}, session := if kind == Session && works then s.session - {key} else s.session)) &&
            ((forall e :: !Meets(s, key, kind, works, e)) ==> value == Val(initial, {}) && t == s)
  {
    var found := Lookup(s.memory, s.session, key, kind, works);
    if found.Some? {
      assert Meets(s, key, kind, works, found.value);
    }
  }

  // ----- reading again -----

  /** What the commit and the clean-ups leave of a state that is due: its timer is cancelled. */
  lemma DueIsCleaned(s: State, user: string, id: nat)
    requires Quiet(s) && id in s.hooks && s.hooks[id].mounted
    requires s.bumped || KeyOf(s.user, s.hooks[id].slot) != KeyOf(user, s.hooks[id].slot)
    ensures var h, t := s.hooks[id], Step(Step(s, Commit(user)), CleanUp);
            && t.user == user && t.memory == s.memory && t.session == s.session && id in t.hooks
            && t.hooks[id].stage == Cleaned && t.hooks[id].pending == None && t.hooks[id].mounted
            && t.hooks[id].slot == h.slot && t.hooks[id].version == h.version && t.hooks[id].kind == h.kind
            && t.hooks[id].initial == h.initial
  {
    hide KeyOf;
  }

  lemma CleanedReads(s: State, id: nat, same: bool, now: int, works: bool, restored: Option<string>)
    requires id in s.hooks && s.hooks[id].stage == Cleaned
    ensures var h, t := s.hooks[id], Step(s, RunEffects(id, same, now, works, restored));
            && id in t.hooks && t.hooks[id].pending == h.pending && t.hooks[id].stage == Done && t.hooks[id].mounted == h.mounted
            && t.hooks[id].queued ==
               Some(ValueAt(s, KeyOf(s.user, h.slot), h.version, h.kind, h.initial, now, works, restored))
  {
    hide KeyOf, ValueAt, ReadAt;
  }

  /**
   * A mounted state reads again after a render for a user under whose name its key is another, or after a clear: its
   * timer is cancelled first, and what it is to show is what is stored under the present user's key.
   */
  lemma ReadsAgain(s: State, user: string, id: nat, same: bool, now: int, works: bool, restored: Option<string>)
    requires Quiet(s) && id in s.hooks && s.hooks[id].mounted
    requires s.bumped || KeyOf(s.user, s.hooks[id].slot) != KeyOf(user, s.hooks[id].slot)
    ensures var h := s.hooks[id];
            var t := Step(Step(Step(s, Commit(user)), CleanUp), RunEffects(id, same, now, works, restored));
            && id in t.hooks && t.hooks[id].pending == None && t.hooks[id].mounted
            && t.hooks[id].queued == Some(ValueAt(s, KeyOf(user, h.slot), h.version, h.kind, h.initial, now, works, restored))
  {
    hide Quiet, KeyOf, ValueAt, Step;
    var t := Step(Step(s, Commit(user)), CleanUp);
    DueIsCleaned(s, user, id);
    CleanedReads(t, id, same, now, works, restored);
    SameStores(s, t, KeyOf(user, s.hooks[id].slot), s.hooks[id], now, works, restored);
  }

  lemma SameStores(s: State, t: State, key: string, h: Hook, now: int, works: bool, restored: Option<string>)
    requires t.memory == s.memory && t.session == s.session
    ensures ValueAt(t, key, h.version, h.kind, h.initial, now, works, restored) ==
            ValueAt(s, key, h.version, h.kind, h.initial, now, works, restored)
  {
    hide Lookup, Fresh;
  }

  lemma ClearBumps(s: State)
    ensures var c := Step(s, ClearAll(s.user, true));
            c.hooks == s.hooks && c.before == s.before && c.user == s.user && c.bumped
  {
    hide UserPrefix;
  }

  lemma QuietToo(s: State, t: State)
    requires Quiet(s) && t.hooks == s.hooks && t.before == s.before
    ensures Quiet(t)
  {
  }

  /** Nothing is found under the user's keys after a clear. */
  lemma ClearedReadsInitial(s: State, slot: Slot, version: int, kind: Kind, initial: string, now: int, works: bool,
                            restored: Option<string>)
    ensures ValueAt(Step(s, ClearAll(s.user, true)), KeyOf(s.user, slot), version, kind, initial, now, works, restored) ==
            Val(initial, {})
  {
    ClearRemovesExactly(s, s.user, At(s.user, slot));
    hide StorageKey, Clear;
  }

  /** After a clear every mounted state of the user starts from its initial value, and no timer brings another back. */
  lemma ClearedStartsAnew(s: State, id: nat, same: bool, now: int, works: bool, restored: Option<string>)
    requires Quiet(s) && id in s.hooks && s.hooks[id].mounted
    ensures var c := Step(s, ClearAll(s.user, true));
            var t := Step(Step(Step(c, Commit(s.user)), CleanUp), RunEffects(id, same, now, works, restored));
            && id in t.hooks && t.hooks[id].pending == None && t.hooks[id].queued == Some(Val(s.hooks[id].initial, {}))
  {
    hide Quiet, KeyOf, Step, ValueAt;
    var c, h := Step(s, ClearAll(s.user, true)), s.hooks[id];
    ClearBumps(s);
    QuietToo(s, c);
    ReadsAgain(c, s.user, id, same, now, works, restored);
    ClearedReadsInitial(s, h.slot, h.version, h.kind, h.initial, now, works, restored);
  }

  /** A state whose key stays the same keeps its timer and what it shows, and reads nothing. */
  lemma KeepsShowing(s: State, user: string, id: nat, same: bool, now: int, works: bool, restored: Option<string>)
    requires Quiet(s) && id in s.hooks && s.hooks[id].mounted && s.hooks[id].queued == None
    requires !s.bumped && KeyOf(s.user, s.hooks[id].slot) == KeyOf(user, s.hooks[id].slot)
    ensures var h := s.hooks[id];
            var t := Step(Step(Step(s, Commit(user)), CleanUp), RunEffects(id, same, now, works, restored));
            && id in t.hooks && t.hooks[id].pending == h.pending && t.hooks[id].shown == h.shown && t.hooks[id].queued == None
            && t.memory == s.memory && t.session == s.session
  {
    hide KeyOf, ValueAt, ReadAt;
  }
}
