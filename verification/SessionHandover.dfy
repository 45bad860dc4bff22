/** Exactly which users may follow one another in one browser tab. */
module SessionHandover {
  import opened Common
  import opened SessionKeys
  import opened SessionStores
  import opened SessionIsolation
  import opened SessionSight

  // ----- users that cannot clash -----

  /** Only two users take turns. */
  predicate Between(events: seq<Event>, first: string, second: string) {
    forall i :: 0 <= i < |events| && events[i].Commit? ==> events[i].user in {first, second}
  }

  lemma StepKeepsUser(s: State, e: Event)
    requires !e.Reload?
    ensures Step(s, e).user == s.user || (e.Commit? && Step(s, e).user == e.user)
  {
    hide KeyOf, StorageKey, UserPrefix, Lookup, Fresh, ValueAt;
  }

  lemma {:induction false} BetweenIsDistinct(s: State, events: seq<Event>, first: string, second: string)
    requires AllProper(s, events) && Between(events, first, second) && s.user in {first, second}
    requires !MayClash(first, second)
    ensures AllDistinct(s, events)
    decreases |events|
  {
    hide Step, NormalizeKeyPart;
    if events != [] {
      StepKeepsUser(s, events[0]);
      assert forall i :: 0 <= i < |events[1..]| ==> events[1..][i] == events[i + 1];
      BetweenIsDistinct(Step(s, events[0]), events[1..], first, second);
    }
  }

  // ----- one user works, and another takes over -----

  function Mounts(x: Slot): Event {
    Mount(0, x, 1, Memory, "", 0, true, None)
  }

  const RUNS := RunEffects(0, false, 0, true, None)

  function Sets(user: string, debounced: bool): Event {
    SetValue(0, user, false, "v", 1000, debounced, 0, true)
  }

  /** A state of the first user's that shows nothing stored. */
  function Ready(user: string, x: Slot): Hook {
    Hook(x, 1, Memory, "", {user}, true, Done, Val("", {}), Val("", {}), Some(""), None, false, None)
  }

  function Opening(x: Slot): seq<Event> {
    [Mounts(x)] + [RUNS]
  }

  function Opened(user: string, x: Slot): State {
    Start(user).(hooks := map[0 := Ready(user, x)])
  }

  lemma GoesOn(s: State, events: seq<Event>, e: Event)
    ensures Run(s, events + [e]) == Step(Run(s, events), e)
    ensures AllProper(s, events) && Proper(Run(s, events), e) ==> AllProper(s, events + [e])
    decreases |events|
  {
    hide Step, Proper;
    if events == [] {
      var one := [e];
      assert events + [e] == one && one[0] == e && one[1..] == [];
      assert Run(s, one) == Run(Step(s, e), []);
      assert AllProper(Step(s, e), []);
    } else {
      assert (events + [e])[1..] == events[1..] + [e];
      GoesOn(Step(s, events[0]), events[1..], e);
    }
  }

  lemma OpeningReaches(user: string, x: Slot)
    ensures AllProper(Start(user), Opening(x)) && Run(Start(user), Opening(x)) == Opened(user, x)
  {
    hide StorageKey;
    var s1 := Start(user).(hooks := map[0 := Ready(user, x).(stage := Rendered, seen := None)]);
    assert Step(Start(user), Mounts(x)) == s1;
    assert Step(s1, RUNS) == Opened(user, x);
    assert Proper(Start(user), Mounts(x)) && Proper(s1, RUNS);
    hide Step, Proper;
    GoesOn(Start(user), [], Mounts(x));
    assert [] + [Mounts(x)] == [Mounts(x)];
    GoesOn(Start(user), [Mounts(x)], RUNS);
  }

  /** A value has been set and persisted. */
  function Written(user: string, x: Slot): State {
    var value := Val("v", {user});
    Opened(user, x).(memory := map[KeyOf(user, x) := Payload(1, 0, 1000, value, Some(At(user, x)))],
                     hooks := map[0 := Ready(user, x).(held := value, queued := Some(value))])
  }

  lemma WritingReaches(user: string, x: Slot)
    ensures AllProper(Start(user), Opening(x) + [Sets(user, false)])
    ensures Run(Start(user), Opening(x) + [Sets(user, false)]) == Written(user, x)
  {
    OpeningReaches(user, x);
    hide StorageKey, Opening, AllProper, Run;
    var none: set<string> := {};
    assert {user} + none == {user};
    assert NewValue(Ready(user, x), user, false, "v") == Val("v", {user});
    var t := Step(Opened(user, x), Sets(user, false));
    assert t.hooks == Written(user, x).hooks && t.memory == Written(user, x).memory;
    assert Proper(Opened(user, x), Sets(user, false));
    GoesOn(Start(user), Opening(x), Sets(user, false));
  }

  /** The first user sets a value and the second takes over. */
  function TakenOver(first: string, second: string, x: Slot): seq<Event> {
    Opening(x) + [Sets(first, false)] + [Commit(second)]
  }

  lemma TakingOverReaches(first: string, second: string, x: Slot)
    ensures AllProper(Start(first), TakenOver(first, second, x)) && Between(TakenOver(first, second, x), first, second)
    ensures Run(Start(first), TakenOver(first, second, x)) == Step(Written(first, x), Commit(second))
  {
    WritingReaches(first, x);
    assert Proper(Written(first, x), Commit(second));
    GoesOn(Start(first), Opening(x) + [Sets(first, false)], Commit(second));
  }

  /** With the same key the state goes on showing what the first has set. */
  lemma AlikeSeeIt(first: string, second: string) returns (events: seq<Event>)
    requires first != second && NormalizeKeyPart(first) == NormalizeKeyPart(second)
    ensures AllProper(Start(first), events) && Between(events, first, second)
    ensures !ShownOwn(Run(Start(first), events))
  {
    var x := Slot("page", "name");
    events := TakenOver(first, second, x);
    TakingOverReaches(first, second, x);
    SameSlotKeys(first, second, x.page, x.name);
    hide StorageKey, NormalizeKeyPart, TakenOver, AllProper, Between, Run;
    var s := Step(Written(first, x), Commit(second));
    assert s.hooks[0].shown == Val("v", {first}) && s.user == second;
    assert Shows(s.hooks[0]) && !OwnValue(s.hooks[0].shown, second);
  }

  /** With a shared key, a state that is mounted with the change finds what the first has set. */
  lemma SharersSeeIt(first: string, second: string, x: Slot, y: Slot) returns (events: seq<Event>)
    requires first != second && KeyOf(first, x) == KeyOf(second, y)
    ensures AllProper(Start(first), events) && Between(events, first, second)
    ensures !ShownOwn(Run(Start(first), events))
  {
    var e := Mount(1, y, 1, Memory, "", 0, true, Some("v"));
    events := TakenOver(first, second, x) + [e];
    TakingOverReaches(first, second, x);
    var s := Step(Written(first, x), Commit(second));
    assert Proper(s, e);
    GoesOn(Start(first), TakenOver(first, second, x), e);
    FindsShared(first, second, x, y);
    hide StorageKey, TakenOver, AllProper, Run, Proper, Written;
  }

  lemma FindsShared(first: string, second: string, x: Slot, y: Slot)
    requires first != second && KeyOf(first, x) == KeyOf(second, y)
    ensures !ShownOwn(Step(Step(Written(first, x), Commit(second)), Mount(1, y, 1, Memory, "", 0, true, Some("v"))))
  {
    hide StorageKey;
    var s := Step(Written(first, x), Commit(second));
    var t := Step(s, Mount(1, y, 1, Memory, "", 0, true, Some("v")));
    assert s.memory[KeyOf(second, y)] == Payload(1, 0, 1000, Val("v", {first}), Some(At(first, x)));
    assert t.hooks[1].shown == Val("v", {first}) && t.user == second;
    assert Shows(t.hooks[1]) && !OwnValue(t.hooks[1].shown, second);
  }

  lemma ClashersSeeIt(first: string, second: string) returns (events: seq<Event>)
    requires first != second && MayClash(first, second)
    ensures AllProper(Start(first), events) && Between(events, first, second)
    ensures !ShownOwn(Run(Start(first), events))
  {
    hide Between, ShownOwn, AllProper, Run, NormalizeKeyPart, StorageKey, Extends;
    if NormalizeKeyPart(first) == NormalizeKeyPart(second) {
      events := AlikeSeeIt(first, second);
    } else if Extends(NormalizeKeyPart(first), NormalizeKeyPart(second)) {
      var t, u := SharedKey(first, second);
      events := SharersSeeIt(first, second, Slot(t.page, t.name), Slot(u.page, u.name));
    } else {
      var u, t := SharedKey(second, first);
      events := SharersSeeIt(first, second, Slot(t.page, t.name), Slot(u.page, u.name));
    }
  }

  /**
   * Exactly which users may take turns on a page that is not reloaded: although every hook is used properly, some run
   * shows one of them what the other wrote, in a state that has run its effects and rendered what it read, if and only
   * if their names normalise alike or one extends the other after a colon.
   */
  lemma HandingOverExactly(first: string, second: string)
    requires first != second
    ensures (exists events :: AllProper(Start(first), events) && Between(events, first, second) &&
                              !ShownOwn(Run(Start(first), events))) <==>
            MayClash(first, second)
  {
    hide AllProper, Between, ShownOwn, Run, MayClash, Start;
    if MayClash(first, second) {
      var events := ClashersSeeIt(first, second);
    }
    if events :| AllProper(Start(first), events) && Between(events, first, second) && !ShownOwn(Run(Start(first), events)) {
      if !MayClash(first, second) {
        StartsAs(first);
        BetweenIsDistinct(Start(first), events, first, second);
        NobodySeesAnothers(first, events);
        assert false;
      }
    }
  }

  lemma StartsAs(user: string)
    ensures Start(user).user == user
  {
  }
}
