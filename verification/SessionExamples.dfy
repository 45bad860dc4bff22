/** Concrete runs in which one user's values reach another. */
module SessionExamples {
  import opened Common
  import opened SessionKeys
  import opened SessionStores
  import opened SessionIsolation
  import opened SessionSight
  import opened SessionHandover

  lemma Onward(user: string, events: seq<Event>, s: State, e: Event, t: State)
    requires AllSteady(events) && Run(Start(user), events) == s && Steady(e) && Step(s, e) == t
    ensures AllSteady(events + [e]) && Run(Start(user), events + [e]) == t
  {
    GoesOn(Start(user), events, e);
    hide Steady, Step;
    forall i | 0 <= i < |events + [e]| ensures Steady((events + [e])[i]) {
    }
  }

  lemma Opens(user: string, x: Slot)
    ensures AllSteady(Opening(x)) && Run(Start(user), Opening(x)) == Opened(user, x)
  {
    OpeningReaches(user, x);
  }

  /** Nobody's value yet, for two users whose names normalise differently. */
  lemma Apart(first: string, second: string)
    requires !MayClash(first, second)
    ensures first != second && NormalizeKeyPart(first) != NormalizeKeyPart(second)
    ensures forall x: Slot :: KeyOf(first, x) != KeyOf(second, x) && !(UserPrefix(first) <= KeyOf(second, x))
                              && !(UserPrefix(second) <= KeyOf(first, x))
  {
    hide NormalizeKeyPart, StorageKey, UserPrefix;
    forall x: Slot
      ensures KeyOf(first, x) != KeyOf(second, x) && !(UserPrefix(first) <= KeyOf(second, x))
              && !(UserPrefix(second) <= KeyOf(first, x))
    {
      SameSlotKeys(first, second, x.page, x.name);
      if Finds(first, At(second, x)) {
        FindsOnlyClashes(first, At(second, x));
      }
      if Finds(second, At(first, x)) {
        FindsOnlyClashes(second, At(first, x));
      }
    }
  }

  /** What lies under a key in memory is another user's. */
  ghost predicate HoldsAnothers(s: State, owner: string, x: Slot, authors: set<string>) {
    KeyOf(owner, x) in s.memory && s.memory[KeyOf(owner, x)].Payload? && s.before.None? &&
    s.memory[KeyOf(owner, x)].value.authors == authors
  }

  // ----- a page with one state -----

  function Solo(memory: Store, user: string, before: Option<string>, h: Hook): State {
    State(memory, map[], user, before, false, map[0 := h])
  }

  lemma CommitSolo(memory: Store, user: string, next: string, h: Hook)
    requires h.stage == Done && user != next
    ensures Step(Solo(memory, user, None, h), Commit(next)) == Solo(memory, next, Some(user), Rerendered(h, user, next, false))
  {
    hide StorageKey;
    assert Step(Solo(memory, user, None, h), Commit(next)).hooks == map[0 := Rerendered(h, user, next, false)];
  }

  lemma CleanUpSolo(memory: Store, user: string, before: Option<string>, h: Hook)
    ensures Step(Solo(memory, user, before, h), CleanUp) == Solo(memory, user, before, CleanedUp(h))
  {
    assert Step(Solo(memory, user, before, h), CleanUp).hooks == map[0 := CleanedUp(h)];
  }

  lemma FollowSolo(memory: Store, user: string, before: Option<string>, h: Hook)
    requires h.stage == Rendered
    ensures Step(Solo(memory, user, before, h), RUNS) ==
            Solo(memory, user, before, h.(held := h.shown, seen := Some(h.shown.text), stage := Done))
  {
    hide KeyOf;
    var next := h.(held := h.shown, seen := Some(h.shown.text), stage := Done);
    assert Step(Solo(memory, user, before, h), RUNS).hooks == map[0 := next];
  }

  /** The state reads, and finds nothing. */
  lemma ReadSolo(memory: Store, user: string, before: Option<string>, h: Hook)
    requires h.stage == Cleaned && h.kind == Memory && KeyOf(user, h.slot) !in memory
    ensures Step(Solo(memory, user, before, h), RUNS) ==
            Solo(memory, user, before, h.(held := h.shown, seen := Some(h.shown.text), stage := Done,
                                          queued := Some(Val(h.initial, {})), reading := true))
  {
    hide KeyOf;
    var next := h.(held := h.shown, seen := Some(h.shown.text), stage := Done, queued := Some(Val(h.initial, {})),
                   reading := true);
    assert Step(Solo(memory, user, before, h), RUNS).hooks == map[0 := next];
  }

  lemma RenderSolo(memory: Store, user: string, h: Hook)
    requires h.stage == Done && h.mounted
    ensures Step(Solo(memory, user, None, h), Render(0)) == Solo(memory, user, None, Flushed(h).(stage := Rendered))
  {
    assert Step(Solo(memory, user, None, h), Render(0)).hooks == map[0 := Flushed(h).(stage := Rendered)];
  }

  lemma SettleSolo(memory: Store, user: string, before: string, h: Hook)
    requires h.stage == Done
    ensures Step(Solo(memory, user, Some(before), h), Settle(true)) == Solo(Without(memory, UserPrefix(before)), user, None, h)
  {
    hide UserPrefix;
    assert Without(map[], UserPrefix(before)) == map[];
  }

  function PayloadOf(now: int, value: Val, origin: Triple): Stored {
    Payload(1, now, now + 1000, value, Some(origin))
  }

  /** A setter that persists at once. */
  lemma SetSolo(memory: Store, user: string, before: Option<string>, h: Hook, maker: string, updater: bool, text: string)
    requires maker in h.users && h.mounted && h.kind == Memory && h.version == 1
    ensures var value := NewValue(h, maker, updater, text);
            Step(Solo(memory, user, before, h), SetValue(0, maker, updater, text, 1000, false, 0, true)) ==
            Solo(memory[KeyOf(maker, h.slot) := PayloadOf(0, value, At(maker, h.slot))], user, before,
                 h.(held := value, queued := Some(value), reading := false, pending := None))
  {
    hide StorageKey;
    var value := NewValue(h, maker, updater, text);
    assert Step(Solo(memory, user, before, h), SetValue(0, maker, updater, text, 1000, false, 0, true)).hooks ==
           map[0 := h.(held := value, queued := Some(value), reading := false, pending := None)];
  }

  /** A setter that starts a timer. */
  lemma ScheduleSolo(memory: Store, user: string, h: Hook, maker: string)
    requires maker in h.users && h.kind == Memory && h.version == 1
    ensures var value := Val("v", {maker});
            Step(Solo(memory, user, None, h), Sets(maker, true)) ==
            Solo(memory, user, None, Holding(h, value, Some(Pending(1, 1000, value, Memory, At(maker, h.slot)))))
  {
    hide StorageKey;
    var value, none: set<string> := Val("v", {maker}), {};
    assert {maker} + none == {maker};
    assert Step(Solo(memory, user, None, h), Sets(maker, true)).hooks ==
           map[0 := Holding(h, value, Some(Pending(1, 1000, value, Memory, At(maker, h.slot))))];
  }

  lemma FireSolo(memory: Store, user: string, h: Hook, p: Pending)
    requires h.pending == Some(p) && p.kind == Memory && p.version == 1 && p.ttl == 1000
    ensures Step(Solo(memory, user, None, h), Fire(0, 100, true)) ==
            Solo(memory[StorageKey(p.origin) := PayloadOf(100, p.value, p.origin)], user, None, h.(pending := None))
  {
    hide StorageKey;
    assert Step(Solo(memory, user, None, h), Fire(0, 100, true)).hooks == map[0 := h.(pending := None)];
  }

  lemma NothingToClear(user: string)
    ensures Without(map[], UserPrefix(user)) == map[]
  {
    hide UserPrefix;
  }

  lemma PlainValue(h: Hook, maker: string)
    ensures NewValue(h, maker, false, "v") == Val("v", {maker})
  {
    var none: set<string> := {};
    assert {maker} + none == {maker};
  }

  // ----- a setter that was kept -----

  /** The state once the second user has taken over and all is as the hook would have it. */
  function Both(first: string, second: string, x: Slot): Hook {
    Ready(first, x).(users := {first} + {second})
  }

  function Changing(x: Slot, second: string): seq<Event> {
    Opening(x) + [Commit(second)] + [CleanUp] + [RUNS] + [Settle(true)] + [Render(0)] + [RUNS]
  }

  lemma ChangingReaches(first: string, second: string, x: Slot)
    requires !MayClash(first, second)
    ensures AllSteady(Changing(x, second))
    ensures Run(Start(first), Changing(x, second)) == Solo(map[], second, None, Both(first, second, x))
  {
    Apart(first, second);
    Opens(first, x);
    var h, r := Ready(first, x), Both(first, second, x);
    var read := r.(queued := Some(Val("", {})), reading := true);
    CommitSolo(map[], first, second, h);
    CleanUpSolo(map[], second, Some(first), r.(stage := Due));
    ReadSolo(map[], second, Some(first), r.(stage := Cleaned));
    SettleSolo(map[], second, first, read);
    NothingToClear(first);
    RenderSolo(map[], second, read);
    FollowSolo(map[], second, None, r.(stage := Rendered));
    assert Rerendered(h, first, second, false) == r.(stage := Due);
    hide Step, Run, AllSteady, MayClash, KeyOf, UserPrefix, Opening, Without, Both;
    var events := Opening(x);
    Onward(first, events, Opened(first, x), Commit(second), Solo(map[], second, Some(first), r.(stage := Due)));
    Onward(first, events + [Commit(second)], Solo(map[], second, Some(first), r.(stage := Due)), CleanUp,
           Solo(map[], second, Some(first), r.(stage := Cleaned)));
    events := events + [Commit(second)] + [CleanUp];
    Onward(first, events, Solo(map[], second, Some(first), r.(stage := Cleaned)), RUNS,
           Solo(map[], second, Some(first), read));
    Onward(first, events + [RUNS], Solo(map[], second, Some(first), read), Settle(true), Solo(map[], second, None, read));
    events := events + [RUNS] + [Settle(true)];
    Onward(first, events, Solo(map[], second, None, read), Render(0), Solo(map[], second, None, r.(stage := Rendered)));
    Onward(first, events + [Render(0)], Solo(map[], second, None, r.(stage := Rendered)), RUNS, Solo(map[], second, None, r));
  }

  /**
   * A handler that kept the first user's setter calls it when the second has long taken over: the value is stored under
   * the first user's key, and the second user sees it.
   */
  lemma KeptSetterWrites(first: string, second: string, x: Slot)
    requires !MayClash(first, second)
    ensures var events := Changing(x, second) + [Sets(first, false)] + [Render(0)];
            var s := Run(Start(first), events);
            AllSteady(events) && s.user == second && HoldsAnothers(s, first, x, {first}) && !EntriesOwn(s) && !ShownOwn(s)
  {
    Apart(first, second);
    ChangingReaches(first, second, x);
    var r, value := Both(first, second, x), Val("v", {first});
    PlainValue(r, first);
    SetSolo(map[], second, None, r, first, false, "v");
    var memory: Store := map[KeyOf(first, x) := PayloadOf(0, value, At(first, x))];
    var h := r.(held := value, queued := Some(value));
    RenderSolo(memory, second, h);
    Reaches(memory, second, Flushed(h).(stage := Rendered), first, x, 0, value);
    ShowsIt(memory, second, Flushed(h).(stage := Rendered));
    hide Step, Run, AllSteady, MayClash, KeyOf, Changing, EntriesOwn, ShownOwn, HoldsAnothers, Both, Opening;
    Onward(first, Changing(x, second), Solo(map[], second, None, r), Sets(first, false), Solo(memory, second, None, h));
    Onward(first, Changing(x, second) + [Sets(first, false)], Solo(memory, second, None, h), Render(0),
           Solo(memory, second, None, Flushed(h).(stage := Rendered)));
  }

  /** An entry that breaks the isolation. */
  lemma Reaches(memory: Store, user: string, h: Hook, owner: string, x: Slot, now: int, value: Val)
    requires KeyOf(owner, x) in memory && memory[KeyOf(owner, x)] == PayloadOf(now, value, At(owner, x))
    requires owner != user || !(value.authors <= {user})
    ensures HoldsAnothers(Solo(memory, user, None, h), owner, x, value.authors)
    ensures !EntriesOwn(Solo(memory, user, None, h))
  {
    hide StorageKey, InOrder;
    assert !OwnEntry(memory[KeyOf(owner, x)], user);
  }

  lemma ShowsIt(memory: Store, user: string, h: Hook)
    requires Shows(h) && !OwnValue(h.shown, user)
    ensures !ShownOwn(Solo(memory, user, None, h))
  {
    assert 0 in Solo(memory, user, None, h).hooks;
  }

  // ----- a setter that is called after its state has gone -----

  /**
   * A timer that was set after its state had been unmounted is cancelled by nobody. It outlives a change between any
   * two users and fires under the first user's key.
   */
  lemma UnmountedTimerFires(first: string, second: string, x: Slot)
    requires first != second
    ensures var events := Opening(x) + [Unmount(0)] + [Sets(first, true)] + [Commit(second)] + [Settle(true)] +
                          [Fire(0, 100, true)];
            var s := Run(Start(first), events);
            AllSteady(events) && s.user == second && HoldsAnothers(s, first, x, {first}) && !EntriesOwn(s)
  {
    Opens(first, x);
    var value := Val("v", {first});
    var p := Pending(1, 1000, value, Memory, At(first, x));
    var gone := Ready(first, x).(mounted := false);
    var g := gone.(held := value, pending := Some(p));
    assert Step(Opened(first, x), Unmount(0)) == Solo(map[], first, None, gone) by {
      assert Step(Opened(first, x), Unmount(0)).hooks == map[0 := gone];
    }
    ScheduleSolo(map[], first, gone, first);
    CommitSolo(map[], first, second, g);
    SettleSolo(map[], second, first, g);
    NothingToClear(first);
    FireSolo(map[], second, g, p);
    var memory: Store := map[KeyOf(first, x) := PayloadOf(100, value, At(first, x))];
    Reaches(memory, second, g.(pending := None), first, x, 100, value);
    hide Step, Run, AllSteady, StorageKey, EntriesOwn, HoldsAnothers, Opening, UserPrefix, Without;
    var events := Opening(x);
    Onward(first, events, Opened(first, x), Unmount(0), Solo(map[], first, None, gone));
    Onward(first, events + [Unmount(0)], Solo(map[], first, None, gone), Sets(first, true), Solo(map[], first, None, g));
    events := events + [Unmount(0)] + [Sets(first, true)];
    Onward(first, events, Solo(map[], first, None, g), Commit(second), Solo(map[], second, Some(first), g));
    Onward(first, events + [Commit(second)], Solo(map[], second, Some(first), g), Settle(true), Solo(map[], second, None, g));
    Onward(first, events + [Commit(second)] + [Settle(true)], Solo(map[], second, None, g), Fire(0, 100, true),
           Solo(memory, second, None, g.(pending := None)));
  }

  // ----- an updater in the commit of a change -----

  function Updates(user: string): Event {
    SetValue(0, user, true, "w", 1000, false, 0, true)
  }

  lemma KeysApart(first: string, second: string, x: Slot, a: Stored, b: Stored)
    requires !MayClash(first, second)
    ensures Without(map[KeyOf(first, x) := a, KeyOf(second, x) := b], UserPrefix(first)) == map[KeyOf(second, x) := b]
    ensures KeyOf(first, x) != KeyOf(second, x)
  {
    Apart(first, second);
    OwnKeysAreFound(first, At(first, x));
    hide MayClash, StorageKey, UserPrefix;
    assert UserPrefix(first) <= KeyOf(first, x);
  }

  /**
   * An effect declared after the hook calls the second user's setter with an updater in the commit of the change. The
   * reference still holds what the first user has set, so it is stored under the second user's key.
   */
  lemma UpdaterMixes(first: string, second: string, x: Slot)
    requires !MayClash(first, second)
    ensures var events := TakenOver(first, second, x) + [CleanUp] + [RUNS] + [Updates(second)] + [Settle(true)];
            var s := Run(Start(first), events);
            AllSteady(events) && s.user == second && HoldsAnothers(s, second, x, {first, second}) && !EntriesOwn(s)
  {
    Apart(first, second);
    TakingOverReaches(first, second, x);
    var value, both := Val("v", {first}), Val("w", {second} + {first});
    var a, b := PayloadOf(0, value, At(first, x)), PayloadOf(0, both, At(second, x));
    var memory: Store := map[KeyOf(first, x) := a];
    var h := Ready(first, x).(held := value, queued := Some(value));
    var r := Both(first, second, x).(shown := value, held := value);
    var read := r.(seen := Some("v"), queued := Some(Val("", {})), reading := true);
    var mixedHook := r.(seen := Some("v"), held := both, queued := Some(both));
    CommitSolo(memory, first, second, h);
    assert Rerendered(h, first, second, false) == r.(stage := Due);
    CleanUpSolo(memory, second, Some(first), r.(stage := Due));
    ReadSolo(memory, second, Some(first), r.(stage := Cleaned));
    SetSolo(memory, second, Some(first), read, second, true, "w");
    KeysApart(first, second, x, a, b);
    var mixed: Store := memory[KeyOf(second, x) := b];
    SettleSolo(mixed, second, first, mixedHook);
    Reaches(map[KeyOf(second, x) := b], second, mixedHook, second, x, 0, both);
    assert mixed == map[KeyOf(first, x) := a, KeyOf(second, x) := b];
    assert both.authors == {first, second};
    var events := TakenOver(first, second, x);
    assert AllSteady(events) by { TakesOverSteadily(first, second, x); }
    assert Written(first, x) == Solo(memory, first, None, h);
    hide Step, Run, AllSteady, MayClash, KeyOf, EntriesOwn, HoldsAnothers, TakenOver, UserPrefix, Without, Both, Written;
    Onward(first, events, Solo(memory, second, Some(first), r.(stage := Due)), CleanUp,
           Solo(memory, second, Some(first), r.(stage := Cleaned)));
    Onward(first, events + [CleanUp], Solo(memory, second, Some(first), r.(stage := Cleaned)), RUNS,
           Solo(memory, second, Some(first), read));
    events := events + [CleanUp] + [RUNS];
    Onward(first, events, Solo(memory, second, Some(first), read), Updates(second), Solo(mixed, second, Some(first), mixedHook));
    Onward(first, events + [Updates(second)], Solo(mixed, second, Some(first), mixedHook), Settle(true),
           Solo(map[KeyOf(second, x) := b], second, None, mixedHook));
  }

  lemma TakesOverSteadily(first: string, second: string, x: Slot)
    ensures AllSteady(TakenOver(first, second, x))
  {
  }

  /**
   * Long after the change, a handler that kept the first user's setter calls it with an updater: what the second user
   * has set since is stored under the first user's key, which no change to another user clears.
   */
  lemma KeptUpdaterMixes(first: string, second: string, x: Slot)
    requires !MayClash(first, second)
    ensures var events := Changing(x, second) + [Sets(second, false)] + [Updates(first)];
            var s := Run(Start(first), events);
            AllSteady(events) && s.user == second && HoldsAnothers(s, first, x, {first, second}) && !EntriesOwn(s)
  {
    Apart(first, second);
    ChangingReaches(first, second, x);
    var r, value, both := Both(first, second, x), Val("v", {second}), Val("w", {first} + {second});
    PlainValue(r, second);
    SetSolo(map[], second, None, r, second, false, "v");
    var h := r.(held := value, queued := Some(value));
    var memory: Store := map[KeyOf(second, x) := PayloadOf(0, value, At(second, x))];
    SetSolo(memory, second, None, h, first, true, "w");
    var mixed: Store := memory[KeyOf(first, x) := PayloadOf(0, both, At(first, x))];
    var g := h.(held := both, queued := Some(both));
    Reaches(mixed, second, g, first, x, 0, both);
    assert both.authors == {first, second};
    hide Step, Run, AllSteady, MayClash, KeyOf, Changing, EntriesOwn, HoldsAnothers, Both, Opening;
    Onward(first, Changing(x, second), Solo(map[], second, None, r), Sets(second, false), Solo(memory, second, None, h));
    Onward(first, Changing(x, second) + [Sets(second, false)], Solo(memory, second, None, h), Updates(first),
           Solo(mixed, second, None, g));
  }

  /** In the commit of a change, before its effects have run, the page still shows the second what the first has set. */
  lemma FormerIsStillShown(first: string, second: string, x: Slot)
    requires first != second
    ensures AllProper(Start(first), TakenOver(first, second, x))
    ensures var s := Run(Start(first), TakenOver(first, second, x));
            s.user == second && 0 in s.hooks && s.hooks[0].mounted && s.hooks[0].shown == Val("v", {first})
  {
    TakingOverReaches(first, second, x);
    hide TakenOver, Run, AllProper, StorageKey;
  }

  /** All of these come about for a user "a" and a user "b". */
  lemma OrdinaryUsers()
    ensures !MayClash("a", "b") && "a" != "b"
  {
    NormalizedPlainly("a");
    NormalizedPlainly("b");
    hide NormalizeKeyPart;
    assert "a"[0] != "b"[0];
  }

  // ----- names that normalise alike -----

  /**
   * A debounced write outlives a change between users who normalise alike: it fires under the key the second reads,
   * and the second finds what the first wrote.
   */
  lemma LateWriteIsFound(first: string, second: string, x: Slot)
    requires NormalizeKeyPart(first) == NormalizeKeyPart(second) && first != second
    ensures var events := Opening(x) + [Sets(first, true)] + [Commit(second)] + [RUNS] + [Settle(true)] + [Fire(0, 100, true)];
            var s := Run(Start(first), events);
            AllSteady(events) && s.user == second && HoldsAnothers(s, second, x, {first})
  {
    SameSlotKeys(first, second, x.page, x.name);
    Opens(first, x);
    var value := Val("v", {first});
    var p := Pending(1, 1000, value, Memory, At(first, x));
    var h := Ready(first, x).(held := value, queued := Some(value), pending := Some(p));
    var g := Both(first, second, x).(shown := value, held := value, pending := Some(p));
    ScheduleSolo(map[], first, Ready(first, x), first);
    CommitSolo(map[], first, second, h);
    assert Rerendered(h, first, second, false) == g.(stage := Rendered);
    FollowSolo(map[], second, Some(first), g.(stage := Rendered));
    var f := g.(seen := Some("v"));
    SettleSolo(map[], second, first, f);
    NothingToClear(first);
    FireSolo(map[], second, f, p);
    var memory: Store := map[KeyOf(first, x) := PayloadOf(100, value, At(first, x))];
    Reaches(memory, second, f.(pending := None), first, x, 100, value);
    assert KeyOf(first, x) == KeyOf(second, x);
    assert HoldsAnothers(Solo(memory, second, None, f.(pending := None)), second, x, {first});
    hide Step, Run, AllSteady, StorageKey, HoldsAnothers, EntriesOwn, Opening, UserPrefix, Without, Both, NormalizeKeyPart;
    var events := Opening(x);
    Onward(first, events, Opened(first, x), Sets(first, true), Solo(map[], first, None, h));
    Onward(first, events + [Sets(first, true)], Solo(map[], first, None, h), Commit(second),
           Solo(map[], second, Some(first), g.(stage := Rendered)));
    events := events + [Sets(first, true)] + [Commit(second)];
    Onward(first, events, Solo(map[], second, Some(first), g.(stage := Rendered)), RUNS, Solo(map[], second, Some(first), f));
    Onward(first, events + [RUNS], Solo(map[], second, Some(first), f), Settle(true), Solo(map[], second, None, f));
    Onward(first, events + [RUNS] + [Settle(true)], Solo(map[], second, None, f), Fire(0, 100, true),
           Solo(memory, second, None, f.(pending := None)));
  }

  function SharedEntry(first: string, x: Slot): Stored {
    PayloadOf(0, Val("v", {first}), At(first, x))
  }

  /** The browser's store after the first user has set a value that is kept there. */
  lemma KeptInBrowser(first: string, x: Slot)
    ensures var events := [Mount(0, x, 1, Session, "", 0, true, None)] + [Sets(first, false)] + [Reload("session-loading")];
            Run(Start(first), events) == State(map[], map[KeyOf(first, x) := SharedEntry(first, x)], "session-loading", None,
                                               false, map[])
  {
    hide StorageKey;
    var mount := Mount(0, x, 1, Session, "", 0, true, None);
    var s1 := Step(Start(first), mount);
    assert s1.hooks[0].users == {first} && s1.session == map[];
    var s2 := Step(s1, Sets(first, false));
    PlainValue(s1.hooks[0], first);
    assert s2.session == map[KeyOf(first, x) := SharedEntry(first, x)];
    hide Step;
    GoesOn(Start(first), [], mount);
    assert [] + [mount] == [mount];
    GoesOn(Start(first), [mount], Sets(first, false));
    GoesOn(Start(first), [mount] + [Sets(first, false)], Reload("session-loading"));
    assert Step(s2, Reload("session-loading")) == State(map[], s2.session, "session-loading", None, false, map[]) by {
      Reloads(s2);
    }
  }

  lemma Reloads(s: State)
    ensures Step(s, Reload("session-loading")) == State(map[], s.session, "session-loading", None, false, map[])
  {
  }

  lemma Takes(session: Store, before: string, user: string)
    requires before != user && forall k :: k in session ==> !(UserPrefix(before) <= k)
    ensures Step(Step(State(map[], session, before, None, false, map[]), Commit(user)), Settle(true)) ==
            State(map[], session, user, None, false, map[])
  {
    hide UserPrefix;
    NothingToClear(before);
    assert Without(session, UserPrefix(before)) == session;
    var s := Step(State(map[], session, before, None, false, map[]), Commit(user));
    assert s.hooks == map[];
  }

  /** A reload keeps the browser's store, and then two users whose names normalise alike share their entries. */
  lemma ReloadSharesEntries(first: string, second: string, x: Slot)
    requires NormalizeKeyPart(first) == NormalizeKeyPart(second) && first != second
    requires !MayClash(first, "session-loading") && second != "session-loading"
    ensures var s := Run(Start(first), [Mount(0, x, 1, Session, "", 0, true, None)] + [Sets(first, false)] +
                                       [Reload("session-loading")] + [Commit(second)] + [Settle(true)]);
            var found := Lookup(s.memory, s.session, KeyOf(second, x), Session, true);
            s.before.None? && s.user == second &&
            found.Some? && found.value.Payload? && found.value.value.authors == {first}
  {
    SameSlotKeys(first, second, x.page, x.name);
    Apart(first, "session-loading");
    KeptInBrowser(first, x);
    hide MayClash, NormalizeKeyPart, StorageKey, UserPrefix, Step, Run;
    var session: Store := map[KeyOf(first, x) := SharedEntry(first, x)];
    Takes(session, "session-loading", second);
    var events := [Mount(0, x, 1, Session, "", 0, true, None)] + [Sets(first, false)] + [Reload("session-loading")];
    GoesOn(Start(first), events, Commit(second));
    GoesOn(Start(first), events + [Commit(second)], Settle(true));
  }

  /** Both come about for a user "a b" and a user "a_b". */
  lemma SpaceAndUnderscoreShare()
    ensures NormalizeKeyPart("a b") == NormalizeKeyPart("a_b") && "a b" != "a_b"
    ensures !MayClash("a b", "session-loading") && "a_b" != "session-loading"
  {
    SpaceNormalises();
    NormalizedPlainly("a_b");
    NormalizedPlainly("session-loading");
    hide NormalizeKeyPart;
    assert "a_b"[0] != "session-loading"[0];
  }
}
