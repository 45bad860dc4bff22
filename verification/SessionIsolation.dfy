/** When one user's entries and pending writes stay apart from another's, exactly. */
module SessionIsolation {
  import opened Common
  import opened SessionKeys
  import opened SessionStores

  predicate OwnEntry(e: Stored, user: string) {
    e.Payload? ==> e.value.authors <= {user} && (e.origin.Some? ==> e.origin.value.user == user)
  }

  predicate OwnPending(p: Pending, user: string) {
    p.value.authors <= {user} && p.origin.user == user
  }

  /** The change of user under way is about to clear the key. */
  predicate IsCleared(s: State, key: string) {
    s.before.Some? && UserPrefix(s.before.value) <= key
  }

  ghost predicate StoreOwn(store: Store, s: State) {
    forall k :: k in store ==> OwnEntry(store[k], s.user) || IsCleared(s, k)
  }

  ghost predicate PendingsOwn(s: State) {
    forall id :: id in s.hooks && s.hooks[id].pending.Some? ==>
      OwnPending(s.hooks[id].pending.value, s.user) || s.hooks[id].stage == Due
  }

  /**
   * Every entry is stored under the present user's key and holds nothing of another user, and so will every write that
   * may still come; but for what a change of user under way is about to clear, and timers about to be cancelled.
   */
  ghost predicate EntriesOwn(s: State) {
    InOrder(s) && StoreOwn(s.memory, s) && StoreOwn(s.session, s) && PendingsOwn(s)
  }

  /** The page is not reloaded, and storage can be cleared when users change. */
  predicate Steady(e: Event) {
    !e.Reload? && (e.Settle? ==> e.works)
  }

  /**
   * What can be looked up before an event. Before a change of user: no timer runs in a state that is not mounted or
   * whose key stays the same. Before a setter or a timer: it is the present user's and passes on nothing of another
   * user, or what it does is about to be undone.
   */
  predicate KeepsApart(s: State, e: Event) {
    match e
    case Commit(user) =>
      Quiet(s) && user != s.user ==>
        forall id :: id in s.hooks && s.hooks[id].pending.Some? ==>
          s.hooks[id].mounted && (s.bumped || NormalizeKeyPart(user) != NormalizeKeyPart(s.user))
    case SetValue(id, maker, updater, _, _, debounced, _, _) =>
      id in s.hooks && maker in s.hooks[id].users ==>
        || (maker == s.user && (updater ==> s.hooks[id].held.authors <= {s.user}))
        || (if debounced then s.hooks[id].stage == Due else IsCleared(s, KeyOf(maker, s.hooks[id].slot)))
    case Fire(id, _, _) =>
      id in s.hooks && s.hooks[id].pending.Some? ==>
        OwnPending(s.hooks[id].pending.value, s.user) || IsCleared(s, StorageKey(s.hooks[id].pending.value.origin))
    case _ => true
  }

  // ----- events that only take away -----

  ghost predicate OnlyLess(s: State, t: State) {
    t.user == s.user && t.before == s.before &&
    (forall k :: k in t.memory ==> k in s.memory && t.memory[k] == s.memory[k]) &&
    (forall k :: k in t.session ==> k in s.session && t.session[k] == s.session[k])
  }

  lemma ReadIsLess(s: State, key: string, version: int, kind: Kind, now: int, works: bool, accepted: bool)
    ensures OnlyLess(s, ReadAt(s, key, version, kind, now, works, accepted))
    ensures ReadAt(s, key, version, kind, now, works, accepted).hooks == s.hooks
  {
    hide Lookup, Fresh;
  }

  lemma ClearIsLess(s: State, user: string, works: bool)
    ensures OnlyLess(s, Clear(s, user, works)) && Clear(s, user, works).hooks == s.hooks
  {
    hide UserPrefix;
  }

  lemma LessKeepsOwn(s: State, t: State)
    requires EntriesOwn(s) && OnlyLess(s, t) && InOrder(t) && PendingsOwn(t)
    ensures EntriesOwn(t)
  {
    hide InOrder, OwnEntry, UserPrefix, PendingsOwn;
  }

  /** One hook changes and has no more pending than it had, unless its timer is about to be cancelled or is own. */
  lemma OneHookKeeps(s: State, t: State, id: nat, h: Hook)
    requires PendingsOwn(s) && t.user == s.user && t.hooks == s.hooks[id := h]
    ensures PendingsOwn(t) <==> (h.pending.Some? ==> OwnPending(h.pending.value, s.user) || h.stage == Due)
  {
    hide OwnPending;
    if PendingsOwn(t) {
      assert id in t.hooks;
    }
  }

  // ----- writes -----

  /** A write is harmless if and only if it is own or about to be cleared. */
  lemma WriteIsExact(s: State, p: Pending, now: int, works: bool)
    requires EntriesOwn(s)
    ensures EntriesOwn(Write(s, p, now, works)) <==> OwnPending(p, s.user) || IsCleared(s, StorageKey(p.origin))
  {
    WriteKeepsOrder(s, p, now, works);
    hide InOrder, StorageKey, UserPrefix;
    var t, key := Write(s, p, now, works), StorageKey(p.origin);
    assert t.memory[key] == Payload(p.version, now, now + p.ttl, p.value, Some(p.origin));
    if EntriesOwn(t) {
      assert OwnEntry(t.memory[key], t.user) || IsCleared(t, key);
    }
  }

  /** What a write starts from does not matter where a timer that was own is taken away. */
  lemma WithoutTimer(s: State, id: nat, h: Hook)
    requires EntriesOwn(s) && id in s.hooks && h.pending.None?
    ensures EntriesOwn(s.(hooks := s.hooks[id := h]))
  {
    var t := s.(hooks := s.hooks[id := h]);
    OnlyStoresMatter(s, t);
    hide InOrder, OwnEntry, UserPrefix;
    OneHookKeeps(s, t, id, h);
  }

  lemma SetIsExact(s: State, e: Event)
    requires EntriesOwn(s) && e.SetValue?
    ensures EntriesOwn(Step(s, e)) <==> KeepsApart(s, e)
  {
    if e.id in s.hooks && e.maker in s.hooks[e.id].users {
      var h := s.hooks[e.id];
      var value := NewValue(h, e.maker, e.updater, e.text);
      var p := PendingOf(h, e.maker, value, e.ttl);
      assert OwnPending(p, s.user) <==> e.maker == s.user && (e.updater ==> h.held.authors <= {s.user});
      if e.debounced {
        var t := Step(s, e);
        OnlyStoresMatter(s, t);
        OneHookKeeps(s, t, e.id, Holding(h, value, Some(p)));
        hide InOrder, OwnEntry, UserPrefix, PendingsOwn, OwnPending;
        assert StoreOwn(t.memory, t) && StoreOwn(t.session, t);
      } else {
        WithoutTimer(s, e.id, Holding(h, value, None));
        WriteIsExact(s.(hooks := s.hooks[e.id := Holding(h, value, None)]), p, e.now, e.works);
        hide EntriesOwn, OwnPending, UserPrefix, Write, StorageKey;
      }
    }
  }

  lemma FireIsExact(s: State, e: Event)
    requires EntriesOwn(s) && e.Fire?
    ensures EntriesOwn(Step(s, e)) <==> KeepsApart(s, e)
  {
    if e.id in s.hooks && s.hooks[e.id].pending.Some? {
      var h := s.hooks[e.id].(pending := None);
      WithoutTimer(s, e.id, h);
      hide EntriesOwn, OwnPending, UserPrefix, Write, StorageKey;
      WriteIsExact(s.(hooks := s.hooks[e.id := h]), s.hooks[e.id].pending.value, e.now, e.works);
    }
  }

  // ----- a change of user -----

  /** What is the former user's is about to be cleared. */
  lemma FormerIsCleared(store: Store, s: State, t: State)
    requires Owned(store) && StoreOwn(store, s) && s.before.None?
    requires t.before == if t.user == s.user then None else Some(s.user)
    ensures StoreOwn(store, t)
  {
    hide UserPrefix, StorageKey;
    forall k | k in store ensures OwnEntry(store[k], t.user) || IsCleared(t, k) {
      if t.user != s.user && store[k].Payload? && store[k].origin.Some? {
        OwnKeysAreFound(s.user, store[k].origin.value);
      }
    }
  }

  lemma CommitIsExact(s: State, e: Event)
    requires EntriesOwn(s) && e.Commit?
    ensures EntriesOwn(Step(s, e)) <==> KeepsApart(s, e)
  {
    if Quiet(s) {
      var t := Step(s, e);
      OnlyStoresMatter(s, t);
      FormerIsCleared(s.memory, s, t);
      FormerIsCleared(s.session, s, t);
      hide InOrder, StoreOwn, NormalizeKeyPart, StorageKey;
      forall id | id in s.hooks && s.hooks[id].mounted
        ensures t.hooks[id].stage == Due <==> s.bumped || NormalizeKeyPart(e.user) != NormalizeKeyPart(s.user)
      {
        SameSlotKeys(s.user, e.user, s.hooks[id].slot.page, s.hooks[id].slot.name);
      }
      forall id | id in s.hooks ensures t.hooks[id].pending == s.hooks[id].pending && s.hooks[id].stage != Due {
      }
      if e.user != s.user && PendingsOwn(t) {
        forall id | id in s.hooks && s.hooks[id].pending.Some?
          ensures s.hooks[id].mounted && (s.bumped || NormalizeKeyPart(e.user) != NormalizeKeyPart(s.user))
        {
          assert id in t.hooks;
          assert t.hooks[id].stage == Due;
        }
      }
    }
  }

  /** The change ends: what was about to be cleared is. */
  lemma SettleKeepsOwn(s: State, works: bool)
    requires EntriesOwn(s) && works
    ensures EntriesOwn(Step(s, Settle(works)))
  {
    if s.before.Some? {
      ClearKeepsOrder(s, s.before.value, works);
      OnlyStoresMatter(Clear(s, s.before.value, works), Clear(s, s.before.value, works).(before := None));
      hide InOrder, UserPrefix, OwnEntry;
    }
  }

  lemma CleanUpKeepsOwn(s: State)
    requires EntriesOwn(s)
    ensures EntriesOwn(Step(s, CleanUp))
  {
    var t := Step(s, CleanUp);
    OnlyStoresMatter(s, t);
    hide InOrder, OwnEntry, OwnPending, UserPrefix;
  }

  lemma ReadKeepsOwn(s: State, id: nat, h: Hook, slot: Slot, version: int, kind: Kind, now: int, works: bool,
                     accepted: bool)
    requires EntriesOwn(s)
    requires h.pending.Some? ==> id in s.hooks && h.pending == s.hooks[id].pending && s.hooks[id].stage != Due
    ensures var t := ReadAt(s, KeyOf(s.user, slot), version, kind, now, works, accepted);
            EntriesOwn(t.(hooks := t.hooks[id := h]))
  {
    var key := KeyOf(s.user, slot);
    var t := ReadAt(s, key, version, kind, now, works, accepted);
    ReadIsLess(s, key, version, kind, now, works, accepted);
    ReadAtKeepsOrder(s, key, version, kind, now, works, accepted);
    hide ReadAt, InOrder, KeyOf, OwnEntry, UserPrefix;
    var t' := t.(hooks := t.hooks[id := h]);
    OnlyStoresMatter(t, t');
    OneHookKeeps(s, t', id, h);
    LessKeepsOwn(s, t');
  }

  lemma OneHookKeepsOwn(s: State, id: nat, h: Hook)
    requires EntriesOwn(s) && id in s.hooks
    requires h.pending.Some? ==> h.pending == s.hooks[id].pending && s.hooks[id].stage != Due
    ensures EntriesOwn(s.(hooks := s.hooks[id := h]))
  {
    var t := s.(hooks := s.hooks[id := h]);
    OnlyStoresMatter(s, t);
    hide InOrder, OwnEntry, UserPrefix;
    OneHookKeeps(s, t, id, h);
  }

  lemma ResetKeepsOwn(s: State, e: Event)
    requires EntriesOwn(s) && e.Reset?
    ensures EntriesOwn(Step(s, e))
  {
    if e.id in s.hooks && e.maker in s.hooks[e.id].users {
      var h := s.hooks[e.id];
      var f := Forget(s, KeyOf(e.maker, h.slot), h.kind, e.works);
      ForgetKeepsOrder(s, KeyOf(e.maker, h.slot), h.kind, e.works);
      hide InOrder, KeyOf, UserPrefix;
      var t := Step(s, e);
      OnlyStoresMatter(f, t);
      OneHookKeeps(s, t, e.id, Holding(h, Val(h.initial, {}), None));
      hide Step, PendingsOwn;
      LessKeepsOwn(s, t);
    }
  }

  lemma ClearAllKeepsOwn(s: State, maker: string, works: bool)
    requires EntriesOwn(s)
    ensures EntriesOwn(Step(s, ClearAll(maker, works)))
  {
    ClearIsLess(s, maker, works);
    ClearKeepsOrder(s, maker, works);
    var c := Clear(s, maker, works);
    OnlyStoresMatter(c, c.(bumped := true));
    hide InOrder, Clear, UserPrefix;
    LessKeepsOwn(s, c.(bumped := true));
  }

  lemma PlantKeepsOwn(s: State, key: string, stored: Stored)
    requires EntriesOwn(s)
    ensures EntriesOwn(Step(s, Plant(key, stored)))
  {
    PlantKeepsOrder(s.session, key, stored);
    hide Owned, UserPrefix;
  }

  /**
   * One event: the entries and pending writes stay the present user's if and only if it keeps apart.
   */
  lemma StepIsExact(s: State, e: Event)
    requires EntriesOwn(s) && Steady(e)
    ensures EntriesOwn(Step(s, e)) <==> KeepsApart(s, e)
  {
    match e
    case Commit(_) => hide *; CommitIsExact(s, e);
    case SetValue(_, _, _, _, _, _, _, _) => hide *; SetIsExact(s, e);
    case Fire(_, _, _) => hide *; FireIsExact(s, e);
    case Settle(works) => SettleKeepsOwn(s, works); hide EntriesOwn, Step;
    case CleanUp => CleanUpKeepsOwn(s); hide EntriesOwn, Step;
    case Reset(_, _, _) => ResetKeepsOwn(s, e); hide EntriesOwn, Step;
    case ClearAll(maker, works) => ClearAllKeepsOwn(s, maker, works); hide EntriesOwn, Step;
    case Plant(key, stored) => PlantKeepsOwn(s, key, stored); hide EntriesOwn, Step;
    case Reload(_) => assert false;
    case _ => OthersKeepOwn(s, e); hide EntriesOwn, Step;
  }

  lemma OthersKeepOwn(s: State, e: Event)
    requires EntriesOwn(s) && (e.Mount? || e.Unmount? || e.Render? || e.RunEffects?)
    ensures EntriesOwn(Step(s, e))
  {
    hide EntriesOwn, KeyOf, ReadAt, ValueAt;
    match e
    case Mount(id, slot, version, kind, initial, now, works, restored) =>
      if id !in s.hooks {
        var h := Step(s, e).hooks[id];
        ReadKeepsOwn(s, id, h, slot, version, kind, now, works, restored.Some?);
      }
    case Unmount(id) =>
      if id in s.hooks && s.hooks[id].mounted {
        OneHookKeepsOwn(s, id, Step(s, e).hooks[id]);
      }
    case Render(id) =>
      if Quiet(s) && id in s.hooks && s.hooks[id].mounted {
        OneHookKeepsOwn(s, id, Step(s, e).hooks[id]);
      }
    case RunEffects(id, same, now, works, restored) =>
      if id in s.hooks && s.hooks[id].stage == Rendered {
        OneHookKeepsOwn(s, id, Step(s, e).hooks[id]);
      } else if id in s.hooks && s.hooks[id].stage == Cleaned {
        var h := s.hooks[id];
        ReadKeepsOwn(s, id, Step(s, e).hooks[id], h.slot, h.version, h.kind, now, works, restored.Some?);
      }
  }

  // ----- whole runs -----

  ghost predicate AllSteady(events: seq<Event>) {
    forall i :: 0 <= i < |events| ==> Steady(events[i])
  }

  ghost predicate AllOwn(s: State, events: seq<Event>)
    decreases |events|
  {
    EntriesOwn(s) && (events == [] || AllOwn(Step(s, events[0]), events[1..]))
  }

  ghost predicate AllKeepApart(s: State, events: seq<Event>)
    decreases |events|
  {
    events == [] || (KeepsApart(s, events[0]) && AllKeepApart(Step(s, events[0]), events[1..]))
  }

  lemma SteadyTail(events: seq<Event>)
    requires AllSteady(events) && events != []
    ensures Steady(events[0]) && AllSteady(events[1..])
  {
    hide Steady;
    forall i | 0 <= i < |events[1..]| ensures Steady(events[1..][i]) {
      assert events[1..][i] == events[i + 1];
    }
  }

  /**
   * Over every run of a page that is not reloaded and whose storage can be cleared, whatever setters are kept, whatever
   * is called after unmounting or in the middle of a change: no state of the run holds an entry or a pending write that
   * is another user's or holds something of another user's if and only if every event keeps apart.
   */
  lemma {:induction false} NoOtherUsersEntries(s: State, events: seq<Event>)
    requires EntriesOwn(s) && AllSteady(events)
    ensures AllOwn(s, events) <==> AllKeepApart(s, events)
    decreases |events|
  {
    hide EntriesOwn, Step, AllSteady, Steady, KeepsApart;
    if events != [] {
      SteadyTail(events);
      StepIsExact(s, events[0]);
      if EntriesOwn(Step(s, events[0])) {
        NoOtherUsersEntries(Step(s, events[0]), events[1..]);
      } else {
        assert !AllOwn(Step(s, events[0]), events[1..]);
      }
    }
  }

  lemma StartIsOwn(user: string)
    ensures EntriesOwn(Start(user))
  {
  }
}
