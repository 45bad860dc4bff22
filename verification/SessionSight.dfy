/** What a state shows after users have changed, and which users may follow one another. */
module SessionSight {
  import opened Common
  import opened SessionKeys
  import opened SessionStores
  import opened SessionIsolation

  predicate OwnValue(v: Val, user: string) {
    v.authors <= {user}
  }

  /**
   * How a page is to use what the hook gives it, as it can tell before each call: a setter of the present render, in a
   * mounted state whose effects have run; and an updater only when no value just read waits to be rendered.
   */
  predicate Proper(s: State, e: Event) {
    Steady(e) &&
    match e
    case SetValue(id, maker, updater, _, _, _, _, _) =>
      id in s.hooks && maker in s.hooks[id].users ==>
        maker == s.user && s.hooks[id].mounted && s.hooks[id].stage == Done && (updater ==> !s.hooks[id].reading)
    case Reset(id, maker, _) =>
      id in s.hooks && maker in s.hooks[id].users ==>
        maker == s.user && s.hooks[id].mounted && s.hooks[id].stage == Done
    case _ => true
  }

  /** The users' keys cannot clash. */
  predicate Distinct(s: State, e: Event) {
    e.Commit? && e.user != s.user ==> !MayClash(s.user, e.user)
  }

  /** The reference is what is shown, or is what it followed last. */
  predicate Follows(h: Hook) {
    h.held == h.shown || h.seen == Some(h.held.text)
  }

  /** A mounted state, stage by stage. */
  predicate ViewOk(h: Hook, user: string) {
    match h.stage
    case Done =>
      if h.queued.None? then h.held == h.shown && OwnValue(h.shown, user) && h.seen == Some(h.held.text)
      else OwnValue(h.queued.value, user) && if h.reading then h.seen == Some(h.held.text) else h.held == h.queued.value
    case Rendered => h.queued.None? && OwnValue(h.shown, user) && Follows(h)
    case _ => h.queued.None? && Follows(h)
  }

  /** A timer is own, or the former user's and about to be cancelled. */
  predicate TimerOk(h: Hook, user: string, before: Option<string>) {
    h.pending.Some? ==>
      h.mounted && (OwnPending(h.pending.value, user) ||
                    (h.stage == Due && before.Some? && h.pending.value.origin.user == before.value))
  }

  ghost predicate Orderly(s: State) {
    EntriesOwn(s) && (s.before.Some? ==> !MayClash(s.before.value, s.user)) &&
    forall id :: id in s.hooks ==>
      TimerOk(s.hooks[id], s.user, s.before) && (s.hooks[id].mounted ==> ViewOk(s.hooks[id], s.user))
  }

  /** A mounted state with no read to come and nothing waiting to be rendered. */
  predicate Shows(h: Hook) {
    h.mounted && (h.stage == Done || h.stage == Rendered) && h.queued.None?
  }

  /** Such a state shows nothing of another user's. */
  ghost predicate ShownOwn(s: State) {
    forall id :: id in s.hooks && Shows(s.hooks[id]) ==> OwnValue(s.hooks[id].shown, s.user)
  }

  /** A mounted state that has run its effects, with no value just read that waits to be rendered. */
  predicate Holds(h: Hook) {
    h.mounted && h.stage == Done && !h.reading
  }

  /** An updater would start from nothing of another user's in such a state. */
  ghost predicate HeldOwn(s: State) {
    forall id :: id in s.hooks && Holds(s.hooks[id]) ==> OwnValue(s.hooks[id].held, s.user)
  }

  lemma OrderlyShowsOwn(s: State)
    requires Orderly(s)
    ensures ShownOwn(s) && HeldOwn(s)
  {
    hide EntriesOwn, MayClash, OwnPending;
  }

  /** A read gives nothing of another user's, even before the former user's entries have been cleared. */
  lemma ReadGivesOwn(s: State, slot: Slot, version: int, kind: Kind, initial: string, now: int, works: bool,
                     restored: Option<string>)
    requires Orderly(s)
    ensures OwnValue(ValueAt(s, KeyOf(s.user, slot), version, kind, initial, now, works, restored), s.user)
  {
    hide ViewOk, TimerOk, InOrder, PendingsOwn;
    var key := KeyOf(s.user, slot);
    var found := Lookup(s.memory, s.session, key, kind, works);
    if found.Some? && IsCleared(s, key) {
      hide StorageKey, UserPrefix, NormalizeKeyPart;
      assert Finds(s.before.value, At(s.user, slot));
      FindsOnlyClashes(s.before.value, At(s.user, slot));
    }
    hide StorageKey, UserPrefix, MayClash, Owned;
  }

  // ----- one event -----

  lemma ProperKeepsApart(s: State, e: Event)
    requires Orderly(s) && Proper(s, e) && Distinct(s, e)
    ensures KeepsApart(s, e)
  {
    hide EntriesOwn, NormalizeKeyPart, UserPrefix, StorageKey;
    match e
    case Commit(user) =>
    case SetValue(id, _, _, _, _, _, _, _) =>
    case Fire(id, _, _) =>
      if id in s.hooks && s.hooks[id].pending.Some? {
        var p := s.hooks[id].pending.value;
        if !OwnPending(p, s.user) {
          OwnKeysAreFound(s.before.value, p.origin);
        }
      }
    case _ =>
  }

  lemma FollowsShown(h: Hook, same: bool)
    requires Follows(h)
    ensures Followed(h, same) == h.(held := h.shown, seen := Some(h.shown.text))
  {
  }

  lemma OneHookKeepsOrder(s: State, t: State, id: nat, h: Hook)
    requires Orderly(s) && EntriesOwn(t) && t.user == s.user && t.before == s.before && t.hooks == s.hooks[id := h]
    requires TimerOk(h, s.user, s.before) && (h.mounted ==> ViewOk(h, s.user))
    ensures Orderly(t)
  {
    hide EntriesOwn, MayClash, TimerOk, ViewOk;
  }

  lemma CommitKeepsOrder(s: State, e: Event)
    requires Orderly(s) && e.Commit? && Distinct(s, e) && EntriesOwn(Step(s, e))
    ensures Orderly(Step(s, e))
  {
    hide EntriesOwn;
    if Quiet(s) {
      var t := Step(s, e);
      forall id | id in t.hooks
        ensures TimerOk(t.hooks[id], t.user, t.before) && (t.hooks[id].mounted ==> ViewOk(t.hooks[id], t.user))
      {
        var h := s.hooks[id];
        SameSlotKeys(s.user, e.user, h.slot.page, h.slot.name);
        hide StorageKey, NormalizeKeyPart, Extends;
      }
      hide MayClash;
    }
  }

  lemma CleanUpKeepsOrder(s: State)
    requires Orderly(s) && EntriesOwn(Step(s, CleanUp))
    ensures Orderly(Step(s, CleanUp))
  {
    hide EntriesOwn, MayClash, OwnPending;
  }

  /** The hook of a state that has run its effects. */
  lemma EffectsKeepView(s: State, e: Event)
    requires Orderly(s) && e.RunEffects? && e.id in s.hooks
    requires s.hooks[e.id].stage == Rendered || s.hooks[e.id].stage == Cleaned
    ensures var h, t := s.hooks[e.id], Step(s, e);
            && t.user == s.user && t.before == s.before && e.id in t.hooks && t.hooks == s.hooks[e.id := t.hooks[e.id]]
            && TimerOk(t.hooks[e.id], s.user, s.before)
            && (t.hooks[e.id].mounted ==> ViewOk(t.hooks[e.id], s.user))
  {
    var h := s.hooks[e.id];
    FollowedKeeps(h, e.same);
    if h.mounted {
      FollowsShown(h, e.same);
    }
    var key := KeyOf(s.user, h.slot);
    ReadGivesOwn(s, h.slot, h.version, h.kind, h.initial, e.now, e.works, e.restored);
    ReadIsLess(s, key, h.version, h.kind, e.now, e.works, e.restored.Some?);
    hide EntriesOwn, MayClash, KeyOf, ReadAt, ValueAt, Followed;
  }

  lemma RunEffectsKeepsOrder(s: State, e: Event)
    requires Orderly(s) && e.RunEffects? && EntriesOwn(Step(s, e))
    ensures Orderly(Step(s, e))
  {
    if e.id in s.hooks && (s.hooks[e.id].stage == Rendered || s.hooks[e.id].stage == Cleaned) {
      EffectsKeepView(s, e);
      hide Step, EntriesOwn, ViewOk, TimerOk, MayClash;
      OneHookKeepsOrder(s, Step(s, e), e.id, Step(s, e).hooks[e.id]);
    }
  }

  lemma FollowedKeeps(h: Hook, same: bool)
    ensures Followed(h, same).mounted == h.mounted && Followed(h, same).pending == h.pending
    ensures Followed(h, same).queued == h.queued && Followed(h, same).stage == h.stage
  {
  }

  lemma MountKeepsOrder(s: State, e: Event)
    requires Orderly(s) && e.Mount? && EntriesOwn(Step(s, e))
    ensures Orderly(Step(s, e))
  {
    if e.id !in s.hooks {
      var t := Step(s, e);
      ReadGivesOwn(s, e.slot, e.version, e.kind, e.initial, e.now, e.works, e.restored);
      ReadIsLess(s, KeyOf(s.user, e.slot), e.version, e.kind, e.now, e.works, e.restored.Some?);
      hide EntriesOwn, MayClash, KeyOf, ReadAt, ValueAt;
      OneHookKeepsOrder(s, t, e.id, t.hooks[e.id]);
    }
  }

  lemma SetKeepsOrder(s: State, e: Event)
    requires Orderly(s) && (e.SetValue? || e.Reset?) && Proper(s, e) && EntriesOwn(Step(s, e))
    ensures Orderly(Step(s, e))
  {
    if e.id in s.hooks && e.maker in s.hooks[e.id].users {
      SetKeepsView(s, e);
      hide Step, EntriesOwn, ViewOk, TimerOk, MayClash;
      OneHookKeepsOrder(s, Step(s, e), e.id, Step(s, e).hooks[e.id]);
    }
  }

  lemma SetKeepsView(s: State, e: Event)
    requires Orderly(s) && (e.SetValue? || e.Reset?) && Proper(s, e) && e.id in s.hooks && e.maker in s.hooks[e.id].users
    ensures var t := Step(s, e);
            && t.user == s.user && t.before == s.before && e.id in t.hooks && t.hooks == s.hooks[e.id := t.hooks[e.id]]
            && TimerOk(t.hooks[e.id], s.user, s.before)
            && (t.hooks[e.id].mounted ==> ViewOk(t.hooks[e.id], s.user))
  {
    hide EntriesOwn, MayClash, KeyOf, StorageKey;
    if e.SetValue? && e.updater {
      OrderlyShowsOwn(s);
      assert Holds(s.hooks[e.id]);
    }
  }

  lemma OtherStepsKeepOrder(s: State, e: Event)
    requires Orderly(s) && EntriesOwn(Step(s, e))
    requires e.Unmount? || e.Render? || e.Settle? || e.Fire? || e.ClearAll? || e.Plant?
    ensures Orderly(Step(s, e))
  {
    hide EntriesOwn, MayClash, StorageKey, UserPrefix;
    var t := Step(s, e);
    match e
    case Unmount(id) =>
      if id in s.hooks && s.hooks[id].mounted {
        OneHookKeepsOrder(s, t, id, t.hooks[id]);
      }
    case Render(id) =>
      if Quiet(s) && id in s.hooks && s.hooks[id].mounted {
        OneHookKeepsOrder(s, t, id, t.hooks[id]);
      }
    case Fire(id, _, _) =>
      if id in s.hooks && s.hooks[id].pending.Some? {
        OneHookKeepsOrder(s, t, id, t.hooks[id]);
      }
    case _ =>
      hide ViewOk, OwnPending;
  }

  lemma StepKeepsOrderly(s: State, e: Event)
    requires Orderly(s) && Proper(s, e) && Distinct(s, e)
    ensures Orderly(Step(s, e))
  {
    ProperKeepsApart(s, e);
    assert EntriesOwn(s);
    StepIsExact(s, e);
    match e
    case Commit(_) => CommitKeepsOrder(s, e); hide *;
    case CleanUp => CleanUpKeepsOrder(s); hide *;
    case RunEffects(_, _, _, _, _) => RunEffectsKeepsOrder(s, e); hide *;
    case Mount(_, _, _, _, _, _, _, _) => MountKeepsOrder(s, e); hide *;
    case SetValue(_, _, _, _, _, _, _, _) => SetKeepsOrder(s, e); hide *;
    case Reset(_, _, _) => SetKeepsOrder(s, e); hide *;
    case Reload(_) => assert false;
    case _ => OtherStepsKeepOrder(s, e); hide *;
  }

  // ----- whole runs -----

  ghost predicate AllProper(s: State, events: seq<Event>)
    decreases |events|
  {
    events == [] || (Proper(s, events[0]) && AllProper(Step(s, events[0]), events[1..]))
  }

  ghost predicate AllDistinct(s: State, events: seq<Event>)
    decreases |events|
  {
    events == [] || (Distinct(s, events[0]) && AllDistinct(Step(s, events[0]), events[1..]))
  }

  lemma {:induction false} RunKeepsOrderly(s: State, events: seq<Event>)
    requires Orderly(s) && AllProper(s, events) && AllDistinct(s, events)
    ensures Orderly(Run(s, events))
    decreases |events|
  {
    hide Orderly, Step, Proper, Distinct;
    if events != [] {
      StepKeepsOrderly(s, events[0]);
      RunKeepsOrderly(Step(s, events[0]), events[1..]);
    }
  }

  lemma StartIsOrderly(user: string)
    ensures Orderly(Start(user))
  {
  }

  /**
   * Over every run in which pages use their hooks properly and users follow one another only where their keys cannot
   * clash: nobody finds what another user wrote, and once a state has run its effects and rendered what it read, neither
   * what it shows nor what an updater would start from holds anything of another user.
   */
  lemma NobodySeesAnothers(user: string, events: seq<Event>)
    requires AllProper(Start(user), events) && AllDistinct(Start(user), events)
    ensures var s := Run(Start(user), events); EntriesOwn(s) && ShownOwn(s) && HeldOwn(s)
  {
    hide Step, Proper, Distinct, AllProper, AllDistinct, Run;
    StartIsOrderly(user);
    RunKeepsOrderly(Start(user), events);
    OrderlyShowsOwn(Run(Start(user), events));
    assert EntriesOwn(Run(Start(user), events)) by { hide EntriesOwn, MayClash, TimerOk, ViewOk; }
  }
}
