/** How long a persisted value lasts: what may happen in between, and what a read then shows. */
module SessionPersistence {
  import opened Common
  import opened SessionKeys
  import opened SessionStores

  /** The payload lies under the key, in the store that a state of the kind is kept in. */
  predicate Holds(s: State, key: string, payload: Stored, kind: Kind) {
    Get(if kind == Session then s.session else s.memory, key) == Some(payload)
  }

  // ----- events that leave an entry alone -----

  /** Something that reaches both stores of a kind: the browser's only if it is meant and works. */
  predicate Reaches(kept: Kind, kind: Kind, works: bool) {
    kept == Memory || (kind == Session && works)
  }

  /** A read that finds the payload gives it back, and one that looks elsewhere does not reach it. */
  predicate ReadSpares(key: string, payload: Stored, kept: Kind, version: int, kind: Kind, now: int, works: bool,
                       accepted: bool)
    requires payload.Payload?
  {
    (kind == kept && version == payload.version && now < payload.expiresAt && accepted) || !Reaches(kept, kind, works)
  }

  /**
   * What can be looked up before an event: it neither writes nor forgets the entry, clears no prefix of its key, and
   * reads it only in time, for the same version, and with a page that accepts it. What is kept in the browser's store
   * outlives a reload and every event that does not get at that store.
   */
  predicate Spares(s: State, e: Event, key: string, payload: Stored, kept: Kind)
    requires payload.Payload?
  {
    match e
    case Mount(id, slot, version, kind, _, now, works, restored) =>
      id !in s.hooks && KeyOf(s.user, slot) == key ==>
        ReadSpares(key, payload, kept, version, kind, now, works, restored.Some?)
    case RunEffects(id, _, now, works, restored) =>
      id in s.hooks && s.hooks[id].stage == Cleaned && KeyOf(s.user, s.hooks[id].slot) == key ==>
        ReadSpares(key, payload, kept, s.hooks[id].version, s.hooks[id].kind, now, works, restored.Some?)
    case SetValue(id, maker, _, _, _, debounced, _, works) =>
      id in s.hooks && maker in s.hooks[id].users && !debounced && KeyOf(maker, s.hooks[id].slot) == key ==>
        !Reaches(kept, s.hooks[id].kind, works)
    case Fire(id, _, works) =>
      id in s.hooks && s.hooks[id].pending.Some? && StorageKey(s.hooks[id].pending.value.origin) == key ==>
        !Reaches(kept, s.hooks[id].pending.value.kind, works)
    case Reset(id, maker, works) =>
      id in s.hooks && maker in s.hooks[id].users && KeyOf(maker, s.hooks[id].slot) == key ==>
        !Reaches(kept, s.hooks[id].kind, works)
    case Settle(works) =>
      s.before.Some? && AllRun(s) && UserPrefix(s.before.value) <= key ==> !Reaches(kept, Session, works)
    case ClearAll(maker, works) => UserPrefix(maker) <= key ==> !Reaches(kept, Session, works)
    case Reload(_) => kept == Session
    case Plant(at, _) => at == key ==> kept == Memory
    case _ => true
  }

  predicate AllSpare(s: State, events: seq<Event>, key: string, payload: Stored, kept: Kind)
    requires payload.Payload?
    decreases |events|
  {
    events != [] ==>
      Spares(s, events[0], key, payload, kept) && AllSpare(Step(s, events[0]), events[1..], key, payload, kept)
  }

  lemma ReadKeepsHolding(s: State, at: string, key: string, payload: Stored, kept: Kind, version: int, kind: Kind,
                         now: int, works: bool, accepted: bool)
    requires payload.Payload? && Holds(s, key, payload, kept)
    requires at == key ==> ReadSpares(key, payload, kept, version, kind, now, works, accepted)
    ensures Holds(ReadAt(s, at, version, kind, now, works, accepted), key, payload, kept)
  {
  }

  lemma WriteKeepsHolding(s: State, p: Pending, now: int, works: bool, key: string, payload: Stored, kept: Kind)
    requires Holds(s, key, payload, kept)
    requires StorageKey(p.origin) == key ==> !Reaches(kept, p.kind, works)
    ensures Holds(Write(s, p, now, works), key, payload, kept)
  {
    hide StorageKey;
  }

  lemma StepKeepsHolding(s: State, e: Event, key: string, payload: Stored, kept: Kind)
    requires payload.Payload? && Holds(s, key, payload, kept) && Spares(s, e, key, payload, kept)
    ensures Holds(Step(s, e), key, payload, kept)
  {
    hide StorageKey, UserPrefix, KeyOf, ReadAt, Write, ReadSpares;
    match e
    case Mount(id, slot, version, kind, _, now, works, restored) =>
      if id !in s.hooks {
        ReadKeepsHolding(s, KeyOf(s.user, slot), key, payload, kept, version, kind, now, works, restored.Some?);
      }
    case RunEffects(id, _, now, works, restored) =>
      if id in s.hooks && s.hooks[id].stage == Cleaned {
        var h := s.hooks[id];
        ReadKeepsHolding(s, KeyOf(s.user, h.slot), key, payload, kept, h.version, h.kind, now, works, restored.Some?);
      }
    case SetValue(id, maker, updater, text, ttl, debounced, now, works) =>
      if id in s.hooks && maker in s.hooks[id].users && !debounced {
        var value := NewValue(s.hooks[id], maker, updater, text);
        IsKeyOf(maker, s.hooks[id].slot);
        WriteKeepsHolding(s.(hooks := s.hooks[id := Holding(s.hooks[id], value, None)]),
                          PendingOf(s.hooks[id], maker, value, ttl), now, works, key, payload, kept);
      }
    case Fire(id, now, works) =>
      if id in s.hooks && s.hooks[id].pending.Some? {
        WriteKeepsHolding(s.(hooks := s.hooks[id := s.hooks[id].(pending := None)]), s.hooks[id].pending.value, now,
                          works, key, payload, kept);
      }
    case _ =>
  }

  lemma IsKeyOf(user: string, slot: Slot)
    ensures KeyOf(user, slot) == StorageKey(At(user, slot))
  {
  }

  /** Over any run of such events the entry stays as it was written. */
  lemma {:induction false} RunKeepsHolding(s: State, events: seq<Event>, key: string, payload: Stored, kept: Kind)
    requires payload.Payload? && Holds(s, key, payload, kept) && AllSpare(s, events, key, payload, kept)
    ensures Holds(Run(s, events), key, payload, kept)
    decreases |events|
  {
    hide Step, Spares, Holds;
    if events != [] {
      StepKeepsHolding(s, events[0], key, payload, kept);
      RunKeepsHolding(Step(s, events[0]), events[1..], key, payload, kept);
    }
  }

  // ----- a write and a read -----

  /**
   * A write and a read under its key with any two storage failures: the read finds the payload, and so gives the value
   * back if and only if the version is the same and the time to live has not run out, unless the browser's store could
   * not be written and can be read; then it finds what that store held before.
   */
  lemma ReadAfterWrite(s: State, p: Pending, now: int, works: bool, version: int, initial: string, later: int,
                       worksThen: bool, restored: Option<string>)
    ensures var t, key := Write(s, p, now, works), StorageKey(p.origin);
            var read := ValueAt(t, key, version, p.kind, initial, later, worksThen, restored);
            if p.kind == Memory || works || !worksThen || (key in s.session && s.session[key].Garbled?) then
              read == (if version == p.version && later < now + p.ttl && restored.Some? then
                         Val(restored.value, p.value.authors)
                       else Val(initial, {}))
            else
              read == ValueAt(s.(memory := map[]), key, version, p.kind, initial, later, true, restored)
    ensures forall k :: k != StorageKey(p.origin) ==>
              Get(Write(s, p, now, works).memory, k) == Get(s.memory, k) &&
              Get(Write(s, p, now, works).session, k) == Get(s.session, k)
  {
    hide StorageKey;
  }

  /** The first render of a state finds a held payload: in time it shows it, and too late it drops it. */
  lemma MountShowsHeld(s: State, m: Event, payload: Stored, kept: Kind)
    requires payload.Payload? && m.Mount? && m.id !in s.hooks
    requires Holds(s, KeyOf(s.user, m.slot), payload, kept)
    requires m.kind == kept && (kept == Session ==> m.works)
    ensures m.id in Step(s, m).hooks
    ensures Step(s, m).hooks[m.id].shown ==
            if m.version == payload.version && m.now < payload.expiresAt && m.restored.Some? then
              Val(m.restored.value, payload.value.authors)
            else Val(m.initial, {})
    ensures payload.expiresAt <= m.now ==>
              KeyOf(s.user, m.slot) !in Step(s, m).memory &&
              (kept == Session ==> KeyOf(s.user, m.slot) !in Step(s, m).session)
  {
    hide KeyOf;
  }

  /** What a write at a time leaves: the value, for as long as its time to live. */
  function Entry(p: Pending, now: int): Stored {
    Payload(p.version, now, now + p.ttl, p.value, Some(p.origin))
  }

  lemma WriteIsHeld(s: State, p: Pending, now: int, works: bool)
    requires p.kind == Session ==> works
    ensures Holds(Write(s, p, now, works), StorageKey(p.origin), Entry(p, now), p.kind)
  {
    hide StorageKey;
  }

  /** What a setter of a state writes. */
  function Setting(h: Hook, e: Event): Pending
    requires e.SetValue?
  {
    var authors := {e.maker} + if e.updater then h.held.authors else {};
    Pending(h.version, e.ttl, Val(e.text, authors), h.kind, At(e.maker, h.slot))
  }

  /** The write that an event makes; nothing if it makes none, or one that the browser's store refuses. */
  function Persisted(s: State, e: Event): Option<Pending> {
    match e
    case SetValue(id, maker, _, _, _, debounced, _, works) =>
      if id in s.hooks && maker in s.hooks[id].users && !debounced && (s.hooks[id].kind == Session ==> works)
      then Some(Setting(s.hooks[id], e)) else None
    case Fire(id, _, works) =>
      if id in s.hooks && s.hooks[id].pending.Some? && (s.hooks[id].pending.value.kind == Session ==> works)
      then s.hooks[id].pending else None
    case _ => None
  }

  lemma PersistedIsHeld(s: State, e: Event)
    requires Persisted(s, e).Some?
    ensures e.SetValue? || e.Fire?
    ensures var p := Persisted(s, e).value; Holds(Step(s, e), StorageKey(p.origin), Entry(p, e.now), p.kind)
  {
    hide Holds, Entry, Write, StorageKey, At;
    var p := Persisted(s, e).value;
    if e.SetValue? {
      var h := s.hooks[e.id];
      var before := s.(hooks := s.hooks[e.id := Holding(h, p.value, None)]);
      assert Step(s, e) == Write(before, p, e.now, e.works);
      WriteIsHeld(before, p, e.now, e.works);
    } else {
      WriteIsHeld(s.(hooks := s.hooks[e.id := s.hooks[e.id].(pending := None)]), p, e.now, e.works);
    }
  }

  /** A state is mounted anew, of the same kind and version and under the key that was written. */
  predicate MountsAgain(s: State, m: Event, p: Pending) {
    && m.Mount? && m.id !in s.hooks && KeyOf(s.user, m.slot) == StorageKey(p.origin)
    && m.kind == p.kind && (m.kind == Session ==> m.works) && m.version == p.version
  }

  /** What the mounted state shows is the value, or its initial value with the entry gone from its store. */
  ghost predicate ShowsOrDrops(t: State, m: Event, p: Pending, inTime: bool)
    requires m.Mount?
  {
    && m.id in t.hooks
    && (inTime ==> t.hooks[m.id].shown == p.value)
    && (!inTime ==> t.hooks[m.id].shown == Val(m.initial, {}) && StorageKey(p.origin) !in t.memory &&
                    (m.kind == Session ==> StorageKey(p.origin) !in t.session))
  }

  /**
   * A value that a setter or a timer persists is what a state mounted later shows, whatever sparing events come between
   * (unmounting, other states' writes, changes of user and, for the browser's store, reloads), if and only if the time to
   * live has not run out since the write; once it has, the state starts from its initial value and the entry is gone.
   */
  lemma PersistedLasts(s: State, e: Event, events: seq<Event>, m: Event)
    requires Persisted(s, e).Some? && (e.SetValue? || e.Fire?)
    requires var p := Persisted(s, e).value;
             && AllSpare(Step(s, e), events, StorageKey(p.origin), Entry(p, e.now), p.kind)
             && MountsAgain(Run(Step(s, e), events), m, p) && m.restored == Some(p.value.text)
    ensures var p := Persisted(s, e).value;
            ShowsOrDrops(Step(Run(Step(s, e), events), m), m, p, m.now < e.now + p.ttl)
  {
    hide Step, AllSpare, Holds, KeyOf, StorageKey, Persisted;
    var p := Persisted(s, e).value;
    PersistedIsHeld(s, e);
    RunKeepsHolding(Step(s, e), events, StorageKey(p.origin), Entry(p, e.now), p.kind);
    MountShowsHeld(Run(Step(s, e), events), m, Entry(p, e.now), p.kind);
  }

  // ----- timers and resets -----

  /** The event neither fires, replaces nor cancels the state's timer. */
  predicate LeavesTimer(s: State, ev: Event, id: nat) {
    match ev
    case Unmount(at) => at != id
    case CleanUp => id in s.hooks ==> s.hooks[id].stage != Due
    case SetValue(at, _, _, _, _, _, _, _) => at != id
    case Fire(at, _, _) => at != id
    case Reset(at, _, _) => at != id
    case Reload(_) => false
    case _ => true
  }

  predicate AllLeaveTimer(s: State, events: seq<Event>, id: nat)
    decreases |events|
  {
    events != [] ==> LeavesTimer(s, events[0], id) && AllLeaveTimer(Step(s, events[0]), events[1..], id)
  }

  predicate Awaits(s: State, id: nat, p: Pending) {
    id in s.hooks && s.hooks[id].pending == Some(p)
  }

  lemma StepKeepsTimer(s: State, ev: Event, id: nat, p: Pending)
    requires Awaits(s, id, p) && LeavesTimer(s, ev, id)
    ensures Awaits(Step(s, ev), id, p)
  {
    hide ValueAt, StorageKey, UserPrefix, Lookup, AllRun;
  }

  lemma {:induction false} RunKeepsTimer(s: State, events: seq<Event>, id: nat, p: Pending)
    requires Awaits(s, id, p) && AllLeaveTimer(s, events, id)
    ensures Awaits(Run(s, events), id, p)
    decreases |events|
  {
    hide Step, Awaits, LeavesTimer;
    if events != [] {
      StepKeepsTimer(s, events[0], id, p);
      RunKeepsTimer(Step(s, events[0]), events[1..], id, p);
    }
  }

  /**
   * Of debounced calls only the last is written: when the timer fires, with whatever in between that does not touch it,
   * what is persisted is the value of that call, under the key its setter was made for.
   */
  lemma LastDebouncedIsPersisted(s: State, e: Event, events: seq<Event>, fire: Event)
    requires e.SetValue? && e.debounced && e.id in s.hooks && e.maker in s.hooks[e.id].users
    requires AllLeaveTimer(Step(s, e), events, e.id)
    requires fire.Fire? && fire.id == e.id && (s.hooks[e.id].kind == Session ==> fire.works)
    ensures Persisted(Run(Step(s, e), events), fire) == Some(Setting(s.hooks[e.id], e))
    ensures Persisted(Step(Run(Step(s, e), events), fire), fire).None?
  {
    assert Awaits(Step(s, e), e.id, Setting(s.hooks[e.id], e));
    RunKeepsTimer(Step(s, e), events, e.id, Setting(s.hooks[e.id], e));
    hide AllLeaveTimer, StorageKey, Run;
  }

  /** A state that has been given a value shows it once it has rendered. */
  lemma RenderShows(s: State, t: State, id: nat, h: Hook, value: Val)
    requires Quiet(s) && id in s.hooks && s.hooks[id].mounted && t.before == s.before
    requires t.hooks == s.hooks[id := Holding(s.hooks[id], value, h.pending)]
    ensures id in Step(t, Render(id)).hooks && Step(t, Render(id)).hooks[id].shown == value
  {
    assert Quiet(t);
  }

  /** What a mounted state is given by a setter or a reset is what it shows once it has rendered. */
  lemma RenderShowsWhatWasSet(s: State, e: Event)
    requires Quiet(s) && (e.SetValue? || e.Reset?) && e.id in s.hooks && e.maker in s.hooks[e.id].users
    requires s.hooks[e.id].mounted
    ensures var t := Step(Step(s, e), Render(e.id));
            && e.id in t.hooks
            && t.hooks[e.id].shown == if e.Reset? then Val(s.hooks[e.id].initial, {}) else Setting(s.hooks[e.id], e).value
  {
    hide Quiet, StorageKey;
    var t := Step(s, e);
    RenderShows(s, t, e.id, t.hooks[e.id], if e.Reset? then Val(s.hooks[e.id].initial, {}) else Setting(s.hooks[e.id], e).value);
    hide *;
  }

  /** After a reset no timer is left to bring the value back, and a state mounted under the key starts anew. */
  lemma ResetStartsAnew(s: State, e: Event, m: Event)
    requires e.Reset? && e.id in s.hooks && e.maker in s.hooks[e.id].users
    requires s.hooks[e.id].kind == Session ==> e.works
    requires m.Mount? && m.id !in s.hooks && KeyOf(s.user, m.slot) == KeyOf(e.maker, s.hooks[e.id].slot)
    requires m.kind == s.hooks[e.id].kind
    ensures Step(s, e).hooks[e.id].pending == None
    ensures Step(Step(s, e), m).hooks[m.id].shown == Val(m.initial, {})
  {
    hide StorageKey;
  }
}
