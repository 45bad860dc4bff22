/**
 * What the session cache holds, as values: a store in memory, one in the browser session, and for every state that was
 * ever mounted what React and its own references keep of it. Every event turns the whole into the next; the class
 * `SessionCache` changes it in place.
 */
module SessionStores {
  import opened Common
  import opened SessionKeys

  /** A value, and the users whose settings went into it (none for an initial value). */
  datatype Val = Val(text: string, authors: set<string>)

  /**
   * A stored entry. `origin` remembers under whose key a payload was written; the browser's store may also hold what
   * some other script wrote: a payload of its own, something parsable, something not parsable, or a bare null.
   */
  datatype Stored =
    | Payload(version: int, updatedAt: int, expiresAt: int, value: Val, origin: Option<Triple>)
    | Foreign
    | Garbled
    | Null

  type Store = map<string, Stored>

  datatype Kind = Memory | Session

  /** A page's name and the name of one of its states. */
  datatype Slot = Slot(page: string, name: string)

  /** A write that waits for its timer; it goes to the key it was scheduled for. */
  datatype Pending = Pending(version: int, ttl: int, value: Val, kind: Kind, origin: Triple)

  /**
   * The effects that a commit leaves a state with: none; only to follow the value; to clean up, follow the value and
   * read again; or that without the cleaning up.
   */
  datatype Stage = Done | Rendered | Due | Cleaned

  /**
   * One use of the hook: its options, the users it has rendered for (each render made a setter), whether it is mounted,
   * the effects it has to run, the value it shows, the value its reference holds, the value the reference last
   * followed, the value that the next render will show, whether that one was read, and its timer.
   */
  datatype Hook = Hook(slot: Slot, version: int, kind: Kind, initial: string, users: set<string>, mounted: bool, stage: Stage,
                       shown: Val, held: Val, seen: Option<string>, queued: Option<Val>, reading: bool,
                       pending: Option<Pending>)

  /** `before` is the user that a change under way has still to clear; `bumped` is a generation not yet rendered. */
  datatype State = State(memory: Store, session: Store, user: string, before: Option<string>, bumped: bool,
                         hooks: map<nat, Hook>)

  function At(user: string, slot: Slot): Triple {
    Triple(user, slot.page, slot.name)
  }

  function KeyOf(user: string, slot: Slot): string {
    StorageKey(At(user, slot))
  }

  function Get(store: Store, key: string): Option<Stored> {
    if key in store then Some(store[key]) else None
  }

  /** Whether the browser's store can be read at a key: it works, and what is there can be parsed. */
  predicate Readable(session: Store, key: string, works: bool) {
    works && (key in session ==> !session[key].Garbled?)
  }

  /** What a read finds; what cannot be read in the browser's store is looked up in memory. */
  function Lookup(memory: Store, session: Store, key: string, kind: Kind, works: bool): Option<Stored> {
    if kind == Memory || !Readable(session, key, works) then Get(memory, key)
    else if key in session && session[key].Null? then None
    else Get(session, key)
  }

  /** A payload that may be given back. */
  predicate Fresh(p: Stored, version: int, now: int) {
    p.Payload? && p.version == version && now < p.expiresAt
  }

  function Without(store: Store, prefix: string): Store {
    map k | k in store && !(prefix <= k) :: store[k]
  }

  function Forget(s: State, key: string, kind: Kind, works: bool): State {
    s.(memory := s.memory - {key}, session := if kind == Session && works then s.session - {key} else s.session)
  }

  function Clear(s: State, user: string, works: bool): State {
    s.(memory := Without(s.memory, UserPrefix(user)),
       session := if works then Without(s.session, UserPrefix(user)) else s.session)
  }

  /** Memory always takes the payload; the browser's store if it is kept there and works. */
  function Write(s: State, p: Pending, now: int, works: bool): State {
    var key := StorageKey(p.origin);
    var payload := Payload(p.version, now, now + p.ttl, p.value, Some(p.origin));
    s.(memory := s.memory[key := payload],
       session := if p.kind == Session && works then s.session[key := payload] else s.session)
  }

  /** A read under a key: what is found but cannot be given back, or is not accepted by the page, is removed. */
  function ReadAt(s: State, key: string, version: int, kind: Kind, now: int, works: bool, accepted: bool): State {
    var found := Lookup(s.memory, s.session, key, kind, works);
    if found.Some? && !(Fresh(found.value, version, now) && accepted) then Forget(s, key, kind, works) else s
  }

  /**
   * The value that a read gives; `restored` is what the page's `restore` and `validate` make of a stored one, nothing if
   * they throw or refuse.
   */
  function ValueAt(s: State, key: string, version: int, kind: Kind, initial: string, now: int, works: bool,
                   restored: Option<string>): Val
  {
    var found := Lookup(s.memory, s.session, key, kind, works);
    if found.Some? && Fresh(found.value, version, now) && restored.Some?
    then Val(restored.value, found.value.value.authors)
    else Val(initial, {})
  }

  datatype Event =
    | Mount(id: nat, slot: Slot, version: int, kind: Kind, initial: string, now: int, works: bool, restored: Option<string>)
    | Unmount(id: nat)
    | Commit(user: string)
    | Render(id: nat)
    | CleanUp
    | RunEffects(id: nat, same: bool, now: int, works: bool, restored: Option<string>)
    | Settle(works: bool)
    | SetValue(id: nat, maker: string, updater: bool, text: string, ttl: int, debounced: bool, now: int, works: bool)
    | Fire(id: nat, now: int, works: bool)
    | Reset(id: nat, maker: string, works: bool)
    | ClearAll(maker: string, works: bool)
    | Reload(user: string)
    | Plant(key: string, stored: Stored)

  /** No effect of a state is still to run. */
  predicate AllRun(s: State) {
    forall id :: id in s.hooks ==> s.hooks[id].stage == Done
  }

  /** No effect is still to run; React renders only then. */
  predicate Quiet(s: State) {
    s.before.None? && AllRun(s)
  }

  function Flushed(h: Hook): Hook {
    h.(shown := if h.queued.Some? then h.queued.value else h.shown, queued := None, reading := false)
  }

  /** A render for a user: the setter it makes is that user's, and the state reads again if its key has changed. */
  function Rerendered(h: Hook, before: string, user: string, bumped: bool): Hook {
    if !h.mounted then h
    else Flushed(h).(users := h.users + {user},
                     stage := if bumped || KeyOf(before, h.slot) != KeyOf(user, h.slot) then Due else Rendered)
  }

  function CleanedUp(h: Hook): Hook {
    if h.stage == Due then h.(stage := Cleaned, pending := None) else h
  }

  /**
   * The reference follows what is shown, unless that is the `same` value it followed last. (Where the texts agree
   * anyway, only who the value is put down to can change.)
   */
  function Followed(h: Hook, same: bool): Hook {
    if same && h.seen == Some(h.shown.text) && h.held.text != h.shown.text then h
    else h.(held := h.shown, seen := Some(h.shown.text))
  }

  /** What a setter of `maker` passes on: an updater starts from the value that is held. */
  function NewValue(h: Hook, maker: string, updater: bool, text: string): Val {
    Val(text, {maker} + if updater then h.held.authors else {})
  }

  /** A state that is no longer mounted keeps its reference and its timer, but shows nothing. */
  function Holding(h: Hook, value: Val, pending: Option<Pending>): Hook {
    h.(held := value, queued := if h.mounted then Some(value) else None, reading := false, pending := pending)
  }

  function PendingOf(h: Hook, maker: string, value: Val, ttl: int): Pending {
    Pending(h.version, ttl, value, h.kind, At(maker, h.slot))
  }

  /** What some other script plants was written under nobody's key. */
  function Planted(stored: Stored): Stored {
    if stored.Payload? then stored.(value := Val(stored.value.text, {}), origin := None) else stored
  }

  function Step(s: State, e: Event): State {
    match e
    case Mount(id, slot, version, kind, initial, now, works, restored) =>
      if id in s.hooks then s
      else
        var key := KeyOf(s.user, slot);
        var value := ValueAt(s, key, version, kind, initial, now, works, restored);
        var t := ReadAt(s, key, version, kind, now, works, restored.Some?);
        t.(hooks := t.hooks[id := Hook(slot, version, kind, initial, {s.user}, true, Rendered, value, value, None, None,
                                       false, None)])
    case Unmount(id) =>
      if id !in s.hooks || !s.hooks[id].mounted then s
      else s.(hooks := s.hooks[id := s.hooks[id].(mounted := false, stage := Done, queued := None, reading := false,
                                                  pending := None)])
    case Commit(user) =>
      if !Quiet(s) then s
      else State(s.memory, s.session, user, if user == s.user then None else Some(s.user), false,
                 map id | id in s.hooks :: Rerendered(s.hooks[id], s.user, user, s.bumped))
    case Render(id) =>
      if !Quiet(s) || id !in s.hooks || !s.hooks[id].mounted then s
      else s.(hooks := s.hooks[id := Flushed(s.hooks[id]).(stage := Rendered)])
    case CleanUp =>
      s.(hooks := map id | id in s.hooks :: CleanedUp(s.hooks[id]))
    case RunEffects(id, same, now, works, restored) =>
      if id !in s.hooks || s.hooks[id].stage == Done || s.hooks[id].stage == Due then s
      else
        var h := Followed(s.hooks[id], same).(stage := Done);
        if s.hooks[id].stage == Rendered then s.(hooks := s.hooks[id := h])
        else
          var key := KeyOf(s.user, h.slot);
          var value := ValueAt(s, key, h.version, h.kind, h.initial, now, works, restored);
          var t := ReadAt(s, key, h.version, h.kind, now, works, restored.Some?);
          t.(hooks := t.hooks[id := h.(queued := Some(value), reading := true)])
    case Settle(works) =>
      if s.before.None? || !AllRun(s) then s else Clear(s, s.before.value, works).(before := None)
    case SetValue(id, maker, updater, text, ttl, debounced, now, works) =>
      if id !in s.hooks || maker !in s.hooks[id].users then s
      else
        var value := NewValue(s.hooks[id], maker, updater, text);
        var p := PendingOf(s.hooks[id], maker, value, ttl);
        if debounced then s.(hooks := s.hooks[id := Holding(s.hooks[id], value, Some(p))])
        else Write(s.(hooks := s.hooks[id := Holding(s.hooks[id], value, None)]), p, now, works)
    case Fire(id, now, works) =>
      if id !in s.hooks || s.hooks[id].pending.None? then s
      else Write(s.(hooks := s.hooks[id := s.hooks[id].(pending := None)]), s.hooks[id].pending.value, now, works)
    case Reset(id, maker, works) =>
      if id !in s.hooks || maker !in s.hooks[id].users then s
      else
        var h := s.hooks[id];
        Forget(s, KeyOf(maker, h.slot), h.kind, works).(hooks := s.hooks[id := Holding(h, Val(h.initial, {}), None)])
    case ClearAll(maker, works) => Clear(s, maker, works).(bumped := true)
    case Reload(user) => State(map[], s.session, user, None, false, map[])
    case Plant(key, stored) => s.(session := s.session[key := Planted(stored)])
  }

  function Run(s: State, events: seq<Event>): State
    decreases |events|
  {
    if events == [] then s else Run(Step(s, events[0]), events[1..])
  }

  function Start(user: string): State {
    State(map[], map[], user, None, false, map[])
  }

  // ----- what every run keeps -----

  /** Every payload lies under the key it was written under, or was planted and is nobody's. */
  ghost predicate Owned(store: Store) {
    forall k :: k in store && store[k].Payload? ==>
      match store[k].origin
      case Some(t) => StorageKey(t) == k
      case None => store[k].value.authors == {}
  }

  ghost predicate InOrder(s: State) {
    Owned(s.memory) && Owned(s.session) && forall k :: k in s.memory ==> s.memory[k].Payload?
  }

  lemma WriteKeepsOrder(s: State, p: Pending, now: int, works: bool)
    requires InOrder(s)
    ensures InOrder(Write(s, p, now, works))
  {
    hide StorageKey;
  }

  lemma ReadAtKeepsOrder(s: State, key: string, version: int, kind: Kind, now: int, works: bool, accepted: bool)
    requires InOrder(s)
    ensures InOrder(ReadAt(s, key, version, kind, now, works, accepted))
  {
    hide StorageKey, Lookup, Fresh;
  }

  lemma ClearKeepsOrder(s: State, user: string, works: bool)
    requires InOrder(s)
    ensures InOrder(Clear(s, user, works))
  {
    hide StorageKey, UserPrefix;
  }

  lemma OnlyStoresMatter(s: State, t: State)
    requires InOrder(s) && t.memory == s.memory && t.session == s.session
    ensures InOrder(t)
  {
  }

  lemma StepKeepsOrder(s: State, e: Event)
    requires InOrder(s)
    ensures InOrder(Step(s, e))
  {
    hide KeyOf, Owned, ReadAt, Write, Clear;
    match e
    case Mount(id, slot, version, kind, initial, now, works, restored) =>
      ReadAtKeepsOrder(s, KeyOf(s.user, slot), version, kind, now, works, restored.Some?);
    case RunEffects(id, _, now, works, restored) =>
      if id in s.hooks {
        var h := s.hooks[id];
        ReadAtKeepsOrder(s, KeyOf(s.user, h.slot), h.version, h.kind, now, works, restored.Some?);
      }
    case SetValue(id, maker, updater, text, ttl, _, now, works) =>
      if id in s.hooks {
        var value := NewValue(s.hooks[id], maker, updater, text);
        WriteKeepsOrder(s.(hooks := s.hooks[id := Holding(s.hooks[id], value, None)]),
                        PendingOf(s.hooks[id], maker, value, ttl), now, works);
      }
    case Fire(id, now, works) =>
      if id in s.hooks && s.hooks[id].pending.Some? {
        WriteKeepsOrder(s.(hooks := s.hooks[id := s.hooks[id].(pending := None)]), s.hooks[id].pending.value, now, works);
      }
    case Settle(works) =>
      if s.before.Some? {
        ClearKeepsOrder(s, s.before.value, works);
      }
    case ClearAll(maker, works) => ClearKeepsOrder(s, maker, works);
    case Reset(id, maker, works) =>
      if id in s.hooks {
        ForgetKeepsOrder(s, KeyOf(maker, s.hooks[id].slot), s.hooks[id].kind, works);
      }
    case Reload(_) => NothingIsOwned();
    case Plant(key, stored) => PlantKeepsOrder(s.session, key, stored);
    case _ =>
  }

  lemma ForgetKeepsOrder(s: State, key: string, kind: Kind, works: bool)
    requires InOrder(s)
    ensures InOrder(Forget(s, key, kind, works))
  {
    hide StorageKey;
  }

  lemma NothingIsOwned()
    ensures Owned(map[])
  {
  }

  lemma PlantKeepsOrder(store: Store, key: string, stored: Stored)
    requires Owned(store)
    ensures Owned(store[key := Planted(stored)])
  {
    hide StorageKey;
  }

  lemma {:induction false} RunKeepsOrder(s: State, events: seq<Event>)
    requires InOrder(s)
    ensures InOrder(Run(s, events))
    decreases |events|
  {
    hide Step, InOrder;
    if events != [] {
      StepKeepsOrder(s, events[0]);
      RunKeepsOrder(Step(s, events[0]), events[1..]);
    }
  }

  /**
   * Over every run, with any storage failures, planted entries, late writes, kept setters, user changes and reloads: a
   * payload that is found was planted, or was written under the same key, and without colons under that of the same
   * normalised user, page and name.
   */
  lemma FoundPayloadIsOwn(user: string, events: seq<Event>, t: Triple, kind: Kind, works: bool)
    ensures var s := Run(Start(user), events);
            var found := Lookup(s.memory, s.session, StorageKey(t), kind, works);
            found.Some? && found.value.Payload? ==>
              match found.value.origin
              case None => found.value.value.authors == {}
              case Some(o) => StorageKey(o) == StorageKey(t) && (HasNoColon(t) && HasNoColon(o) ==> Normalized(o) == Normalized(t))
  {
    hide Run, StorageKey, HasNoColon, Normalized;
    var s := Run(Start(user), events);
    RunKeepsOrder(Start(user), events);
    var found := Lookup(s.memory, s.session, StorageKey(t), kind, works);
    if found.Some? && found.value.Payload? && found.value.origin.Some? {
      if HasNoColon(t) && HasNoColon(found.value.origin.value) {
        KeysAreInjective(t, found.value.origin.value);
      }
    }
  }

  // ----- clearing -----

  /** Clearing a user removes every entry of the user from both stores and no entry of a user that cannot clash. */
  lemma ClearRemovesExactly(s: State, user: string, t: Triple)
    ensures var c, key := Clear(s, user, true), StorageKey(t);
            (NormalizeKeyPart(t.user) == NormalizeKeyPart(user) ==> key !in c.memory && key !in c.session) &&
            (!MayClash(t.user, user) ==> Get(c.memory, key) == Get(s.memory, key) && Get(c.session, key) == Get(s.session, key))
  {
    hide NormalizeKeyPart, STORAGE_PREFIX, Extends;
    if NormalizeKeyPart(t.user) == NormalizeKeyPart(user) {
      OwnKeysAreFound(user, t);
    } else if !MayClash(t.user, user) && Finds(user, t) {
      FindsOnlyClashes(user, t);
    }
  }
}
