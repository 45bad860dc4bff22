/** The session cache: a map in memory, the browser's session store and the hooks' references, changed in place. */
module SessionCache {
  import opened Common
  import opened SessionKeys
  import opened SessionStores

  datatype RestoreState = Idle | Restored | Expired | Invalid | Unavailable

  /** `restore` gives nothing where the page's function throws; a page without one of the functions accepts all. */
  datatype Options<!T> = Options(version: int, initial: T, kind: Kind, restore: string -> Option<T>, validate: T -> bool)

  /** What a page makes of a stored value: nothing if it throws or refuses it. */
  function Accepted<T>(options: Options<T>, value: string): Option<T> {
    match options.restore(value)
    case None => None
    case Some(restored) => if options.validate(restored) then Some(restored) else None
  }

  class SessionCache {
    var memory: Store
    var session: Store
    var user: string
    var before: Option<string>
    var bumped: bool
    var hooks: map<nat, Hook>

    ghost function View(): State
      reads this
    {
      State(memory, session, user, before, bumped, hooks)
    }

    constructor (u: string)
      ensures View() == Start(u)
    {
      memory, session, user, before, bumped, hooks := map[], map[], u, None, false, map[];
    }

    /** Remove an entry from memory, and from the browser's store if it is kept and works there. */
    method Remove(key: string, kind: Kind, works: bool)
      modifies `memory, `session
      ensures View() == Forget(old(View()), key, kind, works)
    {
      memory := memory - {key};
      if kind == Session && works {
        session := session - {key};
      }
    }

    /** Read a value and who it is put down to; what is found but cannot be given back is removed. */
    method ReadStoredValue<T>(key: string, options: Options<T>, now: int, works: bool, available0: bool)
      returns (value: T, state: RestoreState, available: bool, authors: set<string>)
      modifies `memory, `session
      ensures var found := Lookup(old(memory), old(session), key, options.kind, works);
              var valid := found.Some? && found.value.Payload? && Accepted(options, found.value.value.text).Some?;
              View() == ReadAt(old(View()), key, options.version, options.kind, now, works, valid) &&
              (state == Restored <==> valid && Fresh(found.value, options.version, now)) &&
              (state == Restored ==> Accepted(options, found.value.value.text) == Some(value) &&
                                     authors == found.value.value.authors) &&
              (state != Restored ==> value == options.initial && authors == {}) &&
              (state == Idle || state == Unavailable <==> found.None?) &&
              (state == Expired <==> found.Some? && found.value.Payload? && found.value.version == options.version &&
                                     found.value.expiresAt <= now) &&
              (available <==> available0 && (options.kind == Memory || Readable(old(session), key, works))) &&
              (state == Idle ==> available) && (state == Unavailable ==> !available)
    {
      available, authors := available0, {};
      var found: Option<Stored>;
      if options.kind == Memory {
        found := Get(memory, key);
      } else if !Readable(session, key, works) {
        available := false;
        found := Get(memory, key);
      } else if key in session && !session[key].Null? {
        found := Some(session[key]);
      } else {
        found := None;
      }
      if found.None? {
        return options.initial, if available then Idle else Unavailable, available, {};
      }
      if !found.value.Payload? || found.value.version != options.version {
        Remove(key, options.kind, works);
        return options.initial, Invalid, available, {};
      }
      if found.value.expiresAt <= now {
        Remove(key, options.kind, works);
        return options.initial, Expired, available, {};
      }
      var restored := options.restore(found.value.value.text);
      if restored.None? || !options.validate(restored.value) {
        Remove(key, options.kind, works);
        return options.initial, Invalid, available, {};
      }
      return restored.value, Restored, available, found.value.value.authors;
    }

    /** A hook's own read: a value that is restored is restored to a text, or else the initial text is given. */
    method ReadText(key: string, version: int, kind: Kind, initial: string, now: int, works: bool, restored: Option<string>)
      returns (value: Val)
      modifies `memory, `session
      ensures View() == ReadAt(old(View()), key, version, kind, now, works, restored.Some?)
      ensures value == ValueAt(old(View()), key, version, kind, initial, now, works, restored)
    {
      var options := Options(version, initial, kind, (v: string) => restored, (v: string) => true);
      var text, _, _, authors := ReadStoredValue(key, options, now, works, true);
      value := Val(text, authors);
    }

    /** The hook's first render reads, and its reference starts with what was read. */
    method MountHook(id: nat, slot: Slot, version: int, kind: Kind, initial: string, now: int, works: bool,
                     restored: Option<string>)
      modifies this
      ensures View() == Step(old(View()), Mount(id, slot, version, kind, initial, now, works, restored))
    {
      hide StorageKey, ReadAt, ValueAt;
      if id in hooks { return; }
      var value := ReadText(KeyOf(user, slot), version, kind, initial, now, works, restored);
      hooks := hooks[id := Hook(slot, version, kind, initial, {user}, true, Rendered, value, value, None, None, false, None)];
    }

    /** The hook's two effects: its reference follows what is shown, and if it is due the state reads again. */
    method RunEffects(id: nat, same: bool, now: int, works: bool, restored: Option<string>)
      modifies this
      ensures View() == Step(old(View()), SessionStores.RunEffects(id, same, now, works, restored))
    {
      hide KeyOf, ReadAt, ValueAt;
      if id !in hooks || hooks[id].stage == Done || hooks[id].stage == Due { return; }
      var due := hooks[id].stage == Cleaned;
      var h := hooks[id].(stage := Done);
      if !(same && h.seen == Some(h.shown.text)) || h.held.text == h.shown.text {
        h := h.(held := h.shown, seen := Some(h.shown.text));
      }
      if due {
        var key := KeyOf(user, h.slot);
        var value := ReadText(key, h.version, h.kind, h.initial, now, works, restored);
        h := h.(queued := Some(value), reading := true);
      }
      hooks := hooks[id := h];
    }

    method PersistValue(p: Pending, now: int, works: bool)
      modifies `memory, `session
      ensures View() == Write(old(View()), p, now, works)
    {
      hide StorageKey;
      var key, payload := StorageKey(p.origin), Payload(p.version, now, now + p.ttl, p.value, Some(p.origin));
      memory := memory[key := payload];
      if p.kind == Session && works {
        session := session[key := payload];
      }
    }

    /**
     * A setter: bound to the key of the render that made it, whoever the present user is and whether or not the state
     * is still mounted. An earlier timer is cleared, and the value persisted now or by a new timer.
     */
    method SetValue(id: nat, maker: string, updater: bool, text: string, ttl: int, debounced: bool, now: int, works: bool)
      requires id in hooks && maker in hooks[id].users
      modifies this
      ensures View() == Step(old(View()), SessionStores.SetValue(id, maker, updater, text, ttl, debounced, now, works))
    {
      hide At, Write;
      var h := hooks[id];
      var value := Val(text, {maker} + if updater then h.held.authors else {});
      var p := Pending(h.version, ttl, value, h.kind, At(maker, h.slot));
      hooks := hooks[id := h.(held := value, queued := if h.mounted then Some(value) else None, reading := false,
                              pending := None)];
      if debounced {
        hooks := hooks[id := hooks[id].(pending := Some(p))];
      } else {
        PersistValue(p, now, works);
      }
    }

    /** A timer runs out: what is pending is persisted under the key it was scheduled for. */
    method FireTimer(id: nat, now: int, works: bool)
      requires id in hooks && hooks[id].pending.Some?
      modifies this
      ensures View() == Step(old(View()), Fire(id, now, works))
    {
      hide Write;
      var p := hooks[id].pending.value;
      hooks := hooks[id := hooks[id].(pending := None)];
      PersistValue(p, now, works);
    }

    /** A reset is bound to a key like a setter. */
    method ResetValue(id: nat, maker: string, works: bool)
      requires id in hooks && maker in hooks[id].users
      modifies this
      ensures View() == Step(old(View()), Reset(id, maker, works))
    {
      hide StorageKey;
      var h := hooks[id].(pending := None);
      Remove(KeyOf(maker, h.slot), h.kind, works);
      h := h.(held := Val(h.initial, {}));
      hooks := hooks[id := h.(queued := if h.mounted then Some(h.held) else None, reading := false)];
    }

    /** Remove a user's entries; the browser's keys are collected by their positions before any is removed. */
    method RemoveUser(u: string, works: bool)
      modifies `memory, `session
      ensures View() == Clear(old(View()), u, works)
    {
      hide UserPrefix;
      var prefix := UserPrefix(u);
      var inMemory := Listed(memory.Keys);
      var index := 0;
      while index < |inMemory|
        invariant 0 <= index <= |inMemory|
        invariant session == old(session)
        invariant memory == map k | k in old(memory) && !(prefix <= k && k in inMemory[..index]) :: old(memory)[k]
      {
        TakenSoFar(inMemory, index);
        if prefix <= inMemory[index] {
          memory := memory - {inMemory[index]};
        }
        index := index + 1;
      }
      assert inMemory[..index] == inMemory;
      assert memory == Without(old(memory), prefix);
      if works {
        var inSession := Listed(session.Keys);
        var keys: seq<string> := [];
        index := 0;
        while index < |inSession|
          invariant 0 <= index <= |inSession|
          invariant forall k :: k in keys <==> prefix <= k && k in inSession[..index]
          modifies {}
        {
          TakenSoFar(inSession, index);
          if prefix <= inSession[index] {
            keys := keys + [inSession[index]];
          }
          index := index + 1;
        }
        assert inSession[..index] == inSession;
        index := 0;
        while index < |keys|
          invariant 0 <= index <= |keys|
          invariant memory == Without(old(memory), prefix)
          invariant session == map k | k in old(session) && k !in keys[..index] :: old(session)[k]
        {
          TakenSoFar(keys, index);
          session := session - {keys[index]};
          index := index + 1;
        }
        assert keys[..index] == keys;
        assert session == Without(old(session), prefix);
      }
    }

    /** `clearAllForCurrentUser`, bound to the user of the render that made it, asks every state to read again. */
    method ClearAllFor(maker: string, works: bool)
      modifies this
      ensures View() == Step(old(View()), ClearAll(maker, works))
    {
      hide Clear;
      RemoveUser(maker, works);
      bumped := true;
    }

    /** The provider's effect, after those of the states: the user before is cleared. */
    method SettleUser(works: bool)
      requires AllRun(View())
      modifies this
      ensures View() == Step(old(View()), Settle(works))
    {
      hide Clear;
      if before.None? { return; }
      RemoveUser(before.value, works);
      before := None;
    }
  }

  /** A store's keys, in some order. */
  method Listed(keys: set<string>) returns (order: seq<string>)
    ensures forall k :: k in order <==> k in keys
  {
    order := [];
    var rest := keys;
    while rest != {}
      invariant forall k :: k in keys <==> k in order || k in rest
      decreases |rest|
    {
      var k :| k in rest;
      order, rest := order + [k], rest - {k};
    }
  }

  lemma TakenSoFar(keys: seq<string>, index: nat)
    requires index < |keys|
    ensures forall k :: k in keys[..index + 1] <==> k in keys[..index] || k == keys[index]
  {
    assert keys[..index + 1] == keys[..index] + [keys[index]];
  }
}
