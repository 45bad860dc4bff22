/** What a publish registers, when it completes, and what it leaves, in terms of the versions and files alone. */
module FrontendRegistration {
  import opened Common
  import opened FrontendDisk
  import opened FrontendPlans
  import opened FrontendSafety
  import opened FrontendCopies
  import opened FrontendOutcomes
  import opened FrontendRetry
  import opened FrontendResumption
  import opened FrontendRecovery
  import FrontendRollback
  import FrontendVerification
  import TextOrder

  /** Some version has the live HTML. */
  ghost predicate LiveIsRegistered(inv: Inventory, live: string) {
    exists n :: n in inv.versions && inv.versions[n].index == live
  }

  /** A version other than the candidate: its HTML and files stay, and it is stamped if it is live or had no stamp. */
  function Restamp(e: Entry, live: string, now: real): Entry {
    Entry(e.index, e.files, if e.index == live || e.retiredAt == None then Some(now) else e.retiredAt)
  }

  /** The rollback target: where the HTML changes, the last version by name that has the live HTML. */
  ghost predicate Targets(inv: Inventory, inv': Inventory, live: string, candidate: Entry) {
    if candidate.index == live then inv'.previous == inv.previous
    else
      inv'.previous in inv.versions && inv.versions[inv'.previous].index == live &&
      forall n :: n in inv.versions && inv.versions[n].index == live ==> TextOrder.Leq(n, inv'.previous)
  }

  /** The inventory a publish writes. */
  ghost predicate Registers(inv: Inventory, inv': Inventory, live: string, name: string, candidate: Entry, now: real) {
    && inv'.versions.Keys == inv.versions.Keys + {name}
    && inv'.versions[name] == candidate
    && (forall n :: n in inv.versions && n != name ==> inv'.versions[n] == Restamp(inv.versions[n], live, now))
    && Targets(inv, inv', live, candidate)
  }

  lemma LiveMatches(inv: Inventory, live: string)
    ensures Matching(inv.versions, live) != {} <==> LiveIsRegistered(inv, live)
  {
    if LiveIsRegistered(inv, live) {
      var n :| n in inv.versions && inv.versions[n].index == live;
      assert n in Matching(inv.versions, live);
    }
  }

  lemma RegisteredExactly(inv: Inventory, live: string, name: string, candidate: Entry, now: real)
    requires Matching(inv.versions, live) != {}
    ensures Registers(inv, Registered(inv, live, name, candidate, now), live, name, candidate, now)
  {
    hide TextOrder.Greatest;
    GreatestOf(Matching(inv.versions, live));
    var inv' := Registered(inv, live, name, candidate, now);
    forall n | n in inv.versions && n != name ensures inv'.versions[n] == Restamp(inv.versions[n], live, now) {
    }
  }

  /** There is only one such inventory. */
  lemma RegistersOne(inv: Inventory, a: Inventory, b: Inventory, live: string, name: string, candidate: Entry, now: real)
    requires Registers(inv, a, live, name, candidate, now) && Registers(inv, b, live, name, candidate, now)
    ensures a == b
  {
    hide Restamp;
    forall n | n in a.versions ensures a.versions[n] == b.versions[n] {
      assert n == name || n in inv.versions;
    }
    assert a.versions.Keys == b.versions.Keys;
    if a.previous != b.previous {
      TextOrder.Antisymmetric(a.previous, b.previous);
    }
  }

  /** The version of a proper build that is about to go live. */
  function NewVersion(b: Build): Entry
    requires b.index.Some?
  {
    Entry(b.index.value, b.names, None)
  }

  /** The candidate is a proper build, and some registered version has the live HTML. */
  ghost predicate CanRegister(d: Disk, root: map<string, Release>, name: string) {
    name in root && FrontendVerification.Proper(root[name].dist) &&
    d.inventory.Some? && d.index.Some? && LiveIsRegistered(d.inventory.value, d.index.value)
  }

  lemma CandidateExactly(root: map<string, Release>, name: string)
    ensures name in root && FrontendVerification.Proper(root[name].dist) ==>
              root[name].dist.index.Some? && Candidate(root, name) == Ok(NewVersion(root[name].dist))
    ensures !(name in root && FrontendVerification.Proper(root[name].dist)) ==> Candidate(root, name).Err?
  {
    hide BuildInventory, FrontendVerification.Proper;
    if name in root {
      FrontendVerification.ProperBuilds(root[name].dist);
      HasIndex(root[name].dist);
    }
  }

  /**
   * The disk of any publish that has got past its bootstrap, if it needed one, and has taken a step more: the inventory
   * differs from the one it found or recovered as `Registers` says.
   */
  lemma PublishRegisters(d: Disk, root: map<string, Release>, name: string, now: real, cut: nat)
    requires var boot := EnsureInventory(d, root, now);
             boot.result.Done? && CanRegister(Finish(d, boot), root, name) && cut > |boot.effects|
    ensures root[name].dist.index.Some?
    ensures var before := Finish(d, EnsureInventory(d, root, now));
            var after := Cut(d, Publish(d, root, name, now), cut);
            after.inventory.Some? &&
            Registers(before.inventory.value, after.inventory.value, before.index.value, name, NewVersion(root[name].dist), now)
  {
    hide EnsureInventory, Promote, Registered, Matching, Registers, LiveIsRegistered, FrontendVerification.Proper, Candidate;
    CandidateExactly(root, name);
    var boot := EnsureInventory(d, root, now);
    var before, candidate := Finish(d, boot), NewVersion(root[name].dist);
    LiveMatches(before.inventory.value, before.index.value);
    PublishStages(d, root, name, now, cut);
    FrontendRollback.ExecuteIsCut(d, Publish(d, root, name, now), cut);
    FrontendRollback.PromoteInventory(before, root, name, candidate, now, cut - |boot.effects|);
    RegisteredExactly(before.inventory.value, before.index.value, name, candidate, now);
  }

  /** Otherwise a publish over an inventory changes nothing and reports what is wrong. */
  lemma RefusedExactly(d: Disk, root: map<string, Release>, name: string, now: real)
    requires d.inventory.Some? && !CanRegister(d, root, name)
    ensures Publish(d, root, name, now).effects == [] && Publish(d, root, name, now).result.Raised?
    ensures name in root && FrontendVerification.Proper(root[name].dist) ==>
              Publish(d, root, name, now).result == Raised(if d.index.None? then IndexMissing else OutsideInventory)
    ensures name !in root ==> Publish(d, root, name, now).result == Raised(NoAssets)
    ensures name in root && !FrontendVerification.Proper(root[name].dist) ==>
              Publish(d, root, name, now).result == Raised(FrontendVerification.DefectOf(root[name].dist))
  {
    if name in root {
      FrontendVerification.BrokenBuilds(root[name].dist);
    }
    hide FrontendVerification.DefectOf, BuildInventory, FrontendVerification.Proper, Matching, LiveIsRegistered, Registered, RollOut;
    CandidateExactly(root, name);
    if d.index.Some? {
      LiveMatches(d.inventory.value, d.index.value);
    }
  }

  // ----- resuming -----

  /** A publish sees to the files of versions that are live, the rollback target, unstamped or stamped in seven days. */
  ghost predicate Promised(inv: Inventory, k: string, live: string, now: real) {
    k in inv.versions &&
    (inv.versions[k].index == live || k == inv.previous || inv.versions[k].retiredAt == None ||
     inv.versions[k].retiredAt.value >= now - SEVEN_DAYS)
  }

  /** The order of the loop: by name, but a name that is new to the inventory comes last. */
  predicate Before(versions: map<string, Entry>, name: string, k: string, m: string) {
    if name in versions then TextOrder.Leq(k, m)
    else m == name || (k != name && TextOrder.Leq(k, m))
  }

  /** The first promised version that lists the file: its release is asked for it. */
  ghost predicate Asked(versions: map<string, Entry>, inv: Inventory, name: string, live: string, now: real, k: string, f: string) {
    Promised(inv, k, live, now) && f in inv.versions[k].files &&
    forall m :: Promised(inv, m, live, now) && f in inv.versions[m].files ==> Before(versions, name, k, m)
  }

  lemma SuppliesExactly(inv: Inventory, live: string, now: real, k: string, f: string)
    ensures Supplies(inv, live, now, k, f) <==> Promised(inv, k, live, now) && f in inv.versions[k].files
  {
  }

  lemma AskedIsFirst(versions: map<string, Entry>, inv: Inventory, name: string, live: string, now: real, f: string, k: string)
    requires inv.versions.Keys == versions.Keys + {name}
    requires (forall n :: n in KeysWith(versions, name) ==> n in inv.versions) && Supplier(inv, live, now, KeysWith(versions, name), f) == Some(k)
    ensures Asked(versions, inv, name, live, now, k, f)
  {
    assert forall m :: Promised(inv, m, live, now) ==> m in inv.versions;
    hide Promised, Supplies, SortedNames, TextOrder.Leq, Supplier, Supported;
    var keys := KeysWith(versions, name);
    SupplierFacts(inv, live, now, keys, f);
    SuppliesExactly(inv, live, now, k, f);
    var sorted := SortedNames(versions);
    forall m | Promised(inv, m, live, now) && f in inv.versions[m].files ensures Before(versions, name, k, m) {
      SuppliesExactly(inv, live, now, m, f);
      if name in versions {
        assert keys == sorted;
        LoopIsAscending(versions);
        SupplierIsLeast(inv, live, now, sorted, f, m);
      } else {
        SupplierAppend(inv, live, now, sorted, name, f);
        SupplierFacts(inv, live, now, sorted, f);
        if m != name {
          LoopIsAscending(versions);
          SupplierIsLeast(inv, live, now, sorted, f, m);
        }
      }
    }
  }

  lemma PromisedIsRegistered(inv: Inventory, k: string, live: string, now: real)
    ensures Promised(inv, k, live, now) ==> k in inv.versions
  {
  }

  lemma LoopIsAscending(versions: map<string, Entry>)
    ensures TextOrder.Ascending(SortedNames(versions))
  {
  }

  lemma BeforeBoth(versions: map<string, Entry>, name: string, k: string, m: string)
    requires Before(versions, name, k, m) && Before(versions, name, m, k)
    ensures k == m
  {
    hide TextOrder.Leq;
    if name in versions || (k != name && m != name) {
      TextOrder.Antisymmetric(k, m);
    }
  }

  /** The loop asks exactly that version. */
  lemma SupplierExactly(versions: map<string, Entry>, inv: Inventory, name: string, live: string, now: real, f: string)
    requires inv.versions.Keys == versions.Keys + {name}
    ensures forall n :: n in KeysWith(versions, name) ==> n in inv.versions
    ensures forall k :: Asked(versions, inv, name, live, now, k, f) <==>
                        Supplier(inv, live, now, KeysWith(versions, name), f) == Some(k)
  {
    hide Promised, Supplies, SortedNames, Before, Supplier;
    var keys := KeysWith(versions, name);
    SupplierFacts(inv, live, now, keys, f);
    var first := Supplier(inv, live, now, keys, f);
    if first.Some? {
      AskedIsFirst(versions, inv, name, live, now, f, first.value);
    }
    forall k | Asked(versions, inv, name, live, now, k, f) ensures first == Some(k) {
      SuppliesExactly(inv, live, now, k, f);
      PromisedIsRegistered(inv, k, live, now);
      assert k in keys;
      BeforeBoth(versions, name, k, first.value);
    }
  }

  // ----- the whole publish -----

  /** The files that are asked for are there. */
  ghost predicate AskedAreThere(assets: map<string, Bytes>, root: map<string, Release>, versions: map<string, Entry>,
                                inv: Inventory, name: string, live: string, now: real)
  {
    forall k, f :: f !in assets && Asked(versions, inv, name, live, now, k, f) ==> f in BytesOf(root, k)
  }

  /** Each absent file that is asked of a release is there, and nothing conflicts with the candidate. */
  ghost predicate CanComplete(d: Disk, root: map<string, Release>, name: string, inv: Inventory, now: real)
    requires d.inventory.Some? && d.index.Some? && name in root
  {
    var versions, live, b := d.inventory.value.versions, d.index.value, root[name].dist;
    AskedAreThere(d.assets, root, versions, inv, name, live, now) &&
    (forall f :: f in b.names ==> f in b.bytes && (f in d.assets ==> d.assets[f] == b.bytes[f])) &&
    forall k, f :: f in b.names && f !in d.assets && Asked(versions, inv, name, live, now, k, f) ==>
      Look(BytesOf(root, k), f) == Look(b.bytes, f)
  }

  /** What is served of a file when a publish has completed. */
  ghost predicate FileAsPromised(d: Disk, e: Disk, root: map<string, Release>, name: string, inv: Inventory, now: real, f: string)
    requires d.inventory.Some? && d.index.Some? && name in root
  {
    var versions, live, b := d.inventory.value.versions, d.index.value, root[name].dist;
    (f in b.names ==> Look(e.assets, f) == Look(b.bytes, f)) &&
    (f !in b.names && f in d.assets ==> Look(e.assets, f) == Look(d.assets, f)) &&
    (f !in b.names && f !in d.assets ==>
       (forall k :: Asked(versions, inv, name, live, now, k, f) ==> Look(e.assets, f) == Look(BytesOf(root, k), f)) &&
       ((forall k :: !Asked(versions, inv, name, live, now, k, f)) ==> f !in e.assets))
  }

  /** A completed publish: the HTML, the inventory and every file. */
  ghost predicate Completed(d: Disk, e: Disk, root: map<string, Release>, name: string, inv: Inventory, now: real)
    requires d.inventory.Some? && d.index.Some? && name in root
  {
    e.index == root[name].dist.index && e.inventory == Some(inv) && forall f :: FileAsPromised(d, e, root, name, inv, now, f)
  }

  lemma AvailableExactly(assets: map<string, Bytes>, root: map<string, Release>, versions: map<string, Entry>,
                         inv: Inventory, name: string, live: string, now: real)
    requires inv.versions.Keys == versions.Keys + {name}
    ensures forall n :: n in KeysWith(versions, name) ==> n in inv.versions
    ensures AskedAreThere(assets, root, versions, inv, name, live, now) <==>
            Available(assets, root, inv, live, now, KeysWith(versions, name))
  {
    var keys := KeysWith(versions, name);
    hide Asked, Supplier, KeysWith, BytesOf;
    SupplierExactly(versions, inv, name, live, now, "");
    if AskedAreThere(assets, root, versions, inv, name, live, now) {
      forall f | f !in assets && Supplier(inv, live, now, keys, f).Some?
        ensures f in BytesOf(root, Supplier(inv, live, now, keys, f).value)
      {
        SupplierExactly(versions, inv, name, live, now, f);
      }
    }
    if Available(assets, root, inv, live, now, keys) {
      forall k, f | f !in assets && Asked(versions, inv, name, live, now, k, f) ensures f in BytesOf(root, k) {
        SupplierExactly(versions, inv, name, live, now, f);
      }
    }
  }

  /** The file of the candidate, if it is served or asked of another release, is the candidate's there. */
  lemma AgreesExactly(assets: map<string, Bytes>, root: map<string, Release>, versions: map<string, Entry>,
                      inv: Inventory, name: string, live: string, now: real, bytes: map<string, Bytes>, f: string)
    requires inv.versions.Keys == versions.Keys + {name} && AskedAreThere(assets, root, versions, inv, name, live, now)
    requires f in bytes
    ensures forall n :: n in KeysWith(versions, name) ==> n in inv.versions
    ensures var filled := Filled(assets, root, inv, live, now, KeysWith(versions, name), f);
            (filled.Some? ==> filled == Look(bytes, f)) <==>
            (f in assets ==> assets[f] == bytes[f]) &&
            forall k :: f !in assets && Asked(versions, inv, name, live, now, k, f) ==> Look(BytesOf(root, k), f) == Look(bytes, f)
  {
    SupplierExactly(versions, inv, name, live, now, f);
    hide Asked, Supplier, KeysWith, BytesOf;
  }

  lemma CanCompleteExactly(d: Disk, root: map<string, Release>, name: string, inv: Inventory, now: real)
    requires d.inventory.Some? && d.index.Some? && name in root
    requires inv.versions.Keys == d.inventory.value.versions.Keys + {name}
    ensures (forall n :: n in KeysWith(d.inventory.value.versions, name) ==> n in inv.versions)
    ensures CanComplete(d, root, name, inv, now) <==>
            && Available(d.assets, root, inv, d.index.value, now, KeysWith(d.inventory.value.versions, name))
            && Agreeable(d.assets, root, inv, d.index.value, now, KeysWith(d.inventory.value.versions, name),
                         root[name].dist.bytes, root[name].dist.names)
  {
    var versions, live, b := d.inventory.value.versions, d.index.value, root[name].dist;
    AvailableExactly(d.assets, root, versions, inv, name, live, now);
    hide Asked, Supplier, KeysWith, BytesOf, Available, Filled;
    if AskedAreThere(d.assets, root, versions, inv, name, live, now) {
      forall f | f in b.bytes
        ensures var filled := Filled(d.assets, root, inv, live, now, KeysWith(versions, name), f);
                (filled.Some? ==> filled == Look(b.bytes, f)) <==>
                (f in d.assets ==> d.assets[f] == b.bytes[f]) &&
                forall k :: f !in d.assets && Asked(versions, inv, name, live, now, k, f) ==>
                              Look(BytesOf(root, k), f) == Look(b.bytes, f)
      {
        AgreesExactly(d.assets, root, versions, inv, name, live, now, b.bytes, f);
      }
      hide Look;
    }
  }

  lemma FileCompleted(d: Disk, e: Disk, root: map<string, Release>, name: string, inv: Inventory, now: real, f: string)
    requires d.inventory.Some? && d.index.Some? && name in root
    requires inv.versions.Keys == d.inventory.value.versions.Keys + {name}
    requires forall n :: n in KeysWith(d.inventory.value.versions, name) ==> n in inv.versions
    requires Look(e.assets, f) ==
             if f in root[name].dist.names then Look(root[name].dist.bytes, f)
             else Filled(d.assets, root, inv, d.index.value, now, KeysWith(d.inventory.value.versions, name), f)
    ensures FileAsPromised(d, e, root, name, inv, now, f)
  {
    SupplierExactly(d.inventory.value.versions, inv, name, d.index.value, now, f);
    hide Asked, Supplier, KeysWith, BytesOf;
  }

  /** A publish over an inventory: when it completes, and what it then leaves. */
  lemma PublishExactly(d: Disk, root: map<string, Release>, name: string, now: real, inv: Inventory)
    requires CanRegister(d, root, name)
    requires root[name].dist.index.Some? &&
             Registers(d.inventory.value, inv, d.index.value, name, NewVersion(root[name].dist), now)
    ensures Publish(d, root, name, now).result.Done? <==> CanComplete(d, root, name, inv, now)
    ensures Publish(d, root, name, now).result.Done? ==>
              Completed(d, Finish(d, Publish(d, root, name, now)), root, name, inv, now)
  {
    var versions, live, b := d.inventory.value.versions, d.index.value, root[name].dist;
    LiveMatches(d.inventory.value, live);
    CandidateExactly(root, name);
    RegisteredExactly(d.inventory.value, live, name, NewVersion(b), now);
    RegistersOne(d.inventory.value, inv, Registered(d.inventory.value, live, name, NewVersion(b), now), live, name,
                 NewVersion(b), now);
    PublishOverInventory(d, root, name, now);
    PromoteIsRollOut(d, root, name, NewVersion(b), now);
    var keys := KeysWith(versions, name);
    RollOutExactly(Apply(d, Save(inv)), root, inv, live, now, keys, b.bytes, NewVersion(b));
    CanCompleteExactly(d, root, name, inv, now);
    hide Registered, Matching, LiveIsRegistered, FrontendVerification.Proper, Promote, RollOut, CanComplete, Available, Agreeable,
         Publish, Candidate, KeysWith, FileAsPromised, Filled, Registers;
    var e := Finish(d, Publish(d, root, name, now));
    if Publish(d, root, name, now).result.Done? {
      forall f ensures FileAsPromised(d, e, root, name, inv, now, f) {
        FileCompleted(d, e, root, name, inv, now, f);
      }
    }
  }
}
