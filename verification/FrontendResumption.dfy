/** An interrupted publish, retried, ends with the disk the uninterrupted publish would have left. */
module FrontendResumption {
  import opened Common
  import opened FrontendDisk
  import opened FrontendPlans
  import opened FrontendSafety
  import opened FrontendCopies
  import opened FrontendOutcomes
  import opened FrontendRetry
  import TextOrder

  /** The version may be asked for the file. */
  ghost predicate Supplies(inv: Inventory, current: string, now: real, k: string, f: string) {
    k in inv.versions && Supported(inv, k, current, now) && f in inv.versions[k].files
  }

  lemma {:induction false} SupplierFacts(inv: Inventory, current: string, now: real, keys: seq<string>, f: string)
    requires forall k :: k in keys ==> k in inv.versions
    ensures match Supplier(inv, current, now, keys, f)
            case Some(k) => k in keys && Supplies(inv, current, now, k, f)
            case None => forall k :: k in keys ==> !Supplies(inv, current, now, k, f)
    decreases |keys|
  {
    if keys != [] {
      SupplierFacts(inv, current, now, keys[1..], f);
    }
  }

  lemma {:induction false} SupplierIsLeast(inv: Inventory, current: string, now: real, keys: seq<string>, f: string, k: string)
    requires forall k :: k in keys ==> k in inv.versions
    requires TextOrder.Ascending(keys)
    requires k in keys && Supplies(inv, current, now, k, f)
    ensures Supplier(inv, current, now, keys, f).Some?
    ensures TextOrder.Leq(Supplier(inv, current, now, keys, f).value, k)
    decreases |keys|
  {
    hide Supported;
    if k == keys[0] {
      TextOrder.Total(k, k);
    } else {
      assert k in keys[1..];
      var j :| 0 < j < |keys| && keys[j] == k;
      assert TextOrder.Less(keys[0], keys[j]);
      SupplierIsLeast(inv, current, now, keys[1..], f, k);
    }
  }

  lemma {:induction false} SupplierAppend(inv: Inventory, current: string, now: real, keys: seq<string>, name: string, f: string)
    requires forall k :: k in keys ==> k in inv.versions
    requires name in inv.versions
    ensures (forall k :: k in keys + [name] ==> k in inv.versions) &&
            Supplier(inv, current, now, keys + [name], f) ==
            if Supplier(inv, current, now, keys, f).Some? then Supplier(inv, current, now, keys, f)
            else if Supplies(inv, current, now, name, f) then Some(name) else None
    decreases |keys|
  {
    hide Supported;
    if keys != [] {
      assert (keys + [name])[1..] == keys[1..] + [name];
      SupplierAppend(inv, current, now, keys[1..], name, f);
    } else {
      assert keys + [name] == [name];
    }
  }

  /**
   * A reloaded inventory lists the candidate in its place instead of last. The loop may then ask the
   * candidate earlier, and otherwise asks the same version as before.
   */
  lemma ReloadedOrder(versions: map<string, Entry>, inv: Inventory, name: string, current: string, now: real, f: string)
    requires inv.versions.Keys == versions.Keys + {name}
    ensures var before := Supplier(inv, current, now, KeysWith(versions, name), f);
            var after := Supplier(inv, current, now, KeysWith(inv.versions, name), f);
            && (before.Some? <==> after.Some?)
            && (after.Some? && after.value != name ==> before == after)
  {
    hide Supported, Supplier;
    var sorted := SortedNames(versions);
    var reloaded := SortedNames(inv.versions);
    assert KeysWith(inv.versions, name) == reloaded;
    if name in versions {
      assert inv.versions.Keys == versions.Keys;
      assert reloaded == sorted == KeysWith(versions, name);
    } else {
      SupplierAppend(inv, current, now, sorted, name, f);
      SupplierFacts(inv, current, now, sorted, f);
      SupplierFacts(inv, current, now, reloaded, f);
      var after := Supplier(inv, current, now, reloaded, f);
      var first := Supplier(inv, current, now, sorted, f);
      if after.Some? && after.value != name {
        SupplierIsLeast(inv, current, now, sorted, f, after.value);
        SupplierIsLeast(inv, current, now, reloaded, f, first.value);
        TextOrder.Antisymmetric(after.value, first.value);
      }
    }
  }

  /** Registering the same candidate again, at the same time, over the same HTML, changes nothing. */
  lemma RegisteredAgain(inv: Inventory, current: string, name: string, candidate: Entry, now: real)
    requires Matching(inv.versions, current) != {} && candidate.retiredAt.None?
    requires name in inv.versions ==> inv.versions[name].index == candidate.index
    ensures var inv' := Registered(inv, current, name, candidate, now);
            Matching(inv'.versions, current) != {} && Registered(inv', current, name, candidate, now) == inv'
  {
    hide TextOrder.Greatest;
    var inv' := Registered(inv, current, name, candidate, now);
    var n :| n in Matching(inv.versions, current);
    assert n in Matching(inv'.versions, current);
    if current != candidate.index {
      assert Matching(inv'.versions, current) == Matching(inv.versions, current);
    }
    assert Retire(inv'.versions, current, now)[name := candidate] == inv'.versions;
  }

  lemma {:induction false} AddsSuffix(d: Disk, es: seq<Effect>, names: set<string>, k: nat)
    requires Adds(d, es, names) && k <= |es|
    ensures Adds(ApplyAll(d, es[..k]), es[k..], names)
    decreases k
  {
    if k > 0 {
      AddsSuffix(Apply(d, es[0]), es[1..], names, k - 1);
      assert es[..k][0] == es[0] && es[..k][1..] == es[1..][..k - 1] && es[k..] == es[1..][k - 1..];
    } else {
      assert es[..0] == [];
    }
  }

  /** A disk on the way through additions lies between the first and the last. */
  lemma OnTheWay(d: Disk, es: seq<Effect>, names: set<string>, k: nat)
    requires Adds(d, es, names) && k <= |es|
    ensures var d' := ApplyAll(d, es[..k]);
            && d'.inventory == d.inventory && d'.index == d.index
            && Grows(d, d') && Grows(d', ApplyAll(d, es))
  {
    AddsPrefix(d, es, names, k);
    AddsGrow(d, es[..k], names);
    AddsSuffix(d, es, names, k);
    AddsGrow(ApplyAll(d, es[..k]), es[k..], names);
    ApplyConcat(d, es[..k], es[k..]);
    assert es[..k] + es[k..] == es;
  }

  /** What a retried roll-out asks for agrees with what the completed one left. */
  lemma RetryAgrees(d1: Disk, d': Disk, root: map<string, Release>, inv: Inventory, versions: map<string, Entry>,
                    current: string, now: real, name: string, candidate: Entry, end: Disk)
    requires inv.versions.Keys == versions.Keys + {name} && inv.versions[name] == candidate
    requires var p := RollOut(d1, root, inv, current, now, KeysWith(versions, name), BytesOf(root, name), candidate);
             p.result.Done? && end == Finish(d1, p)
    requires Grows(d1, d') && Grows(d', end)
    ensures var p := RollOut(d', root, inv, current, now, KeysWith(inv.versions, name), BytesOf(root, name), candidate);
            p.result.Done? && Finish(d', p) == Disk(d'.inventory, end.index, end.assets)
  {
    hide RollOut, Supplier, KeysWith, Supported, BytesOf;
    var keys, keys' := KeysWith(versions, name), KeysWith(inv.versions, name);
    var source := BytesOf(root, name);
    RollOutExactly(d1, root, inv, current, now, keys, source, candidate);
    forall f | f in candidate.files ensures f in source && Look(end.assets, f) == Look(source, f) {
    }
    forall f | f !in d'.assets && Supplier(inv, current, now, keys', f).Some?
      ensures var k := Supplier(inv, current, now, keys', f).value;
              f in BytesOf(root, k) && Look(end.assets, f) == Some(BytesOf(root, k)[f])
    {
      ReloadedOrder(versions, inv, name, current, now, f);
      SupplierFacts(inv, current, now, keys', f);
      assert f !in d1.assets;
      assert Look(end.assets, f) == if f in candidate.files then Look(source, f)
                                    else Filled(d1.assets, root, inv, current, now, keys, f);
    }
    forall f | f !in d'.assets && Supplier(inv, current, now, keys', f).None? && f !in candidate.files
      ensures f !in end.assets
    {
      ReloadedOrder(versions, inv, name, current, now, f);
      assert f !in d1.assets;
      assert Look(end.assets, f) == Filled(d1.assets, root, inv, current, now, keys, f);
    }
    RollOutReaches(d', root, inv, current, now, keys', source, candidate, end.assets);
  }

  lemma PromoteIsRollOut(d: Disk, root: map<string, Release>, name: string, candidate: Entry, now: real)
    requires d.inventory.Some? && d.index.Some? && Matching(d.inventory.value.versions, d.index.value) != {}
    ensures var inv := Registered(d.inventory.value, d.index.value, name, candidate, now);
            var d1 := Apply(d, Save(inv));
            var p := Promote(d, root, name, candidate, now);
            (forall k :: k in KeysWith(d.inventory.value.versions, name) ==> k in inv.versions) &&
            var r := RollOut(d1, root, inv, d.index.value, now, KeysWith(d.inventory.value.versions, name),
                             BytesOf(root, name), candidate);
            && p.effects == [Save(inv)] + r.effects && p.result == r.result
            && Finish(d, p) == Finish(d1, r)
  {
    hide RollOut, Registered, Matching, KeysWith;
    var inv := Registered(d.inventory.value, d.index.value, name, candidate, now);
    RegisteredKeys(d.inventory.value, d.index.value, name, candidate, now);
    var r := RollOut(Apply(d, Save(inv)), root, inv, d.index.value, now, KeysWith(d.inventory.value.versions, name),
                     BytesOf(root, name), candidate);
    ApplyConcat(d, [Save(inv)], r.effects);
    ExecuteOne(d, Save(inv), 1);
  }

  lemma PromoteNeeds(d: Disk, root: map<string, Release>, name: string, candidate: Entry, now: real)
    requires Promote(d, root, name, candidate, now).result.Done?
    ensures d.inventory.Some? && d.index.Some? && Matching(d.inventory.value.versions, d.index.value) != {}
  {
  }

  /** A cut of a step, some additions and a switch, short of the switch. */
  lemma CutShort(d: Disk, save: Effect, adds: seq<Effect>, switch: Effect, names: set<string>, k: nat)
    requires save.Save? && switch.Switch? && Adds(Apply(d, save), adds, names) && 1 <= k <= 1 + |adds|
    ensures var es := [save] + (adds + [switch]);
            var d' := ApplyAll(d, es[..k]);
            && d'.inventory == Some(save.inventory) && d'.index == d.index
            && Grows(Apply(d, save), d') && Grows(d', ApplyAll(d, es))
  {
    hide Grows;
    var es := [save] + (adds + [switch]);
    assert es[..k] == [save] + adds[..k - 1];
    ApplyConcat(d, [save], adds[..k - 1]);
    ApplyConcat(d, [save], adds + [switch]);
    ExecuteOne(d, save, 1);
    OnTheWay(Apply(d, save), adds, names, k - 1);
    ApplyConcat(Apply(d, save), adds, [switch]);
    ExecuteOne(ApplyAll(Apply(d, save), adds), switch, 1);
    var end := ApplyAll(Apply(d, save), adds);
    GrowsIgnoresIndex(ApplyAll(d, es[..k]), end, Apply(end, switch));
  }

  lemma GrowsIgnoresIndex(d: Disk, d1: Disk, d2: Disk)
    requires Grows(d, d1) && d2.assets == d1.assets
    ensures Grows(d, d2)
  {
  }

  /** A publish cut after its registration has registered, and has served some of what it was to serve. */
  lemma CutPromote(d: Disk, root: map<string, Release>, name: string, candidate: Entry, now: real, k: nat)
    requires Promote(d, root, name, candidate, now).result.Done?
    requires 1 <= k < |Promote(d, root, name, candidate, now).effects|
    ensures d.inventory.Some? && d.index.Some? && Matching(d.inventory.value.versions, d.index.value) != {}
    ensures var inv := Registered(d.inventory.value, d.index.value, name, candidate, now);
            var p := Promote(d, root, name, candidate, now);
            var d' := ApplyAll(d, p.effects[..k]);
            && d'.inventory == Some(inv) && d'.index == d.index
            && Grows(Apply(d, Save(inv)), d') && Grows(d', Finish(d, p))
  {
    hide RollOut, Registered, KeysWith, Matching, BytesOf, FilesOf, Promote, Grows, Adds, ApplyAll;
    PromoteNeeds(d, root, name, candidate, now);
    var versions, current := d.inventory.value.versions, d.index.value;
    var inv := Registered(d.inventory.value, current, name, candidate, now);
    PromoteIsRollOut(d, root, name, candidate, now);
    var names := FilesOf(inv.versions, inv.versions.Keys) + FileSet(candidate.files);
    var adds := RollOutShape(Apply(d, Save(inv)), root, inv, current, now, KeysWith(versions, name),
                             BytesOf(root, name), candidate);
    CutShort(d, Save(inv), adds, Switch(candidate.index), names, k);
  }

  /** Cut after its registration and retried, the second half of a publish ends where it would have. */
  lemma PromoteResumes(d: Disk, root: map<string, Release>, name: string, candidate: Entry, now: real, k: nat)
    requires candidate.retiredAt.None? && Promote(d, root, name, candidate, now).result.Done?
    requires d.inventory.Some? && name in d.inventory.value.versions ==>
               d.inventory.value.versions[name].index == candidate.index
    requires 1 <= k < |Promote(d, root, name, candidate, now).effects|
    ensures var p := Promote(d, root, name, candidate, now);
            var d' := ApplyAll(d, p.effects[..k]);
            var p' := Promote(d', root, name, candidate, now);
            d'.inventory.Some? && p'.result.Done? && Finish(d', p') == Finish(d, p)
  {
    hide RollOut, Registered, KeysWith, Matching, BytesOf, Promote, Grows;
    CutPromote(d, root, name, candidate, now, k);
    var versions, current := d.inventory.value.versions, d.index.value;
    var inv := Registered(d.inventory.value, current, name, candidate, now);
    var p := Promote(d, root, name, candidate, now);
    var d' := ApplyAll(d, p.effects[..k]);
    RegisteredKeys(d.inventory.value, current, name, candidate, now);
    RegisteredAgain(d.inventory.value, current, name, candidate, now);
    PromoteIsRollOut(d, root, name, candidate, now);
    assert Apply(d', Save(inv)) == d';
    RetryAgrees(Apply(d, Save(inv)), d', root, inv, versions, current, now, name, candidate, Finish(d, p));
    RegisteredKeys(inv, current, name, candidate, now);
    PromoteIsRollOut(d', root, name, candidate, now);
    RollOutExactly(Apply(d, Save(inv)), root, inv, current, now, KeysWith(versions, name), BytesOf(root, name), candidate);
  }

  /** A recovered version is the build of its release, retired at the time of the bootstrap. */
  ghost predicate Recovered(root: map<string, Release>, versions: map<string, Entry>, now: real) {
    forall n :: n in versions ==>
      && n in root
      && versions[n].retiredAt == Some(now)
      && BuildInventory(root[n].dist) == Ok(versions[n].(retiredAt := None))
  }

  lemma {:induction false} RecoverIsRecovered(root: map<string, Release>, keys: seq<string>, current: string, now: real,
                                              found: map<string, Entry>)
    requires forall k :: k in keys ==> k in root
    requires Recovered(root, found, now)
    ensures var r := Recover(root, keys, current, now, found);
            r.Ok? ==> Recovered(root, r.value, now)
    decreases |keys|
  {
    hide BuildInventory;
    if keys != [] {
      var seen := Examine(root[keys[0]], current, now);
      if seen.Ok? {
        assert Recovered(root, Add(found, keys[0], seen.value), now) by {
          InventoriesStartUnretired(root[keys[0]].dist);
        }
        RecoverIsRecovered(root, keys[1..], current, now, Add(found, keys[0], seen.value));
      }
    }
  }

  lemma InventoriesStartUnretired(b: Build)
    ensures BuildInventory(b).Ok? ==> BuildInventory(b).value.retiredAt.None? && BuildInventory(b).value.files == b.names
  {
  }

  /** The recovery copies complete only with every recovered version in place. */
  lemma {:induction false} CopyVersionsCarries(d: Disk, root: map<string, Release>, versions: map<string, Entry>, keys: seq<string>)
    requires forall k :: k in keys ==> k in versions
    requires CopyVersions(d, root, versions, keys).result.Done?
    ensures forall k :: k in keys ==>
              Carries(Finish(d, CopyVersions(d, root, versions, keys)), BytesOf(root, k), versions[k].files)
    decreases |keys|
  {
    hide Copy, BytesOf;
    if keys != [] {
      var names := FilesOf(versions, versions.Keys) + FileSet(versions[keys[0]].files);
      var p := Copy(d, BytesOf(root, keys[0]), versions[keys[0]].files);
      var rest := CopyVersions(Finish(d, p), root, versions, keys[1..]);
      CopyFacts(d, BytesOf(root, keys[0]), versions[keys[0]].files, names);
      CopyVersionsFacts(Finish(d, p), root, versions, keys[1..], names);
      AddsGrow(Finish(d, p), rest.effects, names);
      FinishThen(d, p, rest);
      CopyVersionsCarries(Finish(d, p), root, versions, keys[1..]);
    }
  }

  /** A completed bootstrap: what it registers, and the copies that follow. */
  lemma BootstrapParts(d: Disk, root: map<string, Release>, now: real) returns (inv: Inventory, copies: Plan)
    requires Bootstrap(d, root, now).result.Done?
    ensures d.index.Some?
    ensures Matching(inv.versions, d.index.value) != {} && Recovered(root, inv.versions, now)
    ensures copies == CopyVersions(Apply(d, Save(inv)), root, inv.versions, SortedNames(inv.versions))
    ensures copies.result.Done? && Bootstrap(d, root, now).effects == [Save(inv)] + copies.effects
  {
    hide SortedNames, TextOrder.Greatest, Recover, CopyVersions, Matching, BuildInventory;
    assert Recovered(root, map[], now);
    RecoverIsRecovered(root, SortedNames(root), d.index.value, now, map[]);
    var versions := Recover(root, SortedNames(root), d.index.value, now, map[]).value;
    inv := Inventory(versions, TextOrder.Greatest(Matching(versions, d.index.value)));
    copies := CopyVersions(Apply(d, Save(inv)), root, versions, SortedNames(versions));
  }

  /** A bootstrap cut after its registration has registered, and has served some of what it recovers. */
  lemma CutBootstrap(d: Disk, root: map<string, Release>, now: real, k: nat)
    requires Bootstrap(d, root, now).result.Done?
    requires 1 <= k <= |Bootstrap(d, root, now).effects|
    ensures var p := Bootstrap(d, root, now);
            var d1, d' := Finish(d, p), ApplyAll(d, p.effects[..k]);
            && d1.inventory.Some? && d'.inventory == d1.inventory
            && d.index.Some? && d'.index == d1.index == d.index
            && Grows(d', d1)
            && Matching(d1.inventory.value.versions, d.index.value) != {}
            && Recovered(root, d1.inventory.value.versions, now)
            && (forall n :: n in d1.inventory.value.versions ==>
                  Carries(d1, BytesOf(root, n), d1.inventory.value.versions[n].files))
            && (forall f :: f in d1.assets && f !in d'.assets ==>
                  f in FilesOf(d1.inventory.value.versions, d1.inventory.value.versions.Keys))
  {
    hide SortedNames, CopyVersions, FilesOf, BytesOf, Matching, Carries, Bootstrap, Recovered;
    var inv, copies := BootstrapParts(d, root, now);
    var p := Bootstrap(d, root, now);
    var d0 := Apply(d, Save(inv));
    var names := FilesOf(inv.versions, inv.versions.Keys);
    CopyVersionsFacts(d0, root, inv.versions, SortedNames(inv.versions), names);
    CopyVersionsCarries(d0, root, inv.versions, SortedNames(inv.versions));
    AddsGrow(d0, copies.effects, names);
    assert p.effects[..k] == [Save(inv)] + copies.effects[..k - 1];
    ApplyConcat(d, [Save(inv)], copies.effects[..k - 1]);
    ApplyConcat(d, [Save(inv)], copies.effects);
    ExecuteOne(d, Save(inv), 1);
    OnTheWay(d0, copies.effects, names, k - 1);
    AddsOnlyListed(d0, copies.effects, names, k - 1);
  }

  lemma {:induction false} AddsOnlyNames(d: Disk, es: seq<Effect>, names: set<string>)
    requires Adds(d, es, names)
    ensures forall f :: f in ApplyAll(d, es).assets && f !in d.assets ==> f in names
    decreases |es|
  {
    if es != [] {
      AddsOnlyNames(Apply(d, es[0]), es[1..], names);
    }
  }

  lemma AddsOnlyListed(d: Disk, es: seq<Effect>, names: set<string>, k: nat)
    requires Adds(d, es, names) && k <= |es|
    ensures forall f :: f in ApplyAll(d, es).assets && f !in ApplyAll(d, es[..k]).assets ==> f in names
  {
    AddsSuffix(d, es, names, k);
    ApplyConcat(d, es[..k], es[k..]);
    assert es[..k] + es[k..] == es;
    AddsOnlyNames(ApplyAll(d, es[..k]), es[k..], names);
  }

  /** Right after a bootstrap every registered version is supported. */
  lemma RecoveredAreSupported(root: map<string, Release>, inv0: Inventory, current: string, name: string, candidate: Entry,
                              now: real, k: string)
    requires Matching(inv0.versions, current) != {} && Recovered(root, inv0.versions, now) && candidate.retiredAt.None?
    requires k in inv0.versions || k == name
    ensures var inv := Registered(inv0, current, name, candidate, now);
            && k in inv.versions && Supported(inv, k, current, now)
            && inv.versions[k].files == if k == name then candidate.files else inv0.versions[k].files
  {
    hide TextOrder.Greatest, BuildInventory;
  }

  /** What a roll-out after a cut bootstrap asks for agrees with what the uncut publish left. */
  lemma RecoveryAgrees(d1: Disk, d': Disk, root: map<string, Release>, name: string, candidate: Entry, now: real, f: string)
    requires d1.inventory.Some? && d1.index.Some? && d1.inventory == d'.inventory
    requires var inv0 := d1.inventory.value;
             && Matching(inv0.versions, d1.index.value) != {} && Recovered(root, inv0.versions, now)
             && (forall n :: n in inv0.versions ==> Carries(d1, BytesOf(root, n), inv0.versions[n].files))
             && (f in d1.assets && f !in d'.assets ==> f in FilesOf(inv0.versions, inv0.versions.Keys))
    requires Candidate(root, name) == Ok(candidate) && candidate.retiredAt.None?
    requires f !in d'.assets
    ensures var inv := Registered(d1.inventory.value, d1.index.value, name, candidate, now);
            var keys := KeysWith(d1.inventory.value.versions, name);
            (forall k :: k in keys ==> k in inv.versions) &&
            match Supplier(inv, d1.index.value, now, keys, f)
            case Some(k) => if k == name then f in candidate.files
                            else f in BytesOf(root, k) && Look(d1.assets, f) == Look(BytesOf(root, k), f)
            case None => f !in d1.assets
  {
    hide Registered, Matching, Supplier, KeysWith, BytesOf, Supported, BuildInventory;
    var inv0, current := d1.inventory.value, d1.index.value;
    var inv := Registered(inv0, current, name, candidate, now);
    var keys := KeysWith(inv0.versions, name);
    RegisteredKeys(inv0, current, name, candidate, now);
    SupplierFacts(inv, current, now, keys, f);
    match Supplier(inv, current, now, keys, f) {
      case Some(k) =>
        RecoveredAreSupported(root, inv0, current, name, candidate, now, k);
      case None =>
        if f in d1.assets {
          var m :| m in inv0.versions && f in inv0.versions[m].files;
          RecoveredAreSupported(root, inv0, current, name, candidate, now, m);
          assert false;
        }
    }
  }

  lemma BootstrapResumes(d1: Disk, d': Disk, root: map<string, Release>, name: string, candidate: Entry, now: real)
    requires d1.inventory.Some? && d1.index.Some? && d1.inventory == d'.inventory && d1.index == d'.index && Grows(d', d1)
    requires var inv0 := d1.inventory.value;
             && Matching(inv0.versions, d1.index.value) != {} && Recovered(root, inv0.versions, now)
             && (forall n :: n in inv0.versions ==> Carries(d1, BytesOf(root, n), inv0.versions[n].files))
             && (forall f :: f in d1.assets && f !in d'.assets ==> f in FilesOf(inv0.versions, inv0.versions.Keys))
    requires Candidate(root, name) == Ok(candidate) && candidate.retiredAt.None?
    requires Promote(d1, root, name, candidate, now).result.Done?
    ensures var p, p' := Promote(d1, root, name, candidate, now), Promote(d', root, name, candidate, now);
            p'.result.Done? && Finish(d', p') == Finish(d1, p)
  {
    hide Registered, Matching, Supplier, KeysWith, Promote, RollOut, Recovered, Carries, FilesOf, BytesOf, Candidate;
    var inv0, current := d1.inventory.value, d1.index.value;
    var inv := Registered(inv0, current, name, candidate, now);
    var keys := KeysWith(inv0.versions, name);
    var source := BytesOf(root, name);
    var e1, e' := Apply(d1, Save(inv)), Apply(d', Save(inv));
    RegisteredKeys(inv0, current, name, candidate, now);
    PromoteIsRollOut(d1, root, name, candidate, now);
    PromoteIsRollOut(d', root, name, candidate, now);
    RollOutExactly(e1, root, inv, current, now, keys, source, candidate);
    var end := Finish(e1, RollOut(e1, root, inv, current, now, keys, source, candidate));
    forall f | f in d1.assets ensures Look(end.assets, f) == Some(d1.assets[f]) {
      assert Filled(e1.assets, root, inv, current, now, keys, f) == Some(d1.assets[f]);
    }
    forall f | f in candidate.files ensures f in source && Look(end.assets, f) == Look(source, f) {
    }
    forall f | f !in e'.assets && Supplier(inv, current, now, keys, f).Some?
      ensures var k := Supplier(inv, current, now, keys, f).value;
              f in BytesOf(root, k) && Look(end.assets, f) == Some(BytesOf(root, k)[f])
    {
      RecoveryAgrees(d1, d', root, name, candidate, now, f);
    }
    forall f | f !in e'.assets && Supplier(inv, current, now, keys, f).None? && f !in candidate.files
      ensures f !in end.assets
    {
      RecoveryAgrees(d1, d', root, name, candidate, now, f);
      assert Look(end.assets, f) == Filled(e1.assets, root, inv, current, now, keys, f);
    }
    RollOutReaches(e', root, inv, current, now, keys, source, candidate, end.assets);
  }

  lemma PublishParts(d: Disk, root: map<string, Release>, name: string, now: real)
    requires Publish(d, root, name, now).result.Done?
    ensures Candidate(root, name).Ok? && Candidate(root, name).value.retiredAt.None?
    ensures var boot := EnsureInventory(d, root, now);
            var d1 := Finish(d, boot);
            var rest := Promote(d1, root, name, Candidate(root, name).value, now);
            && boot.result.Done? && rest.result.Done?
            && Publish(d, root, name, now).effects == boot.effects + rest.effects
            && Finish(d, Publish(d, root, name, now)) == Finish(d1, rest)
  {
    hide Promote, EnsureInventory;
    var boot := EnsureInventory(d, root, now);
    var rest := Promote(Finish(d, boot), root, name, Candidate(root, name).value, now);
    ApplyConcat(d, boot.effects, rest.effects);
  }

  lemma PublishOverInventory(d: Disk, root: map<string, Release>, name: string, now: real)
    requires d.inventory.Some? && Candidate(root, name).Ok?
    ensures Publish(d, root, name, now) == Promote(d, root, name, Candidate(root, name).value, now)
  {
    hide Promote;
    assert [] + Promote(d, root, name, Candidate(root, name).value, now).effects ==
           Promote(d, root, name, Candidate(root, name).value, now).effects;
  }

  /**
   * Interrupted and uninterrupted publishes agree. If a publish would complete, then cut after any number
   * of its steps and retried against the same releases at the same reading of the clock, it completes with
   * the very disk (inventory, HTML and assets) the uncut publish would have left. The first publish, which
   * also bootstraps, is included. The version already registered under the name, if any, must be this build.
   */
  lemma RetriedPublishMatchesUncut(d: Disk, root: map<string, Release>, name: string, now: real, fuse: nat)
    requires Publish(d, root, name, now).result.Done?
    requires fuse < |Publish(d, root, name, now).effects|
    requires d.inventory.Some? && name in d.inventory.value.versions && Candidate(root, name).Ok? ==>
               d.inventory.value.versions[name].index == Candidate(root, name).value.index
    ensures var d' := Cut(d, Publish(d, root, name, now), fuse);
            var again := Publish(d', root, name, now);
            again.result.Done? && Finish(d', again) == Finish(d, Publish(d, root, name, now))
  {
    hide Promote, Bootstrap, Matching, Recovered, Carries, FilesOf, BytesOf, Publish, Candidate;
    PublishParts(d, root, name, now);
    var candidate := Candidate(root, name).value;
    var boot := EnsureInventory(d, root, now);
    var d1 := Finish(d, boot);
    var rest := Promote(d1, root, name, candidate, now);
    var all := Publish(d, root, name, now).effects;
    var d' := Cut(d, Publish(d, root, name, now), fuse);
    if fuse == 0 {
      assert all[..0] == [];
    } else if fuse <= |boot.effects| {
      assert all[..fuse] == boot.effects[..fuse];
      CutBootstrap(d, root, now, fuse);
      PublishOverInventory(d', root, name, now);
      BootstrapResumes(d1, d', root, name, candidate, now);
    } else {
      var k := fuse - |boot.effects|;
      assert all[..fuse] == boot.effects + rest.effects[..k];
      ApplyConcat(d, boot.effects, rest.effects[..k]);
      PromoteNeeds(d1, root, name, candidate, now);
      assert name in d1.inventory.value.versions ==> d1.inventory.value.versions[name].index == candidate.index by {
        if d.inventory.None? {
          RegisteredByBootstrap(d, root, name, now);
        }
      }
      PromoteResumes(d1, root, name, candidate, now, k);
      PublishOverInventory(d', root, name, now);
    }
  }

  lemma RegisteredByBootstrap(d: Disk, root: map<string, Release>, name: string, now: real)
    requires Bootstrap(d, root, now).result.Done? && Candidate(root, name).Ok?
    ensures var d1 := Finish(d, Bootstrap(d, root, now));
            && d1.inventory.Some?
            && (name in d1.inventory.value.versions ==>
                  d1.inventory.value.versions[name].index == Candidate(root, name).value.index)
  {
    hide Bootstrap, Matching, FilesOf, BuildInventory, CopyVersions;
    var inv, copies := BootstrapParts(d, root, now);
    CutBootstrap(d, root, now, |Bootstrap(d, root, now).effects|);
  }
}
