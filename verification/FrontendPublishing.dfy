/** Each operation takes only safe steps from a good disk, whatever the releases still on hand. */
module FrontendPublishing {
  import opened Common
  import opened FrontendDisk
  import opened FrontendPlans
  import opened FrontendSafety
  import opened FrontendCopies
  import TextOrder

  lemma ManagedContains(d: Disk, n: string, f: string)
    requires d.inventory.Some? && n in d.inventory.value.versions && f in d.inventory.value.versions[n].files
    ensures f in ManagedFiles(d)
  {
  }

  lemma {:induction false} RecoverDescribes(root: map<string, Release>, keys: seq<string>, current: string, now: real,
                                            found: map<string, Entry>, builds: map<string, Build>)
    requires forall k :: k in keys ==> k in root
    requires Agrees(root, builds)
    requires Describes(Inventory(found, ""), builds)
    ensures var r := Recover(root, keys, current, now, found);
            r.Ok? ==> Describes(Inventory(r.value, ""), builds)
    decreases |keys|
  {
    if keys != [] {
      var seen := Examine(root[keys[0]], current, now);
      if seen.Ok? {
        RecoverDescribes(root, keys[1..], current, now, Add(found, keys[0], seen.value), builds);
      }
    }
  }

  lemma MatchSharesBytes(d: Disk, g: Ground, inv: Inventory, n: string)
    requires IndexDecidesBuild(g.builds) && d.index.Some?
    requires n in g.builds && g.builds[n].index == d.index
    requires Describes(inv, g.builds) && inv.previous in Matching(inv.versions, d.index.value)
    ensures inv.previous in g.builds && g.builds[inv.previous].bytes == g.builds[n].bytes
    ensures forall f :: f in g.builds[n].bytes ==> f in inv.versions[inv.previous].files
  {
    assert g.builds[inv.previous].index == d.index;
    assert g.builds[inv.previous].Listed();
  }

  lemma StartManages(d: Disk, g: Ground, inv: Inventory, n: string)
    requires n in g.builds && d.assets.Keys <= g.strays + g.builds[n].bytes.Keys
    requires inv.previous in inv.versions
    requires forall f :: f in g.builds[n].bytes ==> f in inv.versions[inv.previous].files
    ensures d.assets.Keys <= g.strays + ManagedFiles(Apply(d, Save(inv)))
  {
    forall f | f in d.assets && f !in g.strays ensures f in ManagedFiles(Apply(d, Save(inv))) {
      ManagedContains(Apply(d, Save(inv)), inv.previous, f);
    }
  }

  lemma BootstrapRegisters(d: Disk, g: Ground, inv: Inventory)
    requires Good(d, g) && d.inventory.None?
    requires Describes(inv, g.builds) && inv.previous in Matching(inv.versions, d.index.value)
    ensures Safe(d, Save(inv), g)
  {
    hide ManagedFiles, IndexDecidesBuild, Describes, Whole, HeldSince;
    var previous := inv.previous;
    var d1 := Apply(d, Save(inv));
    var n :| n in g.builds && g.builds[n].index == d.index && Whole(d, g.builds[n])
             && d.assets.Keys <= g.strays + g.builds[n].bytes.Keys;
    MatchSharesBytes(d, g, inv, n);
    StartManages(d, g, inv, n);
    SameBytesSameWhole(d, g.builds[n], g.builds[previous]);
    WholeGrows(d, d1, g.builds[previous]);
    assert Serves(d1, g.builds, previous, d.index.value);
    forall i | i in g.lastLive ensures Protected(d1, g, i) {
      LiveIsProtected(d1, g);
    }
    assert GoodInventory(d1, g);
  }

  lemma DescribesAnyPrevious(versions: map<string, Entry>, a: string, b: string, builds: map<string, Build>)
    requires Describes(Inventory(versions, a), builds)
    ensures Describes(Inventory(versions, b), builds)
  {
  }

  lemma BootstrapSafe(d: Disk, root: map<string, Release>, g: Ground)
    requires Good(d, g) && d.inventory.None? && Agrees(root, g.builds)
    ensures var p := Bootstrap(d, root, g.clock);
            && AllSafe(d, p.effects, g)
            && (p.result.Done? ==> Finish(d, p).inventory.Some? && Finish(d, p).index == d.index)
  {
    hide IndexDecidesBuild, GoodStart, GoodInventory, Agrees, Recover, Safe, SortedNames, TextOrder.Greatest;
    assert Describes(Inventory(map[], ""), g.builds);
    var recovered := Recover(root, SortedNames(root), d.index.value, g.clock, map[]);
    if recovered.Ok? && Matching(recovered.value, d.index.value) != {} {
      var versions := recovered.value;
      var save := Save(Inventory(versions, TextOrder.Greatest(Matching(versions, d.index.value))));
      var d1 := Apply(d, save);
      var copies := CopyVersions(d1, root, versions, SortedNames(versions));
      RecoverDescribes(root, SortedNames(root), d.index.value, g.clock, map[], g.builds);
      DescribesAnyPrevious(versions, "", save.inventory.previous, g.builds);
      BootstrapRegisters(d, g, save.inventory);
      SafeOne(d, save, g);
      CopyVersionsFacts(d1, root, versions, SortedNames(versions), ManagedFiles(d1));
      AddsAreSafe(d1, copies.effects, g);
      AddsGrow(d1, copies.effects, ManagedFiles(d1));
      SafeThen(d, One(save), copies, g);
      FinishThen(d, One(save), copies);
    }
  }

  /** No HTML has been live later than a publish that starts now can last. */
  ghost predicate Timely(g: Ground) {
    forall i :: i in g.lastLive ==> g.lastLive[i] <= g.clock + g.slack
  }

  /** The candidate is the build its name stands for. */
  ghost predicate IsCandidate(root: map<string, Release>, name: string, candidate: Entry) {
    Candidate(root, name) == Ok(candidate)
  }

  /** A version stamped at `now` or later, or never, holds from any earlier time on; registration stamps only so. */
  ghost predicate Restamps(inv: Inventory, inv': Inventory, current: string, now: real)
    requires inv.versions.Keys <= inv'.versions.Keys
  {
    forall n, since :: n in inv.versions && since <= now ==>
      inv.versions[n].index == current || HeldSince(inv, n, since) ==> HeldSince(inv', n, since)
  }

  /** Registration keeps every version under its own build, the candidate's included. */
  lemma RegistrationDescribes(inv: Inventory, current: string, root: map<string, Release>, name: string, candidate: Entry, g: Ground)
    requires Describes(inv, g.builds) && Agrees(root, g.builds) && IsCandidate(root, name, candidate)
    requires Matching(inv.versions, current) != {}
    ensures Describes(Registered(inv, current, name, candidate, g.clock), g.builds)
    ensures name in g.builds && root[name].dist == g.builds[name]
  {
    hide Matching;
    assert root[name].dist.index.Some?;
  }

  lemma RegistrationRestamps(inv: Inventory, current: string, name: string, candidate: Entry, now: real)
    requires Matching(inv.versions, current) != {} && candidate.retiredAt.None?
    ensures Restamps(inv, Registered(inv, current, name, candidate, now), current, now)
  {
    hide Matching;
  }

  lemma RegisteredVersions(inv: Inventory, current: string, root: map<string, Release>, name: string, candidate: Entry, g: Ground)
    requires Describes(inv, g.builds) && Agrees(root, g.builds) && IsCandidate(root, name, candidate)
    requires Matching(inv.versions, current) != {}
    ensures var inv' := Registered(inv, current, name, candidate, g.clock);
            && Describes(inv', g.builds)
            && inv'.versions.Keys == inv.versions.Keys + {name}
            && name in g.builds && root[name].dist == g.builds[name]
            && Restamps(inv, inv', current, g.clock)
  {
    hide Matching, Describes, Agrees, Restamps;
    RegisteredKeys(inv, current, name, candidate, g.clock);
    RegistrationDescribes(inv, current, root, name, candidate, g);
    RegistrationRestamps(inv, current, name, candidate, g.clock);
  }

  lemma RegistrationServes(d: Disk, inv': Inventory, g: Ground, n: string, i: string)
    requires Serves(d, g.builds, n, i) && n in inv'.versions
    requires Describes(inv', g.builds) && Describes(d.inventory.value, g.builds)
    ensures Serves(Apply(d, Save(inv')), g.builds, n, i)
  {
  }

  lemma RegistrationProtects(d: Disk, inv': Inventory, g: Ground, i: string)
    requires i in g.lastLive && g.lastLive[i] - g.slack <= g.clock
    requires Protected(d, g, i) && d.inventory.Some? && d.index.Some?
    requires Describes(inv', g.builds) && Describes(d.inventory.value, g.builds)
    requires d.inventory.value.versions.Keys <= inv'.versions.Keys
    requires Restamps(d.inventory.value, inv', d.index.value, g.clock)
    ensures Protected(Apply(d, Save(inv')), g, i)
  {
    hide Describes, HeldSince;
    var since := g.lastLive[i] - g.slack;
    var n :| Serves(d, g.builds, n, i) && (d.index == Some(i) || HeldSince(d.inventory.value, n, since));
    RegistrationServes(d, inv', g, n, i);
    assert HeldSince(inv', n, since);
  }

  lemma RegistrationManages(d: Disk, inv': Inventory, g: Ground)
    requires d.inventory.Some? && d.inventory.value.versions.Keys <= inv'.versions.Keys
    requires Describes(inv', g.builds) && Describes(d.inventory.value, g.builds)
    ensures ManagedFiles(d) <= ManagedFiles(Apply(d, Save(inv')))
  {
    var versions := d.inventory.value.versions;
    forall f | f in ManagedFiles(d) ensures f in ManagedFiles(Apply(d, Save(inv'))) {
      var m :| m in versions && f in versions[m].files;
      ManagedContains(Apply(d, Save(inv')), m, f);
    }
  }

  /** The version `publish` will call previous serves its HTML completely. */
  lemma PreviousIsWhole(d: Disk, root: map<string, Release>, name: string, candidate: Entry, g: Ground)
    requires Good(d, g) && d.inventory.Some? && Agrees(root, g.builds) && IsCandidate(root, name, candidate)
    requires Matching(d.inventory.value.versions, d.index.value) != {}
    ensures var previous := Registered(d.inventory.value, d.index.value, name, candidate, g.clock).previous;
            previous in d.inventory.value.versions && Whole(d, g.builds[previous])
  {
    hide ManagedFiles, Protected;
    var n :| Serves(d, g.builds, n, d.index.value);
    var latest := TextOrder.Greatest(Matching(d.inventory.value.versions, d.index.value));
    assert g.builds[latest].bytes == g.builds[n].bytes;
  }

  lemma PromoteRegisters(d: Disk, root: map<string, Release>, name: string, candidate: Entry, g: Ground)
    requires Good(d, g) && d.inventory.Some? && Agrees(root, g.builds) && IsCandidate(root, name, candidate)
    requires Timely(g)
    requires Matching(d.inventory.value.versions, d.index.value) != {}
    ensures Safe(d, Save(Registered(d.inventory.value, d.index.value, name, candidate, g.clock)), g)
  {
    hide IndexDecidesBuild, Agrees, Registered, Describes, Restamps, Protected, Serves, ManagedFiles, WindowClosed;
    var inv := Registered(d.inventory.value, d.index.value, name, candidate, g.clock);
    var d1 := Apply(d, Save(inv));
    RegisteredVersions(d.inventory.value, d.index.value, root, name, candidate, g);
    PreviousIsWhole(d, root, name, candidate, g);
    RegistrationManages(d, inv, g);
    forall i | i in g.lastLive ensures Protected(d1, g, i) || WindowClosed(g, i) {
      if Protected(d, g, i) {
        RegistrationProtects(d, inv, g, i);
      }
    }
    var n :| Serves(d, g.builds, n, d.index.value);
    assert n in inv.versions by { ServedIsRegistered(d, g, n, d.index.value); }
    RegistrationServes(d, inv, g, n, d.index.value);
    assert d1.inventory.Some? && d1.index == d.index && d1.assets == d.assets;
    assert GoodInventory(d1, g);
  }

  lemma ServedIsRegistered(d: Disk, g: Ground, n: string, i: string)
    requires Serves(d, g.builds, n, i)
    ensures n in d.inventory.value.versions
  {
  }

  lemma SwitchSafe(d: Disk, d3: Disk, root: map<string, Release>, name: string, candidate: Entry, g: Ground)
    requires Good(d, g) && d.inventory.Some? && Agrees(root, g.builds) && IsCandidate(root, name, candidate)
    requires Timely(g)
    requires Matching(d.inventory.value.versions, d.index.value) != {}
    requires d3.inventory == Some(Registered(d.inventory.value, d.index.value, name, candidate, g.clock))
    requires d3.index == d.index && Grows(d, d3)
    requires Carries(d3, BytesOf(root, name), candidate.files)
    ensures Safe(d3, Switch(candidate.index), g)
  {
    hide ManagedFiles, Protected, Registered, WindowClosed, Matching;
    RegisteredVersions(d.inventory.value, d.index.value, root, name, candidate, g);
    assert g.builds[name].Listed();
    assert Serves(d3, g.builds, name, candidate.index);
    var current := d.index.value;
    if current in g.lastLive && current != candidate.index {
      var n :| Serves(d, g.builds, n, current);
      WholeGrows(d, d3, g.builds[n]);
      assert Serves(d3, g.builds, n, current) && HeldSince(d3.inventory.value, n, g.lastLive[current] - g.slack);
    }
  }

  lemma RollOutSafe(d: Disk, root: map<string, Release>, name: string, candidate: Entry, g: Ground)
    requires Good(d, g) && d.inventory.Some? && Agrees(root, g.builds) && IsCandidate(root, name, candidate)
    requires Timely(g)
    requires Matching(d.inventory.value.versions, d.index.value) != {}
    ensures var inv := Registered(d.inventory.value, d.index.value, name, candidate, g.clock);
            var d1 := Apply(d, Save(inv));
            AllSafe(d1, RollOut(d1, root, inv, d.index.value, g.clock, KeysWith(d.inventory.value.versions, name),
                                BytesOf(root, name), candidate).effects, g)
  {
    hide IndexDecidesBuild, Agrees, GoodInventory, Describes, Registered, Safe, AllSafe, Carries, IsCandidate, Timely,
         Matching, Resume, Copy;
    var current := d.index.value;
    var inv := Registered(d.inventory.value, current, name, candidate, g.clock);
    var d1 := Apply(d, Save(inv));
    var keys := KeysWith(d.inventory.value.versions, name);
    var names := ManagedFiles(d1);
    assert (forall k :: k in keys ==> k in inv.versions) && inv.versions[name] == candidate by {
      RegisteredKeys(d.inventory.value, current, name, candidate, g.clock);
    }
    var resume := Resume(d1, root, inv, current, g.clock, keys);
    var d2 := Finish(d1, resume);
    var copy := Copy(d2, BytesOf(root, name), candidate.files);
    var d3 := Finish(d2, copy);
    var switch := Switch(candidate.index);
    ResumeFacts(d1, root, inv, current, g.clock, keys, names);
    AddsGrow(d1, resume.effects, names);
    AddsAreSafe(d1, resume.effects, g);
    forall f | f in candidate.files ensures f in names { ManagedContains(d1, name, f); }
    CopyFacts(d2, BytesOf(root, name), candidate.files, names);
    AddsGrow(d2, copy.effects, names);
    assert ManagedFiles(d2) == names;
    AddsAreSafe(d2, copy.effects, g);
    if copy.result.Done? {
      SwitchSafe(d, d3, root, name, candidate, g);
      SafeOne(d3, switch, g);
    }
    SafeThen(d2, copy, One(switch), g);
    SafeThen(d1, resume, Deliver(d2, BytesOf(root, name), candidate), g);
  }

  lemma PromoteSafe(d: Disk, root: map<string, Release>, name: string, candidate: Entry, g: Ground)
    requires Good(d, g) && d.inventory.Some? && Agrees(root, g.builds) && IsCandidate(root, name, candidate)
    requires Timely(g)
    ensures AllSafe(d, Promote(d, root, name, candidate, g.clock).effects, g)
  {
    hide IndexDecidesBuild, GoodInventory, Agrees, Timely, Safe, AllSafe, RollOut, Registered, Matching;
    var versions, current := d.inventory.value.versions, d.index.value;
    if Matching(versions, current) != {} {
      var inv := Registered(d.inventory.value, current, name, candidate, g.clock);
      RegisteredKeys(d.inventory.value, current, name, candidate, g.clock);
      PromoteRegisters(d, root, name, candidate, g);
      SafeOne(d, Save(inv), g);
      RollOutSafe(d, root, name, candidate, g);
      SafeThen(d, One(Save(inv)), RollOut(Apply(d, Save(inv)), root, inv, current, g.clock, KeysWith(versions, name),
                                          BytesOf(root, name), candidate), g);
    } else {
      assert AllSafe(d, [], g) by { NothingIsSafe(d, g); }
    }
  }

  lemma NothingIsSafe(d: Disk, g: Ground)
    ensures AllSafe(d, [], g)
  {
  }

  /** Every step of a publish is safe, whichever releases have been pruned and whether or not it is refused. */
  lemma PublishSafe(d: Disk, root: map<string, Release>, name: string, g: Ground)
    requires Good(d, g) && Agrees(root, g.builds) && Timely(g)
    ensures AllSafe(d, Publish(d, root, name, g.clock).effects, g)
  {
    hide IndexDecidesBuild, GoodInventory, GoodStart, Agrees, Timely, Safe, Bootstrap, Promote;
    var candidate := Candidate(root, name);
    if candidate.Ok? {
      var boot := EnsureInventory(d, root, g.clock);
      if d.inventory.None? {
        BootstrapSafe(d, root, g);
      }
      if boot.result.Done? {
        var d0 := Finish(d, boot);
        EveryCutIsGood(d, boot.effects, g, |boot.effects|);
        CutIsWhole(d, boot, |boot.effects|);
        PromoteSafe(d0, root, name, candidate.value, g);
      }
      SafeThen(d, boot, Promote(Finish(d, boot), root, name, candidate.value, g.clock), g);
    }
  }

  lemma {:induction false} UnlinksFacts(d: Disk, names: seq<string>)
    ensures Unlinks(names).result.Done?
    ensures Finish(d, Unlinks(names)) == d.(assets := d.assets - TextOrder.Elements(names))
    decreases |names|
  {
    if names == [] {
      assert d.assets - {} == d.assets;
    } else {
      var unlink := Unlink(names[0]);
      UnlinksFacts(Apply(d, unlink), names[1..]);
      ExecuteOne(d, unlink, 1);
      FinishThen(d, One(unlink), Unlinks(names[1..]));
      assert TextOrder.Elements(names) == {names[0]} + TextOrder.Elements(names[1..]);
      assert d.assets - {names[0]} - TextOrder.Elements(names[1..]) == d.assets - TextOrder.Elements(names);
    }
  }

  lemma {:induction false} UnlinksSafe(d: Disk, names: seq<string>, g: Ground)
    requires d.inventory.Some? && forall f :: f in names ==> OnlyExpiredList(d, f, g.clock)
    ensures AllSafe(d, Unlinks(names).effects, g)
    decreases |names|
  {
    if names != [] {
      hide OnlyExpiredList;
      var unlink := Unlink(names[0]);
      forall f | f in names[1..] ensures OnlyExpiredList(Apply(d, unlink), f, g.clock) {
        assert OnlyExpiredList(d, f, g.clock);
      }
      UnlinksSafe(Apply(d, unlink), names[1..], g);
      UnlinksFacts(d, names);
      ExecuteOne(d, unlink, 1);
      SafeInSequence(d, [unlink], Unlinks(names[1..]).effects, g);
    }
  }

  /** Once the removed files are gone, what is left is listed by a version that stays. */
  lemma ForgetManages(d: Disk, g: Ground)
    requires d.inventory.Some? && d.index.Some?
    requires d.assets.Keys <= g.strays + ManagedFiles(d)
    requires Removed(d.inventory.value, d.index.value, g.clock) !! d.assets.Keys
    ensures var inv := d.inventory.value;
            d.assets.Keys <= g.strays + ManagedFiles(Apply(d, Save(Forget(inv, Expired(inv, d.index.value, g.clock)))))
  {
    var inv := d.inventory.value;
    var expired := Expired(inv, d.index.value, g.clock);
    forall f | f in d.assets && f !in g.strays ensures f in ManagedFiles(Apply(d, Save(Forget(inv, expired)))) {
      var m :| m in inv.versions && f in inv.versions[m].files;
      var k :| k in inv.versions && k !in expired && f in inv.versions[k].files;
      ManagedContains(Apply(d, Save(Forget(inv, expired))), k, f);
    }
  }

  lemma ForgetSafe(d: Disk, g: Ground)
    requires Good(d, g) && d.inventory.Some?
    requires Removed(d.inventory.value, d.index.value, g.clock) !! d.assets.Keys
    ensures Safe(d, Save(Forget(d.inventory.value, Expired(d.inventory.value, d.index.value, g.clock))), g)
  {
    hide Whole, IndexDecidesBuild;
    var inv := d.inventory.value;
    var expired := Expired(inv, d.index.value, g.clock);
    var d1 := Apply(d, Save(Forget(inv, expired)));
    ForgetManages(d, g);
    assert Whole(d1, g.builds[inv.previous]) by { WholeGrows(d, d1, g.builds[inv.previous]); }
    forall i | i in g.lastLive ensures Protected(d1, g, i) || WindowClosed(g, i) {
      if !WindowClosed(g, i) {
        var n :| Serves(d, g.builds, n, i) && (d.index == Some(i) || HeldSince(inv, n, g.lastLive[i] - g.slack));
        WholeGrows(d, d1, g.builds[n]);
        assert Serves(d1, g.builds, n, i);
      }
    }
    var n :| Serves(d, g.builds, n, d.index.value);
    WholeGrows(d, d1, g.builds[n]);
    assert Serves(d1, g.builds, n, d.index.value);
  }

  lemma CleanupSafe(d: Disk, g: Ground)
    requires Good(d, g)
    ensures AllSafe(d, Cleanup(d, g.clock).effects, g)
  {
    if d.inventory.Some? && Matching(d.inventory.value.versions, d.index.value) != {} {
      var inv := d.inventory.value;
      var removed := Removed(inv, d.index.value, g.clock);
      var names := TextOrder.Sorted(removed);
      var save := Save(Forget(inv, Expired(inv, d.index.value, g.clock)));
      forall f | f in names ensures OnlyExpiredList(d, f, g.clock) {
        assert f in TextOrder.Elements(names);
      }
      UnlinksSafe(d, names, g);
      UnlinksFacts(d, names);
      var unlinks := Unlinks(names);
      var d1 := Finish(d, unlinks);
      EveryCutIsGood(d, unlinks.effects, g, |unlinks.effects|);
      CutIsWhole(d, unlinks, |unlinks.effects|);
      ForgetSafe(d1, g);
      assert AllSafe(d1, [save], g);
      SafeInSequence(d, unlinks.effects, [save], g);
    }
  }
}
