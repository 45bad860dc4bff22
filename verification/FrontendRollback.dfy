/** What `previous` names, what cleanup may take from under it, and what later checks find, over whole runs. */
module FrontendRollback {
  import opened Common
  import opened FrontendDisk
  import opened FrontendPlans
  import opened FrontendSafety
  import opened FrontendCopies
  import opened FrontendOutcomes
  import opened FrontendPublishing
  import opened FrontendRuns
  import C = FrontendCleanup
  import TextOrder

  /** The HTML served before the current one, and whether a publish of another build has since been cut or refused. */
  datatype History = History(prior: Option<string>, displaced: bool)

  /** The event registers a build other than the one being served. */
  ghost predicate RegistersOther(d: Disk, ev: Event, now: real) {
    && ev.Publishing?
    && Candidate(ev.root, ev.name).Ok?
    && d.index != Some(Candidate(ev.root, ev.name).value.index)
    && var r := Execute(d, EnsureInventory(d, ev.root, now), ev.cut);
       && r.outcome.Done? && r.fuse > 0
       && r.disk.inventory.Some? && r.disk.index.Some?
       && Matching(r.disk.inventory.value.versions, r.disk.index.value) != {}
  }

  ghost function NextHistory(h: History, d: Disk, ev: Event, now: real): History {
    if DiskAfter(d, ev, now).index != d.index then History(d.index, false)
    else if RegistersOther(d, ev, now) then h.(displaced := true)
    else h
  }

  ghost function RunHistory(w: World, h: History, evs: seq<Event>): History
    decreases |evs|
  {
    if evs == [] then h else RunHistory(Step(w, evs[0]), NextHistory(h, w.disk, evs[0], w.clock), evs[1..])
  }

  /** The HTML that `previous` stands for. */
  ghost predicate PreviousServes(inv: Inventory, i: string) {
    inv.previous in inv.versions && inv.versions[inv.previous].index == i
  }

  ghost predicate Truthful(d: Disk, h: History) {
    && d.index.Some?
    && (h.prior.Some? ==> h.prior != d.index)
    && (d.inventory.None? ==> h == History(None, false))
    && (d.inventory.Some? ==>
          PreviousServes(d.inventory.value, if h.displaced || h.prior.None? then d.index.value else h.prior.value))
  }

  /** An operation that leaves the HTML and the meaning of `previous` alone. */
  ghost predicate SamePrevious(d: Disk, d': Disk) {
    && d'.index == d.index
    && d'.inventory.Some? && d.inventory.Some?
    && forall i :: PreviousServes(d.inventory.value, i) ==> PreviousServes(d'.inventory.value, i)
  }

  lemma BootstrapPrevious(d: Disk, root: map<string, Release>, now: real, fuse: nat)
    requires d.index.Some? && d.inventory.None?
    ensures var d' := Cut(d, Bootstrap(d, root, now), fuse);
            && d'.index == d.index
            && (d'.inventory.Some? ==> PreviousServes(d'.inventory.value, d.index.value))
  {
    hide SortedNames, Recover, CopyVersions, TextOrder.Greatest, FilesOf, Adds, ApplyAll, Grows;
    var p := Bootstrap(d, root, now);
    var k := Min(fuse, |p.effects|);
    var recovered := Recover(root, SortedNames(root), d.index.value, now, map[]);
    if k > 0 {
      var versions := recovered.value;
      var save := Save(Inventory(versions, TextOrder.Greatest(Matching(versions, d.index.value))));
      var copies := CopyVersions(Apply(d, save), root, versions, SortedNames(versions));
      var names := FilesOf(versions, versions.Keys);
      CopyVersionsFacts(Apply(d, save), root, versions, SortedNames(versions), names);
      assert p.effects[..k] == [save] + copies.effects[..k - 1];
      ApplyConcat(d, [save], copies.effects[..k - 1]);
      ExecuteOne(d, save, 1);
      AddsPrefix(Apply(d, save), copies.effects, names, k - 1);
      AddsGrow(Apply(d, save), copies.effects[..k - 1], names);
    } else {
      assert p.effects[..0] == [];
      ApplyNothing(d);
    }
  }

  lemma ApplyNothing(d: Disk)
    ensures ApplyAll(d, []) == d
  {
  }

  /** Once it has taken a step, the second half of a publish has registered. */
  lemma PromoteInventory(d: Disk, root: map<string, Release>, name: string, candidate: Entry, now: real, fuse: nat)
    requires d.inventory.Some? && d.index.Some? && Matching(d.inventory.value.versions, d.index.value) != {}
    requires fuse > 0
    ensures var r := Execute(d, Promote(d, root, name, candidate, now), fuse);
            && r.disk.inventory == Some(Registered(d.inventory.value, d.index.value, name, candidate, now))
            && r.disk.index == if r.outcome.Done? then Some(candidate.index) else d.index
  {
    hide RollOut, Registered, Matching, KeysWith, FilesOf, BytesOf;
    var current := d.index.value;
    var inv := Registered(d.inventory.value, current, name, candidate, now);
    RegisteredKeys(d.inventory.value, current, name, candidate, now);
    var save, switch := Save(inv), Switch(candidate.index);
    var d1 := Apply(d, save);
    var rollOut := RollOut(d1, root, inv, current, now, KeysWith(d.inventory.value.versions, name),
                           BytesOf(root, name), candidate);
    var adds := RollOutShape(d1, root, inv, current, now, KeysWith(d.inventory.value.versions, name),
                             BytesOf(root, name), candidate);
    ThenExecutes(d, One(save), rollOut, fuse);
    ExecuteOne(d, save, fuse);
    RollOutInventory(d1, rollOut, adds, switch, FilesOf(inv.versions, inv.versions.Keys) + FileSet(candidate.files), fuse - 1);
  }

  lemma RollOutInventory(d: Disk, p: Plan, adds: seq<Effect>, switch: Effect, names: set<string>, fuse: nat)
    requires switch.Switch? && p.effects == adds + Tail(p, switch) && Adds(d, adds, names)
    ensures var r := Execute(d, p, fuse);
            r.disk.inventory == d.inventory && r.disk.index == if r.outcome.Done? then Some(switch.index) else d.index
  {
    var k := Min(fuse, |adds|);
    AddsPrefix(d, adds, names, k);
    AddsGrow(d, adds[..k], names);
    if fuse < |p.effects| {
      assert p.effects[..fuse] == adds[..k];
    } else if p.result.Done? {
      assert adds[..k] == adds;
      ApplyConcat(d, adds, [switch]);
      ExecuteOne(ApplyAll(d, adds), switch, 1);
    } else {
      assert adds[..k] == adds == p.effects;
    }
  }

  /** What registration makes of `previous`. */
  lemma RegistrationPrevious(inv: Inventory, current: string, name: string, candidate: Entry, now: real)
    requires Matching(inv.versions, current) != {}
    requires name in inv.versions ==> inv.versions[name].index == candidate.index
    ensures var inv' := Registered(inv, current, name, candidate, now);
            if current != candidate.index then PreviousServes(inv', current)
            else forall i :: PreviousServes(inv, i) ==> PreviousServes(inv', i)
  {
  }

  lemma PromoteTruth(d: Disk, root: map<string, Release>, name: string, candidate: Entry, now: real, fuse: nat, h: History)
    requires Truthful(d, h) && d.inventory.Some?
    requires name in d.inventory.value.versions ==> d.inventory.value.versions[name].index == candidate.index
    ensures var r := Execute(d, Promote(d, root, name, candidate, now), fuse);
            var registered := fuse > 0 && Matching(d.inventory.value.versions, d.index.value) != {};
            Truthful(r.disk, if r.disk.index != d.index then History(d.index, false)
                             else if registered && d.index != Some(candidate.index) then h.(displaced := true) else h)
  {
    hide Matching, Registered;
    var current := d.index.value;
    var p := Promote(d, root, name, candidate, now);
    if fuse > 0 && Matching(d.inventory.value.versions, current) != {} {
      PromoteInventory(d, root, name, candidate, now, fuse);
      RegistrationPrevious(d.inventory.value, current, name, candidate, now);
    } else {
      assert Execute(d, p, fuse).disk == d by {
        assert p.effects[..0] == [];
        NothingHappens(d, root, name, candidate, now, fuse);
      }
    }
  }

  lemma NothingHappens(d: Disk, root: map<string, Release>, name: string, candidate: Entry, now: real, fuse: nat)
    requires d.inventory.Some? && d.index.Some?
    requires fuse == 0 || Matching(d.inventory.value.versions, d.index.value) == {}
    ensures Execute(d, Promote(d, root, name, candidate, now), fuse).disk == d
  {
    hide RollOut, Registered;
    var p := Promote(d, root, name, candidate, now);
    if fuse < |p.effects| {
      assert p.effects[..fuse] == [];
    }
  }

  lemma ExecuteIsCut(d: Disk, p: Plan, fuse: nat)
    ensures Execute(d, p, fuse).disk == Cut(d, p, fuse)
  {
    if |p.effects| <= fuse {
      CutIsWhole(d, p, fuse);
    }
  }

  /** Names in a good inventory stand for the builds the releases on hand hold. */
  lemma NamesAgree(inv: Inventory, builds: map<string, Build>, root: map<string, Release>, name: string)
    requires Describes(inv, builds) && Agrees(root, builds)
    requires Candidate(root, name).Ok? && name in inv.versions
    ensures inv.versions[name].index == Candidate(root, name).value.index
  {
  }

  lemma PublishTruth(d: Disk, ev: Event, g: Ground, h: History)
    requires Good(d, g) && ev.Publishing? && Agrees(ev.root, g.builds) && Truthful(d, h)
    ensures Truthful(DiskAfter(d, ev, g.clock), NextHistory(h, d, ev, g.clock))
  {
    hide GoodInventory, GoodStart, IndexDecidesBuild, Agrees, Describes, Promote, Bootstrap, Matching, PreviousServes, Candidate;
    var p := Publish(d, ev.root, ev.name, g.clock);
    ExecuteIsCut(d, p, ev.cut);
    if Candidate(ev.root, ev.name).Ok? {
      var candidate := Candidate(ev.root, ev.name).value;
      var boot := EnsureInventory(d, ev.root, g.clock);
      PublishStages(d, ev.root, ev.name, g.clock, ev.cut);
      var r := Execute(d, boot, ev.cut);
      ExecuteIsCut(d, boot, ev.cut);
      if d.inventory.None? {
        BootstrapPrevious(d, ev.root, g.clock, ev.cut);
        BootstrapSafe(d, ev.root, g);
      } else {
        assert boot.effects[..0] == [];
      }
      assert Truthful(r.disk, h);
      if r.outcome.Done? {
        EnsuredIsGood(d, ev.root, g, ev.cut);
        GoodNamesAgree(r.disk, g, ev.root, ev.name);
        PromoteTruth(r.disk, ev.root, ev.name, candidate, g.clock, r.fuse, h);
      }
    }
  }

  lemma EnsuredIsGood(d: Disk, root: map<string, Release>, g: Ground, fuse: nat)
    requires Good(d, g) && Agrees(root, g.builds)
    requires Execute(d, EnsureInventory(d, root, g.clock), fuse).outcome.Done?
    ensures var r := Execute(d, EnsureInventory(d, root, g.clock), fuse);
            Good(r.disk, g) && r.disk.inventory.Some? && r.disk.index == d.index
  {
    hide GoodInventory, GoodStart, IndexDecidesBuild, Agrees, Bootstrap;
    var boot := EnsureInventory(d, root, g.clock);
    if d.inventory.None? {
      BootstrapSafe(d, root, g);
      EveryCutIsGood(d, boot.effects, g, |boot.effects|);
      CutIsWhole(d, boot, |boot.effects|);
    }
  }

  lemma GoodNamesAgree(d: Disk, g: Ground, root: map<string, Release>, name: string)
    requires Good(d, g) && d.inventory.Some? && Agrees(root, g.builds) && Candidate(root, name).Ok?
    ensures name in d.inventory.value.versions ==>
              d.inventory.value.versions[name].index == Candidate(root, name).value.index
  {
    hide Whole, LiveWhole, Protected, WindowClosed, ManagedFiles, IndexDecidesBuild;
    if name in d.inventory.value.versions {
      NamesAgree(d.inventory.value, g.builds, root, name);
    }
  }

  lemma CleanupTruth(d: Disk, now: real, fuse: nat)
    requires d.inventory.Some? && d.index.Some?
    ensures SamePrevious(d, Cut(d, Cleanup(d, now), fuse))
  {
    if Matching(d.inventory.value.versions, d.index.value) != {} {
      var gone := C.CutCleanup(d, now, fuse);
    } else {
      assert Cleanup(d, now).effects[..0] == [];
    }
  }

  lemma EventTruth(d: Disk, ev: Event, g: Ground, h: History)
    requires Good(d, g) && Fits(ev, g.builds, g.slack) && Enabled(d, ev) && Truthful(d, h)
    ensures Truthful(DiskAfter(d, ev, g.clock), NextHistory(h, d, ev, g.clock))
  {
    hide Good, Agrees, Publish, Bootstrap, Cleanup, PreviousServes;
    match ev {
      case Publishing(_, _, _, _) => PublishTruth(d, ev, g, h);
      case Bootstrapping(root, cut, _) => BootstrapPrevious(d, root, g.clock, cut);
      case CleaningUp(cut, _) =>
        if d.inventory.Some? {
          CleanupTruth(d, g.clock, cut);
        } else {
          NoCleanup(d, g.clock, cut);
        }
      case Waiting(_) =>
    }
  }

  lemma NoCleanup(d: Disk, now: real, fuse: nat)
    requires d.inventory.None?
    ensures Cut(d, Cleanup(d, now), fuse) == d
  {
    assert Cleanup(d, now).effects[..0] == [];
  }

  lemma {:induction false} RunIsTruthful(w: World, h: History, evs: seq<Event>, builds: map<string, Build>, slack: real, strays: set<string>)
    requires GoodWorld(w, builds, slack, strays) && Legal(w, evs, builds, slack) && Truthful(w.disk, h)
    ensures Truthful(Run(w, evs).disk, RunHistory(w, h, evs))
    decreases |evs|
  {
    hide Good, Fits, DiskAfter, NextHistory, Truthful;
    if evs != [] {
      assert Fits(evs[0], builds, slack);
      EventTruth(w.disk, evs[0], GroundOf(w, builds, slack, strays), h);
      StepKeepsGood(w, evs[0], builds, slack, strays);
      forall i | 0 <= i < |evs[1..]| ensures Fits(evs[1..][i], builds, slack) {
        assert evs[1..][i] == evs[i + 1];
      }
      RunIsTruthful(Step(w, evs[0]), NextHistory(h, w.disk, evs[0], w.clock), evs[1..], builds, slack, strays);
    }
  }

  /**
   * What the rollback target is, exactly. In every reachable state with an inventory, `previous` names a
   * version whose HTML is the one served before the current one if and only if no publish of another build
   * has been cut or refused after registering since then; otherwise it names the current HTML.
   */
  lemma PreviousIsPriorUnlessDisplaced(w: World, evs: seq<Event>, builds: map<string, Build>, slack: real, strays: set<string>)
    requires Initial(w, builds, strays) && slack >= 0.0 && Legal(w, evs, builds, slack)
    ensures var d := Run(w, evs).disk;
            var h := RunHistory(w, History(None, false), evs);
            d.inventory.Some? && d.index.Some? && h.prior.Some? ==>
              && (PreviousServes(d.inventory.value, h.prior.value) <==> !h.displaced)
              && (PreviousServes(d.inventory.value, d.index.value) <==> h.displaced)
  {
    hide Initial, Legal;
    InitialIsGood(w, builds, slack, strays);
    InitialIsTruthful(w, builds, strays);
    RunIsTruthful(w, History(None, false), evs, builds, slack, strays);
  }

  lemma InitialIsTruthful(w: World, builds: map<string, Build>, strays: set<string>)
    requires Initial(w, builds, strays)
    ensures Truthful(w.disk, History(None, false))
  {
  }

  /** The check's answer about unregistered files never comes up in a run that started without any. */
  lemma VerifyFindsNothingUnmanaged(w: World, evs: seq<Event>, builds: map<string, Build>, slack: real, source: Build)
    requires Initial(w, builds, {}) && slack >= 0.0 && Legal(w, evs, builds, slack)
    requires Run(w, evs).disk.inventory.Some?
    ensures Verify(Run(w, evs).disk, source) != Raised(UnmanagedAssets)
  {
    hide Initial, Legal, ManagedFiles, Verify;
    EveryAssetIsManaged(w, evs, builds, slack, {});
    NothingUnmanaged(Run(w, evs).disk, source);
  }

  lemma {:induction false} DifferencesAreAboutFiles(assets: map<string, Bytes>, source: map<string, Bytes>, files: seq<string>)
    ensures FirstDifference(assets, source, files) in {None, Some(FileMissing), Some(AssetDiffers)}
    decreases |files|
  {
    if files != [] {
      DifferencesAreAboutFiles(assets, source, files[1..]);
    }
  }

  lemma NothingUnmanaged(d: Disk, source: Build)
    requires d.assets.Keys <= ManagedFiles(d)
    ensures Verify(d, source) != Raised(UnmanagedAssets)
  {
    hide ManagedFiles, ManagedPath, FirstDifference, FileSet;
    if BuildInventory(source).Ok? {
      var files := BuildInventory(source).value.files;
      DifferencesAreAboutFiles(d.assets, source.bytes, files);
      assert d.assets.Keys - FileSet(files) - ManagedFiles(d) == {};
    }
  }

  lemma ManagedAreUnderAssets(d: Disk, builds: map<string, Build>, f: string)
    requires d.inventory.Some? && Describes(d.inventory.value, builds) && f in ManagedFiles(d)
    ensures ManagedPath(f)
  {
    var n :| n in d.inventory.value.versions && f in d.inventory.value.versions[n].files;
    assert BuildInventory(builds[n]).Ok?;
    assert f in builds[n].names;
  }

  /**
   * Publishing converges. After any run whatsoever that started without unregistered files, a publish that
   * returns (a retry after a crash, a rollback, a new build) leaves a directory in which `verify` of that
   * release succeeds.
   */
  lemma PublishConverges(w: World, evs: seq<Event>, builds: map<string, Build>, slack: real,
                         root: map<string, Release>, name: string)
    requires Initial(w, builds, {}) && slack >= 0.0 && Legal(w, evs, builds, slack) && Agrees(root, builds)
    requires Publish(Run(w, evs).disk, root, name, Run(w, evs).clock).result.Done?
    ensures var w1 := Run(w, evs);
            var d' := Finish(w1.disk, Publish(w1.disk, root, name, w1.clock));
            name in root && Verify(d', root[name].dist) == Done
  {
    hide Initial, Legal, Publish, Verify, Agrees, IndexDecidesBuild, ManagedFiles, ManagedPath, Whole, LiveWhole, Protected;
    InitialIsGood(w, builds, slack, {});
    RunKeepsGood(w, evs, builds, slack, {});
    var w1 := Run(w, evs);
    var g := GroundOf(w1, builds, slack, {});
    var p := Publish(w1.disk, root, name, w1.clock);
    PublishSafe(w1.disk, root, name, g);
    EveryCutIsGood(w1.disk, p.effects, g, |p.effects|);
    CutIsWhole(w1.disk, p, |p.effects|);
    PublishedReleaseVerifies(w1.disk, root, name, w1.clock, |p.effects|);
    PublishIsAllOrNothing(w1.disk, root, name, w1.clock, |p.effects|);
    var d' := Finish(w1.disk, p);
    forall f | f in d'.assets ensures ManagedPath(f) {
      ManagedAreUnderAssets(d', builds, f);
    }
  }

  lemma EventSpares(d: Disk, ev: Event, now: real, f: string)
    requires f in d.assets && f !in ManagedFiles(d) && d.index.Some?
    ensures f in DiskAfter(d, ev, now).assets && DiskAfter(d, ev, now).assets[f] == d.assets[f]
  {
    hide Publish, Bootstrap, Cleanup;
    match ev {
      case Publishing(root, name, cut, _) =>
        PublishIsAllOrNothing(d, root, name, now, cut);
        ExecuteIsCut(d, Publish(d, root, name, now), cut);
      case Bootstrapping(root, cut, _) =>
        BootstrapAdds(d, root, now);
        AdditiveCut(d, Bootstrap(d, root, now).effects, Min(cut, |Bootstrap(d, root, now).effects|));
      case CleaningUp(cut, _) =>
        if d.inventory.Some? && Matching(d.inventory.value.versions, d.index.value) != {} {
          var gone := C.CutCleanup(d, now, cut);
        } else {
          C.RefusedCleanup(d, now);
        }
      case Waiting(_) =>
    }
  }

  /** A file no build owns is never deleted or changed. */
  lemma {:induction false} UnregisteredFilesAreUntouched(w: World, evs: seq<Event>, builds: map<string, Build>, slack: real,
                                                         strays: set<string>, f: string)
    requires GoodWorld(w, builds, slack, strays) && Legal(w, evs, builds, slack)
    requires f in w.disk.assets && forall n :: n in builds ==> f !in builds[n].names
    ensures f in Run(w, evs).disk.assets && Run(w, evs).disk.assets[f] == w.disk.assets[f]
    decreases |evs|
  {
    hide Fits, DiskAfter, Whole, LiveWhole, Protected, WindowClosed, IndexDecidesBuild;
    if evs != [] {
      assert Fits(evs[0], builds, slack);
      assert f !in ManagedFiles(w.disk);
      EventSpares(w.disk, evs[0], w.clock, f);
      StepKeepsGood(w, evs[0], builds, slack, strays);
      forall i | 0 <= i < |evs[1..]| ensures Fits(evs[1..][i], builds, slack) {
        assert evs[1..][i] == evs[i + 1];
      }
      UnregisteredFilesAreUntouched(Step(w, evs[0]), evs[1..], builds, slack, strays, f);
    }
  }
}
