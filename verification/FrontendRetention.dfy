/**
 * How long a replaced build stays served, exactly: what a cleanup may take, when a version it once replaced expires,
 * and which cleanups of a run break the promise of RETENTION_SECONDS after a build was last served.
 */
module FrontendRetention {
  import opened Common
  import opened FrontendDisk
  import opened FrontendPlans
  import opened FrontendSafety
  import opened FrontendOutcomes
  import opened FrontendPublishing
  import opened FrontendRuns
  import opened FrontendCleanup
  import opened FrontendRollback
  import FrontendResumption
  import TextOrder

  // ----- what a cleanup takes -----

  /** The version is neither the rollback target nor the one being served. */
  predicate Displaced(d: Disk, n: string)
    requires d.inventory.Some? && d.index.Some? && n in d.inventory.value.versions
  {
    n != d.inventory.value.previous && d.inventory.value.versions[n].index != d.index.value
  }

  /** The version was stamped as retired longer ago than the window. */
  predicate StampIsOld(e: Entry, now: real) {
    e.retiredAt.Some? && now > e.retiredAt.value + RETENTION_SECONDS
  }

  /** Some version lists the file, and every version that does is displaced and was stamped long ago. */
  ghost predicate MayGo(d: Disk, f: string, now: real)
    requires d.inventory.Some? && d.index.Some?
  {
    var versions := d.inventory.value.versions;
    (exists n :: n in versions && f in versions[n].files) &&
    forall n :: n in versions && f in versions[n].files ==> Displaced(d, n) && StampIsOld(versions[n], now)
  }

  lemma RemovedExactly(d: Disk, f: string, now: real)
    requires d.inventory.Some? && d.index.Some?
    ensures f in Removed(d.inventory.value, d.index.value, now) <==> MayGo(d, f, now)
  {
    var inv, expired := d.inventory.value, Expired(d.inventory.value, d.index.value, now);
    if f in Removed(inv, d.index.value, now) {
      var n :| n in inv.versions && n in expired && f in inv.versions[n].files;
      forall m | m in inv.versions && f in inv.versions[m].files ensures m in expired {
      }
    }
    if MayGo(d, f, now) {
      var n :| n in inv.versions && f in inv.versions[n].files;
      assert n in expired;
      assert f in FilesOf(inv.versions, expired);
    }
  }

  predicate CanClean(d: Disk) {
    d.inventory.Some? && d.index.Some? && Matching(d.inventory.value.versions, d.index.value) != {}
  }

  /** The files a cleanup gets to before it is cut: it takes them in name order. */
  function Reached(d: Disk, now: real, cut: nat): set<string>
    requires CanClean(d)
  {
    var names := TextOrder.Sorted(Removed(d.inventory.value, d.index.value, now));
    TextOrder.Elements(names[..Min(cut, |names|)])
  }

  lemma CutCleanupExactly(d: Disk, now: real, cut: nat)
    requires CanClean(d)
    ensures Cut(d, Cleanup(d, now), cut).assets == d.assets - Reached(d, now, cut)
    ensures Reached(d, now, cut) <= Removed(d.inventory.value, d.index.value, now)
  {
    hide Removed, Expired, Matching, TextOrder.Sorted;
    var inv := d.inventory.value;
    var names := TextOrder.Sorted(Removed(inv, d.index.value, now));
    var p := Cleanup(d, now);
    UnlinksPrefix(names, |names|);
    UnlinksFacts(d, names);
    if cut <= |names| {
      UnlinksPrefix(names, cut);
      UnlinksFacts(d, names[..cut]);
      assert p.effects[..cut] == Unlinks(names[..cut]).effects;
    } else {
      assert names[..|names|] == names;
      CutIsWhole(d, p, cut);
      CleanupFinishes(d, now);
    }
    forall x | x in TextOrder.Elements(names[..Min(cut, |names|)]) ensures x in TextOrder.Elements(names) {
    }
  }

  /** A cleanup takes a file of the build: all versions that list it may go, and the cleanup gets to it. */
  ghost predicate TakesFrom(w: World, ev: Event, b: Build) {
    ev.CleaningUp? && CanClean(w.disk) &&
    exists f :: f in b.bytes && MayGo(w.disk, f, w.clock) && f in Reached(w.disk, w.clock, ev.cut)
  }

  lemma CleaningIsExact(w: World, ev: Event, b: Build)
    requires ev.CleaningUp? && CanClean(w.disk) && Whole(w.disk, b)
    ensures Whole(Step(w, ev).disk, b) <==> !TakesFrom(w, ev, b)
  {
    hide Cleanup, Reached, MayGo, Matching, Removed;
    CutCleanupExactly(w.disk, w.clock, ev.cut);
    var gone := Reached(w.disk, w.clock, ev.cut);
    forall f | f in gone ensures MayGo(w.disk, f, w.clock) {
      RemovedExactly(w.disk, f, w.clock);
    }
  }

  /** One event leaves a whole build whole if and only if it is not a cleanup that takes from it. */
  lemma StepIsExact(w: World, ev: Event, b: Build)
    requires w.disk.index.Some? && Enabled(w.disk, ev) && Whole(w.disk, b)
    ensures Whole(Step(w, ev).disk, b) <==> !TakesFrom(w, ev, b)
  {
    hide Publish, Bootstrap, Cleanup, Whole;
    match ev {
      case Publishing(root, name, cut, _) =>
        PublishIsAllOrNothing(w.disk, root, name, w.clock, cut);
        ExecuteIsCut(w.disk, Publish(w.disk, root, name, w.clock), cut);
        WholeGrows(w.disk, Step(w, ev).disk, b);
      case Bootstrapping(root, cut, _) =>
        BootstrapAdds(w.disk, root, w.clock);
        AdditiveCut(w.disk, Bootstrap(w.disk, root, w.clock).effects, Min(cut, |Bootstrap(w.disk, root, w.clock).effects|));
        WholeGrows(w.disk, Step(w, ev).disk, b);
      case CleaningUp(cut, _) =>
        if CanClean(w.disk) {
          CleaningIsExact(w, ev, b);
        } else {
          RefusedCleanup(w.disk, w.clock);
          assert Cleanup(w.disk, w.clock).effects[..0] == [];
        }
      case Waiting(_) =>
    }
  }

  // ----- a stamp holds for its window -----

  /** The version is registered and whole, and was not stamped before `since`. */
  ghost predicate Kept(d: Disk, builds: map<string, Build>, n: string, since: real) {
    d.inventory.Some? && n in builds && HeldSince(d.inventory.value, n, since) && Whole(d, builds[n])
  }

  lemma RegistrationKeepsHeld(inv: Inventory, current: string, name: string, candidate: Entry, now: real, n: string, since: real)
    requires Matching(inv.versions, current) != {} && candidate.retiredAt.None? && since <= now && HeldSince(inv, n, since)
    ensures HeldSince(Registered(inv, current, name, candidate, now), n, since)
  {
    hide TextOrder.Greatest;
  }

  lemma PublishKeepsHeld(d: Disk, ev: Event, now: real, n: string, since: real)
    requires d.inventory.Some? && d.index.Some? && ev.Publishing? && since <= now && HeldSince(d.inventory.value, n, since)
    ensures var d' := DiskAfter(d, ev, now); d'.inventory.Some? && HeldSince(d'.inventory.value, n, since)
  {
    hide Promote, Registered, HeldSince, Matching, BuildInventory;
    var p := Publish(d, ev.root, ev.name, now);
    ExecuteIsCut(d, p, ev.cut);
    if Candidate(ev.root, ev.name).Ok? {
      var candidate := Candidate(ev.root, ev.name).value;
      FrontendResumption.PublishOverInventory(d, ev.root, ev.name, now);
      if ev.cut > 0 && Matching(d.inventory.value.versions, d.index.value) != {} {
        PromoteInventory(d, ev.root, ev.name, candidate, now, ev.cut);
        assert candidate.retiredAt.None? by { NewlyBuilt(ev.root, ev.name); }
        RegistrationKeepsHeld(d.inventory.value, d.index.value, ev.name, candidate, now, n, since);
      } else {
        NothingHappens(d, ev.root, ev.name, candidate, now, ev.cut);
      }
    } else {
      assert p.effects[..0] == [];
    }
  }

  lemma NewlyBuilt(root: map<string, Release>, name: string)
    requires Candidate(root, name).Ok?
    ensures Candidate(root, name).value.retiredAt.None?
  {
  }

  lemma CleanupKeepsHeld(d: Disk, now: real, cut: nat, n: string, since: real)
    requires CanClean(d) && now <= since + RETENTION_SECONDS && HeldSince(d.inventory.value, n, since)
    ensures var d' := Cut(d, Cleanup(d, now), cut); d'.inventory.Some? && HeldSince(d'.inventory.value, n, since)
  {
    hide Cleanup, Removed, Matching;
    var gone := CutCleanup(d, now, cut);
  }

  /** Until its window ends nothing takes from a kept version. */
  lemma KeptIsSpared(w: World, ev: Event, g: Ground, n: string, since: real)
    requires Kept(w.disk, g.builds, n, since) && Describes(w.disk.inventory.value, g.builds) && IndexDecidesBuild(g.builds)
    requires w.clock <= since + RETENTION_SECONDS
    ensures !TakesFrom(w, ev, g.builds[n])
  {
    hide Whole, Reached, Matching;
  }

  lemma GoodDescribes(w: World, builds: map<string, Build>, slack: real, strays: set<string>)
    requires GoodWorld(w, builds, slack, strays)
    ensures IndexDecidesBuild(builds) && w.disk.index.Some?
    ensures w.disk.inventory.Some? ==> Describes(w.disk.inventory.value, builds)
  {
    hide IndexDecidesBuild, Describes, Whole, Protected, WindowClosed, LiveWhole, ManagedFiles;
  }

  lemma KeptStep(w: World, ev: Event, builds: map<string, Build>, slack: real, strays: set<string>, n: string, since: real)
    requires GoodWorld(w, builds, slack, strays) && Enabled(w.disk, ev)
    requires Kept(w.disk, builds, n, since) && since <= w.clock <= since + RETENTION_SECONDS
    ensures Kept(Step(w, ev).disk, builds, n, since) && !TakesFrom(w, ev, builds[n])
  {
    hide Publish, Bootstrap, Cleanup, Whole, HeldSince, GoodWorld, Describes, IndexDecidesBuild, TakesFrom;
    GoodDescribes(w, builds, slack, strays);
    KeptIsSpared(w, ev, GroundOf(w, builds, slack, strays), n, since);
    StepIsExact(w, ev, builds[n]);
    match ev {
      case Publishing(_, _, _, _) => PublishKeepsHeld(w.disk, ev, w.clock, n, since);
      case Bootstrapping(_, _, _) => assert false;
      case CleaningUp(cut, _) =>
        if CanClean(w.disk) {
          CleanupKeepsHeld(w.disk, w.clock, cut, n, since);
        } else {
          RefusedCleanup(w.disk, w.clock);
          assert Cleanup(w.disk, w.clock).effects[..0] == [];
        }
      case Waiting(_) =>
    }
  }

  // ----- whole runs -----

  /** The build is whole in every state of the run. */
  ghost predicate AlwaysWhole(w: World, evs: seq<Event>, b: Build)
    decreases |evs|
  {
    Whole(w.disk, b) && (evs == [] || AlwaysWhole(Step(w, evs[0]), evs[1..], b))
  }

  /** No cleanup of the run that reads the clock later than `from` takes from the build. */
  ghost predicate NoneTakes(w: World, evs: seq<Event>, b: Build, from: real)
    decreases |evs|
  {
    evs == [] || (!(w.clock > from && TakesFrom(w, evs[0], b)) && NoneTakes(Step(w, evs[0]), evs[1..], b, from))
  }

  lemma LegalTail(w: World, evs: seq<Event>, builds: map<string, Build>, slack: real)
    requires Legal(w, evs, builds, slack) && evs != []
    ensures Fits(evs[0], builds, slack) && Enabled(w.disk, evs[0]) && Legal(Step(w, evs[0]), evs[1..], builds, slack)
  {
    hide Fits, Step, Enabled;
    forall i | 0 <= i < |evs[1..]| ensures Fits(evs[1..][i], builds, slack) {
      assert evs[1..][i] == evs[i + 1];
    }
  }

  /** Over any run from a good state: whole throughout, if and only if no cleanup after the stamp's window takes from it. */
  lemma {:induction false} WholeExactly(w: World, evs: seq<Event>, builds: map<string, Build>, slack: real, strays: set<string>,
                                        n: string, since: real)
    requires GoodWorld(w, builds, slack, strays) && Legal(w, evs, builds, slack)
    requires n in builds && Whole(w.disk, builds[n]) && since <= w.clock
    requires w.clock <= since + RETENTION_SECONDS ==> Kept(w.disk, builds, n, since)
    ensures AlwaysWhole(w, evs, builds[n]) <==> NoneTakes(w, evs, builds[n], since + RETENTION_SECONDS)
    decreases |evs|
  {
    hide GoodWorld, Legal, Kept, Whole, Step, TakesFrom, Fits, Enabled;
    if evs != [] {
      LegalTail(w, evs, builds, slack);
      var w' := Step(w, evs[0]);
      StepKeepsGood(w, evs[0], builds, slack, strays);
      ClockAdvances(w, evs[0], builds, slack);
      assert w.disk.index.Some? by { GoodDescribes(w, builds, slack, strays); }
      StepIsExact(w, evs[0], builds[n]);
      if w.clock <= since + RETENTION_SECONDS {
        KeptStep(w, evs[0], builds, slack, strays, n, since);
      }
      if Whole(w'.disk, builds[n]) {
        WholeExactly(w', evs[1..], builds, slack, strays, n, since);
      }
    }
  }

  lemma ClockAdvances(w: World, ev: Event, builds: map<string, Build>, slack: real)
    requires Fits(ev, builds, slack)
    ensures Step(w, ev).clock == w.clock + ev.took && w.clock <= Step(w, ev).clock
  {
    hide DiskAfter, Agrees;
  }

  // ----- the build a publish replaces -----

  /** A publish that completes and switches to other HTML. */
  ghost predicate Replaces(w: World, ev: Event) {
    ev.Publishing? &&
    var r := Execute(w.disk, Publish(w.disk, ev.root, ev.name, w.clock), ev.cut);
    r.outcome.Done? && r.disk.index != w.disk.index
  }

  lemma RegistrationStamps(inv: Inventory, current: string, name: string, candidate: Entry, now: real, n: string)
    requires Matching(inv.versions, current) != {} && candidate.index != current
    requires var inv' := Registered(inv, current, name, candidate, now); n in inv'.versions && inv'.versions[n].index == current
    ensures Registered(inv, current, name, candidate, now).versions[n].retiredAt == Some(now)
  {
    hide TextOrder.Greatest;
  }

  /** Its versions of the HTML it replaced are stamped with the clock value it read at its start. */
  lemma ReplacedIsStamped(w: World, ev: Event, builds: map<string, Build>, slack: real, strays: set<string>, n: string)
    requires GoodWorld(w, builds, slack, strays) && Fits(ev, builds, slack) && Replaces(w, ev)
    requires Step(w, ev).disk.inventory.Some? && n in Step(w, ev).disk.inventory.value.versions
    requires Some(Step(w, ev).disk.inventory.value.versions[n].index) == w.disk.index
    ensures Step(w, ev).disk.inventory.value.versions[n].retiredAt == Some(w.clock)
  {
    hide Promote, Bootstrap, Registered, Matching, GoodInventory, GoodStart, IndexDecidesBuild, Agrees, BuildInventory;
    var d := w.disk;
    var g := GroundOf(w, builds, slack, strays);
    ExecuteIsCut(d, Publish(d, ev.root, ev.name, w.clock), ev.cut);
    var candidate := Candidate(ev.root, ev.name).value;
    PublishStages(d, ev.root, ev.name, w.clock, ev.cut);
    var r := Execute(d, EnsureInventory(d, ev.root, w.clock), ev.cut);
    EnsuredIsGood(d, ev.root, g, ev.cut);
    var versions := r.disk.inventory.value.versions;
    if r.fuse > 0 && Matching(versions, r.disk.index.value) != {} {
      PromoteInventory(r.disk, ev.root, ev.name, candidate, w.clock, r.fuse);
      RegistrationStamps(r.disk.inventory.value, r.disk.index.value, ev.name, candidate, w.clock, n);
    } else {
      NothingHappens(r.disk, ev.root, ev.name, candidate, w.clock, r.fuse);
    }
  }

  lemma ReplacedIsWhole(w: World, ev: Event, builds: map<string, Build>, slack: real, strays: set<string>, n: string)
    requires GoodWorld(w, builds, slack, strays) && ev.Publishing? && n in builds && builds[n].index == w.disk.index
    ensures Whole(Step(w, ev).disk, builds[n])
  {
    LiveIsWhole(w, builds, slack, strays, n);
    hide GoodWorld, Publish;
    PublishIsAllOrNothing(w.disk, ev.root, ev.name, w.clock, ev.cut);
    ExecuteIsCut(w.disk, Publish(w.disk, ev.root, ev.name, w.clock), ev.cut);
    WholeGrows(w.disk, Step(w, ev).disk, builds[n]);
  }

  lemma LiveIsWhole(w: World, builds: map<string, Build>, slack: real, strays: set<string>, n: string)
    requires GoodWorld(w, builds, slack, strays) && n in builds && builds[n].index == w.disk.index
    ensures Whole(w.disk, builds[n])
  {
    hide Whole, Describes, ManagedFiles, Protected, WindowClosed;
    if w.disk.inventory.Some? {
      var m :| Serves(w.disk, builds, m, w.disk.index.value);
      GoodDescribes(w, builds, slack, strays);
      assert builds[m].index == builds[n].index by { ServedIndex(w.disk, builds, m); }
      SameBytesSameWhole(w.disk, builds[m], builds[n]);
    } else {
      var m :| m in builds && builds[m].index == w.disk.index && Whole(w.disk, builds[m]);
      SameBytesSameWhole(w.disk, builds[m], builds[n]);
    }
  }

  lemma ServedIndex(d: Disk, builds: map<string, Build>, m: string)
    requires d.inventory.Some? && d.index.Some? && Describes(d.inventory.value, builds) && Serves(d, builds, m, d.index.value)
    ensures builds[m].index == d.index
  {
    hide Whole;
  }

  /** The HTML that an event finds in service was last served when the event ended. */
  lemma LastServed(w: World, ev: Event)
    requires w.disk.index.Some?
    ensures var w1 := Step(w, ev);
            w1.clock == w.clock + ev.took && w.disk.index.value in w1.lastLive && w1.lastLive[w.disk.index.value] == w1.clock
  {
    hide DiskAfter;
  }

  /** The version of the HTML that the publish replaced, as it stands right after. */
  ghost predicate IsReplaced(w: World, ev: Event, n: string) {
    Replaces(w, ev) && w.disk.index.Some? && Step(w, ev).disk.inventory.Some? &&
    n in Step(w, ev).disk.inventory.value.versions && Step(w, ev).disk.inventory.value.versions[n].index == w.disk.index.value
  }

  /**
   * The window, exactly. A publish that took `took` replaces HTML that is therefore last served when it ends, while
   * its version is stamped `took` earlier. Over any run that follows, the build stays whole if and only if no cleanup
   * that reads the clock later than RETENTION_SECONDS after the stamp finds every version that lists some file of the
   * build displaced and with an old stamp, and gets to that file.
   */
  lemma WindowIsHonouredExactly(w: World, ev: Event, after: seq<Event>, builds: map<string, Build>, slack: real,
                                strays: set<string>, n: string)
    requires GoodWorld(w, builds, slack, strays) && Fits(ev, builds, slack) && Enabled(w.disk, ev) && IsReplaced(w, ev, n)
    requires Legal(Step(w, ev), after, builds, slack)
    ensures n in builds && w.disk.index.Some? && w.disk.index.value in Step(w, ev).lastLive
    ensures var stamp := Step(w, ev).lastLive[w.disk.index.value] - ev.took;
            AlwaysWhole(Step(w, ev), after, builds[n]) <==> NoneTakes(Step(w, ev), after, builds[n], stamp + RETENTION_SECONDS)
  {
    hide *;
    ReplacedIsKept(w, ev, builds, slack, strays, n);
    LastServed(w, ev);
    assert Whole(Step(w, ev).disk, builds[n]) by { KeptIsWhole(Step(w, ev).disk, builds, n, w.clock); }
    WholeExactly(Step(w, ev), after, builds, slack, strays, n, w.clock);
  }

  lemma KeptIsWhole(d: Disk, builds: map<string, Build>, n: string, since: real)
    requires Kept(d, builds, n, since)
    ensures n in builds && Whole(d, builds[n])
  {
  }

  /**
   * On any later disk that still has the entry as the publish stamped it, the version expires exactly if it is
   * displaced and the clock has passed RETENTION_SECONDS after it was last served, less what the publish took.
   */
  lemma ReplacedVersionExpiresExactly(w: World, ev: Event, builds: map<string, Build>, slack: real, strays: set<string>,
                                      n: string, d: Disk, now: real)
    requires GoodWorld(w, builds, slack, strays) && Fits(ev, builds, slack) && Enabled(w.disk, ev) && IsReplaced(w, ev, n)
    requires d.inventory.Some? && d.index.Some? && n in d.inventory.value.versions
    requires d.inventory.value.versions[n] == Step(w, ev).disk.inventory.value.versions[n]
    ensures w.disk.index.value in Step(w, ev).lastLive
    ensures n in Expired(d.inventory.value, d.index.value, now) <==>
            Displaced(d, n) && now > Step(w, ev).lastLive[w.disk.index.value] - ev.took + RETENTION_SECONDS
  {
    ReplacedIsKept(w, ev, builds, slack, strays, n);
    LastServed(w, ev);
    hide Step, GoodWorld, Fits, Kept;
    ExpiresExactly(d, n, w.clock);
  }

  lemma ExpiresExactly(d: Disk, n: string, stamp: real)
    requires d.inventory.Some? && d.index.Some? && n in d.inventory.value.versions
    requires d.inventory.value.versions[n].retiredAt == Some(stamp)
    ensures forall now :: n in Expired(d.inventory.value, d.index.value, now) <==>
                            Displaced(d, n) && now > stamp + RETENTION_SECONDS
  {
  }

  lemma ReplacedIsKept(w: World, ev: Event, builds: map<string, Build>, slack: real, strays: set<string>, n: string)
    requires GoodWorld(w, builds, slack, strays) && Fits(ev, builds, slack) && Enabled(w.disk, ev) && IsReplaced(w, ev, n)
    ensures GoodWorld(Step(w, ev), builds, slack, strays) && w.clock <= Step(w, ev).clock && w.disk.index.Some?
    ensures Step(w, ev).disk.inventory.value.versions[n].retiredAt == Some(w.clock)
    ensures n in builds && Kept(Step(w, ev).disk, builds, n, w.clock)
  {
    ReplacedIsStamped(w, ev, builds, slack, strays, n);
    hide Replaces, Agrees, Describes, BuildInventory, Whole, Publish, DiskAfter, IndexDecidesBuild;
    StepKeepsGood(w, ev, builds, slack, strays);
    ClockAdvances(w, ev, builds, slack);
    var w1 := Step(w, ev);
    hide GoodWorld, Step;
    GoodDescribes(w1, builds, slack, strays);
    DescribedIndex(w1.disk.inventory.value, builds, n);
    ReplacedIsWhole(w, ev, builds, slack, strays, n);
  }

  lemma DescribedIndex(inv: Inventory, builds: map<string, Build>, n: string)
    requires Describes(inv, builds) && n in inv.versions
    ensures n in builds && builds[n].index == Some(inv.versions[n].index)
  {
  }

  // ----- a corollary: the window that always holds -----

  lemma {:induction false} RunsForward(w: World, evs: seq<Event>, builds: map<string, Build>, slack: real)
    requires Legal(w, evs, builds, slack)
    ensures w.clock <= Run(w, evs).clock
    decreases |evs|
  {
    hide Legal, Step, Fits, Enabled;
    if evs != [] {
      LegalTail(w, evs, builds, slack);
      ClockAdvances(w, evs[0], builds, slack);
      RunsForward(Step(w, evs[0]), evs[1..], builds, slack);
    }
  }

  lemma {:induction false} NoneTakesBefore(w: World, evs: seq<Event>, builds: map<string, Build>, slack: real, b: Build, from: real)
    requires Legal(w, evs, builds, slack) && Run(w, evs).clock <= from
    ensures NoneTakes(w, evs, b, from)
    decreases |evs|
  {
    hide Legal, Step, Fits, Enabled, TakesFrom;
    if evs != [] {
      LegalTail(w, evs, builds, slack);
      RunsForward(w, evs, builds, slack);
      NoneTakesBefore(Step(w, evs[0]), evs[1..], builds, slack, b, from);
    }
  }

  /** A replaced build stays whole until RETENTION_SECONDS after it was last served, less what that one publish took. */
  lemma ReplacedBuildIsRetained(w: World, ev: Event, after: seq<Event>, builds: map<string, Build>, slack: real,
                                strays: set<string>, n: string)
    requires GoodWorld(w, builds, slack, strays) && Fits(ev, builds, slack) && Enabled(w.disk, ev) && IsReplaced(w, ev, n)
    requires Legal(Step(w, ev), after, builds, slack) && w.disk.index.value in Step(w, ev).lastLive
    requires Run(Step(w, ev), after).clock <= Step(w, ev).lastLive[w.disk.index.value] + RETENTION_SECONDS - ev.took
    ensures n in builds && AlwaysWhole(Step(w, ev), after, builds[n])
  {
    hide *;
    WindowIsHonouredExactly(w, ev, after, builds, slack, strays, n);
    var until := Step(w, ev).lastLive[w.disk.index.value] - ev.took + RETENTION_SECONDS;
    NoneTakesBefore(Step(w, ev), after, builds, slack, builds[n], until);
  }
}
