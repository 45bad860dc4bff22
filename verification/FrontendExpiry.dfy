/** What a cleanup keeps and takes, in terms of the versions and files alone; and that abandoned candidates are taken. */
module FrontendExpiry {
  import opened Common
  import opened FrontendDisk
  import opened FrontendPlans
  import opened FrontendSafety
  import opened FrontendRuns
  import opened FrontendCleanup
  import opened FrontendRecovery
  import opened FrontendRegistration
  import opened FrontendRetention
  import FrontendRetry

  /** A cleanup keeps the rollback target, what is live, what has no stamp and what was stamped within seven days. */
  ghost predicate Keeps(inv: Inventory, live: string, now: real, n: string) {
    n in inv.versions &&
    (n == inv.previous || inv.versions[n].index == live || inv.versions[n].retiredAt == None ||
     inv.versions[n].retiredAt.value >= now - SEVEN_DAYS)
  }

  /** A version that is dropped lists the file, and none that is kept does. */
  ghost predicate Dropped(inv: Inventory, live: string, now: real, f: string) {
    (exists n :: n in inv.versions && !Keeps(inv, live, now, n) && f in inv.versions[n].files) &&
    forall n :: Keeps(inv, live, now, n) ==> f !in inv.versions[n].files
  }

  /** What a complete cleanup leaves. */
  ghost predicate Cleaned(d: Disk, e: Disk, now: real)
    requires d.inventory.Some? && d.index.Some?
  {
    var inv, live := d.inventory.value, d.index.value;
    && e.index == d.index && e.inventory.Some? && e.inventory.value.previous == inv.previous
    && (forall n :: n in e.inventory.value.versions <==> Keeps(inv, live, now, n))
    && (forall n :: n in e.inventory.value.versions ==> e.inventory.value.versions[n] == inv.versions[n])
    && (forall f :: FrontendRetry.Look(e.assets, f) == if Dropped(inv, live, now, f) then None else FrontendRetry.Look(d.assets, f))
  }

  lemma KeepsExactly(inv: Inventory, live: string, now: real)
    ensures forall n :: Keeps(inv, live, now, n) <==> n in inv.versions && n !in Expired(inv, live, now)
  {
  }

  lemma DroppedExactly(inv: Inventory, live: string, now: real, f: string)
    ensures f in Removed(inv, live, now) <==> Dropped(inv, live, now, f)
  {
    KeepsExactly(inv, live, now);
    hide Keeps, Expired;
    var expired := Expired(inv, live, now);
    if Dropped(inv, live, now, f) {
      var n :| n in inv.versions && !Keeps(inv, live, now, n) && f in inv.versions[n].files;
      assert f in FilesOf(inv.versions, expired);
    }
  }

  /** A cleanup completes if and only if the live HTML is registered; what it then leaves. */
  lemma CleanupExactly(d: Disk, now: real)
    ensures Cleanup(d, now).result.Done? <==>
            d.inventory.Some? && d.index.Some? && LiveIsRegistered(d.inventory.value, d.index.value)
    ensures Cleanup(d, now).result.Done? ==> Cleaned(d, Finish(d, Cleanup(d, now)), now)
  {
    hide Removed, Expired, LiveIsRegistered, Keeps, Dropped;
    if d.inventory.Some? && d.index.Some? {
      var inv, live := d.inventory.value, d.index.value;
      LiveMatches(inv, live);
      if LiveIsRegistered(inv, live) {
        hide Matching, Cleanup;
        CleanupFinishes(d, now);
        KeepsExactly(inv, live, now);
        forall f ensures f in Removed(inv, live, now) <==> Dropped(inv, live, now, f) {
          DroppedExactly(inv, live, now, f);
        }
      }
    }
  }

  // ----- abandoned candidates -----

  /** The version stands as it was, or has been forgotten. */
  ghost predicate StandsOrGone(d: Disk, n: string, e: Entry) {
    d.inventory.Some? && (n in d.inventory.value.versions ==> d.inventory.value.versions[n] == e)
  }

  /** The version's HTML is not served in any state of the run. */
  ghost predicate NeverServed(w: World, evs: seq<Event>, html: string)
    decreases |evs|
  {
    w.disk.index != Some(html) && (evs == [] || NeverServed(Step(w, evs[0]), evs[1..], html))
  }

  /** No publish of the run is of the version. */
  predicate NotAgain(evs: seq<Event>, n: string) {
    forall i :: 0 <= i < |evs| && evs[i].Publishing? ==> evs[i].name != n
  }

  lemma RegistrationLeaves(inv: Inventory, inv': Inventory, live: string, name: string, candidate: Entry, now: real,
                           n: string, e: Entry)
    requires Registers(inv, inv', live, name, candidate, now) && n != name
    requires n in inv.versions ==> inv.versions[n] == e
    requires e.index != live && e.retiredAt.Some?
    ensures n in inv'.versions <==> n in inv.versions
    ensures n in inv'.versions ==> inv'.versions[n] == e
  {
  }

  lemma PublishLeaves(d: Disk, ev: Event, now: real, n: string, e: Entry)
    requires ev.Publishing? && ev.name != n && StandsOrGone(d, n, e) && d.index != Some(e.index) && e.retiredAt.Some?
    ensures StandsOrGone(DiskAfter(d, ev, now), n, e)
  {
    hide Publish, Registers, LiveIsRegistered;
    var p := Publish(d, ev.root, ev.name, now);
    if !CanRegister(d, ev.root, ev.name) {
      RefusedExactly(d, ev.root, ev.name, now);
      assert p.effects[..0] == [];
    } else if ev.cut == 0 {
      assert p.effects[..0] == [];
    } else {
      NothingToBoot(d, ev.root, now);
      PublishRegisters(d, ev.root, ev.name, now, ev.cut);
      RegistrationLeaves(d.inventory.value, DiskAfter(d, ev, now).inventory.value, d.index.value, ev.name,
                         NewVersion(ev.root[ev.name].dist), now, n, e);
    }
  }

  lemma NothingToBoot(d: Disk, root: map<string, Release>, now: real)
    requires d.inventory.Some?
    ensures EnsureInventory(d, root, now) == NOTHING && Finish(d, EnsureInventory(d, root, now)) == d
  {
  }

  lemma EventLeaves(w: World, ev: Event, n: string, e: Entry)
    requires StandsOrGone(w.disk, n, e) && w.disk.index != Some(e.index) && e.retiredAt.Some? && Enabled(w.disk, ev)
    requires ev.Publishing? ==> ev.name != n
    ensures StandsOrGone(Step(w, ev).disk, n, e)
  {
    hide Publish, Cleanup, Removed;
    match ev {
      case Publishing(_, _, _, _) => PublishLeaves(w.disk, ev, w.clock, n, e);
      case Bootstrapping(_, _, _) => assert false;
      case CleaningUp(cut, _) =>
        if CanClean(w.disk) {
          var gone := CutCleanup(w.disk, w.clock, cut);
        } else {
          RefusedCleanup(w.disk, w.clock);
          assert Cleanup(w.disk, w.clock).effects[..0] == [];
        }
      case Waiting(_) =>
    }
  }

  lemma {:induction false} RunLeaves(w: World, evs: seq<Event>, n: string, e: Entry)
    requires StandsOrGone(w.disk, n, e) && e.retiredAt.Some? && AllEnabled(w, evs)
    requires NeverServed(w, evs, e.index) && NotAgain(evs, n)
    ensures StandsOrGone(Run(w, evs).disk, n, e)
    decreases |evs|
  {
    hide StandsOrGone, Step, Enabled;
    if evs != [] {
      EventLeaves(w, evs[0], n, e);
      forall i | 0 <= i < |evs[1..]| && evs[1..][i].Publishing? ensures evs[1..][i].name != n {
        assert evs[1..][i] == evs[i + 1];
      }
      RunLeaves(Step(w, evs[0]), evs[1..], n, e);
    }
  }

  /** A candidate that was registered, has no stamp and is not live, when another publish registers. */
  ghost predicate IsAbandoned(w: World, ev: Event, n: string) {
    w.disk.inventory.Some? && w.disk.index.Some? && n in w.disk.inventory.value.versions &&
    w.disk.inventory.value.versions[n].retiredAt == None && w.disk.inventory.value.versions[n].index != w.disk.index.value &&
    ev.Publishing? && ev.name != n && ev.cut > 0 && CanRegister(w.disk, ev.root, ev.name)
  }

  /** The registration stamps it. */
  lemma AbandonedIsStamped(w: World, ev: Event, n: string)
    requires IsAbandoned(w, ev, n)
    ensures StandsOrGone(Step(w, ev).disk, n, w.disk.inventory.value.versions[n].(retiredAt := Some(w.clock)))
    ensures n in Step(w, ev).disk.inventory.value.versions
  {
    hide Publish, LiveIsRegistered, Targets;
    NothingToBoot(w.disk, ev.root, w.clock);
    PublishRegisters(w.disk, ev.root, ev.name, w.clock, ev.cut);
  }

  /**
   * An abandoned candidate does not stay for ever. If another publish registers, and the candidate's HTML is then never
   * served and its release not published again, a complete cleanup that reads the clock more than seven days after that
   * registration leaves it forgotten, unless it is the rollback target; and none of its files that no other version
   * lists is served any more.
   */
  lemma AbandonedIsForgotten(w: World, ev: Event, after: seq<Event>, cut: nat, builds: map<string, Build>, slack: real,
                             strays: set<string>, n: string)
    requires GoodWorld(w, builds, slack, strays) && Fits(ev, builds, slack) && IsAbandoned(w, ev, n)
    requires Legal(Step(w, ev), after, builds, slack)
    requires NeverServed(Step(w, ev), after, w.disk.inventory.value.versions[n].index) && NotAgain(after, n)
    requires var late := Run(Step(w, ev), after);
             && late.clock > w.clock + SEVEN_DAYS && late.disk.inventory.Some? && n != late.disk.inventory.value.previous
             && cut >= |Cleanup(late.disk, late.clock).effects|
    ensures var late := Run(Step(w, ev), after);
            var end := Step(late, CleaningUp(cut, 0.0)).disk;
            && end.inventory.Some? && n !in end.inventory.value.versions
            && forall f :: f in w.disk.inventory.value.versions[n].files && f !in strays && Unshared(late.disk, n, f) ==>
                 f !in end.assets
  {
    var e := w.disk.inventory.value.versions[n].(retiredAt := Some(w.clock));
    AbandonedIsStamped(w, ev, n);
    var w1 := Step(w, ev);
    StepKeepsGood(w, ev, builds, slack, strays);
    RunKeepsGood(w1, after, builds, slack, strays);
    RunLeaves(w1, after, n, e);
    var late := Run(w1, after);
    NeverServedAtEnd(w1, after, e.index);
    hide Step, Run, NeverServed, Legal, Fits, IsAbandoned;
    LateCleanup(late, cut, builds, slack, strays, n, e, w.clock);
  }

  lemma {:induction false} NeverServedAtEnd(w: World, evs: seq<Event>, html: string)
    requires NeverServed(w, evs, html)
    ensures Run(w, evs).disk.index != Some(html)
    decreases |evs|
  {
    hide Step;
    if evs != [] {
      NeverServedAtEnd(Step(w, evs[0]), evs[1..], html);
    }
  }

  lemma LateCleanup(w: World, cut: nat, builds: map<string, Build>, slack: real, strays: set<string>, n: string, e: Entry, stamp: real)
    requires GoodWorld(w, builds, slack, strays) && StandsOrGone(w.disk, n, e) && e.retiredAt == Some(stamp)
    requires w.disk.index != Some(e.index) && w.clock > stamp + SEVEN_DAYS && n != w.disk.inventory.value.previous
    requires cut >= |Cleanup(w.disk, w.clock).effects|
    ensures var end := Step(w, CleaningUp(cut, 0.0)).disk;
            && end.inventory.Some? && n !in end.inventory.value.versions
            && forall f :: f !in strays && Unshared(w.disk, n, f) ==> f !in end.assets
  {
    var ev := CleaningUp(cut, 0.0);
    StepKeepsGood(w, ev, builds, slack, strays);
    GoodIsLive(w, builds, slack, strays);
    CleanupExactly(w.disk, w.clock);
    CutIsWhole(w.disk, Cleanup(w.disk, w.clock), cut);
    assert Step(w, ev).disk == Finish(w.disk, Cleanup(w.disk, w.clock));
    hide *;
    NowGone(w.disk, Step(w, ev).disk, w.clock, n, e, stamp);
    GoodManages(Step(w, ev), builds, slack, strays);
    NoneLeft(w.disk, Step(w, ev).disk, strays, n);
  }

  /** No version but this one lists the file. */
  ghost predicate Unshared(d: Disk, n: string, f: string) {
    d.inventory.Some? && forall m :: m in d.inventory.value.versions && m != n ==> f !in d.inventory.value.versions[m].files
  }

  lemma NowGone(d: Disk, end: Disk, now: real, n: string, e: Entry, stamp: real)
    requires d.inventory.Some? && d.index.Some? && Cleaned(d, end, now)
    requires StandsOrGone(d, n, e) && e.retiredAt == Some(stamp) && now > stamp + SEVEN_DAYS
    requires d.index != Some(e.index) && n != d.inventory.value.previous
    ensures end.inventory.Some? && n !in end.inventory.value.versions
    ensures forall m :: m in end.inventory.value.versions ==>
              m in d.inventory.value.versions && end.inventory.value.versions[m] == d.inventory.value.versions[m]
  {
    hide Dropped;
  }

  lemma NoneLeft(d: Disk, end: Disk, strays: set<string>, n: string)
    requires d.inventory.Some? && end.inventory.Some? && n !in end.inventory.value.versions
    requires forall m :: m in end.inventory.value.versions ==>
               m in d.inventory.value.versions && end.inventory.value.versions[m] == d.inventory.value.versions[m]
    requires forall f :: f in end.assets && f !in strays ==>
               exists m :: m in end.inventory.value.versions && f in end.inventory.value.versions[m].files
    ensures forall f :: f !in strays && Unshared(d, n, f) ==> f !in end.assets
  {
  }

  lemma GoodIsLive(w: World, builds: map<string, Build>, slack: real, strays: set<string>)
    requires GoodWorld(w, builds, slack, strays) && w.disk.inventory.Some?
    ensures w.disk.index.Some? && LiveIsRegistered(w.disk.inventory.value, w.disk.index.value)
  {
    hide Describes, IndexDecidesBuild, Whole, ManagedFiles, Protected, WindowClosed;
    var m :| Serves(w.disk, builds, m, w.disk.index.value);
  }

  lemma GoodManages(w: World, builds: map<string, Build>, slack: real, strays: set<string>)
    requires GoodWorld(w, builds, slack, strays) && w.disk.inventory.Some?
    ensures forall f :: f in w.disk.assets && f !in strays ==>
              exists m :: m in w.disk.inventory.value.versions && f in w.disk.inventory.value.versions[m].files
  {
    hide Describes, IndexDecidesBuild, Whole, Protected, WindowClosed, Serves;
    forall f | f in w.disk.assets && f !in strays
      ensures exists m :: m in w.disk.inventory.value.versions && f in w.disk.inventory.value.versions[m].files
    {
      assert f in ManagedFiles(w.disk);
    }
  }
}
