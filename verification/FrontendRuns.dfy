/**
 * Whole runs: any mix of publishes, bootstraps, cleanups, checks and waits, each cut after any number
 * of its steps, over release directories that come and go. The main results about every reachable state.
 */
module FrontendRuns {
  import opened Common
  import opened FrontendDisk
  import opened FrontendPlans
  import opened FrontendSafety
  import opened FrontendPublishing

  /** The live directory, the clock, and the last time each HTML text was being served. */
  datatype World = World(disk: Disk, clock: real, lastLive: map<string, real>)

  /** An operation reads the clock when it starts, takes at most `cut` steps, and `took` time passes meanwhile. */
  datatype Event =
    | Publishing(root: map<string, Release>, name: string, cut: nat, took: real)
    | Bootstrapping(root: map<string, Release>, cut: nat, took: real)
    | CleaningUp(cut: nat, took: real)
    | Waiting(took: real)

  function PlanOf(d: Disk, ev: Event, now: real): Plan {
    match ev
    case Publishing(root, name, _, _) => Publish(d, root, name, now)
    case Bootstrapping(root, _, _) => Bootstrap(d, root, now)
    case CleaningUp(_, _) => Cleanup(d, now)
    case Waiting(_) => NOTHING
  }

  function DiskAfter(d: Disk, ev: Event, now: real): Disk {
    if ev.Waiting? then d else Cut(d, PlanOf(d, ev, now), ev.cut)
  }

  function Seen(lastLive: map<string, real>, index: Option<string>, at: real): map<string, real> {
    if index.None? then lastLive else lastLive[index.value := at]
  }

  function Step(w: World, ev: Event): World {
    var d := DiskAfter(w.disk, ev, w.clock);
    var clock := w.clock + ev.took;
    World(d, clock, Seen(Seen(w.lastLive, w.disk.index, clock), d.index, clock))
  }

  function Run(w: World, evs: seq<Event>): World
    decreases |evs|
  {
    if evs == [] then w else Run(Step(w, evs[0]), evs[1..])
  }

  /**
   * The clock does not go back, releases on hand are builds under their own names, an inventory is
   * bootstrapped only when there is none, and no publish outlasts `slack`.
   */
  ghost predicate Fits(ev: Event, builds: map<string, Build>, slack: real) {
    && ev.took >= 0.0
    && (ev.Publishing? ==> Agrees(ev.root, builds) && ev.took <= slack)
    && (ev.Bootstrapping? ==> Agrees(ev.root, builds))
  }

  ghost predicate AllFit(evs: seq<Event>, builds: map<string, Build>, slack: real) {
    forall i :: 0 <= i < |evs| ==> Fits(evs[i], builds, slack)
  }

  /** A whole build is live and there is no inventory yet. */
  ghost predicate Initial(w: World, builds: map<string, Build>, strays: set<string>) {
    && IndexDecidesBuild(builds)
    && w.disk.inventory.None? && w.disk.index.Some?
    && w.lastLive == map[w.disk.index.value := w.clock]
    && exists n :: n in builds && builds[n].index == w.disk.index && Whole(w.disk, builds[n])
                   && w.disk.assets.Keys <= strays + builds[n].bytes.Keys
  }

  function GroundOf(w: World, builds: map<string, Build>, slack: real, strays: set<string>): Ground {
    Ground(builds, w.lastLive, w.clock, slack, strays)
  }

  ghost predicate GoodWorld(w: World, builds: map<string, Build>, slack: real, strays: set<string>) {
    && slack >= 0.0
    && Good(w.disk, GroundOf(w, builds, slack, strays))
    && w.disk.index.Some? && w.disk.index.value in w.lastLive
    && w.lastLive[w.disk.index.value] == w.clock
    && forall i :: i in w.lastLive ==> w.lastLive[i] <= w.clock
  }

  /** Serving the current HTML until later breaks nothing: it is protected by being current. */
  lemma StillServing(d: Disk, g: Ground, at: real)
    requires Good(d, g)
    ensures Good(d, g.(lastLive := g.lastLive[d.index.value := at]))
  {
    hide Describes, IndexDecidesBuild, HeldSince, Whole, Serves, ManagedFiles;
    var current := d.index.value;
    var g' := g.(lastLive := g.lastLive[current := at]);
    if d.inventory.Some? {
      LiveIsProtected(d, g');
      forall i | i in g'.lastLive ensures Protected(d, g', i) || WindowClosed(g', i) {
        if i != current {
          assert Protected(d, g, i) || WindowClosed(g, i);
          if Protected(d, g, i) {
            OthersUnaffected(d, g, g', i);
          }
        }
      }
    }
  }

  lemma OthersUnaffected(d: Disk, g: Ground, g': Ground, i: string)
    requires i in g.lastLive && i in g'.lastLive && g'.lastLive[i] == g.lastLive[i]
    requires g'.builds == g.builds && g'.slack == g.slack
    requires Protected(d, g, i) && d.inventory.Some?
    ensures Protected(d, g', i)
  {
    hide HeldSince, Serves;
    var n :| Serves(d, g.builds, n, i) &&
             (d.index == Some(i) || HeldSince(d.inventory.value, n, g.lastLive[i] - g.slack));
    assert Serves(d, g'.builds, n, i);
  }

  lemma TimePasses(d: Disk, g: Ground, later: real)
    requires Good(d, g) && g.clock <= later
    ensures Good(d, g.(clock := later))
  {
    hide Describes, IndexDecidesBuild, HeldSince, Whole, Serves, ManagedFiles;
    var g' := g.(clock := later);
    if d.inventory.Some? {
      forall i | i in g'.lastLive ensures Protected(d, g', i) || WindowClosed(g', i) {
        if Protected(d, g, i) {
          OthersUnaffected(d, g, g', i);
        }
      }
    }
  }

  /** Bootstrapping again over an inventory is the one thing no caller does. */
  ghost predicate Enabled(d: Disk, ev: Event) {
    ev.Bootstrapping? ==> d.inventory.None?
  }

  lemma EventIsSafe(d: Disk, ev: Event, g: Ground)
    requires Good(d, g) && Fits(ev, g.builds, g.slack) && Enabled(d, ev)
    requires ev.Publishing? ==> Timely(g)
    ensures Good(DiskAfter(d, ev, g.clock), g)
  {
    hide Good, Agrees, Timely, Publish, Bootstrap, Cleanup;
    if !ev.Waiting? {
      var p := PlanOf(d, ev, g.clock);
      match ev {
        case Publishing(root, name, _, _) => PublishSafe(d, root, name, g);
        case Bootstrapping(root, _, _) => BootstrapSafe(d, root, g);
        case CleaningUp(_, _) => CleanupSafe(d, g);
        case Waiting(_) =>
      }
      EveryCutIsGood(d, p.effects, g, Min(ev.cut, |p.effects|));
    }
  }

  lemma StepKeepsGood(w: World, ev: Event, builds: map<string, Build>, slack: real, strays: set<string>)
    requires GoodWorld(w, builds, slack, strays) && Fits(ev, builds, slack) && Enabled(w.disk, ev)
    ensures GoodWorld(Step(w, ev), builds, slack, strays)
    ensures forall i :: i in w.lastLive ==> i in Step(w, ev).lastLive && w.lastLive[i] <= Step(w, ev).lastLive[i]
  {
    hide IndexDecidesBuild, GoodStart, GoodInventory, DiskAfter, Agrees;
    var g := GroundOf(w, builds, slack, strays);
    var later := w.clock + ev.took;
    var g1 := g.(lastLive := g.lastLive[w.disk.index.value := later]);
    StillServing(w.disk, g, later);
    EventIsSafe(w.disk, ev, g1);
    var d := DiskAfter(w.disk, ev, w.clock);
    StillServing(d, g1, later);
    TimePasses(d, g1.(lastLive := g1.lastLive[d.index.value := later]), later);
  }

  ghost predicate AllEnabled(w: World, evs: seq<Event>)
    decreases |evs|
  {
    evs == [] || (Enabled(w.disk, evs[0]) && AllEnabled(Step(w, evs[0]), evs[1..]))
  }

  /** What a run may consist of. */
  ghost predicate Legal(w: World, evs: seq<Event>, builds: map<string, Build>, slack: real) {
    AllFit(evs, builds, slack) && AllEnabled(w, evs)
  }

  lemma InitialIsGood(w: World, builds: map<string, Build>, slack: real, strays: set<string>)
    requires Initial(w, builds, strays) && slack >= 0.0
    ensures GoodWorld(w, builds, slack, strays)
  {
  }

  lemma {:induction false} RunKeepsGood(w: World, evs: seq<Event>, builds: map<string, Build>, slack: real, strays: set<string>)
    requires GoodWorld(w, builds, slack, strays) && Legal(w, evs, builds, slack)
    ensures GoodWorld(Run(w, evs), builds, slack, strays)
    ensures forall i :: i in w.lastLive ==> i in Run(w, evs).lastLive && w.lastLive[i] <= Run(w, evs).lastLive[i]
    decreases |evs|
  {
    hide GoodWorld, Fits, Step;
    if evs != [] {
      assert Fits(evs[0], builds, slack);
      StepKeepsGood(w, evs[0], builds, slack, strays);
      forall i | 0 <= i < |evs[1..]| ensures Fits(evs[1..][i], builds, slack) {
        assert evs[1..][i] == evs[i + 1];
      }
      RunKeepsGood(Step(w, evs[0]), evs[1..], builds, slack, strays);
    }
  }

  /**
   * Live page is always whole. In every state of every run, whatever was cut or refused on the way,
   * some registered version (before the first inventory: some build) has the published HTML, and every
   * one of its files is being served with its own bytes.
   */
  lemma LivePageIsWhole(w: World, evs: seq<Event>, builds: map<string, Build>, slack: real, strays: set<string>)
    requires Initial(w, builds, strays) && slack >= 0.0 && Legal(w, evs, builds, slack)
    ensures var d := Run(w, evs).disk;
            && d.index.Some?
            && (exists n :: n in builds && builds[n].index == d.index && Whole(d, builds[n]))
            && (d.inventory.Some? ==> LiveWhole(d, builds))
  {
    hide Initial, IndexDecidesBuild;
    InitialIsGood(w, builds, slack, strays);
    RunKeepsGood(w, evs, builds, slack, strays);
    var d := Run(w, evs).disk;
    if d.inventory.Some? {
      var n :| Serves(d, builds, n, d.index.value);
      assert builds[n].index == d.index;
    }
  }

  /**
   * Write-ahead inventory. In every state of every run, an asset is either one of the files that were
   * there unregistered from the start or is listed by a version of the inventory.
   */
  lemma EveryAssetIsManaged(w: World, evs: seq<Event>, builds: map<string, Build>, slack: real, strays: set<string>)
    requires Initial(w, builds, strays) && slack >= 0.0 && Legal(w, evs, builds, slack)
    ensures var d := Run(w, evs).disk;
            d.inventory.Some? ==> d.assets.Keys <= strays + ManagedFiles(d)
  {
    hide Initial, IndexDecidesBuild, ManagedFiles, Describes, Whole;
    InitialIsGood(w, builds, slack, strays);
    RunKeepsGood(w, evs, builds, slack, strays);
  }

  lemma ServedIsWhole(d: Disk, g: Ground, n: string, i: string)
    requires IndexDecidesBuild(g.builds) && d.inventory.Some? && Describes(d.inventory.value, g.builds)
    requires n in g.builds && g.builds[n].index == Some(i)
    requires exists m :: Serves(d, g.builds, m, i)
    ensures Whole(d, g.builds[n])
  {
    var m :| Serves(d, g.builds, m, i);
    assert g.builds[m].bytes == g.builds[n].bytes;
  }

  /**
   * Retention. A build whose HTML was being served at some moment of a run has all of its files served,
   * with the same bytes, in every later state up to RETENTION_SECONDS after that moment, less the longest
   * time a publish takes (nothing less when publishes take no time). Completed, cut and refused publishes
   * and any cleanups may come between.
   */
  lemma ServedBuildsAreRetained(w: World, before: seq<Event>, after: seq<Event>, builds: map<string, Build>,
                                slack: real, strays: set<string>, n: string)
    requires Initial(w, builds, strays) && slack >= 0.0
    requires Legal(w, before, builds, slack) && Legal(Run(w, before), after, builds, slack)
    requires n in builds && builds[n].index == Run(w, before).disk.index
    requires Run(Run(w, before), after).clock <= Run(w, before).clock + RETENTION_SECONDS - slack
    ensures Whole(Run(Run(w, before), after).disk, builds[n])
  {
    hide Initial, Legal, Whole, ManagedFiles, HeldSince;
    InitialIsGood(w, builds, slack, strays);
    RunKeepsGood(w, before, builds, slack, strays);
    var w1 := Run(w, before);
    var i := w1.disk.index.value;
    RunKeepsGood(w1, after, builds, slack, strays);
    var w2 := Run(w1, after);
    var g := GroundOf(w2, builds, slack, strays);
    assert i in g.lastLive && !WindowClosed(g, i);
    if w2.disk.inventory.Some? {
      assert Protected(w2.disk, g, i);
      ServedIsWhole(w2.disk, g, n, i);
    } else {
      assert w2.disk.index == Some(i);
      var m :| m in builds && builds[m].index == w2.disk.index && Whole(w2.disk, builds[m]);
      SameBytesSameWhole(w2.disk, builds[m], builds[n]);
    }
  }

  /** The rollback target is registered and whole in every state that has an inventory. */
  lemma PreviousIsAlwaysWhole(w: World, evs: seq<Event>, builds: map<string, Build>, slack: real, strays: set<string>)
    requires Initial(w, builds, strays) && slack >= 0.0 && Legal(w, evs, builds, slack)
    ensures var d := Run(w, evs).disk;
            d.inventory.Some? ==>
              && d.inventory.value.previous in d.inventory.value.versions
              && d.inventory.value.previous in builds
              && Whole(d, builds[d.inventory.value.previous])
  {
    hide Initial, IndexDecidesBuild, ManagedFiles, Whole;
    InitialIsGood(w, builds, slack, strays);
    RunKeepsGood(w, evs, builds, slack, strays);
  }
}
