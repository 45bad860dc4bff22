/**
 * The invariant of the live directory and the discipline each atomic step obeys:
 * register before copying, copy before switching, unlink before forgetting.
 */
module FrontendSafety {
  import opened Common
  import opened FrontendDisk
  import opened FrontendPlans

  /**
   * What the run has fixed or recorded so far: the build each release name stands for, the last
   * time each HTML text was being served, the clock as the operation read it, the longest time a
   * publish takes, and the files that nothing ever registered.
   */
  datatype Ground = Ground(builds: map<string, Build>, lastLive: map<string, real>, clock: real,
                           slack: real, strays: set<string>)

  /** A release name always means the same build, and equal HTML means equal files. */
  ghost predicate IndexDecidesBuild(builds: map<string, Build>) {
    && (forall n :: n in builds ==> builds[n].index.Some? && builds[n].Listed())
    && (forall n, m :: n in builds && m in builds && builds[n].index == builds[m].index ==>
          builds[n].bytes == builds[m].bytes)
  }

  /** The release directory holds some of the builds; an interrupted one may lack its HTML. */
  ghost predicate Agrees(root: map<string, Release>, builds: map<string, Build>) {
    forall n :: n in root ==>
      && root[n].dist.Listed()
      && (root[n].dist.index.Some? ==> n in builds && builds[n] == root[n].dist)
  }

  /** Every file of the build is being served with the build's bytes. */
  ghost predicate Whole(d: Disk, b: Build) {
    forall f :: f in b.bytes ==> f in d.assets && d.assets[f] == b.bytes[f]
  }

  ghost predicate Describes(inv: Inventory, builds: map<string, Build>) {
    forall n :: n in inv.versions ==>
      && n in builds && BuildInventory(builds[n]).Ok?
      && builds[n].index == Some(inv.versions[n].index)
      && inv.versions[n].files == builds[n].names
  }

  /** The version `n` serves the HTML `i` completely. */
  ghost predicate Serves(d: Disk, builds: map<string, Build>, n: string, i: string) {
    && d.inventory.Some?
    && n in d.inventory.value.versions && n in builds
    && d.inventory.value.versions[n].index == i
    && Whole(d, builds[n])
  }

  /** The version `n` cannot be expired before `since + RETENTION_SECONDS`. */
  ghost predicate HeldSince(inv: Inventory, n: string, since: real) {
    n in inv.versions && (inv.versions[n].retiredAt.None? || inv.versions[n].retiredAt.value >= since)
  }

  /** HTML `i` is served completely, and stays so while it is current or its window is open. */
  ghost predicate Protected(d: Disk, g: Ground, i: string)
    requires i in g.lastLive
  {
    exists n :: Serves(d, g.builds, n, i) &&
                (d.index == Some(i) || HeldSince(d.inventory.value, n, g.lastLive[i] - g.slack))
  }

  ghost predicate WindowClosed(g: Ground, i: string)
    requires i in g.lastLive
  {
    g.lastLive[i] + RETENTION_SECONDS - g.slack < g.clock
  }

  ghost predicate LiveWhole(d: Disk, builds: map<string, Build>) {
    d.index.Some? && exists n :: Serves(d, builds, n, d.index.value)
  }

  ghost predicate GoodInventory(d: Disk, g: Ground) {
    && d.inventory.Some?
    && Describes(d.inventory.value, g.builds)
    && d.inventory.value.previous in d.inventory.value.versions
    && Whole(d, g.builds[d.inventory.value.previous])
    && LiveWhole(d, g.builds)
    && (forall i :: i in g.lastLive ==> Protected(d, g, i) || WindowClosed(g, i))
    && d.assets.Keys <= g.strays + ManagedFiles(d)
  }

  /** Before the first inventory: a whole build is live, and no other HTML has been. */
  ghost predicate GoodStart(d: Disk, g: Ground) {
    && d.inventory.None? && d.index.Some?
    && g.lastLive.Keys <= {d.index.value}
    && exists n :: n in g.builds && g.builds[n].index == d.index && Whole(d, g.builds[n])
                   && d.assets.Keys <= g.strays + g.builds[n].bytes.Keys
  }

  ghost predicate Good(d: Disk, g: Ground) {
    && IndexDecidesBuild(g.builds)
    && d.index.Some?
    && (if d.inventory.None? then GoodStart(d, g) else GoodInventory(d, g))
  }

  /** What makes one step safe on the disk it is taken from. */
  ghost predicate Safe(d: Disk, e: Effect, g: Ground) {
    match e
    case Save(inv) => GoodInventory(d.(inventory := Some(inv)), g)
    case Write(f, _) => d.inventory.Some? && f !in d.assets && f in ManagedFiles(d)
    case Unlink(f) => d.inventory.Some? && OnlyExpiredList(d, f, g.clock)
    case Switch(i) =>
      && d.inventory.Some?
      && (exists n :: Serves(d, g.builds, n, i))
      && forall j :: j in g.lastLive && d.index == Some(j) && i != j ==>
           exists n :: Serves(d, g.builds, n, j) && HeldSince(d.inventory.value, n, g.lastLive[j] - g.slack)
  }

  /** Every version that lists the file left service longer ago than the retention window. */
  ghost predicate OnlyExpiredList(d: Disk, f: string, clock: real)
    requires d.inventory.Some?
  {
    d.index.Some? &&
    forall n :: n in d.inventory.value.versions && f in d.inventory.value.versions[n].files ==>
      n in Expired(d.inventory.value, d.index.value, clock)
  }

  ghost predicate AllSafe(d: Disk, es: seq<Effect>, g: Ground)
    decreases |es|
  {
    es == [] || (Safe(d, es[0], g) && AllSafe(Apply(d, es[0]), es[1..], g))
  }

  lemma WholeGrows(d: Disk, d': Disk, b: Build)
    requires Whole(d, b) && Grows(d, d')
    ensures Whole(d', b)
  {
  }

  /** `d'` serves everything `d` does, unchanged. */
  ghost predicate Grows(d: Disk, d': Disk) {
    forall f :: f in d.assets ==> f in d'.assets && d'.assets[f] == d.assets[f]
  }

  lemma SameBytesSameWhole(d: Disk, a: Build, b: Build)
    requires Whole(d, a) && a.bytes == b.bytes
    ensures Whole(d, b)
  {
  }

  lemma LiveIsProtected(d: Disk, g: Ground)
    requires d.index.Some? && LiveWhole(d, g.builds) && d.index.value in g.lastLive
    ensures Protected(d, g, d.index.value)
  {
  }

  lemma ServesGrows(d: Disk, d': Disk, builds: map<string, Build>, n: string, i: string)
    requires Serves(d, builds, n, i) && Grows(d, d') && d'.inventory == d.inventory
    ensures Serves(d', builds, n, i)
  {
    WholeGrows(d, d', builds[n]);
  }

  lemma WriteKeepsGood(d: Disk, e: Effect, g: Ground)
    requires Good(d, g) && e.Write? && Safe(d, e, g)
    ensures Good(Apply(d, e), g)
  {
    hide Describes, IndexDecidesBuild, HeldSince, Serves, WindowClosed, FilesOf;
    var d' := Apply(d, e);
    var inv := d.inventory.value;
    forall i | i in g.lastLive ensures Protected(d', g, i) || WindowClosed(g, i) {
      if Protected(d, g, i) {
        var n :| Serves(d, g.builds, n, i) && (d.index == Some(i) || HeldSince(inv, n, g.lastLive[i] - g.slack));
        ServesGrows(d, d', g.builds, n, i);
      }
    }
    var n :| Serves(d, g.builds, n, d.index.value);
    ServesGrows(d, d', g.builds, n, d.index.value);
    assert ManagedFiles(d') == ManagedFiles(d);
  }

  /** A version that is not expired loses nothing to a safe unlink. */
  lemma UnlinkSpares(d: Disk, f: string, g: Ground, n: string)
    requires d.inventory.Some? && d.index.Some? && OnlyExpiredList(d, f, g.clock)
    requires IndexDecidesBuild(g.builds) && Describes(d.inventory.value, g.builds)
    requires n in d.inventory.value.versions && n !in Expired(d.inventory.value, d.index.value, g.clock)
    requires Whole(d, g.builds[n])
    ensures Whole(Apply(d, Unlink(f)), g.builds[n])
  {
    assert g.builds[n].Listed();
  }

  lemma UnlinkKeepsGood(d: Disk, e: Effect, g: Ground)
    requires Good(d, g) && e.Unlink? && Safe(d, e, g)
    ensures Good(Apply(d, e), g)
  {
    hide IndexDecidesBuild, FilesOf, Whole, OnlyExpiredList, Describes;
    var d' := Apply(d, e);
    var inv := d.inventory.value;
    UnlinkSpares(d, e.name, g, inv.previous);
    forall i | i in g.lastLive ensures Protected(d', g, i) || WindowClosed(g, i) {
      if Protected(d, g, i) && !WindowClosed(g, i) {
        var n :| Serves(d, g.builds, n, i) && (d.index == Some(i) || HeldSince(inv, n, g.lastLive[i] - g.slack));
        UnlinkSpares(d, e.name, g, n);
        assert Serves(d', g.builds, n, i);
      }
    }
    var n :| Serves(d, g.builds, n, d.index.value);
    UnlinkSpares(d, e.name, g, n);
    assert Serves(d', g.builds, n, d'.index.value);
    assert ManagedFiles(d') == ManagedFiles(d);
  }

  lemma SwitchKeepsGood(d: Disk, e: Effect, g: Ground)
    requires Good(d, g) && e.Switch? && Safe(d, e, g)
    ensures Good(Apply(d, e), g)
  {
    hide Describes, IndexDecidesBuild, HeldSince, Serves, WindowClosed, FilesOf;
    var d' := Apply(d, e);
    var inv := d.inventory.value;
    forall i | i in g.lastLive ensures Protected(d', g, i) || WindowClosed(g, i) {
      if d.index == Some(i) && e.index != i {
        var n :| Serves(d, g.builds, n, i) && HeldSince(inv, n, g.lastLive[i] - g.slack);
        ServesGrows(d, d', g.builds, n, i);
      } else if Protected(d, g, i) {
        var n :| Serves(d, g.builds, n, i) && (d.index == Some(i) || HeldSince(inv, n, g.lastLive[i] - g.slack));
        ServesGrows(d, d', g.builds, n, i);
      }
    }
    var n :| Serves(d, g.builds, n, e.index);
    ServesGrows(d, d', g.builds, n, e.index);
    assert ManagedFiles(d') == ManagedFiles(d);
  }

  lemma SafeKeepsGood(d: Disk, e: Effect, g: Ground)
    requires Good(d, g) && Safe(d, e, g)
    ensures Good(Apply(d, e), g)
  {
    match e
    case Save(_) =>
    case Write(_, _) => WriteKeepsGood(d, e, g);
    case Unlink(_) => UnlinkKeepsGood(d, e, g);
    case Switch(_) => SwitchKeepsGood(d, e, g);
  }

  /** Wherever a safe sequence of steps is cut, the invariant holds. */
  lemma {:induction false} EveryCutIsGood(d: Disk, es: seq<Effect>, g: Ground, k: nat)
    requires Good(d, g) && AllSafe(d, es, g) && k <= |es|
    ensures Good(ApplyAll(d, es[..k]), g)
    decreases k
  {
    hide Good, Safe;
    if k > 0 {
      SafeKeepsGood(d, es[0], g);
      EveryCutIsGood(Apply(d, es[0]), es[1..], g, k - 1);
      assert es[..k][0] == es[0] && es[..k][1..] == es[1..][..k - 1];
    }
  }

  /** Safety composes along the sequencing of operations. */
  lemma SafeThen(d: Disk, p: Plan, q: Plan, g: Ground)
    requires AllSafe(d, p.effects, g)
    requires p.result.Done? ==> AllSafe(Finish(d, p), q.effects, g)
    ensures AllSafe(d, Then(p, q).effects, g)
  {
    if p.result.Done? {
      SafeInSequence(d, p.effects, q.effects, g);
    }
  }

  lemma SafeOne(d: Disk, e: Effect, g: Ground)
    requires Safe(d, e, g)
    ensures AllSafe(d, One(e).effects, g)
    ensures Finish(d, One(e)) == Apply(d, e)
  {
    assert AllSafe(Apply(d, e), [], g);
    ExecuteOne(d, e, 1);
  }

  lemma {:induction false} SafeInSequence(d: Disk, xs: seq<Effect>, ys: seq<Effect>, g: Ground)
    requires AllSafe(d, xs, g) && AllSafe(ApplyAll(d, xs), ys, g)
    ensures AllSafe(d, xs + ys, g)
    decreases |xs|
  {
    hide Safe;
    if xs == [] {
      assert xs + ys == ys;
    } else {
      assert (xs + ys)[1..] == xs[1..] + ys;
      SafeInSequence(Apply(d, xs[0]), xs[1..], ys, g);
    }
  }
}
