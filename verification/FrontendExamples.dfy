/** Concrete runs from a first live build on the wrong side of the publisher's exact conditions. */
module FrontendExamples {
  import opened Common
  import opened FrontendDisk
  import opened FrontendPlans
  import opened FrontendSafety
  import opened FrontendRetry
  import opened FrontendResumption
  import opened FrontendRuns
  import opened FrontendCleanup
  import opened FrontendLimits
  import opened FrontendRetention
  import TextOrder

  function File(x: char): string {
    "assets/" + [x] + ".js"
  }

  /** A build with one file. */
  function Page(html: string, file: string, content: byte): Build {
    Build(Some(html), [file], map[file := [content]])
  }

  const A := Page("A", File('a'), 1)
  const B := Page("B", File('b'), 2)
  const C := Page("C", File('c'), 3)
  const BUILDS := map["a" := A, "b" := B, "c" := C]

  /** The only release on hand. */
  function Hand(name: string, build: Build): map<string, Release> {
    map[name := Release(build, 0.0)]
  }

  // ----- operations that run to their end -----

  function Bootstraps(w: World, root: map<string, Release>): Event {
    Bootstrapping(root, |Bootstrap(w.disk, root, w.clock).effects|, 0.0)
  }

  function Publishes(w: World, root: map<string, Release>, name: string, took: real): Event {
    Publishing(root, name, |Publish(w.disk, root, name, w.clock).effects|, took)
  }

  function Cleans(w: World): Event {
    CleaningUp(|Cleanup(w.disk, w.clock).effects|, 0.0)
  }

  function WorldAfter(w: World, d: Disk, took: real): World {
    World(d, w.clock + took, Seen(Seen(w.lastLive, w.disk.index, w.clock + took), d.index, w.clock + took))
  }

  // ----- one-file builds -----

  lemma SortedOne(x: string)
    ensures TextOrder.Sorted({x}) == [x] && TextOrder.Greatest({x}) == x
  {
    assert TextOrder.Ascending([x]) && TextOrder.Elements([x]) == {x};
    TextOrder.AscendingIsCanonical(TextOrder.Sorted({x}), [x]);
  }

  /** A publish of a new build with one file, where every file that is registered is served. */
  lemma PublishNew(d: Disk, name: string, build: Build, now: real, f: string)
    requires d.inventory.Some? && d.index.Some? && Matching(d.inventory.value.versions, d.index.value) != {}
    requires name !in d.inventory.value.versions && f !in d.assets
    requires forall n, g :: n in d.inventory.value.versions && g in d.inventory.value.versions[n].files ==> g in d.assets
    requires Candidate(Hand(name, build), name).Ok? && build.names == [f] && f in build.bytes
    ensures var p := Publish(d, Hand(name, build), name, now);
            var candidate := Candidate(Hand(name, build), name).value;
            p.result.Done? &&
            Finish(d, p) == Disk(Some(Registered(d.inventory.value, d.index.value, name, candidate, now)),
                                 Some(candidate.index), d.assets[f := build.bytes[f]])
  {
    hide Matching, Registered, KeysWith, Promote, RollOut, Supported, TextOrder.Greatest;
    var root := Hand(name, build);
    var candidate := Candidate(root, name).value;
    var versions, current := d.inventory.value.versions, d.index.value;
    var inv := Registered(d.inventory.value, current, name, candidate, now);
    var keys := KeysWith(versions, name);
    assert candidate.files == [f] && BytesOf(root, name) == build.bytes;
    PublishOverInventory(d, root, name, now);
    PromoteIsRollOut(d, root, name, candidate, now);
    RollOutExactly(Apply(d, Save(inv)), root, inv, current, now, keys, build.bytes, candidate);
    RegisteredKeys(d.inventory.value, current, name, candidate, now);
    RegistrationKeepsFiles(d.inventory.value, current, name, candidate, now);
    forall g | g !in d.assets && Supplier(inv, current, now, keys, g).Some?
      ensures Supplier(inv, current, now, keys, g) == Some(name) && g == f
    {
      SupplierFacts(inv, current, now, keys, g);
    }
    assert Available(d.assets, root, inv, current, now, keys);
    assert Agreeable(d.assets, root, inv, current, now, keys, build.bytes, candidate.files);
    SameLooks(Finish(d, Publish(d, root, name, now)).assets, d.assets[f := build.bytes[f]]);
  }

  lemma Uncut(d: Disk, p: Plan)
    ensures Cut(d, p, |p.effects|) == Finish(d, p)
  {
    CutIsWhole(d, p, |p.effects|);
  }

  // ----- the opening of every run: a first bootstrap, then a publish of another build -----

  lemma FilesDiffer(x: char, y: char)
    ensures ManagedPath(File(x)) && (File(x) == File(y) ==> x == y)
  {
    assert File(x)[7] == x && File(y)[7] == y;
    assert File(x)[..7] == "assets/";
  }

  const W0 := World(Disk(None, Some("A"), A.bytes), 0.0, map["A" := 0.0])
  const D1 := Disk(Some(Inventory(map["a" := Entry("A", A.names, Some(0.0))], "a")), Some("A"), A.bytes)
  const W1 := World(D1, 0.0, map["A" := 0.0])
  const D2 := Disk(Some(Inventory(map["a" := Entry("A", A.names, Some(0.0)), "b" := Entry("B", B.names, None)], "a")),
                   Some("B"), A.bytes[File('b') := [2]])

  function W2(took: real): World {
    World(D2, took, map["A" := took, "B" := took])
  }

  function Opening(took: real): seq<Event> {
    [Bootstraps(W0, Hand("a", A)), Publishes(W1, Hand("b", B), "b", took)]
  }

  lemma PageIsCandidate(name: string, html: string, file: string, content: byte)
    requires ManagedPath(file)
    ensures var b := Page(html, file, content);
            Candidate(Hand(name, b), name) == Ok(Entry(html, [file], None))
  {
    hide ManagedPath;
  }

  lemma PageAgrees(name: string, html: string, file: string, content: byte)
    requires name in BUILDS && BUILDS[name] == Page(html, file, content)
    ensures Agrees(Hand(name, Page(html, file, content)), BUILDS)
  {
  }

  lemma PageIsListed(html: string, file: string, content: byte)
    ensures Page(html, file, content).Listed() && Page(html, file, content).index == Some(html)
  {
  }

  lemma OneOfThree(n: string)
    requires n in BUILDS
    ensures (n == "a" && BUILDS[n] == A) || (n == "b" && BUILDS[n] == B) || (n == "c" && BUILDS[n] == C)
    ensures BUILDS[n].Listed() && BUILDS[n].index.Some?
  {
    hide File;
    PageIsListed("A", File('a'), 1);
    PageIsListed("B", File('b'), 2);
    PageIsListed("C", File('c'), 3);
    hide Page;
  }

  lemma ThreeBuilds()
    ensures IndexDecidesBuild(BUILDS)
  {
    hide File;
    forall n, m | n in BUILDS && m in BUILDS && BUILDS[n].index == BUILDS[m].index
      ensures BUILDS[n].bytes == BUILDS[m].bytes
    {
      OneOfThree(n);
      OneOfThree(m);
      assert A.index.value[0] == 'A' && B.index.value[0] == 'B' && C.index.value[0] == 'C';
      hide BUILDS;
    }
    forall n | n in BUILDS ensures BUILDS[n].index.Some? && BUILDS[n].Listed() {
      OneOfThree(n);
    }
  }

  lemma StartsWithA()
    ensures Initial(W0, BUILDS, {})
  {
    ThreeBuilds();
    hide File, IndexDecidesBuild;
    assert BUILDS["a"] == A && Whole(W0.disk, A);
  }

  lemma Bootstrapped()
    ensures Finish(W0.disk, Bootstrap(W0.disk, Hand("a", A), 0.0)) == D1
  {
    hide File;
    var root := Hand("a", A);
    SortedOne("a");
    assert root.Keys == {"a"};
    FilesDiffer('a', 'a');
    PageIsCandidate("a", "A", File('a'), 1);
    var versions: map<string, Entry> := map["a" := Entry("A", A.names, Some(0.0))];
    assert versions.Keys == {"a"};
    assert Recover(root, ["a"], "A", 0.0, map[]) == Ok(versions);
    assert Matching(versions, "A") == {"a"};
    assert CopyVersions(D1, root, versions, ["a"]) == NOTHING;
  }

  lemma PublishedB()
    ensures Finish(D1, Publish(D1, Hand("b", B), "b", 0.0)) == D2
  {
    hide Publish, File;
    FilesDiffer('a', 'b');
    FilesDiffer('b', 'a');
    PageIsCandidate("b", "B", File('b'), 2);
    var inv := D1.inventory.value;
    SortedOne("a");
    assert Matching(inv.versions, "A") == {"a"};
    PublishNew(D1, "b", B, 0.0, File('b'));
    assert Retire(inv.versions, "A", 0.0)["b" := Entry("B", B.names, None)] == D2.inventory.value.versions;
  }

  // ----- runs, one event after another -----

  lemma {:induction false} RunsOn(w: World, evs: seq<Event>, ev: Event, slack: real)
    requires Legal(w, evs, BUILDS, slack) && Fits(ev, BUILDS, slack) && Enabled(Run(w, evs).disk, ev)
    ensures Legal(w, evs + [ev], BUILDS, slack) && Run(w, evs + [ev]) == Step(Run(w, evs), ev)
    decreases |evs|
  {
    hide Fits, Step, Enabled, BUILDS;
    if evs == [] {
      var one := [ev];
      assert [] + [ev] == one && one[0] == ev && one[1..] == [];
      assert Run(w, one) == Run(Step(w, ev), []);
      assert AllEnabled(Step(w, ev), []);
    } else {
      assert (evs + [ev])[1..] == evs[1..] + [ev];
      LegalTail(w, evs, BUILDS, slack);
      RunsOn(Step(w, evs[0]), evs[1..], ev, slack);
    }
  }

  /** A run from the start that goes on with one more event. */
  lemma GoesOn(evs: seq<Event>, w: World, ev: Event, d: Disk)
    requires Legal(W0, evs, BUILDS, 10.0) && Run(W0, evs) == w
    requires Fits(ev, BUILDS, 10.0) && Enabled(w.disk, ev) && DiskAfter(w.disk, ev, w.clock) == d
    ensures Legal(W0, evs + [ev], BUILDS, 10.0) && Run(W0, evs + [ev]) == WorldAfter(w, d, ev.took)
  {
    hide Fits, Enabled, DiskAfter, Legal, BUILDS;
    RunsOn(W0, evs, ev, 10.0);
  }

  lemma BootReaches()
    ensures Legal(W0, [Bootstraps(W0, Hand("a", A))], BUILDS, 10.0)
    ensures Run(W0, [Bootstraps(W0, Hand("a", A))]) == W1
  {
    hide Bootstrap, Agrees, File, Page;
    var boot := Bootstraps(W0, Hand("a", A));
    PageAgrees("a", "A", File('a'), 1);
    Bootstrapped();
    Uncut(W0.disk, Bootstrap(W0.disk, Hand("a", A), 0.0));
    GoesOn([], W0, boot, D1);
    assert [] + [boot] == [boot];
    assert WorldAfter(W0, D1, 0.0) == W1;
  }

  lemma OpeningReaches(took: real)
    requires 0.0 <= took <= 10.0
    ensures Legal(W0, Opening(took), BUILDS, 10.0) && Run(W0, Opening(took)) == W2(took)
  {
    hide Bootstrap, Publish, Agrees, File, Page, Legal, Run;
    BootReaches();
    var boot, publish := Bootstraps(W0, Hand("a", A)), Publishes(W1, Hand("b", B), "b", took);
    PageAgrees("b", "B", File('b'), 2);
    PublishedB();
    Uncut(D1, Publish(D1, Hand("b", B), "b", 0.0));
    GoesOn([boot], W1, publish, D2);
    assert [boot] + [publish] == Opening(took);
    assert WorldAfter(W1, D2, took) == W2(took);
  }

  // ----- the window falls short -----

  function D3(at: real): Disk {
    Disk(Some(Inventory(D2.inventory.value.versions["b" := Entry("B", B.names, Some(at))]["c" := Entry("C", C.names, None)],
                        "b")), Some("C"), D2.assets[File('c') := [3]])
  }

  lemma RegisteredC(now: real)
    ensures "b" in Matching(D2.inventory.value.versions, "B")
    ensures Registered(D2.inventory.value, "B", "c", Entry("C", C.names, None), now) == D3(now).inventory.value
  {
    hide File;
    SortedOne("b");
    var versions := D2.inventory.value.versions;
    assert versions["a"].index[0] == 'A' && versions["b"].index[0] == 'B';
    assert Matching(versions, "B") == {"b"};
    assert Retire(versions, "B", now)["c" := Entry("C", C.names, None)] == D3(now).inventory.value.versions;
  }

  lemma PublishedC(now: real)
    ensures Finish(D2, Publish(D2, Hand("c", C), "c", now)) == D3(now)
  {
    hide Publish, File, Registered, Matching;
    FilesDiffer('a', 'c');
    FilesDiffer('b', 'c');
    FilesDiffer('c', 'c');
    PageIsCandidate("c", "C", File('c'), 3);
    RegisteredC(now);
    PublishNew(D2, "c", C, now, File('c'));
  }

  const W3 := World(D3(10.0), 10.0, map["A" := 10.0, "B" := 10.0, "C" := 10.0])
  const W4 := World(D3(10.0), RETENTION_SECONDS + 5.0, map["A" := 10.0, "B" := 10.0, "C" := RETENTION_SECONDS + 5.0])

  /** B takes ten seconds to replace A; C then replaces B at once; a cleanup follows almost RETENTION_SECONDS later. */
  const SHORT_RUN: seq<Event> :=
    Opening(10.0) + [Publishes(W2(10.0), Hand("c", C), "c", 0.0)] + [Waiting(RETENTION_SECONDS - 5.0)] + [Cleans(W4)]

  lemma ShortRunReaches()
    ensures Legal(W0, SHORT_RUN, BUILDS, 10.0)
    ensures Run(W0, SHORT_RUN) == WorldAfter(W4, Finish(W4.disk, Cleanup(W4.disk, W4.clock)), 0.0)
  {
    hide Publish, Cleanup, Agrees, File, Page, Legal, Run, Opening;
    OpeningReaches(10.0);
    PageAgrees("c", "C", File('c'), 3);
    var publish, wait, clean := Publishes(W2(10.0), Hand("c", C), "c", 0.0), Waiting(RETENTION_SECONDS - 5.0), Cleans(W4);
    PublishedC(10.0);
    Uncut(D2, Publish(D2, Hand("c", C), "c", 10.0));
    GoesOn(Opening(10.0), W2(10.0), publish, D3(10.0));
    assert WorldAfter(W2(10.0), D3(10.0), 0.0) == W3;
    GoesOn(Opening(10.0) + [publish], W3, wait, D3(10.0));
    assert WorldAfter(W3, D3(10.0), wait.took) == W4;
    Uncut(W4.disk, Cleanup(W4.disk, W4.clock));
    GoesOn(Opening(10.0) + [publish] + [wait], W4, clean, Finish(W4.disk, Cleanup(W4.disk, W4.clock)));
  }

  /** A was last served at 10, but less than RETENTION_SECONDS after that its file is gone. */
  lemma RetentionCanFallShort()
    ensures Initial(W0, BUILDS, {}) && Legal(W0, SHORT_RUN, BUILDS, 10.0)
    ensures var w := Run(W0, SHORT_RUN);
            && "A" in w.lastLive && w.lastLive["A"] == 10.0
            && w.clock < w.lastLive["A"] + RETENTION_SECONDS
            && !Whole(w.disk, BUILDS["a"])
  {
    StartsWithA();
    ShortRunReaches();
    FileOfAGoes();
    hide *;
    EndsEarly(Finish(W4.disk, Cleanup(W4.disk, W4.clock)));
  }

  lemma EndsEarly(d: Disk)
    requires d.index == Some("C")
    ensures var w := WorldAfter(W4, d, 0.0);
            && w.disk == d && "A" in w.lastLive && w.lastLive["A"] == 10.0
            && w.clock < w.lastLive["A"] + RETENTION_SECONDS
  {
    hide D3;
    assert "A"[0] == 'A' && "B"[0] == 'B' && "C"[0] == 'C';
    assert W4.disk.index == Some("C") by { IndexOfD3(); }
  }

  lemma IndexOfD3()
    ensures D3(10.0).index == Some("C")
  {
  }

  lemma FileOfAGoes()
    ensures var d := Finish(W4.disk, Cleanup(W4.disk, W4.clock)); d.index == Some("C") && !Whole(d, BUILDS["a"])
  {
    hide Removed, Cleanup, File, Expired, Matching;
    AIsDisplaced();
    CleanupFinishes(W4.disk, W4.clock);
    assert BUILDS["a"] == A;
    assert File('a') in A.bytes;
  }

  lemma AIsDisplaced()
    ensures Matching(W4.disk.inventory.value.versions, "C") != {}
    ensures File('a') in Removed(W4.disk.inventory.value, "C", W4.clock)
  {
    hide Removed, File;
    assert "c" in Matching(W4.disk.inventory.value.versions, "C");
    FilesDiffer('a', 'b');
    FilesDiffer('a', 'c');
    ExpiredFileGoes(W4.disk, "a", File('a'), W4.clock);
  }

  /** A file is removed when an expired version lists it and no other version does. */
  lemma ExpiredFileGoes(d: Disk, n: string, f: string, now: real)
    requires d.inventory.Some? && d.index.Some? && n in d.inventory.value.versions && f in d.inventory.value.versions[n].files
    requires Displaced(d, n) && StampIsOld(d.inventory.value.versions[n], now)
    requires forall m :: m in d.inventory.value.versions && m != n ==> f !in d.inventory.value.versions[m].files
    ensures f in Removed(d.inventory.value, d.index.value, now) && n in Expired(d.inventory.value, d.index.value, now)
  {
    RemovedExactly(d, f, now);
  }

  // ----- the rollback target is dropped -----

  const LATE := RETENTION_SECONDS + 1.0
  const W5 := World(D2, LATE, map["A" := 0.0, "B" := LATE])

  /** A publish of C has registered, and has gone no further. */
  const D6 := D2.(inventory := D3(LATE).inventory)
  const W6 := World(D6, LATE, map["A" := 0.0, "B" := LATE])

  const QUIET_RUN: seq<Event> := Opening(0.0) + [Waiting(LATE)] + [Cleans(W5)]
  const DISPLACED_RUN: seq<Event> := Opening(0.0) + [Waiting(LATE)] + [Publishing(Hand("c", C), "c", 1, 0.0)] + [Cleans(W6)]

  /** The first step of a publish over an inventory is its registration. */
  lemma RegistersFirst(d: Disk, root: map<string, Release>, name: string, now: real)
    requires d.inventory.Some? && d.index.Some? && Candidate(root, name).Ok?
    requires Matching(d.inventory.value.versions, d.index.value) != {}
    ensures Cut(d, Publish(d, root, name, now), 1) ==
            d.(inventory := Some(Registered(d.inventory.value, d.index.value, name, Candidate(root, name).value, now)))
  {
    hide Promote, RollOut, Registered, Matching, Candidate, Publish;
    var candidate := Candidate(root, name).value;
    PublishOverInventory(d, root, name, now);
    PromoteIsRollOut(d, root, name, candidate, now);
    var save := Save(Registered(d.inventory.value, d.index.value, name, candidate, now));
    assert Publish(d, root, name, now).effects[..1] == [save];
    ExecuteOne(d, save, 1);
  }

  lemma RegisteredOnly()
    ensures Cut(D2, Publish(D2, Hand("c", C), "c", LATE), 1) == D6
  {
    hide Publish, File, Registered, Matching;
    FilesDiffer('c', 'c');
    PageIsCandidate("c", "C", File('c'), 3);
    RegisteredC(LATE);
    RegistersFirst(D2, Hand("c", C), "c", LATE);
  }

  lemma QuietRunReaches()
    ensures Legal(W0, QUIET_RUN, BUILDS, 10.0)
    ensures Run(W0, QUIET_RUN).disk == Finish(W5.disk, Cleanup(W5.disk, LATE))
  {
    hide Cleanup, File, Page, Legal, Run, Opening;
    OpeningReaches(0.0);
    var wait, clean := Waiting(LATE), Cleans(W5);
    GoesOn(Opening(0.0), W2(0.0), wait, D2);
    assert WorldAfter(W2(0.0), D2, LATE) == W5;
    Uncut(W5.disk, Cleanup(W5.disk, W5.clock));
    GoesOn(Opening(0.0) + [wait], W5, clean, Finish(W5.disk, Cleanup(W5.disk, W5.clock)));
  }

  lemma DisplacedRunReaches()
    ensures Legal(W0, DISPLACED_RUN, BUILDS, 10.0)
    ensures Run(W0, DISPLACED_RUN).disk == Finish(W6.disk, Cleanup(W6.disk, LATE))
  {
    hide Publish, Cleanup, Agrees, File, Page, Legal, Run, Opening;
    OpeningReaches(0.0);
    PageAgrees("c", "C", File('c'), 3);
    var wait, publish, clean := Waiting(LATE), Publishing(Hand("c", C), "c", 1, 0.0), Cleans(W6);
    GoesOn(Opening(0.0), W2(0.0), wait, D2);
    assert WorldAfter(W2(0.0), D2, LATE) == W5;
    RegisteredOnly();
    GoesOn(Opening(0.0) + [wait], W5, publish, D6);
    assert WorldAfter(W5, D6, 0.0) == W6;
    Uncut(W6.disk, Cleanup(W6.disk, W6.clock));
    GoesOn(Opening(0.0) + [wait] + [publish], W6, clean, Finish(W6.disk, Cleanup(W6.disk, W6.clock)));
  }

  ghost predicate Registers(d: Disk, n: string) {
    d.inventory.Some? && n in d.inventory.value.versions
  }

  lemma TargetIsSpared()
    ensures "a" !in Expired(D2.inventory.value, "B", LATE) && File('a') !in Removed(D2.inventory.value, "B", LATE)
  {
    hide File, Removed;
    assert D2.inventory.value.previous == "a" && File('a') in D2.inventory.value.versions["a"].files;
    assert !Displaced(D2, "a");
    RemovedExactly(D2, File('a'), LATE);
  }

  lemma WithoutOthers(gone: set<string>)
    requires File('a') !in gone
    ensures forall d: Disk :: d.assets == D2.assets - gone ==> Whole(d, BUILDS["a"])
  {
    hide File;
    FilesDiffer('a', 'b');
    assert BUILDS["a"] == A && D2.assets[File('a')] == [1];
  }

  lemma QuietCleanupKeepsA()
    ensures var d := Finish(D2, Cleanup(D2, LATE)); Registers(d, "a") && Whole(d, BUILDS["a"]) && d.index == Some("B")
  {
    hide Cleanup, File, Removed, Matching, Expired, Whole, BUILDS, LATE;
    RegisteredC(LATE);
    CleanupFinishes(D2, LATE);
    TargetIsSpared();
    WithoutOthers(Removed(D2.inventory.value, "B", LATE));
  }

  lemma DisplacedCleanupDropsA()
    ensures var d := Finish(D6, Cleanup(D6, LATE)); !Registers(d, "a") && !Whole(d, BUILDS["a"]) && d.index == Some("B")
  {
    hide Cleanup, File, Removed, Matching, Expired;
    AIsDisplacedToo();
    CleanupFinishes(D6, LATE);
    assert BUILDS["a"] == A;
    assert File('a') in A.bytes;
  }

  lemma AIsDisplacedToo()
    ensures Matching(D6.inventory.value.versions, "B") != {}
    ensures File('a') in Removed(D6.inventory.value, "B", LATE) && "a" in Expired(D6.inventory.value, "B", LATE)
  {
    hide Removed, File;
    assert "b" in Matching(D6.inventory.value.versions, "B");
    FilesDiffer('a', 'b');
    FilesDiffer('a', 'c');
    ExpiredFileGoes(D6, "a", File('a'), LATE);
  }

  /**
   * B replaced A, and A is the rollback target: a cleanup long after keeps it. But if a publish of C dies right after
   * registering, with B still served, the same cleanup forgets A and takes its file.
   */
  lemma RollbackTargetCanBeDropped()
    ensures Initial(W0, BUILDS, {}) && Legal(W0, QUIET_RUN, BUILDS, 10.0) && Legal(W0, DISPLACED_RUN, BUILDS, 10.0)
    ensures var d := Run(W0, QUIET_RUN).disk; d.index == Some("B") && Registers(d, "a") && Whole(d, BUILDS["a"])
    ensures var d := Run(W0, DISPLACED_RUN).disk; d.index == Some("B") && !Registers(d, "a") && !Whole(d, BUILDS["a"])
  {
    StartsWithA();
    QuietRunReaches();
    DisplacedRunReaches();
    QuietCleanupKeepsA();
    DisplacedCleanupDropsA();
    hide QUIET_RUN, DISPLACED_RUN, Legal, Run, Initial, Cleanup, D6, D2, BUILDS, Whole, Registers;
  }

  // ----- a version that nobody can complete -----

  const D7 := Disk(Some(Inventory(map["a" := Entry("A", A.names, Some(0.0)), "b" := Entry("B", B.names, None)], "a")),
                   Some("A"), A.bytes)

  /** A publish of B has registered and copied nothing; the release of B is then deleted. */
  const PRUNED_RUN: seq<Event> := [Bootstraps(W0, Hand("a", A))] + [Publishing(Hand("b", B), "b", 1, 0.0)]

  lemma RegisteredB()
    ensures Cut(D1, Publish(D1, Hand("b", B), "b", 0.0), 1) == D7
  {
    hide Publish, File;
    SortedOne("a");
    FilesDiffer('b', 'b');
    PageIsCandidate("b", "B", File('b'), 2);
    var inv := D1.inventory.value;
    assert Matching(inv.versions, "A") == {"a"};
    RegistersFirst(D1, Hand("b", B), "b", 0.0);
    assert Retire(inv.versions, "A", 0.0)["b" := Entry("B", B.names, None)] == D7.inventory.value.versions;
  }

  /** From there on no publish of C completes, although C's release is intact. */
  lemma PrunedVersionBlocksC(now: real)
    ensures Initial(W0, BUILDS, {}) && Legal(W0, PRUNED_RUN, BUILDS, 10.0)
    ensures Candidate(Hand("c", C), "c").Ok?
    ensures !Publish(Run(W0, PRUNED_RUN).disk, Hand("c", C), "c", now).result.Done?
  {
    StartsWithA();
    hide Publish, Agrees, File, Page, Legal, Run, Initial;
    BootReaches();
    PageAgrees("b", "B", File('b'), 2);
    RegisteredB();
    var publish := Publishing(Hand("b", B), "b", 1, 0.0);
    GoesOn([Bootstraps(W0, Hand("a", A))], W1, publish, D7);
    BlocksC(now);
  }

  lemma BlocksC(now: real)
    ensures Candidate(Hand("c", C), "c").Ok?
    ensures !Publish(D7, Hand("c", C), "c", now).result.Done?
  {
    hide Publish, File;
    FilesDiffer('a', 'b');
    FilesDiffer('b', 'c');
    FilesDiffer('c', 'c');
    PageIsCandidate("c", "C", File('c'), 3);
    assert D7.inventory.value.versions["b"].files == [File('b')];
    PrunedVersionBlocksPublishing(D7, Hand("c", C), "c", now, "b", File('b'));
  }
}
