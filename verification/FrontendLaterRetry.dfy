/**
 * An interrupted publish, retried when the clock has moved on. Some versions are then no longer supported, so the
 * retry may owe fewer files, ask other releases for them, and even be refused.
 */
module FrontendLaterRetry {
  import opened Common
  import opened FrontendDisk
  import opened FrontendPlans
  import opened FrontendSafety
  import opened FrontendCopies
  import opened FrontendRetry
  import opened FrontendResumption
  import TextOrder

  /** Releases on hand that have a file of the same name hold the same bytes under it. */
  ghost predicate SharedFilesAgree(root: map<string, Release>) {
    forall k, m, f :: f in BytesOf(root, k) && f in BytesOf(root, m) ==> BytesOf(root, k)[f] == BytesOf(root, m)[f]
  }

  /** The same inventory, except that the versions of the replaced HTML are stamped later. */
  ghost predicate Restamped(inv': Inventory, inv: Inventory, name: string, current: string, later: real) {
    && inv'.previous == inv.previous
    && inv'.versions.Keys == inv.versions.Keys
    && forall n :: n in inv.versions ==>
         inv'.versions[n] == if n != name && inv.versions[n].index == current then inv.versions[n].(retiredAt := Some(later))
                             else inv.versions[n]
  }

  lemma RegisteredLater(inv: Inventory, current: string, name: string, candidate: Entry, now: real, later: real)
    requires Matching(inv.versions, current) != {} && candidate.retiredAt.None?
    requires name in inv.versions ==> inv.versions[name].index == candidate.index
    ensures var cut := Registered(inv, current, name, candidate, now);
            && Matching(cut.versions, current) != {}
            && Restamped(Registered(cut, current, name, candidate, later), cut, name, current, later)
  {
    hide TextOrder.Greatest;
    RegisteredAgain(inv, current, name, candidate, now);
    var cut := Registered(inv, current, name, candidate, now);
    if current != candidate.index {
      assert Matching(cut.versions, current) == Matching(inv.versions, current);
    }
  }

  lemma RecoveredLater(root: map<string, Release>, inv: Inventory, current: string, name: string, candidate: Entry,
                       now: real, later: real)
    requires Matching(inv.versions, current) != {} && Recovered(root, inv.versions, now)
    ensures Restamped(Registered(inv, current, name, candidate, later), Registered(inv, current, name, candidate, now),
                      name, current, later)
  {
    hide TextOrder.Greatest, BuildInventory;
  }

  /** What is supported later is supported now. */
  lemma SupportShrinks(inv': Inventory, inv: Inventory, name: string, current: string, now: real, later: real, k: string)
    requires Restamped(inv', inv, name, current, later) && now <= later
    requires k in inv'.versions && Supported(inv', k, current, later)
    ensures k in inv.versions && Supported(inv, k, current, now) && inv.versions[k].files == inv'.versions[k].files
  {
  }

  /** Some release on hand has the file as it ended up. */
  ghost predicate Sourced(root: map<string, Release>, end: Disk, f: string) {
    exists m :: f in BytesOf(root, m) && Look(end.assets, f) == Some(BytesOf(root, m)[f])
  }

  /** Between a publish's registration and its end. */
  ghost predicate Midway(d: Disk, end: Disk, root: map<string, Release>, name: string, candidate: Entry, inv: Inventory,
                         current: string, now: real) {
    && d.inventory.Some? && d.index == Some(current) && Matching(d.inventory.value.versions, current) != {}
    && Grows(d, end)
    && end.index == Some(candidate.index) && end.inventory == Some(inv)
    && (forall f :: f in candidate.files ==> f in BytesOf(root, name) && Look(end.assets, f) == Look(BytesOf(root, name), f))
    && (forall k, f :: Supplies(inv, current, now, k, f) && f !in d.assets ==> Sourced(root, end, f))
  }

  /** The files of every version that is still supported are served as they would have been. */
  ghost predicate ServesAlike(end': Disk, end: Disk, inv: Inventory, current: string, later: real) {
    forall k, f :: Supplies(inv, current, later, k, f) ==> Look(end'.assets, f) == Look(end.assets, f)
  }

  /** They are all served; and the candidate's, and those that had been served when the publish was cut, alike. */
  ghost predicate ServesAll(cut: Disk, end': Disk, end: Disk, candidate: Entry, inv: Inventory, current: string, later: real) {
    (forall k, f :: Supplies(inv, current, later, k, f) ==> f in end'.assets) &&
    forall f :: f in candidate.files || f in cut.assets ==> f in end'.assets && Look(end'.assets, f) == Look(end.assets, f)
  }

  lemma LaterRollOut(d: Disk, end: Disk, root: map<string, Release>, name: string, candidate: Entry, inv: Inventory,
                     current: string, now: real, later: real)
    requires Midway(d, end, root, name, candidate, inv, current, now) && now <= later
    requires Restamped(Registered(d.inventory.value, current, name, candidate, later), inv, name, current, later)
    ensures var inv' := Registered(d.inventory.value, current, name, candidate, later);
            var keys := KeysWith(d.inventory.value.versions, name);
            var p := Promote(d, root, name, candidate, later);
            && (forall k :: k in keys ==> k in inv'.versions)
            && (p.result.Done? <==>
                  && Available(d.assets, root, inv', current, later, keys)
                  && Agreeable(d.assets, root, inv', current, later, keys, BytesOf(root, name), candidate.files))
            && (p.result.Done? ==>
                  var end' := Finish(d, p);
                  && end'.index == end.index && end'.inventory == Some(inv')
                  && ServesAll(d, end', end, candidate, inv', current, later)
                  && (SharedFilesAgree(root) ==> ServesAlike(end', end, inv', current, later)))
  {
    hide Registered, Matching, Supplier, KeysWith, Promote, RollOut, BytesOf, Supported, SharedFilesAgree, Agreeable;
    var inv' := Registered(d.inventory.value, current, name, candidate, later);
    var keys := KeysWith(d.inventory.value.versions, name);
    var source := BytesOf(root, name);
    var e := Apply(d, Save(inv'));
    RegisteredKeys(d.inventory.value, current, name, candidate, later);
    PromoteIsRollOut(d, root, name, candidate, later);
    RollOutExactly(e, root, inv', current, later, keys, source, candidate);
    var p := Promote(d, root, name, candidate, later);
    if p.result.Done? {
      var end' := Finish(d, p);
      forall f
        ensures Look(end'.assets, f) == if f in candidate.files then Look(source, f)
                                        else Filled(d.assets, root, inv', current, later, keys, f)
      {
      }
      forall f | f in candidate.files || f in d.assets
        ensures f in end'.assets && Look(end'.assets, f) == Look(end.assets, f)
      {
        if f in d.assets {
          assert Look(end.assets, f) == Some(d.assets[f]);
        }
      }
      forall k, f | Supplies(inv', current, later, k, f)
        ensures f in end'.assets && (SharedFilesAgree(root) ==> Look(end'.assets, f) == Look(end.assets, f))
      {
        LaterFile(d, end, root, name, candidate, inv, current, now, later, k, f);
      }
    }
  }

  lemma LaterFile(d: Disk, end: Disk, root: map<string, Release>, name: string, candidate: Entry, inv: Inventory,
                  current: string, now: real, later: real, k: string, f: string)
    requires Midway(d, end, root, name, candidate, inv, current, now) && now <= later
    requires Restamped(Registered(d.inventory.value, current, name, candidate, later), inv, name, current, later)
    requires Supplies(Registered(d.inventory.value, current, name, candidate, later), current, later, k, f)
    requires forall n :: n in KeysWith(d.inventory.value.versions, name) ==>
                           n in Registered(d.inventory.value, current, name, candidate, later).versions
    requires Available(d.assets, root, Registered(d.inventory.value, current, name, candidate, later), current, later,
                       KeysWith(d.inventory.value.versions, name))
    ensures var filled := Filled(d.assets, root, Registered(d.inventory.value, current, name, candidate, later), current,
                                 later, KeysWith(d.inventory.value.versions, name), f);
            filled.Some? && (SharedFilesAgree(root) ==> filled == Look(end.assets, f))
  {
    hide Registered, Matching, Supplier, BytesOf, Supported;
    var inv' := Registered(d.inventory.value, current, name, candidate, later);
    var keys := KeysWith(d.inventory.value.versions, name);
    if f !in d.assets {
      RegisteredKeys(d.inventory.value, current, name, candidate, later);
      SupplierFacts(inv', current, later, keys, f);
      assert k in keys;
      var m := Supplier(inv', current, later, keys, f).value;
      assert f in BytesOf(root, m);
      SupportShrinks(inv', inv, name, current, now, later, k);
      assert Supplies(inv, current, now, k, f);
      assert Sourced(root, end, f);
    }
  }

  /** Where releases agree on shared files, the candidate cannot conflict with what is served. */
  lemma SharedFilesAreAgreeable(d: Disk, end: Disk, root: map<string, Release>, name: string, candidate: Entry,
                                inv: Inventory, inv': Inventory, current: string, now: real, later: real, keys: seq<string>)
    requires Midway(d, end, root, name, candidate, inv, current, now) && SharedFilesAgree(root)
    requires forall k :: k in keys ==> k in inv'.versions
    ensures Agreeable(d.assets, root, inv', current, later, keys, BytesOf(root, name), candidate.files)
  {
    hide Matching, Supplier, BytesOf, Supported;
    forall f | f in candidate.files && Filled(d.assets, root, inv', current, later, keys, f).Some?
      ensures Filled(d.assets, root, inv', current, later, keys, f) == Look(BytesOf(root, name), f)
    {
      if f in d.assets {
        assert Look(end.assets, f) == Some(d.assets[f]);
      }
    }
  }

  /** What a completed roll-out leaves of a file it was asked for. */
  lemma RolledOutIsSourced(d1: Disk, end: Disk, root: map<string, Release>, inv: Inventory, current: string, now: real,
                           keys: seq<string>, name: string, candidate: Entry, k: string, f: string)
    requires forall n :: n in keys ==> n in inv.versions
    requires var p := RollOut(d1, root, inv, current, now, keys, BytesOf(root, name), candidate);
             p.result.Done? && end.assets == Finish(d1, p).assets
    requires k in keys && Supplies(inv, current, now, k, f)
    requires f in d1.assets ==> Sourced(root, d1, f)
    ensures Sourced(root, end, f)
  {
    hide RollOut, Supplier, Supported, BytesOf;
    RollOutExactly(d1, root, inv, current, now, keys, BytesOf(root, name), candidate);
    SupplierFacts(inv, current, now, keys, f);
    assert Look(end.assets, f) == if f in candidate.files then Look(BytesOf(root, name), f)
                                  else Filled(d1.assets, root, inv, current, now, keys, f);
    if f in candidate.files {
      assert f in BytesOf(root, name);
    } else if f in d1.assets {
      var m :| f in BytesOf(root, m) && Look(d1.assets, f) == Some(BytesOf(root, m)[f]);
      assert f in BytesOf(root, m);
    } else {
      assert f in BytesOf(root, Supplier(inv, current, now, keys, f).value);
    }
  }

  lemma CandidateDelivered(d1: Disk, end: Disk, root: map<string, Release>, inv: Inventory, current: string, now: real,
                           keys: seq<string>, name: string, candidate: Entry)
    requires forall n :: n in keys ==> n in inv.versions
    requires var p := RollOut(d1, root, inv, current, now, keys, BytesOf(root, name), candidate);
             p.result.Done? && end == Finish(d1, p)
    ensures end.index == Some(candidate.index) && end.inventory == d1.inventory
    ensures forall f :: f in candidate.files ==>
                          f in BytesOf(root, name) && Look(end.assets, f) == Look(BytesOf(root, name), f)
  {
    hide RollOut, Supplier, Supported, BytesOf, Filled;
    RollOutExactly(d1, root, inv, current, now, keys, BytesOf(root, name), candidate);
  }

  /** Cut between its registration and its switch. */
  lemma PromoteIsMidway(d: Disk, root: map<string, Release>, name: string, candidate: Entry, now: real, k: nat)
    requires candidate.retiredAt.None? && Promote(d, root, name, candidate, now).result.Done?
    requires d.inventory.Some? && name in d.inventory.value.versions ==>
               d.inventory.value.versions[name].index == candidate.index
    requires 1 <= k < |Promote(d, root, name, candidate, now).effects|
    ensures d.inventory.Some? && d.index.Some? && Matching(d.inventory.value.versions, d.index.value) != {}
    ensures var p := Promote(d, root, name, candidate, now);
            var cut := ApplyAll(d, p.effects[..k]);
            var inv := Registered(d.inventory.value, d.index.value, name, candidate, now);
            cut.inventory == Some(inv) && Midway(cut, Finish(d, p), root, name, candidate, inv, d.index.value, now)
  {
    hide RollOut, Registered, KeysWith, Matching, BytesOf, Promote, Grows, Sourced, Supported;
    CutPromote(d, root, name, candidate, now, k);
    var versions, current := d.inventory.value.versions, d.index.value;
    var inv := Registered(d.inventory.value, current, name, candidate, now);
    var keys := KeysWith(versions, name);
    var p := Promote(d, root, name, candidate, now);
    var cut := ApplyAll(d, p.effects[..k]);
    RegisteredKeys(d.inventory.value, current, name, candidate, now);
    RegisteredLater(d.inventory.value, current, name, candidate, now, now);
    PromoteIsRollOut(d, root, name, candidate, now);
    var d1 := Apply(d, Save(inv));
    CandidateDelivered(d1, Finish(d, p), root, inv, current, now, keys, name, candidate);
    forall n, f | Supplies(inv, current, now, n, f) && f !in cut.assets ensures Sourced(root, Finish(d, p), f) {
      if f in d1.assets {
        GrowsKeeps(d1, cut, f);
      }
      RolledOutIsSourced(d1, Finish(d, p), root, inv, current, now, keys, name, candidate, n, f);
    }
  }

  lemma GrowsKeeps(d: Disk, d': Disk, f: string)
    requires Grows(d, d') && f in d.assets
    ensures f in d'.assets && d'.assets[f] == d.assets[f]
  {
  }

  /** Cut while it bootstraps: `d1` is what the bootstrap would have left. */
  lemma BootstrapIsMidway(d1: Disk, cut: Disk, root: map<string, Release>, name: string, candidate: Entry, now: real)
    requires d1.inventory.Some? && d1.index.Some? && d1.inventory == cut.inventory && d1.index == cut.index && Grows(cut, d1)
    requires var inv0 := d1.inventory.value;
             && Matching(inv0.versions, d1.index.value) != {}
             && (forall n :: n in inv0.versions ==> Carries(d1, BytesOf(root, n), inv0.versions[n].files))
             && (forall f :: f in d1.assets && f !in cut.assets ==> f in FilesOf(inv0.versions, inv0.versions.Keys))
    requires candidate.retiredAt.None? && Promote(d1, root, name, candidate, now).result.Done?
    ensures var inv := Registered(d1.inventory.value, d1.index.value, name, candidate, now);
            Midway(cut, Finish(d1, Promote(d1, root, name, candidate, now)), root, name, candidate, inv, d1.index.value, now)
  {
    hide RollOut, Registered, KeysWith, Matching, BytesOf, Promote, Sourced, Supported, Carries;
    var inv0, current := d1.inventory.value, d1.index.value;
    var inv := Registered(inv0, current, name, candidate, now);
    var keys := KeysWith(inv0.versions, name);
    var p := Promote(d1, root, name, candidate, now);
    RegisteredKeys(inv0, current, name, candidate, now);
    PromoteIsRollOut(d1, root, name, candidate, now);
    var e := Apply(d1, Save(inv));
    var end := Finish(d1, p);
    CandidateDelivered(e, end, root, inv, current, now, keys, name, candidate);
    assert Grows(d1, end) by { PromoteGrows(d1, root, name, candidate, now); }
    forall n, f | Supplies(inv, current, now, n, f) && f !in cut.assets ensures Sourced(root, end, f) {
      if f in e.assets {
        var m :| m in inv0.versions && f in inv0.versions[m].files;
        CarriedIsSourced(d1, root, m, inv0.versions[m].files, f);
        assert Sourced(root, e, f) by { SourcedByAssets(root, d1, e, f); }
      }
      RolledOutIsSourced(e, end, root, inv, current, now, keys, name, candidate, n, f);
    }
  }

  lemma SourcedByAssets(root: map<string, Release>, d: Disk, e: Disk, f: string)
    requires Sourced(root, d, f) && e.assets == d.assets
    ensures Sourced(root, e, f)
  {
  }

  lemma CarriedIsSourced(d: Disk, root: map<string, Release>, m: string, files: seq<string>, f: string)
    requires Carries(d, BytesOf(root, m), files) && f in files
    ensures Sourced(root, d, f)
  {
    assert f in BytesOf(root, m);
  }

  lemma PromoteGrows(d: Disk, root: map<string, Release>, name: string, candidate: Entry, now: real)
    requires Promote(d, root, name, candidate, now).result.Done?
    ensures Grows(d, Finish(d, Promote(d, root, name, candidate, now)))
  {
    hide RollOut, Registered, KeysWith, Matching, BytesOf, Promote, Supported, Supplier;
    PromoteNeeds(d, root, name, candidate, now);
    var current := d.index.value;
    var inv := Registered(d.inventory.value, current, name, candidate, now);
    var keys := KeysWith(d.inventory.value.versions, name);
    PromoteIsRollOut(d, root, name, candidate, now);
    var d1 := Apply(d, Save(inv));
    RollOutExactly(d1, root, inv, current, now, keys, BytesOf(root, name), candidate);
    var end := Finish(d, Promote(d, root, name, candidate, now));
    forall f | f in d.assets ensures f in end.assets && end.assets[f] == d.assets[f] {
      assert Filled(d1.assets, root, inv, current, now, keys, f) == Some(d.assets[f]);
      assert Look(end.assets, f) == if f in candidate.files then Look(BytesOf(root, name), f) else Some(d.assets[f]);
    }
  }

  /**
   * Retried later. A publish that would have completed is cut after its first step and retried against the same
   * releases when the clock has moved on. It then completes exactly if what is still missing of the versions still
   * supported is available and does not conflict with the candidate; and it leaves the HTML and the inventory of the
   * uncut publish, apart from the stamps of the versions it replaces, and serves every file of the supported versions,
   * the candidate's and the earlier ones with the same bytes. Where releases agree on shared files there is no conflict,
   * and all the bytes are the same.
   */
  lemma RetriedLaterMatchesUncut(d: Disk, root: map<string, Release>, name: string, now: real, later: real, fuse: nat)
    requires Publish(d, root, name, now).result.Done? && now <= later
    requires 1 <= fuse < |Publish(d, root, name, now).effects|
    requires d.inventory.Some? && name in d.inventory.value.versions && Candidate(root, name).Ok? ==>
               d.inventory.value.versions[name].index == Candidate(root, name).value.index
    ensures var cut := Cut(d, Publish(d, root, name, now), fuse);
            && cut.inventory.Some? && d.index.Some? && cut.index == d.index && Candidate(root, name).Ok?
            && Matching(cut.inventory.value.versions, d.index.value) != {}
            && var current := d.index.value;
               var inv := Registered(cut.inventory.value, current, name, Candidate(root, name).value, later);
               var keys := KeysWith(cut.inventory.value.versions, name);
               var again := Publish(cut, root, name, later);
               var end, end' := Finish(d, Publish(d, root, name, now)), Finish(cut, again);
               && (forall k :: k in keys ==> k in inv.versions)
               && (again.result.Done? <==>
                     && Available(cut.assets, root, inv, current, later, keys)
                     && Agreeable(cut.assets, root, inv, current, later, keys, BytesOf(root, name),
                                  Candidate(root, name).value.files))
               && end.inventory.Some? && Restamped(inv, end.inventory.value, name, current, later)
               && (again.result.Done? ==>
                     && end'.index == end.index && end'.inventory == Some(inv)
                     && ServesAll(cut, end', end, Candidate(root, name).value, inv, current, later))
               && (SharedFilesAgree(root) ==>
                     && (again.result.Done? <==> Available(cut.assets, root, inv, current, later, keys))
                     && (again.result.Done? ==> ServesAlike(end', end, inv, current, later)))
  {
    hide Promote, Bootstrap, Matching, Recovered, Carries, FilesOf, BytesOf, Publish, Candidate, Registered, Restamped,
         KeysWith, Available, ServesAlike, SharedFilesAgree, ServesAll, Agreeable;
    PublishParts(d, root, name, now);
    var candidate := Candidate(root, name).value;
    var boot := EnsureInventory(d, root, now);
    var d1 := Finish(d, boot);
    var rest := Promote(d1, root, name, candidate, now);
    var all := Publish(d, root, name, now).effects;
    var cut := Cut(d, Publish(d, root, name, now), fuse);
    if fuse <= |boot.effects| {
      assert all[..fuse] == boot.effects[..fuse];
      CutBootstrap(d, root, now, fuse);
      BootstrapIsMidway(d1, cut, root, name, candidate, now);
      RecoveredLater(root, d1.inventory.value, d.index.value, name, candidate, now, later);
    } else {
      var k := fuse - |boot.effects|;
      assert all[..fuse] == boot.effects + rest.effects[..k];
      ApplyConcat(d, boot.effects, rest.effects[..k]);
      assert d1.inventory.Some? && name in d1.inventory.value.versions ==>
               d1.inventory.value.versions[name].index == candidate.index by {
        if d.inventory.None? {
          RegisteredByBootstrap(d, root, name, now);
        }
      }
      PromoteIsMidway(d1, root, name, candidate, now, k);
      RegisteredLater(d1.inventory.value, d1.index.value, name, candidate, now, later);
      assert d1.index == d.index by { BootKeepsIndex(d, root, now); }
    }
    PublishOverInventory(cut, root, name, later);
    var end := Finish(d1, rest);
    LaterRollOut(cut, end, root, name, candidate, end.inventory.value, d.index.value, now, later);
    if SharedFilesAgree(root) {
      var inv := Registered(cut.inventory.value, d.index.value, name, candidate, later);
      SharedFilesAreAgreeable(cut, end, root, name, candidate, end.inventory.value, inv, d.index.value, now, later,
                              KeysWith(cut.inventory.value.versions, name));
    }
  }

  lemma BootKeepsIndex(d: Disk, root: map<string, Release>, now: real)
    requires EnsureInventory(d, root, now).result.Done?
    ensures Finish(d, EnsureInventory(d, root, now)).index == d.index
  {
    hide Bootstrap;
    if d.inventory.None? {
      var inv, copies := BootstrapParts(d, root, now);
      CutBootstrap(d, root, now, |Bootstrap(d, root, now).effects|);
    }
  }

  /** For that it is enough that each version still supported finds its missing files in its own release. */
  lemma OwnReleasesSuffice(assets: map<string, Bytes>, root: map<string, Release>, inv: Inventory, current: string,
                           later: real, keys: seq<string>)
    requires forall k :: k in keys ==> k in inv.versions
    requires forall k, f :: Supplies(inv, current, later, k, f) && f !in assets ==> f in BytesOf(root, k)
    ensures Available(assets, root, inv, current, later, keys)
  {
    hide Supported, BytesOf;
    forall f | f !in assets && Supplier(inv, current, later, keys, f).Some?
      ensures f in BytesOf(root, Supplier(inv, current, later, keys, f).value)
    {
      SupplierFacts(inv, current, later, keys, f);
    }
  }
}
