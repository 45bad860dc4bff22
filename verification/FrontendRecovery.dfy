/** What the first publish recovers: which releases, exactly, and what it leaves of them. */
module FrontendRecovery {
  import opened Common
  import opened FrontendDisk
  import opened FrontendPlans
  import opened FrontendCopies
  import opened FrontendRetry
  import FrontendVerification
  import TextOrder

  const SEVEN_DAYS: real := 7.0 * 24.0 * 60.0 * 60.0

  /** The release has HTML that is live, or that was written within the last seven days. */
  predicate Recent(r: Release, live: string, now: real) {
    r.dist.index.Some? && (r.dist.index.value == live || r.indexTime >= now - SEVEN_DAYS)
  }

  /** The release's version, retired now. */
  function VersionOf(r: Release, now: real): Entry
    requires r.dist.index.Some?
  {
    Entry(r.dist.index.value, r.dist.names, Some(now))
  }

  lemma ExaminedExactly(r: Release, live: string, now: real)
    ensures !Recent(r, live, now) ==> Examine(r, live, now) == Ok(None)
    ensures Recent(r, live, now) && FrontendVerification.Proper(r.dist) ==>
              Examine(r, live, now) == Ok(Some(VersionOf(r, now)))
    ensures Recent(r, live, now) && !FrontendVerification.Proper(r.dist) ==> Examine(r, live, now).Err?
  {
    hide BuildInventory, FrontendVerification.Proper;
    FrontendVerification.ProperBuilds(r.dist);
    assert FrontendVerification.Proper(r.dist) ==> r.dist.index.Some? by { HasIndex(r.dist); }
  }

  lemma HasIndex(b: Build)
    ensures FrontendVerification.Proper(b) ==> b.index.Some?
  {
  }

  /** The scan takes every recent release, and stops only at a broken one. */
  lemma {:induction false} RecoveredExactly(root: map<string, Release>, keys: seq<string>, live: string, now: real,
                                            found: map<string, Entry>)
    requires forall k :: k in keys ==> k in root
    ensures var r := Recover(root, keys, live, now, found);
            && (r.Ok? <==> forall k :: k in keys && Recent(root[k], live, now) ==> FrontendVerification.Proper(root[k].dist))
            && (r.Ok? ==> forall n :: n in r.value <==> n in found || (n in keys && Recent(root[n], live, now)))
            && (r.Ok? ==> forall n :: n in r.value ==>
                  r.value[n] == if n in keys && Recent(root[n], live, now) then VersionOf(root[n], now) else found[n])
    decreases |keys|
  {
    hide Examine, FrontendVerification.Proper, VersionOf;
    if keys != [] {
      var k := keys[0];
      ExaminedExactly(root[k], live, now);
      assert forall n :: n in keys <==> n == k || n in keys[1..];
      var seen := Examine(root[k], live, now);
      if seen.Ok? {
        RecoveredExactly(root, keys[1..], live, now, Add(found, k, seen.value));
      }
    }
  }

  // ----- copying -----

  /** Every listed file is in its own release, and nothing conflicts with what is served or with another version. */
  ghost predicate Compatible(assets: map<string, Bytes>, root: map<string, Release>, versions: map<string, Entry>, keys: seq<string>)
    requires forall k :: k in keys ==> k in versions
  {
    (forall k, f :: k in keys && f in versions[k].files ==>
       f in BytesOf(root, k) && (f in assets ==> assets[f] == BytesOf(root, k)[f])) &&
    forall k, m, f :: k in keys && m in keys && f in versions[k].files && f in versions[m].files ==>
      Look(BytesOf(root, k), f) == Look(BytesOf(root, m), f)
  }

  ghost predicate ListedBy(versions: map<string, Entry>, keys: seq<string>, f: string)
    requires forall k :: k in keys ==> k in versions
  {
    exists k :: k in keys && f in versions[k].files
  }

  /** What a completed copy of one version's files leaves. */
  ghost predicate Copied(d: Disk, e: Disk, source: map<string, Bytes>, files: seq<string>) {
    (forall f :: f in files ==> f in source && (f in d.assets ==> d.assets[f] == source[f])) &&
    forall f :: Look(e.assets, f) == if f in files then Look(source, f) else Look(d.assets, f)
  }

  lemma CompatibleStep(d: Disk, e: Disk, root: map<string, Release>, versions: map<string, Entry>, keys: seq<string>)
    requires keys != [] && forall k :: k in keys ==> k in versions
    requires Copied(d, e, BytesOf(root, keys[0]), versions[keys[0]].files)
    ensures Compatible(d.assets, root, versions, keys) <==> Compatible(e.assets, root, versions, keys[1..])
  {
    if Compatible(d.assets, root, versions, keys) {
      CompatibleAfter(d, e, root, versions, keys);
    }
    if Compatible(e.assets, root, versions, keys[1..]) {
      CompatibleBefore(d, e, root, versions, keys);
    }
  }

  lemma CompatibleAfter(d: Disk, e: Disk, root: map<string, Release>, versions: map<string, Entry>, keys: seq<string>)
    requires keys != [] && forall k :: k in keys ==> k in versions
    requires Copied(d, e, BytesOf(root, keys[0]), versions[keys[0]].files) && Compatible(d.assets, root, versions, keys)
    ensures Compatible(e.assets, root, versions, keys[1..])
  {
    hide BytesOf;
    var k, rest := keys[0], keys[1..];
    assert forall n :: n in rest ==> n in keys;
    assert k in keys;
    forall n, f | n in rest && f in versions[n].files
      ensures f in BytesOf(root, n) && (f in e.assets ==> e.assets[f] == BytesOf(root, n)[f])
    {
      assert Look(e.assets, f) == if f in versions[k].files then Look(BytesOf(root, k), f) else Look(d.assets, f);
      if f in versions[k].files {
        assert Look(BytesOf(root, k), f) == Look(BytesOf(root, n), f);
      }
    }
    hide Look;
  }

  lemma CompatibleBefore(d: Disk, e: Disk, root: map<string, Release>, versions: map<string, Entry>, keys: seq<string>)
    requires keys != [] && forall k :: k in keys ==> k in versions
    requires Copied(d, e, BytesOf(root, keys[0]), versions[keys[0]].files) && Compatible(e.assets, root, versions, keys[1..])
    ensures Compatible(d.assets, root, versions, keys)
  {
    hide BytesOf;
    var k, rest := keys[0], keys[1..];
    assert forall n :: n in keys <==> n == k || n in rest;
    forall n, f | n in keys && f in versions[n].files
      ensures f in BytesOf(root, n) && (f in d.assets ==> d.assets[f] == BytesOf(root, n)[f])
      ensures f in versions[k].files ==> Look(BytesOf(root, k), f) == Look(BytesOf(root, n), f)
    {
      assert Look(e.assets, f) == if f in versions[k].files then Look(BytesOf(root, k), f) else Look(d.assets, f);
    }
    hide Look;
  }

  lemma {:induction false} CopyVersionsExactly(d: Disk, root: map<string, Release>, versions: map<string, Entry>, keys: seq<string>)
    requires forall k :: k in keys ==> k in versions
    ensures var p := CopyVersions(d, root, versions, keys);
            && (p.result.Done? <==> Compatible(d.assets, root, versions, keys))
            && (p.result.Done? ==>
                  && Finish(d, p).inventory == d.inventory && Finish(d, p).index == d.index
                  && (forall k, f :: k in keys && f in versions[k].files ==>
                        Look(Finish(d, p).assets, f) == Look(BytesOf(root, k), f))
                  && (forall f :: !ListedBy(versions, keys, f) ==> Look(Finish(d, p).assets, f) == Look(d.assets, f)))
    decreases |keys|
  {
    hide Copy, BytesOf, Compatible;
    if keys == [] {
      NothingToCopy(d, root, versions);
    } else {
      var k, rest := keys[0], keys[1..];
      assert forall n :: n in keys <==> n == k || n in rest;
      var p := Copy(d, BytesOf(root, k), versions[k].files);
      CopyExactly(d, BytesOf(root, k), versions[k].files);
      if p.result.Done? {
        var e := Finish(d, p);
        CompatibleStep(d, e, root, versions, keys);
        CopyVersionsExactly(e, root, versions, rest);
        var q := CopyVersions(e, root, versions, rest);
        if q.result.Done? {
          FinishThen(d, p, q);
          CopiedFiles(d, e, Finish(e, q), root, versions, keys);
        }
      } else {
        Conflicts(d.assets, root, versions, keys);
      }
    }
  }

  lemma NothingToCopy(d: Disk, root: map<string, Release>, versions: map<string, Entry>)
    ensures Compatible(d.assets, root, versions, [])
  {
  }

  lemma Conflicts(assets: map<string, Bytes>, root: map<string, Release>, versions: map<string, Entry>, keys: seq<string>)
    requires keys != [] && forall k :: k in keys ==> k in versions
    requires exists f :: f in versions[keys[0]].files &&
                         !(f in BytesOf(root, keys[0]) && (f in assets ==> assets[f] == BytesOf(root, keys[0])[f]))
    ensures !Compatible(assets, root, versions, keys)
  {
    hide BytesOf;
    assert keys[0] in keys;
  }

  /** The later copies leave the first version's files as they are. */
  lemma CopiedFiles(d: Disk, e: Disk, end: Disk, root: map<string, Release>, versions: map<string, Entry>, keys: seq<string>)
    requires keys != [] && (forall k :: k in keys ==> k in versions) && Compatible(d.assets, root, versions, keys)
    requires Copied(d, e, BytesOf(root, keys[0]), versions[keys[0]].files)
    requires forall k, f :: k in keys[1..] && f in versions[k].files ==> Look(end.assets, f) == Look(BytesOf(root, k), f)
    requires forall f :: !ListedBy(versions, keys[1..], f) ==> Look(end.assets, f) == Look(e.assets, f)
    ensures forall k, f :: k in keys && f in versions[k].files ==> Look(end.assets, f) == Look(BytesOf(root, k), f)
    ensures forall f :: !ListedBy(versions, keys, f) ==> Look(end.assets, f) == Look(d.assets, f)
  {
    hide BytesOf, Look;
    var first := keys[0];
    assert forall n :: n in keys <==> n == first || n in keys[1..];
    forall k, f | k in keys && f in versions[k].files ensures Look(end.assets, f) == Look(BytesOf(root, k), f) {
      if ListedBy(versions, keys[1..], f) {
        var m :| m in keys[1..] && f in versions[m].files;
        assert Look(BytesOf(root, k), f) == Look(BytesOf(root, m), f);
      } else {
        assert k == first;
      }
    }
    forall f | !ListedBy(versions, keys, f) ensures Look(end.assets, f) == Look(d.assets, f) {
      assert first in keys;
    }
  }

  // ----- the bootstrap -----

  ghost predicate IsRecent(root: map<string, Release>, n: string, live: string, now: real) {
    n in root && Recent(root[n], live, now)
  }

  /**
   * A bootstrap completes if and only if there is live HTML, every recent release is a proper build, one of them has
   * the live HTML, each of them holds the files it lists, and none of these conflicts with a served file or with
   * another recent release.
   */
  ghost predicate CanBootstrap(d: Disk, root: map<string, Release>, now: real) {
    d.index.Some? &&
    (forall n :: IsRecent(root, n, d.index.value, now) ==> FrontendVerification.Proper(root[n].dist)) &&
    (exists n :: IsRecent(root, n, d.index.value, now) && root[n].dist.index == d.index) &&
    (forall n, f :: IsRecent(root, n, d.index.value, now) && f in root[n].dist.names ==>
       f in root[n].dist.bytes && (f in d.assets ==> d.assets[f] == root[n].dist.bytes[f])) &&
    forall n, m, f :: IsRecent(root, n, d.index.value, now) && IsRecent(root, m, d.index.value, now) &&
                      f in root[n].dist.names && f in root[m].dist.names ==>
                      Look(root[n].dist.bytes, f) == Look(root[m].dist.bytes, f)
  }

  /** What a completed bootstrap leaves: of the disk before, and of each recent release. */
  ghost predicate Bootstrapped(d: Disk, e: Disk, root: map<string, Release>, now: real)
    requires d.index.Some?
  {
    e.index == d.index && e.inventory.Some? &&
    var inv := e.inventory.value;
    && (forall n :: n in inv.versions <==> IsRecent(root, n, d.index.value, now))
    && (forall n :: n in inv.versions ==>
          inv.versions[n] == Entry(root[n].dist.index.value, root[n].dist.names, Some(now)))
    && inv.previous in inv.versions && inv.versions[inv.previous].index == d.index.value
    && (forall n :: n in inv.versions && inv.versions[n].index == d.index.value ==> TextOrder.Leq(n, inv.previous))
    && (forall n, f :: n in inv.versions && f in root[n].dist.names ==> Look(e.assets, f) == Look(root[n].dist.bytes, f))
    && (forall f :: (forall n :: n in inv.versions ==> f !in root[n].dist.names) ==> Look(e.assets, f) == Look(d.assets, f))
  }

  lemma BootstrapExactly(d: Disk, root: map<string, Release>, now: real)
    ensures Bootstrap(d, root, now).result.Done? <==> CanBootstrap(d, root, now)
    ensures Bootstrap(d, root, now).result.Done? ==> Bootstrapped(d, Finish(d, Bootstrap(d, root, now)), root, now)
  {
    hide TextOrder.Greatest, Recover, CopyVersions, Recent, FrontendVerification.Proper, SortedNames, Compatible, Look;
    if d.index.Some? {
      var live, keys := d.index.value, SortedNames(root);
      RecoveredExactly(root, keys, live, now, map[]);
      var r := Recover(root, keys, live, now, map[]);
      if r.Ok? {
        var versions := r.value;
        RecentHasIndex(root, live, now);
        assert AreVersions(root, versions, live, now);
        VersionsOf(root, versions, live, now);
        CompatibleVersions(d, root, versions, now);
        var matches := Matching(versions, live);
        MatchingIsLive(root, versions, live, now);
        if matches != {} {
          var save := Save(Inventory(versions, TextOrder.Greatest(matches)));
          CopyVersionsExactly(Apply(d, save), root, versions, SortedNames(versions));
          var copies := CopyVersions(Apply(d, save), root, versions, SortedNames(versions));
          ExecuteOne(d, save, 1);
          if copies.result.Done? {
            FinishThen(d, One(save), copies);
            GreatestOf(matches);
            CompletesWith(d, Finish(Apply(d, save), copies), root, versions, now);
          }
        }
      }
    }
  }

  lemma MatchingIsLive(root: map<string, Release>, versions: map<string, Entry>, live: string, now: real)
    requires AreVersions(root, versions, live, now)
    ensures Matching(versions, live) != {} <==> exists n :: IsRecent(root, n, live, now) && root[n].dist.index == Some(live)
  {
    hide Recent;
    if n :| IsRecent(root, n, live, now) && root[n].dist.index == Some(live) {
      assert n in Matching(versions, live);
    }
    if n :| n in Matching(versions, live) {
      assert IsRecent(root, n, live, now) && root[n].dist.index == Some(live);
    }
  }

  lemma GreatestOf(names: set<string>)
    requires names != {}
    ensures TextOrder.Greatest(names) in names && forall n :: n in names ==> TextOrder.Leq(n, TextOrder.Greatest(names))
  {
  }

  /** The versions that are recovered. */
  ghost predicate AreVersions(root: map<string, Release>, versions: map<string, Entry>, live: string, now: real) {
    (forall n :: n in versions <==> IsRecent(root, n, live, now)) &&
    forall n :: n in versions ==> root[n].dist.index.Some? && versions[n] == VersionOf(root[n], now)
  }

  lemma RecentHasIndex(root: map<string, Release>, live: string, now: real)
    ensures forall n :: IsRecent(root, n, live, now) ==> root[n].dist.index.Some?
  {
  }

  lemma VersionsOf(root: map<string, Release>, versions: map<string, Entry>, live: string, now: real)
    requires AreVersions(root, versions, live, now)
    ensures forall n :: n in versions ==>
              n in root && versions[n].files == root[n].dist.names && Some(versions[n].index) == root[n].dist.index
  {
    hide Recent;
  }

  lemma CompatibleVersions(d: Disk, root: map<string, Release>, versions: map<string, Entry>, now: real)
    requires d.index.Some? && AreVersions(root, versions, d.index.value, now)
    ensures Compatible(d.assets, root, versions, SortedNames(versions)) <==>
            && (forall n, f :: IsRecent(root, n, d.index.value, now) && f in root[n].dist.names ==>
                  f in root[n].dist.bytes && (f in d.assets ==> d.assets[f] == root[n].dist.bytes[f]))
            && (forall n, m, f :: IsRecent(root, n, d.index.value, now) && IsRecent(root, m, d.index.value, now) &&
                                  f in root[n].dist.names && f in root[m].dist.names ==>
                  Look(root[n].dist.bytes, f) == Look(root[m].dist.bytes, f))
  {
    hide SortedNames, Recent, Look;
    assert forall n :: n in versions ==> BytesOf(root, n) == root[n].dist.bytes;
    hide BytesOf;
  }

  lemma CompletesWith(d: Disk, e: Disk, root: map<string, Release>, versions: map<string, Entry>, now: real)
    requires d.index.Some? && AreVersions(root, versions, d.index.value, now)
    requires e.index == d.index && e.inventory.Some? && e.inventory.value.versions == versions
    requires e.inventory.value.previous in Matching(versions, d.index.value)
    requires forall n :: n in Matching(versions, d.index.value) ==> TextOrder.Leq(n, e.inventory.value.previous)
    requires forall k, f :: k in SortedNames(versions) && f in versions[k].files ==>
               Look(e.assets, f) == Look(BytesOf(root, k), f)
    requires forall f :: !ListedBy(versions, SortedNames(versions), f) ==> Look(e.assets, f) == Look(d.assets, f)
    ensures Bootstrapped(d, e, root, now)
  {
    hide SortedNames, Recent, Look, TextOrder.Leq;
    assert forall n :: n in versions ==> BytesOf(root, n) == root[n].dist.bytes;
    hide BytesOf;
  }
}
