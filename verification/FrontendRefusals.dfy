/** Which error a copy, a bootstrap or a cleanup gives that cannot be completed. */
module FrontendRefusals {
  import opened Common
  import opened FrontendDisk
  import opened FrontendPlans
  import opened FrontendRecovery
  import FrontendRegistration
  import FrontendVerification
  import TextOrder

  /** The file can be copied: the source has it, and what is served under its name is no other content. */
  predicate Copyable(d: Disk, source: map<string, Bytes>, f: string) {
    f in source && (f in d.assets ==> d.assets[f] == source[f])
  }

  /** The first file that cannot be copied decides the error. */
  lemma {:induction false} CopyFailsExactly(d: Disk, source: map<string, Bytes>, files: seq<string>, k: nat)
    requires k < |files| && (forall j :: 0 <= j < k ==> Copyable(d, source, files[j])) && !Copyable(d, source, files[k])
    ensures Copy(d, source, files).result == Raised(if files[k] in source then ContentConflict else FileMissing)
    decreases k
  {
    if k > 0 {
      assert Copyable(d, source, files[0]);
      assert forall j :: 0 <= j < |files| - 1 ==> files[1..][j] == files[j + 1];
      if files[0] in d.assets {
        CopyFailsExactly(d, source, files[1..], k - 1);
      } else {
        var e := Apply(d, Write(files[0], source[files[0]]));
        assert forall f :: Copyable(e, source, f) <==> Copyable(d, source, f);
        CopyFailsExactly(e, source, files[1..], k - 1);
      }
    }
  }

  predicate IsBroken(r: Release, live: string, now: real) {
    Recent(r, live, now) && !FrontendVerification.Proper(r.dist)
  }

  lemma BrokenIsExamined(r: Release, live: string, now: real)
    requires IsBroken(r, live, now)
    ensures Examine(r, live, now) == Err(FrontendVerification.DefectOf(r.dist))
  {
    hide FrontendVerification.Proper, FrontendVerification.DefectOf, BuildInventory;
    FrontendVerification.BrokenBuilds(r.dist);
  }

  lemma {:induction false} RecoverFailsExactly(root: map<string, Release>, keys: seq<string>, live: string, now: real,
                                               found: map<string, Entry>, k: nat)
    requires (forall n :: n in keys ==> n in root) && k < |keys| && IsBroken(root[keys[k]], live, now)
    requires forall j :: 0 <= j < k ==> !IsBroken(root[keys[j]], live, now)
    ensures Recover(root, keys, live, now, found) == Err(FrontendVerification.DefectOf(root[keys[k]].dist))
    decreases k
  {
    hide Examine, Recent, FrontendVerification.Proper, FrontendVerification.DefectOf;
    ExaminedExactly(root[keys[0]], live, now);
    if k == 0 {
      BrokenIsExamined(root[keys[0]], live, now);
    } else {
      assert !IsBroken(root[keys[0]], live, now);
      assert forall j :: 0 <= j < |keys| - 1 ==> keys[1..][j] == keys[j + 1];
      RecoverFailsExactly(root, keys[1..], live, now, Add(found, keys[0], Examine(root[keys[0]], live, now).value), k - 1);
    }
  }

  /**
   * A bootstrap without published HTML stops at that; else at the first recent release, by name, that is broken; and
   * else, if none is live, at that. None of these changes anything.
   */
  lemma BootstrapFailsExactly(d: Disk, root: map<string, Release>, now: real)
    ensures d.index.None? ==> Bootstrap(d, root, now) == Fail(IndexMissing)
    ensures d.index.Some? ==>
              forall n :: n in root && IsBroken(root[n], d.index.value, now) &&
                          (forall m :: m in root && IsBroken(root[m], d.index.value, now) ==> TextOrder.Leq(n, m)) ==>
                Bootstrap(d, root, now) == Fail(FrontendVerification.DefectOf(root[n].dist))
    ensures d.index.Some? && (forall n :: n in root ==> !IsBroken(root[n], d.index.value, now)) &&
            (forall n :: n in root ==> root[n].dist.index != d.index) ==>
              Bootstrap(d, root, now) == Fail(NoIntactBuild)
  {
    if d.index.Some? {
      var live, keys := d.index.value, SortedNames(root);
      hide Recover, IsBroken, FrontendVerification.DefectOf, CopyVersions, TextOrder.Greatest;
      forall n | n in root && IsBroken(root[n], live, now) &&
                 (forall m :: m in root && IsBroken(root[m], live, now) ==> TextOrder.Leq(n, m))
        ensures Bootstrap(d, root, now) == Fail(FrontendVerification.DefectOf(root[n].dist))
      {
        var k := FirstBroken(root, keys, live, now, n);
        RecoverFailsExactly(root, keys, live, now, map[], k);
      }
      if (forall n :: n in root ==> !IsBroken(root[n], live, now)) && forall n :: n in root ==> root[n].dist.index != d.index {
        NoneLive(d, root, live, now);
      }
    }
  }

  lemma FirstBroken(root: map<string, Release>, keys: seq<string>, live: string, now: real, n: string) returns (k: nat)
    requires keys == SortedNames(root) && n in root && IsBroken(root[n], live, now)
    requires forall m :: m in root && IsBroken(root[m], live, now) ==> TextOrder.Leq(n, m)
    ensures k < |keys| && keys[k] == n && forall j :: 0 <= j < k ==> !IsBroken(root[keys[j]], live, now)
  {
    hide IsBroken;
    k :| 0 <= k < |keys| && keys[k] == n;
    forall j | 0 <= j < k ensures !IsBroken(root[keys[j]], live, now) {
      assert keys[j] in keys;
      assert TextOrder.Less(keys[j], keys[k]);
      if IsBroken(root[keys[j]], live, now) {
        TextOrder.Antisymmetric(keys[j], n);
      }
    }
  }

  lemma NoneLive(d: Disk, root: map<string, Release>, live: string, now: real)
    requires d.index == Some(live) && (forall n :: n in root ==> !IsBroken(root[n], live, now))
    requires forall n :: n in root ==> root[n].dist.index != Some(live)
    ensures Bootstrap(d, root, now) == Fail(NoIntactBuild)
  {
    hide Recover, FrontendVerification.Proper, CopyVersions, TextOrder.Greatest;
    RecoveredExactly(root, SortedNames(root), live, now, map[]);
    assert Matching(Recover(root, SortedNames(root), live, now, map[]).value, live) == {};
  }

  /** A cleanup that is refused changes nothing; which error it gives. */
  lemma CleanupFailsExactly(d: Disk, now: real)
    ensures d.inventory.None? ==> Cleanup(d, now) == Fail(InventoryMissing)
    ensures d.inventory.Some? && d.index.None? ==> Cleanup(d, now) == Fail(IndexMissing)
    ensures d.inventory.Some? && d.index.Some? && !FrontendRegistration.LiveIsRegistered(d.inventory.value, d.index.value) ==>
              Cleanup(d, now) == Fail(OutsideInventory)
  {
    if d.inventory.Some? && d.index.Some? {
      FrontendRegistration.LiveMatches(d.inventory.value, d.index.value);
    }
  }
}
