/** An interrupted cleanup can be finished by any later one. */
module FrontendCleanup {
  import opened Common
  import opened FrontendDisk
  import opened FrontendPlans
  import opened FrontendPublishing
  import TextOrder

  /** The disk a complete cleanup leaves. */
  lemma CleanupFinishes(d: Disk, now: real)
    requires d.inventory.Some? && d.index.Some? && Matching(d.inventory.value.versions, d.index.value) != {}
    ensures var inv := d.inventory.value;
            var p := Cleanup(d, now);
            && p.result.Done?
            && Finish(d, p) == Disk(Some(Forget(inv, Expired(inv, d.index.value, now))), d.index,
                                    d.assets - Removed(inv, d.index.value, now))
  {
    hide Removed, Expired, Matching, TextOrder.Sorted;
    var inv := d.inventory.value;
    var names := TextOrder.Sorted(Removed(inv, d.index.value, now));
    var save := Save(Forget(inv, Expired(inv, d.index.value, now)));
    UnlinksFacts(d, names);
    ApplyConcat(d, Unlinks(names).effects, [save]);
    ExecuteOne(Finish(d, Unlinks(names)), save, 1);
  }

  lemma {:induction false} UnlinksPrefix(names: seq<string>, k: nat)
    requires k <= |names|
    ensures |Unlinks(names).effects| == |names|
    ensures Unlinks(names).effects[..k] == Unlinks(names[..k]).effects
    decreases |names|
  {
    if names != [] {
      UnlinksFacts(Disk(None, None, map[]), names[1..]);
      if k > 0 {
        UnlinksPrefix(names[1..], k - 1);
        assert names[..k][0] == names[0] && names[..k][1..] == names[1..][..k - 1];
        UnlinksFacts(Disk(None, None, map[]), names[..k][1..]);
        var rest := Unlinks(names[1..]).effects;
        assert ([Unlink(names[0])] + rest)[..k] == [Unlink(names[0])] + rest[..k - 1];
      } else {
        UnlinksPrefix(names[1..], 0);
      }
    }
  }

  /** A cut cleanup has unlinked some of the files it was to remove, and has forgotten nothing until the end. */
  lemma CutCleanup(d: Disk, now: real, fuse: nat) returns (gone: set<string>)
    requires d.inventory.Some? && d.index.Some? && Matching(d.inventory.value.versions, d.index.value) != {}
    ensures var inv := d.inventory.value;
            var d' := Cut(d, Cleanup(d, now), fuse);
            && gone <= Removed(inv, d.index.value, now)
            && d'.index == d.index && d'.assets == d.assets - gone
            && (d'.inventory == d.inventory ||
                (gone == Removed(inv, d.index.value, now) &&
                 d'.inventory == Some(Forget(inv, Expired(inv, d.index.value, now)))))
  {
    hide Removed, Expired, Matching, TextOrder.Sorted;
    var inv := d.inventory.value;
    var names := TextOrder.Sorted(Removed(inv, d.index.value, now));
    var p := Cleanup(d, now);
    UnlinksPrefix(names, |names|);
    UnlinksFacts(d, names);
    if fuse <= |names| {
      UnlinksPrefix(names, fuse);
      UnlinksFacts(d, names[..fuse]);
      assert p.effects[..fuse] == Unlinks(names[..fuse]).effects;
      gone := TextOrder.Elements(names[..fuse]);
      forall x | x in gone ensures x in TextOrder.Elements(names) {
      }
    } else {
      gone := Removed(inv, d.index.value, now);
      CutIsWhole(d, p, fuse);
      assert Cut(d, p, fuse) == Finish(d, p);
      CleanupFinishes(d, now);
    }
  }

  lemma ExpiryGrows(inv: Inventory, current: string, now: real, later: real)
    requires now <= later
    ensures Expired(inv, current, now) <= Expired(inv, current, later)
    ensures Removed(inv, current, now) <= Removed(inv, current, later)
  {
  }

  /** Forgetting what had expired by `now` first changes nothing about a cleanup at `later`. */
  lemma ForgetTwice(inv: Inventory, current: string, now: real, later: real)
    requires now <= later
    ensures var inv' := Forget(inv, Expired(inv, current, now));
            && Forget(inv', Expired(inv', current, later)) == Forget(inv, Expired(inv, current, later))
            && Removed(inv, current, now) + Removed(inv', current, later) == Removed(inv, current, later)
  {
    var early, late := Expired(inv, current, now), Expired(inv, current, later);
    var inv' := Forget(inv, early);
    ExpiryGrows(inv, current, now, later);
    assert Expired(inv', current, later) == late - early;
    assert inv'.versions - (late - early) == inv.versions - late;
    assert inv'.versions.Keys - (late - early) == inv.versions.Keys - late;
    assert FilesOf(inv'.versions, inv.versions.Keys - late) == FilesOf(inv.versions, inv.versions.Keys - late);
    assert FilesOf(inv.versions, late) == FilesOf(inv.versions, early) + FilesOf(inv'.versions, late - early);
    assert FilesOf(inv.versions, inv.versions.Keys - early) ==
           FilesOf(inv'.versions, late - early) + FilesOf(inv.versions, inv.versions.Keys - late);
  }

  /**
   * Cleanup resumes. However an earlier cleanup was cut, a later (or simultaneous) cleanup ends with exactly
   * the disk it would have left had the earlier one never started. With an uncut first run and equal clocks
   * this says that cleaning up twice is cleaning up once.
   */
  lemma CleanupResumes(d: Disk, now: real, later: real, fuse: nat)
    requires now <= later
    ensures var d' := Cut(d, Cleanup(d, now), fuse);
            && Cleanup(d', later).result == Cleanup(d, later).result
            && Finish(d', Cleanup(d', later)) == Finish(d, Cleanup(d, later))
  {
    hide Removed, Expired, Cleanup, Forget;
    if d.inventory.Some? && d.index.Some? && Matching(d.inventory.value.versions, d.index.value) != {} {
      var inv, current := d.inventory.value, d.index.value;
      var d' := Cut(d, Cleanup(d, now), fuse);
      var gone := CutCleanup(d, now, fuse);
      CleanupFinishes(d, later);
      assert Matching(d'.inventory.value.versions, current) != {} by { StillMatching(inv, current, now); }
      CleanupFinishes(d', later);
      ExpiryGrows(inv, current, now, later);
      ForgetTwice(inv, current, now, later);
      if d'.inventory == d.inventory {
        assert d.assets - gone - Removed(inv, current, later) == d.assets - Removed(inv, current, later);
      } else {
        assert d.assets - gone - Removed(d'.inventory.value, current, later) == d.assets - Removed(inv, current, later);
      }
    } else {
      RefusedCleanup(d, now);
    }
  }

  lemma RefusedCleanup(d: Disk, now: real)
    requires !(d.inventory.Some? && d.index.Some? && Matching(d.inventory.value.versions, d.index.value) != {})
    ensures Cleanup(d, now).effects == []
  {
  }

  lemma StillMatching(inv: Inventory, current: string, now: real)
    requires Matching(inv.versions, current) != {}
    ensures Matching(Forget(inv, Expired(inv, current, now)).versions, current) != {}
  {
    var n :| n in Matching(inv.versions, current);
    assert n in Matching(Forget(inv, Expired(inv, current, now)).versions, current);
  }
}
