/** What a single publish or cleanup has done by the time it returns, raises or is cut, on any disk at all. */
module FrontendOutcomes {
  import opened Common
  import opened FrontendDisk
  import opened FrontendPlans
  import opened FrontendSafety
  import opened FrontendCopies
  import TextOrder

  /** Steps that change the inventory or add a file that was absent. */
  ghost predicate Additive(d: Disk, es: seq<Effect>)
    decreases |es|
  {
    es == [] ||
    ((es[0].Save? || (es[0].Write? && es[0].name !in d.assets)) && Additive(Apply(d, es[0]), es[1..]))
  }

  lemma {:induction false} AdditiveCut(d: Disk, es: seq<Effect>, k: nat)
    requires Additive(d, es) && k <= |es|
    ensures ApplyAll(d, es[..k]).index == d.index && Grows(d, ApplyAll(d, es[..k]))
    decreases k
  {
    if k > 0 {
      AdditiveCut(Apply(d, es[0]), es[1..], k - 1);
      assert es[..k][0] == es[0] && es[..k][1..] == es[1..][..k - 1];
    }
  }

  lemma {:induction false} AdditiveInSequence(d: Disk, xs: seq<Effect>, ys: seq<Effect>)
    requires Additive(d, xs) && Additive(ApplyAll(d, xs), ys)
    ensures Additive(d, xs + ys)
    decreases |xs|
  {
    if xs == [] {
      assert xs + ys == ys;
    } else {
      assert (xs + ys)[1..] == xs[1..] + ys;
      AdditiveInSequence(Apply(d, xs[0]), xs[1..], ys);
    }
  }

  lemma {:induction false} AddsAreAdditive(d: Disk, es: seq<Effect>, names: set<string>)
    requires Adds(d, es, names)
    ensures Additive(d, es)
    decreases |es|
  {
    if es != [] {
      AddsAreAdditive(Apply(d, es[0]), es[1..], names);
    }
  }

  function Tail(p: Plan, last: Effect): seq<Effect> {
    if p.result.Done? then [last] else []
  }

  lemma BootstrapAdds(d: Disk, root: map<string, Release>, now: real)
    ensures Additive(d, Bootstrap(d, root, now).effects)
  {
    hide SortedNames, TextOrder.Greatest, Recover, CopyVersions;
    if d.index.Some? {
      var recovered := Recover(root, SortedNames(root), d.index.value, now, map[]);
      if recovered.Ok? && Matching(recovered.value, d.index.value) != {} {
        var versions := recovered.value;
        var save := Save(Inventory(versions, TextOrder.Greatest(Matching(versions, d.index.value))));
        var d1 := Apply(d, save);
        var names := FilesOf(versions, versions.Keys);
        CopyVersionsFacts(d1, root, versions, SortedNames(versions), names);
        AddsAreAdditive(d1, CopyVersions(d1, root, versions, SortedNames(versions)).effects, names);
        ExecuteOne(d, save, 1);
        AdditiveInSequence(d, [save], CopyVersions(d1, root, versions, SortedNames(versions)).effects);
      }
    }
  }

  /** After registration a publish only adds files, then (if nothing stopped it) switches the HTML. */
  lemma RollOutShape(d: Disk, root: map<string, Release>, inv: Inventory, current: string, now: real, keys: seq<string>,
                     source: map<string, Bytes>, candidate: Entry) returns (adds: seq<Effect>)
    requires forall k :: k in keys ==> k in inv.versions
    ensures var p := RollOut(d, root, inv, current, now, keys, source, candidate);
            && p.effects == adds + Tail(p, Switch(candidate.index))
            && Adds(d, adds, FilesOf(inv.versions, inv.versions.Keys) + FileSet(candidate.files))
            && (p.result.Done? ==> Carries(ApplyAll(d, adds), source, candidate.files))
  {
    hide Resume, Copy, FilesOf, Carries;
    var names := FilesOf(inv.versions, inv.versions.Keys) + FileSet(candidate.files);
    var resume := Resume(d, root, inv, current, now, keys);
    ResumeFacts(d, root, inv, current, now, keys, names);
    if !resume.result.Done? {
      return resume.effects;
    }
    var d2 := Finish(d, resume);
    var copy := Copy(d2, source, candidate.files);
    CopyFacts(d2, source, candidate.files, names);
    AddsInSequence(d, resume.effects, copy.effects, names);
    ApplyConcat(d, resume.effects, copy.effects);
    adds := resume.effects + copy.effects;
  }

  lemma PromoteShape(d: Disk, root: map<string, Release>, name: string, candidate: Entry, now: real)
    returns (pre: seq<Effect>)
    ensures var p := Promote(d, root, name, candidate, now);
            && p.effects == pre + Tail(p, Switch(candidate.index))
            && Additive(d, pre)
            && (p.result.Done? ==>
                  && d.inventory.Some? && d.index.Some? && Matching(d.inventory.value.versions, d.index.value) != {}
                  && Carries(ApplyAll(d, pre), BytesOf(root, name), candidate.files)
                  && ApplyAll(d, pre).inventory ==
                     Some(Registered(d.inventory.value, d.index.value, name, candidate, now)))
  {
    hide Registered, Carries, RollOut, Matching, FilesOf, KeysWith, FileSet;
    pre := [];
    if d.inventory.Some? && d.index.Some? && Matching(d.inventory.value.versions, d.index.value) != {} {
      var current := d.index.value;
      var inv := Registered(d.inventory.value, current, name, candidate, now);
      RegisteredKeys(d.inventory.value, current, name, candidate, now);
      var save := Save(inv);
      var d1 := Apply(d, save);
      var keys := KeysWith(d.inventory.value.versions, name);
      var adds := RollOutShape(d1, root, inv, current, now, keys, BytesOf(root, name), candidate);
      var names := FilesOf(inv.versions, inv.versions.Keys) + FileSet(candidate.files);
      AddsAreAdditive(d1, adds, names);
      AddsGrow(d1, adds, names);
      ExecuteOne(d, save, 1);
      AdditiveInSequence(d, [save], adds);
      ApplyConcat(d, [save], adds);
      pre := [save] + adds;
    }
  }

  lemma PublishShape(d: Disk, root: map<string, Release>, name: string, now: real) returns (pre: seq<Effect>)
    ensures var p := Publish(d, root, name, now);
            && (p.result.Done? ==> Candidate(root, name).Ok?)
            && p.effects == pre + (if p.result.Done? then [Switch(Candidate(root, name).value.index)] else [])
            && Additive(d, pre)
            && (p.result.Done? ==>
                  && Carries(ApplyAll(d, pre), BytesOf(root, name), Candidate(root, name).value.files)
                  && ApplyAll(d, pre).inventory.Some?
                  && name in ApplyAll(d, pre).inventory.value.versions
                  && ApplyAll(d, pre).inventory.value.versions[name] == Candidate(root, name).value)
  {
    hide Bootstrap, Promote, BuildInventory, Carries, Registered, Matching;
    pre := [];
    if Candidate(root, name).Ok? {
      var candidate := Candidate(root, name).value;
      var boot := EnsureInventory(d, root, now);
      if d.inventory.None? {
        BootstrapAdds(d, root, now);
      }
      pre := boot.effects;
      if boot.result.Done? {
        var d1 := Finish(d, boot);
        var rest := PromoteShape(d1, root, name, candidate, now);
        AdditiveInSequence(d, boot.effects, rest);
        ApplyConcat(d, boot.effects, rest);
        pre := boot.effects + rest;
        assert Publish(d, root, name, now).effects == pre + Tail(Promote(d1, root, name, candidate, now), Switch(candidate.index));
        if Promote(d1, root, name, candidate, now).result.Done? {
          RegisteredKeys(d1.inventory.value, d1.index.value, name, candidate, now);
        }
      }
    }
  }

  /** The release is live: its HTML, all of its files with its bytes, and its entry in the inventory. */
  ghost predicate Published(d: Disk, root: map<string, Release>, name: string) {
    && Candidate(root, name).Ok?
    && d.index == Some(Candidate(root, name).value.index)
    && Carries(d, BytesOf(root, name), Candidate(root, name).value.files)
    && d.inventory.Some? && name in d.inventory.value.versions
    && d.inventory.value.versions[name] == Candidate(root, name).value
  }

  /**
   * A publish never deletes or overwrites an asset. Unless it completes it leaves the published HTML
   * alone; if it completes the HTML is the candidate's and every candidate file is served with its bytes.
   * This holds for every disk, every set of releases and every crash point.
   */
  lemma PublishIsAllOrNothing(d: Disk, root: map<string, Release>, name: string, now: real, fuse: nat)
    ensures var r := Execute(d, Publish(d, root, name, now), fuse);
            && Grows(d, r.disk)
            && (!r.outcome.Done? ==> r.disk.index == d.index)
            && (r.outcome.Done? ==> Published(r.disk, root, name))
  {
    hide Publish, Candidate, Additive;
    var p := Publish(d, root, name, now);
    var pre := PublishShape(d, root, name, now);
    if fuse < |p.effects| {
      assert p.effects[..fuse] == pre[..fuse];
      AdditiveCut(d, pre, fuse);
    } else {
      AdditiveCut(d, pre, |pre|);
      assert pre[..|pre|] == pre;
      if p.result.Done? {
        var switch := Switch(Candidate(root, name).value.index);
        ApplyConcat(d, pre, [switch]);
        ExecuteOne(ApplyAll(d, pre), switch, 1);
      } else {
        assert p.effects == pre;
      }
    }
  }

  lemma {:induction false} CarriedFilesDoNotDiffer(d: Disk, source: map<string, Bytes>, files: seq<string>)
    requires Carries(d, source, files)
    ensures FirstDifference(d.assets, source, files).None?
    decreases |files|
  {
    if files != [] {
      assert files[0] in files;
      CarriedFilesDoNotDiffer(d, source, files[1..]);
    }
  }

  lemma NothingLeftOver(a: set<string>, e: set<string>, m: set<string>)
    requires e <= m
    ensures a - e - m == {} <==> a <= m
  {
    if a - e - m == {} {
      forall x | x in a ensures x in m {
        assert x !in a - e - m;
      }
    }
  }

  /** After a publish that returns, `verify` of the same release succeeds exactly when no unregistered file is about. */
  lemma PublishedReleaseVerifies(d: Disk, root: map<string, Release>, name: string, now: real, fuse: nat)
    requires Execute(d, Publish(d, root, name, now), fuse).outcome.Done?
    ensures var d' := Execute(d, Publish(d, root, name, now), fuse).disk;
            name in root &&
            (Verify(d', root[name].dist) == Done <==>
               d'.assets.Keys <= ManagedFiles(d') && forall n :: n in d'.assets ==> ManagedPath(n))
  {
    hide Publish, Execute, ManagedPath, FirstDifference, ManagedFiles, FileSet;
    PublishIsAllOrNothing(d, root, name, now, fuse);
    var d' := Execute(d, Publish(d, root, name, now), fuse).disk;
    var candidate := Candidate(root, name).value;
    CarriedFilesDoNotDiffer(d', root[name].dist.bytes, candidate.files);
    assert candidate.files[0] in candidate.files && candidate.files[0] in d'.assets;
    assert FileSet(candidate.files) <= ManagedFiles(d') by {
      RegisteredFilesAreManaged(d', name);
    }
    assert BuildInventory(root[name].dist) == Ok(candidate);
    NothingLeftOver(d'.assets.Keys, FileSet(candidate.files), ManagedFiles(d'));
  }

  lemma RegisteredFilesAreManaged(d: Disk, name: string)
    requires d.inventory.Some? && name in d.inventory.value.versions
    ensures FileSet(d.inventory.value.versions[name].files) <= ManagedFiles(d)
  {
  }
}
