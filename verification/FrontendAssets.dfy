/**
 * The publisher object. Each method takes its atomic steps one at a time; `fuse` counts how many
 * more the process lives for, so every crash point of every operation is some value of `fuse`.
 * Each method is proved to run exactly the plan of its specification, cut where the fuse says.
 */
module FrontendAssets {
  import opened Common
  import opened FrontendDisk
  import P = FrontendPlans
  import TextOrder

  class FrontendAssets {
    var inventory: Option<Inventory>
    var index: Option<string>
    var assets: map<string, Bytes>
    var fuse: nat

    constructor (disk: Disk, fuse: nat)
      ensures Contents() == disk && this.fuse == fuse
    {
      inventory, index, assets := disk.inventory, disk.index, disk.assets;
      this.fuse := fuse;
    }

    function Contents(): Disk
      reads this
    {
      Disk(inventory, index, assets)
    }

    /** Since the old state, the plan `p` has run for as long as the fuse allowed. */
    twostate predicate Ran(p: Plan, outcome: Outcome)
      reads this
    {
      Halt(Contents(), outcome, fuse) == Execute(old(Contents()), p, old(fuse))
    }

    method AtomicSave(state: Inventory) returns (outcome: Outcome)
      modifies this
      ensures Ran(One(Save(state)), outcome)
    {
      ExecuteOne(Contents(), Save(state), fuse);
      if fuse == 0 { return Crashed; }
      inventory, fuse := Some(state), fuse - 1;
      outcome := Done;
    }

    method AtomicWrite(name: string, data: Bytes) returns (outcome: Outcome)
      modifies this
      ensures Ran(One(Write(name, data)), outcome)
    {
      ExecuteOne(Contents(), Write(name, data), fuse);
      if fuse == 0 { return Crashed; }
      assets, fuse := assets[name := data], fuse - 1;
      outcome := Done;
    }

    method AtomicSwitch(text: string) returns (outcome: Outcome)
      modifies this
      ensures Ran(One(Switch(text)), outcome)
    {
      ExecuteOne(Contents(), Switch(text), fuse);
      if fuse == 0 { return Crashed; }
      index, fuse := Some(text), fuse - 1;
      outcome := Done;
    }

    method AtomicUnlink(name: string) returns (outcome: Outcome)
      modifies this
      ensures Ran(One(Unlink(name)), outcome)
    {
      ExecuteOne(Contents(), Unlink(name), fuse);
      if fuse == 0 { return Crashed; }
      assets, fuse := assets - {name}, fuse - 1;
      outcome := Done;
    }

    method CopyAssets(source: map<string, Bytes>, files: seq<string>) returns (outcome: Outcome)
      modifies this
      ensures Ran(P.Copy(old(Contents()), source, files), outcome)
    {
      ghost var d, life := Contents(), fuse;
      var i := 0;
      while i < |files|
        invariant 0 <= i <= |files|
        invariant Execute(d, P.Copy(d, source, files), life) ==
                  Execute(Contents(), P.Copy(Contents(), source, files[i..]), fuse)
      {
        var name := files[i];
        assert files[i..][0] == name && files[i..][1..] == files[i + 1..];
        if name !in source { return Raised(FileMissing); }
        var data := source[name];
        if name in assets {
          if assets[name] != data { return Raised(ContentConflict); }
        } else {
          ghost var here, write := Contents(), Write(name, data);
          ThenExecutes(here, One(write), P.Copy(Apply(here, write), source, files[i + 1..]), fuse);
          ExecuteOne(here, write, fuse);
          outcome := AtomicWrite(name, data);
          if !outcome.Done? { return; }
        }
        i := i + 1;
      }
      outcome := Done;
    }

    method RecoverVersions(root: map<string, Release>, current: string, now: real)
      returns (r: Result<map<string, Entry>, Failure>)
      ensures r == P.Recover(root, P.SortedNames(root), current, now, map[])
    {
      var keys := P.SortedNames(root);
      var versions: map<string, Entry> := map[];
      var i := 0;
      while i < |keys|
        invariant 0 <= i <= |keys|
        invariant P.Recover(root, keys, current, now, map[]) == P.Recover(root, keys[i..], current, now, versions)
      {
        assert keys[i..][0] == keys[i] && keys[i..][1..] == keys[i + 1..];
        var seen := P.Examine(root[keys[i]], current, now);
        if seen.Err? { return Err(seen.error); }
        if seen.value.Some? { versions := versions[keys[i] := seen.value.value]; }
        i := i + 1;
      }
      r := Ok(versions);
    }

    method CopyVersions(root: map<string, Release>, versions: map<string, Entry>, keys: seq<string>)
      returns (outcome: Outcome)
      requires forall k :: k in keys ==> k in versions
      modifies this
      ensures Ran(P.CopyVersions(old(Contents()), root, versions, keys), outcome)
    {
      ghost var d, life := Contents(), fuse;
      var i := 0;
      while i < |keys|
        invariant 0 <= i <= |keys|
        invariant Execute(d, P.CopyVersions(d, root, versions, keys), life) ==
                  Execute(Contents(), P.CopyVersions(Contents(), root, versions, keys[i..]), fuse)
      {
        var key := keys[i];
        assert keys[i..][0] == key && keys[i..][1..] == keys[i + 1..];
        ghost var here := Contents();
        ghost var copy := P.Copy(here, P.BytesOf(root, key), versions[key].files);
        ThenExecutes(here, copy, P.CopyVersions(Finish(here, copy), root, versions, keys[i + 1..]), fuse);
        outcome := CopyAssets(P.BytesOf(root, key), versions[key].files);
        if !outcome.Done? { return; }
        i := i + 1;
      }
      outcome := Done;
    }

    method Bootstrap(root: map<string, Release>, now: real) returns (outcome: Outcome)
      modifies this
      ensures Ran(P.Bootstrap(old(Contents()), root, now), outcome)
    {
      if index.None? { return Raised(IndexMissing); }
      var current := index.value;
      var recovered := RecoverVersions(root, current, now);
      if recovered.Err? { return Raised(recovered.error); }
      var versions := recovered.value;
      var matches := P.Matching(versions, current);
      if matches == {} { return Raised(NoIntactBuild); }
      var state := Inventory(versions, TextOrder.Greatest(matches));
      var keys := P.SortedNames(versions);
      ghost var d := Contents();
      ThenExecutes(d, One(Save(state)), P.CopyVersions(Apply(d, Save(state)), root, versions, keys), fuse);
      ExecuteOne(d, Save(state), fuse);
      outcome := AtomicSave(state);
      if !outcome.Done? { return; }
      outcome := CopyVersions(root, versions, keys);
    }

    method MissingFiles(files: seq<string>) returns (missing: seq<string>)
      ensures missing == P.Missing(Contents(), files)
    {
      missing := [];
      var i := 0;
      while i < |files|
        invariant 0 <= i <= |files|
        invariant P.Missing(Contents(), files) == missing + P.Missing(Contents(), files[i..])
      {
        assert files[i..][0] == files[i] && files[i..][1..] == files[i + 1..];
        if files[i] !in assets { missing := missing + [files[i]]; }
        i := i + 1;
      }
    }

    method Resume(root: map<string, Release>, state: Inventory, current: string, now: real, keys: seq<string>)
      returns (outcome: Outcome)
      requires forall k :: k in keys ==> k in state.versions
      modifies this
      ensures Ran(P.Resume(old(Contents()), root, state, current, now, keys), outcome)
    {
      ghost var d, life := Contents(), fuse;
      var i := 0;
      while i < |keys|
        invariant 0 <= i <= |keys|
        invariant Execute(d, P.Resume(d, root, state, current, now, keys), life) ==
                  Execute(Contents(), P.Resume(Contents(), root, state, current, now, keys[i..]), fuse)
      {
        var key := keys[i];
        assert keys[i..][0] == key && keys[i..][1..] == keys[i + 1..];
        var missing := MissingFiles(state.versions[key].files);
        if missing != [] && P.Supported(state, key, current, now) {
          ghost var here := Contents();
          ghost var copy := P.Copy(here, P.BytesOf(root, key), missing);
          ThenExecutes(here, copy, P.Resume(Finish(here, copy), root, state, current, now, keys[i + 1..]), fuse);
          outcome := CopyAssets(P.BytesOf(root, key), missing);
          if !outcome.Done? { return; }
        }
        i := i + 1;
      }
      outcome := Done;
    }

    method Deliver(source: map<string, Bytes>, candidate: Entry) returns (outcome: Outcome)
      modifies this
      ensures Ran(P.Deliver(old(Contents()), source, candidate), outcome)
    {
      ThenExecutes(Contents(), P.Copy(Contents(), source, candidate.files), One(Switch(candidate.index)), fuse);
      outcome := CopyAssets(source, candidate.files);
      if !outcome.Done? { return; }
      outcome := AtomicSwitch(candidate.index);
    }

    method RollOut(root: map<string, Release>, state: Inventory, current: string, now: real, keys: seq<string>,
                   source: map<string, Bytes>, candidate: Entry)
      returns (outcome: Outcome)
      requires forall k :: k in keys ==> k in state.versions
      modifies this
      ensures Ran(P.RollOut(old(Contents()), root, state, current, now, keys, source, candidate), outcome)
    {
      ghost var resume := P.Resume(Contents(), root, state, current, now, keys);
      ThenExecutes(Contents(), resume, P.Deliver(Finish(Contents(), resume), source, candidate), fuse);
      outcome := Resume(root, state, current, now, keys);
      if !outcome.Done? { return; }
      outcome := Deliver(source, candidate);
    }

    /** The part of publishing that follows once an inventory exists. */
    method Promote(root: map<string, Release>, name: string, candidate: Entry, now: real) returns (outcome: Outcome)
      modifies this
      ensures Ran(P.Promote(old(Contents()), root, name, candidate, now), outcome)
    {
      if inventory.None? { return Raised(InventoryMissing); }
      if index.None? { return Raised(IndexMissing); }
      var versions, current := inventory.value.versions, index.value;
      if P.Matching(versions, current) == {} { return Raised(OutsideInventory); }
      var state := P.Registered(inventory.value, current, name, candidate, now);
      var keys := P.KeysWith(versions, name);
      ghost var d := Contents();
      ghost var rollOut := P.RollOut(Apply(d, Save(state)), root, state, current, now, keys,
                                     P.BytesOf(root, name), candidate);
      ExecuteOne(d, Save(state), fuse);
      ThenExecutes(d, One(Save(state)), rollOut, fuse);
      outcome := AtomicSave(state);
      if !outcome.Done? { return; }
      outcome := RollOut(root, state, current, now, keys, P.BytesOf(root, name), candidate);
    }

    method EnsureInventory(root: map<string, Release>, now: real) returns (outcome: Outcome)
      modifies this
      ensures Ran(P.EnsureInventory(old(Contents()), root, now), outcome)
    {
      if inventory.None? {
        outcome := Bootstrap(root, now);
      } else {
        outcome := Done;
      }
    }

    method Publish(root: map<string, Release>, name: string, now: real) returns (outcome: Outcome)
      modifies this
      ensures Ran(P.Publish(old(Contents()), root, name, now), outcome)
    {
      var candidate := P.Candidate(root, name);
      if candidate.Err? { return Raised(candidate.error); }
      P.PublishStages(Contents(), root, name, now, fuse);
      outcome := EnsureInventory(root, now);
      if !outcome.Done? { return; }
      outcome := Promote(root, name, candidate.value, now);
    }

    method Verify(source: Build) returns (outcome: Outcome)
      ensures outcome == P.Verify(Contents(), source)
    {
      var expected := P.BuildInventory(source);
      if expected.Err? { return Raised(expected.error); }
      if index.None? { return Raised(IndexMissing); }
      if index.value != expected.value.index { return Raised(HtmlDiffers); }
      var files := expected.value.files;
      var i := 0;
      while i < |files|
        invariant 0 <= i <= |files|
        invariant P.FirstDifference(assets, source.bytes, files) ==
                  P.FirstDifference(assets, source.bytes, files[i..])
      {
        var name := files[i];
        assert files[i..][0] == name && files[i..][1..] == files[i + 1..];
        if name !in assets || name !in source.bytes { return Raised(FileMissing); }
        if assets[name] != source.bytes[name] { return Raised(AssetDiffers); }
        i := i + 1;
      }
      var managed := P.FileSet(files);
      if inventory.Some? {
        managed := managed + P.FilesOf(inventory.value.versions, inventory.value.versions.Keys);
      }
      if exists n :: n in assets.Keys && !P.ManagedPath(n) { return Raised(InvalidAssetPath); }
      if assets.Keys == {} { return Raised(NoAssets); }
      if assets.Keys - managed != {} { return Raised(UnmanagedAssets); }
      outcome := Done;
    }

    method UnlinkAll(names: seq<string>) returns (outcome: Outcome)
      modifies this
      ensures Ran(P.Unlinks(names), outcome)
      ensures index == old(index) && inventory == old(inventory)
    {
      ghost var d, life := Contents(), fuse;
      var i := 0;
      while i < |names|
        invariant 0 <= i <= |names|
        invariant index == old(index) && inventory == old(inventory)
        invariant Execute(d, P.Unlinks(names), life) == Execute(Contents(), P.Unlinks(names[i..]), fuse)
      {
        assert names[i..][0] == names[i] && names[i..][1..] == names[i + 1..];
        ThenExecutes(Contents(), One(Unlink(names[i])), P.Unlinks(names[i + 1..]), fuse);
        ExecuteOne(Contents(), Unlink(names[i]), fuse);
        outcome := AtomicUnlink(names[i]);
        if !outcome.Done? { return; }
        i := i + 1;
      }
      outcome := Done;
    }

    method Cleanup(now: real) returns (outcome: Outcome)
      modifies this
      ensures Ran(P.Cleanup(old(Contents()), now), outcome)
    {
      if inventory.None? { return Raised(InventoryMissing); }
      if index.None? { return Raised(IndexMissing); }
      var state, current := inventory.value, index.value;
      if P.Matching(state.versions, current) == {} { return Raised(OutsideInventory); }
      var expired := P.Expired(state, current, now);
      var removed := TextOrder.Sorted(P.Removed(state, current, now));
      ThenExecutes(Contents(), P.Unlinks(removed), One(Save(P.Forget(state, expired))), fuse);
      outcome := UnlinkAll(removed);
      if !outcome.Done? { return; }
      outcome := AtomicSave(P.Forget(state, expired));
    }
  }
}
