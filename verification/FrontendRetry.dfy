/**
 * When a publish completes, and what it then leaves; hence that retrying an interrupted publish
 * ends where the uninterrupted one would have.
 */
module FrontendRetry {
  import opened Common
  import opened FrontendDisk
  import opened FrontendPlans
  import opened FrontendCopies

  function Look(m: map<string, Bytes>, f: string): Option<Bytes> {
    if f in m then Some(m[f]) else None
  }

  /** The first supported version, in the order of the loop, that lists the file. */
  function Supplier(inv: Inventory, current: string, now: real, keys: seq<string>, f: string): Option<string>
    requires forall k :: k in keys ==> k in inv.versions
  {
    if keys == [] then None
    else if Supported(inv, keys[0], current, now) && f in inv.versions[keys[0]].files then Some(keys[0])
    else Supplier(inv, current, now, keys[1..], f)
  }

  /** What the resume loop leaves under a name: what was there, or what its first supplier has. */
  function Filled(assets: map<string, Bytes>, root: map<string, Release>, inv: Inventory, current: string, now: real,
                  keys: seq<string>, f: string): Option<Bytes>
    requires forall k :: k in keys ==> k in inv.versions
  {
    if f in assets then Some(assets[f])
    else
      match Supplier(inv, current, now, keys, f)
      case None => None
      case Some(k) => Look(BytesOf(root, k), f)
  }

  /** `copy_assets` returns exactly when every file exists in the source and none conflicts. */
  lemma {:induction false} CopyExactly(d: Disk, source: map<string, Bytes>, files: seq<string>)
    ensures var p := Copy(d, source, files);
            && (p.result.Done? <==>
                  forall f :: f in files ==> f in source && (f in d.assets ==> d.assets[f] == source[f]))
            && (p.result.Done? ==>
                  && Finish(d, p).inventory == d.inventory && Finish(d, p).index == d.index
                  && forall f :: Look(Finish(d, p).assets, f) == if f in files then Look(source, f) else Look(d.assets, f))
    decreases |files|
  {
    if files != [] && files[0] in source {
      var f := files[0];
      if f in d.assets {
        CopyExactly(d, source, files[1..]);
      } else {
        var w := Write(f, source[f]);
        CopyExactly(Apply(d, w), source, files[1..]);
        ExecuteOne(d, w, 1);
        if Copy(Apply(d, w), source, files[1..]).result.Done? {
          FinishThen(d, One(w), Copy(Apply(d, w), source, files[1..]));
        }
      }
    }
  }

  /** Every absent file that a supported version needs can be had from the release the loop asks first. */
  ghost predicate Available(assets: map<string, Bytes>, root: map<string, Release>, inv: Inventory, current: string,
                            now: real, keys: seq<string>)
    requires forall k :: k in keys ==> k in inv.versions
  {
    forall f :: f !in assets && Supplier(inv, current, now, keys, f).Some? ==>
      f in BytesOf(root, Supplier(inv, current, now, keys, f).value)
  }

  lemma AvailableStep(d: Disk, d1: Disk, root: map<string, Release>, inv: Inventory, current: string, now: real,
                      keys: seq<string>)
    requires keys != [] && forall k :: k in keys ==> k in inv.versions
    requires Supported(inv, keys[0], current, now)
    requires forall f :: f in Missing(d, inv.versions[keys[0]].files) ==> f in BytesOf(root, keys[0])
    requires forall f :: Look(d1.assets, f) ==
                         if f in Missing(d, inv.versions[keys[0]].files) then Look(BytesOf(root, keys[0]), f)
                         else Look(d.assets, f)
    ensures Available(d.assets, root, inv, current, now, keys) <==>
            Available(d1.assets, root, inv, current, now, keys[1..])
    ensures forall f :: Filled(d.assets, root, inv, current, now, keys, f) ==
                        Filled(d1.assets, root, inv, current, now, keys[1..], f)
  {
    MissingIsAbsent(d, inv.versions[keys[0]].files);
    forall f
      ensures Filled(d.assets, root, inv, current, now, keys, f) == Filled(d1.assets, root, inv, current, now, keys[1..], f)
      ensures f in d1.assets <==> f in d.assets || f in inv.versions[keys[0]].files
    {
      assert Look(d1.assets, f) ==
             if f in Missing(d, inv.versions[keys[0]].files) then Look(BytesOf(root, keys[0]), f) else Look(d.assets, f);
    }
  }

  lemma SkipsUnsupported(d: Disk, root: map<string, Release>, inv: Inventory, current: string, now: real, keys: seq<string>)
    requires keys != [] && forall k :: k in keys ==> k in inv.versions
    requires !Supported(inv, keys[0], current, now) || Missing(d, inv.versions[keys[0]].files) == []
    ensures Available(d.assets, root, inv, current, now, keys) <==>
            Available(d.assets, root, inv, current, now, keys[1..])
    ensures forall f :: Filled(d.assets, root, inv, current, now, keys, f) ==
                        Filled(d.assets, root, inv, current, now, keys[1..], f)
  {
    MissingIsAbsent(d, inv.versions[keys[0]].files);
    assert forall f :: f !in d.assets ==>
      Supplier(inv, current, now, keys, f) == Supplier(inv, current, now, keys[1..], f);
  }

  /** The resume loop completes exactly when what it needs is available, and what it then leaves. */
  lemma {:induction false} ResumeExactly(d: Disk, root: map<string, Release>, inv: Inventory, current: string, now: real,
                                         keys: seq<string>)
    requires forall k :: k in keys ==> k in inv.versions
    ensures var p := Resume(d, root, inv, current, now, keys);
            && (p.result.Done? <==> Available(d.assets, root, inv, current, now, keys))
            && (p.result.Done? ==>
                  && Finish(d, p).inventory == d.inventory && Finish(d, p).index == d.index
                  && forall f :: Look(Finish(d, p).assets, f) == Filled(d.assets, root, inv, current, now, keys, f))
    decreases |keys|
  {
    hide Supported, Available, Filled, Supplier, Missing, Copy;
    if keys == [] {
      NothingToResume(d, root, inv, current, now);
    } else {
      var files := inv.versions[keys[0]].files;
      var missing := Missing(d, files);
      MissingIsAbsent(d, files);
      if missing != [] && Supported(inv, keys[0], current, now) {
        var p := Copy(d, BytesOf(root, keys[0]), missing);
        CopyExactly(d, BytesOf(root, keys[0]), missing);
        if p.result.Done? {
          var d1 := Finish(d, p);
          AvailableStep(d, d1, root, inv, current, now, keys);
          ResumeExactly(d1, root, inv, current, now, keys[1..]);
          if Resume(d1, root, inv, current, now, keys[1..]).result.Done? {
            FinishThen(d, p, Resume(d1, root, inv, current, now, keys[1..]));
          }
        } else {
          var f :| f in missing && f !in BytesOf(root, keys[0]);
          Unavailable(d.assets, root, inv, current, now, keys, f);
        }
      } else {
        SkipsUnsupported(d, root, inv, current, now, keys);
        ResumeExactly(d, root, inv, current, now, keys[1..]);
      }
    }
  }

  lemma NothingToResume(d: Disk, root: map<string, Release>, inv: Inventory, current: string, now: real)
    ensures Available(d.assets, root, inv, current, now, [])
    ensures forall f :: Look(d.assets, f) == Filled(d.assets, root, inv, current, now, [], f)
  {
  }

  lemma Unavailable(assets: map<string, Bytes>, root: map<string, Release>, inv: Inventory, current: string, now: real,
                    keys: seq<string>, f: string)
    requires keys != [] && forall k :: k in keys ==> k in inv.versions
    requires Supported(inv, keys[0], current, now) && f in inv.versions[keys[0]].files
    requires f !in assets && f !in BytesOf(root, keys[0])
    ensures !Available(assets, root, inv, current, now, keys)
  {
    assert Supplier(inv, current, now, keys, f) == Some(keys[0]);
  }

  /** Nothing the loop leaves under a candidate's name, and nothing missing from the source, stops the candidate. */
  ghost predicate Agreeable(assets: map<string, Bytes>, root: map<string, Release>, inv: Inventory, current: string,
                            now: real, keys: seq<string>, source: map<string, Bytes>, files: seq<string>)
    requires forall k :: k in keys ==> k in inv.versions
  {
    forall f :: f in files ==>
      f in source && (Filled(assets, root, inv, current, now, keys, f).Some? ==>
                        Filled(assets, root, inv, current, now, keys, f) == Look(source, f))
  }

  /** The roll-out completes exactly when everything is available and nothing conflicts, and what it then leaves. */
  lemma RollOutExactly(d: Disk, root: map<string, Release>, inv: Inventory, current: string, now: real, keys: seq<string>,
                       source: map<string, Bytes>, candidate: Entry)
    requires forall k :: k in keys ==> k in inv.versions
    ensures var p := RollOut(d, root, inv, current, now, keys, source, candidate);
            && (p.result.Done? <==>
                  && Available(d.assets, root, inv, current, now, keys)
                  && Agreeable(d.assets, root, inv, current, now, keys, source, candidate.files))
            && (p.result.Done? ==>
                  && Finish(d, p).inventory == d.inventory && Finish(d, p).index == Some(candidate.index)
                  && forall f :: Look(Finish(d, p).assets, f) ==
                                 if f in candidate.files then Look(source, f)
                                 else Filled(d.assets, root, inv, current, now, keys, f))
  {
    hide Resume, Copy, Available, Filled;
    ResumeExactly(d, root, inv, current, now, keys);
    var resume := Resume(d, root, inv, current, now, keys);
    if resume.result.Done? {
      var d2 := Finish(d, resume);
      CopyExactly(d2, source, candidate.files);
      var copy := Copy(d2, source, candidate.files);
      forall f
        ensures f in d2.assets <==> Filled(d.assets, root, inv, current, now, keys, f).Some?
        ensures f in d2.assets ==> Filled(d.assets, root, inv, current, now, keys, f) == Some(d2.assets[f])
      {
        assert Look(d2.assets, f) == Filled(d.assets, root, inv, current, now, keys, f);
      }
      if copy.result.Done? {
        FinishThen(d2, copy, One(Switch(candidate.index)));
        ExecuteOne(Finish(d2, copy), Switch(candidate.index), 1);
        FinishThen(d, resume, Deliver(d2, source, candidate));
      }
    }
  }

  /** A roll-out from a disk between the start and the end of a completed one ends at the same end. */
  lemma RollOutReaches(d: Disk, root: map<string, Release>, inv: Inventory, current: string, now: real, keys: seq<string>,
                       source: map<string, Bytes>, candidate: Entry, end: map<string, Bytes>)
    requires forall k :: k in keys ==> k in inv.versions
    requires forall f :: f in d.assets ==> Look(end, f) == Some(d.assets[f])
    requires forall f :: f !in d.assets && Supplier(inv, current, now, keys, f).Some? ==>
               var k := Supplier(inv, current, now, keys, f).value;
               f in BytesOf(root, k) && Look(end, f) == Some(BytesOf(root, k)[f])
    requires forall f :: f !in d.assets && Supplier(inv, current, now, keys, f).None? && f !in candidate.files ==>
               f !in end
    requires forall f :: f in candidate.files ==> f in source && Look(end, f) == Look(source, f)
    ensures var p := RollOut(d, root, inv, current, now, keys, source, candidate);
            p.result.Done? && Finish(d, p) == Disk(d.inventory, Some(candidate.index), end)
  {
    hide RollOut, Supplier, BytesOf;
    RollOutExactly(d, root, inv, current, now, keys, source, candidate);
    var p := RollOut(d, root, inv, current, now, keys, source, candidate);
    forall f ensures Look(Finish(d, p).assets, f) == Look(end, f) {
    }
    SameLooks(Finish(d, p).assets, end);
  }

  lemma SameLooks(a: map<string, Bytes>, b: map<string, Bytes>)
    requires forall f :: Look(a, f) == Look(b, f)
    ensures a == b
  {
    forall f ensures f in a <==> f in b {
      assert Look(a, f) == Look(b, f);
    }
    forall f | f in a ensures a[f] == b[f] {
      assert Look(a, f) == Look(b, f);
    }
  }
}
