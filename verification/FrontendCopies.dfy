/** What the copying loops do to the disk: they only ever add files, and only files of registered versions. */
module FrontendCopies {
  import opened Common
  import opened FrontendDisk
  import opened FrontendPlans
  import opened FrontendSafety

  /** Every step writes a file that was absent, out of `names`. */
  ghost predicate Adds(d: Disk, es: seq<Effect>, names: set<string>)
    decreases |es|
  {
    es == [] ||
    (es[0].Write? && es[0].name !in d.assets && es[0].name in names && Adds(Apply(d, es[0]), es[1..], names))
  }

  lemma {:induction false} AddsGrow(d: Disk, es: seq<Effect>, names: set<string>)
    requires Adds(d, es, names)
    ensures Grows(d, ApplyAll(d, es))
    ensures ApplyAll(d, es).inventory == d.inventory && ApplyAll(d, es).index == d.index
    decreases |es|
  {
    if es != [] {
      AddsGrow(Apply(d, es[0]), es[1..], names);
    }
  }

  lemma {:induction false} AddsInSequence(d: Disk, xs: seq<Effect>, ys: seq<Effect>, names: set<string>)
    requires Adds(d, xs, names) && Adds(ApplyAll(d, xs), ys, names)
    ensures Adds(d, xs + ys, names)
    decreases |xs|
  {
    if xs == [] {
      assert xs + ys == ys;
    } else {
      assert (xs + ys)[1..] == xs[1..] + ys;
      AddsInSequence(Apply(d, xs[0]), xs[1..], ys, names);
    }
  }

  lemma {:induction false} AddsPrefix(d: Disk, es: seq<Effect>, names: set<string>, k: nat)
    requires Adds(d, es, names) && k <= |es|
    ensures Adds(d, es[..k], names)
    decreases k
  {
    if k > 0 {
      AddsPrefix(Apply(d, es[0]), es[1..], names, k - 1);
      assert es[..k][0] == es[0] && es[..k][1..] == es[1..][..k - 1];
    }
  }

  lemma {:induction false} AddsAreSafe(d: Disk, es: seq<Effect>, g: Ground)
    requires d.inventory.Some? && Adds(d, es, ManagedFiles(d))
    ensures AllSafe(d, es, g)
    decreases |es|
  {
    if es != [] {
      assert ManagedFiles(Apply(d, es[0])) == ManagedFiles(d);
      AddsAreSafe(Apply(d, es[0]), es[1..], g);
    }
  }

  lemma FinishThen(d: Disk, p: Plan, q: Plan)
    requires p.result.Done?
    ensures Finish(d, Then(p, q)) == Finish(Finish(d, p), q)
  {
    ApplyConcat(d, p.effects, q.effects);
  }

  /** The files are being served with the source's bytes. */
  ghost predicate Carries(d: Disk, source: map<string, Bytes>, files: seq<string>) {
    forall f :: f in files ==> f in source && f in d.assets && d.assets[f] == source[f]
  }

  /** `copy_assets` adds only listed files, overwrites nothing, and when it returns all of them are in place. */
  lemma {:induction false} CopyFacts(d: Disk, source: map<string, Bytes>, files: seq<string>, names: set<string>)
    requires forall f :: f in files ==> f in names
    ensures Adds(d, Copy(d, source, files).effects, names)
    ensures Copy(d, source, files).result.Done? ==> Carries(Finish(d, Copy(d, source, files)), source, files)
    decreases |files|
  {
    if files != [] && files[0] in source {
      var f := files[0];
      if f in d.assets {
        CopyFacts(d, source, files[1..], names);
        AddsGrow(d, Copy(d, source, files[1..]).effects, names);
      } else {
        var w := Write(f, source[f]);
        var rest := Copy(Apply(d, w), source, files[1..]);
        CopyFacts(Apply(d, w), source, files[1..], names);
        AddsGrow(Apply(d, w), rest.effects, names);
        ExecuteOne(d, w, 1);
        AddsInSequence(d, [w], rest.effects, names);
        FinishThen(d, One(w), rest);
      }
    }
  }

  lemma MissingIsAbsent(d: Disk, files: seq<string>)
    ensures forall f :: f in Missing(d, files) <==> f in files && f !in d.assets
  {
  }

  lemma {:induction false} CopyVersionsFacts(d: Disk, root: map<string, Release>, versions: map<string, Entry>,
                                             keys: seq<string>, names: set<string>)
    requires forall k :: k in keys ==> k in versions
    requires FilesOf(versions, versions.Keys) <= names
    ensures Adds(d, CopyVersions(d, root, versions, keys).effects, names)
    decreases |keys|
  {
    if keys != [] {
      var p := Copy(d, BytesOf(root, keys[0]), versions[keys[0]].files);
      CopyFacts(d, BytesOf(root, keys[0]), versions[keys[0]].files, names);
      CopyVersionsFacts(Finish(d, p), root, versions, keys[1..], names);
      AddsInSequence(d, p.effects, CopyVersions(Finish(d, p), root, versions, keys[1..]).effects, names);
    }
  }

  /** Every file of the version is being served, whatever its bytes. */
  ghost predicate Present(d: Disk, files: seq<string>) {
    forall f :: f in files ==> f in d.assets
  }

  /** The resume loop completes only when every supported version has all of its files. */
  lemma {:induction false} ResumeFacts(d: Disk, root: map<string, Release>, inv: Inventory, current: string, now: real,
                                       keys: seq<string>, names: set<string>)
    requires forall k :: k in keys ==> k in inv.versions
    requires FilesOf(inv.versions, inv.versions.Keys) <= names
    ensures var p := Resume(d, root, inv, current, now, keys);
            && Adds(d, p.effects, names)
            && (p.result.Done? ==> forall k :: k in keys && Supported(inv, k, current, now) ==>
                                     Present(Finish(d, p), inv.versions[k].files))
    decreases |keys|
  {
    if keys != [] {
      var key, files := keys[0], inv.versions[keys[0]].files;
      var missing := Missing(d, files);
      MissingIsAbsent(d, files);
      if missing != [] && Supported(inv, key, current, now) {
        var p := Copy(d, BytesOf(root, key), missing);
        CopyFacts(d, BytesOf(root, key), missing, names);
        var rest := Resume(Finish(d, p), root, inv, current, now, keys[1..]);
        ResumeFacts(Finish(d, p), root, inv, current, now, keys[1..], names);
        AddsInSequence(d, p.effects, rest.effects, names);
        if p.result.Done? {
          AddsGrow(d, p.effects, names);
          AddsGrow(Finish(d, p), rest.effects, names);
          FinishThen(d, p, rest);
        }
      } else {
        var rest := Resume(d, root, inv, current, now, keys[1..]);
        ResumeFacts(d, root, inv, current, now, keys[1..], names);
        AddsGrow(d, rest.effects, names);
        assert missing == [] ==> forall f :: f in files ==> f !in missing;
      }
    }
  }
}
