/** When a publish completes, exactly, and what can block it. */
module FrontendLimits {
  import opened Common
  import opened FrontendDisk
  import opened FrontendPlans
  import opened FrontendRetry
  import opened FrontendResumption
  import TextOrder

  /**
   * A publish over an existing inventory completes exactly when the candidate is a proper build, the
   * published HTML is registered, every absent file of a supported version can be had from the first
   * release that lists it, and nothing conflicts with the candidate.
   */
  lemma PublishCompletesExactly(d: Disk, root: map<string, Release>, name: string, now: real)
    requires d.inventory.Some? && d.index.Some?
    ensures Publish(d, root, name, now).result.Done? <==>
            && Candidate(root, name).Ok?
            && Matching(d.inventory.value.versions, d.index.value) != {}
            && var candidate := Candidate(root, name).value;
               var inv := Registered(d.inventory.value, d.index.value, name, candidate, now);
               var keys := KeysWith(d.inventory.value.versions, name);
               && (forall k :: k in keys ==> k in inv.versions)
               && Available(d.assets, root, inv, d.index.value, now, keys)
               && Agreeable(d.assets, root, inv, d.index.value, now, keys, root[name].dist.bytes, candidate.files)
  {
    hide Promote, Registered, Available, Agreeable, Matching, BuildInventory, KeysWith, RollOut;
    if Candidate(root, name).Ok? {
      var candidate := Candidate(root, name).value;
      PublishOverInventory(d, root, name, now);
      if Matching(d.inventory.value.versions, d.index.value) != {} {
        var inv := Registered(d.inventory.value, d.index.value, name, candidate, now);
        PromoteIsRollOut(d, root, name, candidate, now);
        RollOutExactly(Apply(d, Save(inv)), root, inv, d.index.value, now, KeysWith(d.inventory.value.versions, name),
                       root[name].dist.bytes, candidate);
      } else if Promote(d, root, name, candidate, now).result.Done? {
        PromoteNeeds(d, root, name, candidate, now);
      }
    }
  }

  /** A registered version that is still inside its window but has a file nobody can supply blocks every publish. */
  lemma PrunedVersionBlocksPublishing(d: Disk, root: map<string, Release>, name: string, now: real, k: string, f: string)
    requires d.inventory.Some? && d.index.Some?
    requires var versions := d.inventory.value.versions;
             && k in versions && k != name && k !in root
             && (versions[k].retiredAt.None? || versions[k].retiredAt.value >= now - RETENTION_SECONDS)
             && f in versions[k].files && f !in d.assets
             && (forall n :: n in versions && n != k ==> f !in versions[n].files)
             && (name in root ==> f !in root[name].dist.names)
    ensures !Publish(d, root, name, now).result.Done?
  {
    hide Promote, Publish, Available, Agreeable, Registered, Matching, KeysWith, BytesOf, Supported, ManagedPath;
    PublishCompletesExactly(d, root, name, now);
    if Candidate(root, name).Ok? && Matching(d.inventory.value.versions, d.index.value) != {} {
      var candidate := Candidate(root, name).value;
      assert candidate.files == root[name].dist.names && candidate.retiredAt.None?;
      var inv := Registered(d.inventory.value, d.index.value, name, candidate, now);
      var keys := KeysWith(d.inventory.value.versions, name);
      RegisteredKeys(d.inventory.value, d.index.value, name, candidate, now);
      RegistrationKeepsFiles(d.inventory.value, d.index.value, name, candidate, now);
      RegistrationKeepsSupport(d.inventory.value, d.index.value, name, candidate, now, k);
      SupplierFacts(inv, d.index.value, now, keys, f);
      assert Supplies(inv, d.index.value, now, k, f);
      var supplier := Supplier(inv, d.index.value, now, keys, f);
      assert supplier == Some(k);
      assert f !in BytesOf(root, k) by { NothingPruned(root, k); }
      NotAvailable(d.assets, root, inv, d.index.value, now, keys, f);
    }
  }

  lemma NothingPruned(root: map<string, Release>, k: string)
    requires k !in root
    ensures BytesOf(root, k) == map[]
  {
  }

  lemma RegistrationKeepsFiles(inv: Inventory, current: string, name: string, candidate: Entry, now: real)
    requires Matching(inv.versions, current) != {}
    ensures var inv' := Registered(inv, current, name, candidate, now);
            forall n :: n in inv.versions && n != name ==> n in inv'.versions && inv'.versions[n].files == inv.versions[n].files
  {
    hide TextOrder.Greatest;
  }

  lemma RegistrationKeepsSupport(inv: Inventory, current: string, name: string, candidate: Entry, now: real, k: string)
    requires Matching(inv.versions, current) != {} && k in inv.versions && k != name
    requires inv.versions[k].retiredAt.None? || inv.versions[k].retiredAt.value >= now - RETENTION_SECONDS
    ensures var inv' := Registered(inv, current, name, candidate, now);
            k in inv'.versions && Supported(inv', k, current, now)
  {
    hide TextOrder.Greatest;
  }

  lemma NotAvailable(assets: map<string, Bytes>, root: map<string, Release>, inv: Inventory, current: string, now: real,
                     keys: seq<string>, f: string)
    requires forall k :: k in keys ==> k in inv.versions
    requires f !in assets && Supplier(inv, current, now, keys, f).Some?
    requires f !in BytesOf(root, Supplier(inv, current, now, keys, f).value)
    ensures !Available(assets, root, inv, current, now, keys)
  {
  }
}
