/** What `verify` means: when it succeeds, and which error it gives when it does not. */
module FrontendVerification {
  import opened Common
  import opened FrontendDisk
  import opened FrontendPlans

  predicate BelowAssets(name: string) {
    "assets/" < name
  }

  /** A build that can be published: it has HTML and some files, all of them below `assets/`. */
  predicate Proper(b: Build) {
    b.index.Some? && b.names != [] && forall f :: f in b.names ==> BelowAssets(f)
  }

  /** The file is there on both sides. */
  predicate OnBothSides(d: Disk, b: Build, f: string) {
    f in d.assets && f in b.bytes
  }

  predicate SameOnBothSides(d: Disk, b: Build, f: string) {
    OnBothSides(d, b, f) && d.assets[f] == b.bytes[f]
  }

  /** Some version of the inventory lists the file. */
  ghost predicate Registered(d: Disk, f: string) {
    d.inventory.Some? && exists n :: n in d.inventory.value.versions && f in d.inventory.value.versions[n].files
  }

  /** The file is the build's or some version's. */
  ghost predicate Accounted(d: Disk, b: Build, f: string) {
    f in b.names || Registered(d, f)
  }

  lemma BelowIsManaged(name: string)
    ensures ManagedPath(name) <==> BelowAssets(name)
  {
    if |name| > 7 {
      assert name[..7] == "assets/" <==> "assets/" <= name;
    }
  }

  lemma ProperBuilds(b: Build)
    ensures BuildInventory(b).Ok? <==> Proper(b)
    ensures Proper(b) ==> BuildInventory(b) == Ok(Entry(b.index.value, b.names, None))
  {
    hide ManagedPath, BelowAssets;
    forall f ensures ManagedPath(f) <==> BelowAssets(f) {
      BelowIsManaged(f);
    }
  }

  /** What is wrong with a build that cannot be published, in the order in which it is looked at. */
  function DefectOf(b: Build): Failure {
    if exists f :: f in b.names && !BelowAssets(f) then InvalidAssetPath else if b.names == [] then NoAssets else IndexMissing
  }

  lemma BrokenBuilds(b: Build)
    ensures !Proper(b) ==> BuildInventory(b) == Err(DefectOf(b))
  {
    hide ManagedPath, BelowAssets;
    forall f ensures ManagedPath(f) <==> BelowAssets(f) {
      BelowIsManaged(f);
    }
  }

  lemma {:induction false} NoDifference(d: Disk, b: Build, files: seq<string>)
    ensures FirstDifference(d.assets, b.bytes, files).None? <==> forall f :: f in files ==> SameOnBothSides(d, b, f)
    decreases |files|
  {
    if files != [] {
      NoDifference(d, b, files[1..]);
      assert files[0] in files && files == [files[0]] + files[1..];
      assert forall f :: f in files <==> f == files[0] || f in files[1..];
    }
  }

  /** The first file that is not the same decides the error. */
  lemma {:induction false} FirstThatDiffers(d: Disk, b: Build, files: seq<string>, k: nat)
    requires k < |files| && (forall j :: 0 <= j < k ==> SameOnBothSides(d, b, files[j])) && !SameOnBothSides(d, b, files[k])
    ensures FirstDifference(d.assets, b.bytes, files) ==
            Some(if OnBothSides(d, b, files[k]) then AssetDiffers else FileMissing)
    decreases k
  {
    if k > 0 {
      assert SameOnBothSides(d, b, files[0]);
      assert forall j :: 0 <= j < k - 1 ==> files[1..][j] == files[j + 1];
      FirstThatDiffers(d, b, files[1..], k - 1);
    }
  }

  lemma AccountedFiles(d: Disk, b: Build)
    ensures d.assets.Keys - FileSet(b.names) - ManagedFiles(d) == {} <==> forall f :: f in d.assets ==> Accounted(d, b, f)
  {
    var left := d.assets.Keys - FileSet(b.names) - ManagedFiles(d);
    forall f ensures f in ManagedFiles(d) <==> Registered(d, f) {
    }
    hide ManagedFiles;
    forall f ensures f in left <==> f in d.assets && !Accounted(d, b, f) {
    }
    if left != {} {
      var f :| f in left;
      assert !Accounted(d, b, f);
    }
  }

  /**
   * On any disk and for any build, `verify` succeeds if and only if the build is proper, its HTML is published, each
   * of its files is served with the build's bytes, and every served file lies below `assets/` and is the build's or
   * some version's.
   */
  lemma VerifySucceedsExactly(d: Disk, b: Build)
    ensures Verify(d, b) == Done <==>
            && Proper(b) && d.index == b.index
            && (forall f :: f in b.names ==> f in d.assets && f in b.bytes && d.assets[f] == b.bytes[f])
            && (forall f :: f in d.assets ==> BelowAssets(f) && Accounted(d, b, f))
  {
    hide BuildInventory, FirstDifference, ManagedFiles, BelowAssets, ManagedPath, Accounted, FileSet;
    ProperBuilds(b);
    NoDifference(d, b, b.names);
    AccountedFiles(d, b);
    forall f ensures ManagedPath(f) <==> BelowAssets(f) {
      BelowIsManaged(f);
    }
    if Proper(b) && forall f :: f in b.names ==> f in d.assets {
      assert b.names[0] in d.assets.Keys;
    }
  }

  /** Which error comes, in the order in which `verify` looks. */
  lemma VerifyFailsExactly(d: Disk, b: Build)
    ensures !Proper(b) ==> Verify(d, b) == Raised(DefectOf(b))
    ensures Proper(b) && d.index != b.index ==>
              Verify(d, b) == Raised(if d.index.None? then IndexMissing else HtmlDiffers)
    ensures Proper(b) && d.index == b.index ==>
              forall k :: 0 <= k < |b.names| && (forall j :: 0 <= j < k ==> SameOnBothSides(d, b, b.names[j])) &&
                          !SameOnBothSides(d, b, b.names[k]) ==>
                Verify(d, b) == Raised(if OnBothSides(d, b, b.names[k]) then AssetDiffers else FileMissing)
    ensures Proper(b) && d.index == b.index && (forall f :: f in b.names ==> SameOnBothSides(d, b, f)) ==>
              && ((exists f :: f in d.assets && !BelowAssets(f)) ==> Verify(d, b) == Raised(InvalidAssetPath))
              && ((forall f :: f in d.assets ==> BelowAssets(f)) && (exists f :: f in d.assets && !Accounted(d, b, f)) ==>
                    Verify(d, b) == Raised(UnmanagedAssets))
  {
    BrokenBuilds(b);
    hide DefectOf, FirstDifference, ManagedFiles, BelowAssets, ManagedPath, Accounted, FileSet, OnBothSides, SameOnBothSides;
    forall f ensures ManagedPath(f) <==> BelowAssets(f) {
      BelowIsManaged(f);
    }
    ProperBuilds(b);
    NoDifference(d, b, b.names);
    AccountedFiles(d, b);
    if Proper(b) && d.index == b.index {
      forall k | 0 <= k < |b.names| && (forall j :: 0 <= j < k ==> SameOnBothSides(d, b, b.names[j])) &&
                 !SameOnBothSides(d, b, b.names[k])
        ensures Verify(d, b) == Raised(if OnBothSides(d, b, b.names[k]) then AssetDiffers else FileMissing)
      {
        FirstThatDiffers(d, b, b.names, k);
      }
      if forall f :: f in b.names ==> SameOnBothSides(d, b, f) {
        assert SameOnBothSides(d, b, b.names[0]);
        assert b.names[0] in d.assets.Keys by { SameIsServed(d, b, b.names[0]); }
      }
    }
  }

  lemma SameIsServed(d: Disk, b: Build, f: string)
    requires SameOnBothSides(d, b, f)
    ensures f in d.assets
  {
  }
}
