/** `FrontendAssets` operation by operation, as the atomic steps each takes from the disk it finds. */
module FrontendPlans {
  import opened Common
  import opened FrontendDisk
  import TextOrder

  const RETENTION_SECONDS: real := 604800.0

  /** A file a build may own: it lies below `assets/`. */
  predicate ManagedPath(name: string) {
    |name| > 7 && name[..7] == "assets/"
  }

  function BuildInventory(b: Build): Result<Entry, Failure> {
    if exists n :: n in b.names && !ManagedPath(n) then Err(InvalidAssetPath)
    else if b.names == [] then Err(NoAssets)
    else if b.index.None? then Err(IndexMissing)
    else Ok(Entry(b.index.value, b.names, None))
  }

  function BytesOf(root: map<string, Release>, name: string): map<string, Bytes> {
    if name in root then root[name].dist.bytes else map[]
  }

  function Copy(d: Disk, source: map<string, Bytes>, files: seq<string>): Plan
    decreases |files|
  {
    if files == [] then NOTHING
    else if files[0] !in source then Fail(FileMissing)
    else if files[0] in d.assets then
      if d.assets[files[0]] != source[files[0]] then Fail(ContentConflict)
      else Copy(d, source, files[1..])
    else
      var write := Write(files[0], source[files[0]]);
      Then(One(write), Copy(Apply(d, write), source, files[1..]))
  }

  /** The versions whose HTML is the published one. */
  function Matching(versions: map<string, Entry>, current: string): set<string> {
    set n | n in versions && versions[n].index == current
  }

  predicate SkippedByBootstrap(r: Release, current: string, now: real) {
    r.dist.index.None? || (r.indexTime < now - RETENTION_SECONDS && r.dist.index.value != current)
  }

  /** What bootstrap takes from one release: nothing, a version that retires now, or an error. */
  function Examine(r: Release, current: string, now: real): Result<Option<Entry>, Failure> {
    if SkippedByBootstrap(r, current, now) then Ok(None)
    else
      match BuildInventory(r.dist)
      case Err(f) => Err(f)
      case Ok(e) => Ok(Some(e.(retiredAt := Some(now))))
  }

  function Add(found: map<string, Entry>, key: string, entry: Option<Entry>): map<string, Entry> {
    if entry.None? then found else found[key := entry.value]
  }

  /** The scan of the release directories, in name order; the first broken build stops it. */
  function Recover(root: map<string, Release>, keys: seq<string>, current: string, now: real, found: map<string, Entry>):
    Result<map<string, Entry>, Failure>
    requires forall k :: k in keys ==> k in root
  {
    if keys == [] then Ok(found)
    else
      var seen := Examine(root[keys[0]], current, now);
      if seen.Err? then Err(seen.error)
      else Recover(root, keys[1..], current, now, Add(found, keys[0], seen.value))
  }

  function CopyVersions(d: Disk, root: map<string, Release>, versions: map<string, Entry>, keys: seq<string>): Plan
    requires forall k :: k in keys ==> k in versions
    decreases |keys|
  {
    if keys == [] then NOTHING
    else
      var p := Copy(d, BytesOf(root, keys[0]), versions[keys[0]].files);
      Then(p, CopyVersions(Finish(d, p), root, versions, keys[1..]))
  }

  function SortedNames<T>(m: map<string, T>): (r: seq<string>)
    ensures forall k :: k in r <==> k in m
  {
    var r := TextOrder.Sorted(m.Keys);
    assert forall k :: k in r <==> k in TextOrder.Elements(r);
    r
  }

  function Bootstrap(d: Disk, root: map<string, Release>, now: real): Plan {
    if d.index.None? then Fail(IndexMissing)
    else
      match Recover(root, SortedNames(root), d.index.value, now, map[])
      case Err(f) => Fail(f)
      case Ok(versions) =>
        var matches := Matching(versions, d.index.value);
        if matches == {} then Fail(NoIntactBuild)
        else
          var save := Save(Inventory(versions, TextOrder.Greatest(matches)));
          Then(One(save), CopyVersions(Apply(d, save), root, versions, SortedNames(versions)))
  }

  function Retire(versions: map<string, Entry>, current: string, now: real): map<string, Entry> {
    map n | n in versions ::
      if versions[n].index == current || versions[n].retiredAt.None?
      then versions[n].(retiredAt := Some(now)) else versions[n]
  }

  predicate Supported(inv: Inventory, key: string, current: string, now: real)
    requires key in inv.versions
  {
    var e := inv.versions[key];
    e.index == current || key == inv.previous || e.retiredAt.None? || e.retiredAt.value >= now - RETENTION_SECONDS
  }

  function Missing(d: Disk, files: seq<string>): seq<string> {
    if files == [] then []
    else (if files[0] in d.assets then [] else [files[0]]) + Missing(d, files[1..])
  }

  /** The loop that resumes interrupted copies of every version still supported. */
  function Resume(d: Disk, root: map<string, Release>, inv: Inventory, current: string, now: real, keys: seq<string>): Plan
    requires forall k :: k in keys ==> k in inv.versions
    decreases |keys|
  {
    if keys == [] then NOTHING
    else
      var missing := Missing(d, inv.versions[keys[0]].files);
      if missing != [] && Supported(inv, keys[0], current, now) then
        var p := Copy(d, BytesOf(root, keys[0]), missing);
        Then(p, Resume(Finish(d, p), root, inv, current, now, keys[1..]))
      else
        Resume(d, root, inv, current, now, keys[1..])
  }

  /** A dictionary keeps its order when a key is assigned; a new key goes last. */
  function KeysWith(versions: map<string, Entry>, name: string): (r: seq<string>)
    ensures forall k :: k in r <==> k in versions || k == name
  {
    SortedNames(versions) + (if name in versions then [] else [name])
  }

  /** The inventory a publish registers before it copies anything. */
  function Registered(inv: Inventory, current: string, name: string, candidate: Entry, now: real): Inventory
    requires Matching(inv.versions, current) != {}
  {
    Inventory(Retire(inv.versions, current, now)[name := candidate],
              if current != candidate.index then TextOrder.Greatest(Matching(inv.versions, current)) else inv.previous)
  }

  lemma RegisteredKeys(inv: Inventory, current: string, name: string, candidate: Entry, now: real)
    requires Matching(inv.versions, current) != {}
    ensures var inv' := Registered(inv, current, name, candidate, now);
            && inv'.versions.Keys == inv.versions.Keys + {name}
            && inv'.versions[name] == candidate
  {
    hide TextOrder.Greatest;
  }

  /** Copy the candidate, then switch the HTML: the last two stages of a publish. */
  function Deliver(d: Disk, source: map<string, Bytes>, candidate: Entry): Plan {
    Then(Copy(d, source, candidate.files), One(Switch(candidate.index)))
  }

  /** What follows the registration: resumed copies, then the candidate. */
  function RollOut(d: Disk, root: map<string, Release>, inv: Inventory, current: string, now: real, keys: seq<string>,
                   source: map<string, Bytes>, candidate: Entry): Plan
    requires forall k :: k in keys ==> k in inv.versions
  {
    var resume := Resume(d, root, inv, current, now, keys);
    Then(resume, Deliver(Finish(d, resume), source, candidate))
  }

  /** Everything a publish does once an inventory exists. */
  function Promote(d: Disk, root: map<string, Release>, name: string, candidate: Entry, now: real): Plan {
    if d.inventory.None? then Fail(InventoryMissing)
    else if d.index.None? then Fail(IndexMissing)
    else
      var versions := d.inventory.value.versions;
      var current := d.index.value;
      if Matching(versions, current) == {} then Fail(OutsideInventory)
      else
        var inv := Registered(d.inventory.value, current, name, candidate, now);
        Then(One(Save(inv)),
             RollOut(Apply(d, Save(inv)), root, inv, current, now, KeysWith(versions, name),
                     BytesOf(root, name), candidate))
  }

  function Candidate(root: map<string, Release>, name: string): Result<Entry, Failure> {
    if name in root then BuildInventory(root[name].dist) else Err(NoAssets)
  }

  function EnsureInventory(d: Disk, root: map<string, Release>, now: real): Plan {
    if d.inventory.Some? then NOTHING else Bootstrap(d, root, now)
  }

  function Publish(d: Disk, root: map<string, Release>, name: string, now: real): Plan {
    match Candidate(root, name)
    case Err(f) => Fail(f)
    case Ok(candidate) =>
      var boot := EnsureInventory(d, root, now);
      Then(boot, Promote(Finish(d, boot), root, name, candidate, now))
  }

  /** Publishing, as its two stages run one after the other. */
  lemma PublishStages(d: Disk, root: map<string, Release>, name: string, now: real, fuse: nat)
    requires Candidate(root, name).Ok?
    ensures Execute(d, Publish(d, root, name, now), fuse) ==
            var r := Execute(d, EnsureInventory(d, root, now), fuse);
            if r.outcome.Done?
            then Execute(r.disk, Promote(r.disk, root, name, Candidate(root, name).value, now), r.fuse)
            else r
  {
    var boot := EnsureInventory(d, root, now);
    ThenExecutes(d, boot, Promote(Finish(d, boot), root, name, Candidate(root, name).value, now), fuse);
  }

  function FilesOf(versions: map<string, Entry>, keys: set<string>): set<string> {
    set n, f | n in versions && n in keys && f in versions[n].files :: f
  }

  function Expired(inv: Inventory, current: string, now: real): set<string> {
    set n | n in inv.versions && n != inv.previous && inv.versions[n].index != current
            && inv.versions[n].retiredAt.Some? && inv.versions[n].retiredAt.value < now - RETENTION_SECONDS
  }

  function Forget(inv: Inventory, names: set<string>): Inventory {
    inv.(versions := inv.versions - names)
  }

  function Removed(inv: Inventory, current: string, now: real): set<string> {
    var expired := Expired(inv, current, now);
    FilesOf(inv.versions, expired) - FilesOf(inv.versions, inv.versions.Keys - expired)
  }

  function Unlinks(names: seq<string>): Plan {
    if names == [] then NOTHING else Then(One(Unlink(names[0])), Unlinks(names[1..]))
  }

  function Cleanup(d: Disk, now: real): Plan {
    if d.inventory.None? then Fail(InventoryMissing)
    else if d.index.None? then Fail(IndexMissing)
    else
      var inv := d.inventory.value;
      var current := d.index.value;
      if Matching(inv.versions, current) == {} then Fail(OutsideInventory)
      else
        Then(Unlinks(TextOrder.Sorted(Removed(inv, current, now))),
             One(Save(Forget(inv, Expired(inv, current, now)))))
  }

  function FirstDifference(assets: map<string, Bytes>, source: map<string, Bytes>, files: seq<string>): Option<Failure> {
    if files == [] then None
    else if files[0] !in assets || files[0] !in source then Some(FileMissing)
    else if assets[files[0]] != source[files[0]] then Some(AssetDiffers)
    else FirstDifference(assets, source, files[1..])
  }

  function FileSet(files: seq<string>): set<string> {
    set f | f in files
  }

  function ManagedFiles(d: Disk): set<string> {
    if d.inventory.None? then {}
    else FilesOf(d.inventory.value.versions, d.inventory.value.versions.Keys)
  }

  function Verify(d: Disk, source: Build): Outcome {
    match BuildInventory(source)
    case Err(f) => Raised(f)
    case Ok(expected) =>
      if d.index.None? then Raised(IndexMissing)
      else if d.index.value != expected.index then Raised(HtmlDiffers)
      else
        match FirstDifference(d.assets, source.bytes, expected.files)
        case Some(f) => Raised(f)
        case None =>
          if exists n :: n in d.assets && !ManagedPath(n) then Raised(InvalidAssetPath)
          else if d.assets.Keys == {} then Raised(NoAssets)
          else if d.assets.Keys - FileSet(expected.files) - ManagedFiles(d) != {} then Raised(UnmanagedAssets)
          else Done
  }
}
