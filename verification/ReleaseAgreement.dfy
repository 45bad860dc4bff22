/**
 * The main result about releases: the fingerprint of the repository and of the unpacked release are taken
 * over the same bytes exactly when no optional source is a dangling link.
 */
module ReleaseAgreement {
  import opened Common
  import opened ReleaseTree
  import opened ReleaseArchive
  import opened ReleaseFraming
  import opened ReleaseFingerprint
  import TextOrder

  // ----- a path decides its entry -----

  function Find(l: Listing, path: Path): Option<Tree>
    requires path != []
    decreases |path|
  {
    match Get(l, path[0])
    case None => None
    case Some(t) =>
      if |path| == 1 then Some(t) else if t.Directory? then Find(t.children, path[1..]) else None
  }

  lemma {:induction false} LaterNames(l: Listing, m: string)
    requires WellFormed(l) && l.Entry? && Get(l.rest, m).Some?
    ensures TextOrder.Less(l.name, m)
    decreases l
  {
    if l.rest.name != m {
      LaterNames(l.rest, m);
      TextOrder.LessTransitive(l.name, l.rest.name, m);
    }
  }

  /** The item is what the directory has under the rest of its path. */
  ghost predicate Listed(l: Listing, prefix: Path, item: Item) {
    && |prefix| < |item.path| && item.path[..|prefix|] == prefix
    && (forall i :: |prefix| <= i < |item.path| ==> IsName(item.path[i]))
    && var found := Find(l, item.path[|prefix|..]);
       found.Some? && item.node == Shallow(found.value)
  }

  lemma ListedLater(l: Listing, prefix: Path, item: Item)
    requires WellFormed(l) && l.Entry? && Listed(l.rest, prefix, item)
    ensures Listed(l, prefix, item)
  {
    LaterNames(l, item.path[|prefix|..][0]);
  }

  lemma ListedBelow(l: Listing, prefix: Path, item: Item)
    requires l.Entry? && IsName(l.name) && l.node.Directory? && Listed(l.node.children, prefix + [l.name], item)
    ensures Listed(l, prefix, item)
  {
    var k := |prefix|;
    assert item.path[..k + 1] == prefix + [l.name];
    assert item.path[..k] == item.path[..k + 1][..k] == prefix;
    assert item.path[k] == item.path[..k + 1][k] == l.name;
    assert item.path[k..][1..] == item.path[k + 1..];
    assert forall i :: k + 1 <= i < |item.path| ==> IsName(item.path[i]);
  }

  lemma {:induction false} EntriesAreListed(l: Listing, prefix: Path, item: Item)
    requires WellFormed(l) && item in TreeEntries(l, prefix)
    ensures Listed(l, prefix, item)
    decreases l
  {
    hide PathExcluded;
    if item in TreeEntries(l.rest, prefix) {
      EntriesAreListed(l.rest, prefix, item);
      ListedLater(l, prefix, item);
    } else if item == Item(prefix + [l.name], Shallow(l.node)) {
      assert item.path[|prefix|..] == [l.name];
    } else {
      assert item in TreeEntries(l.node.children, prefix + [l.name]);
      EntriesAreListed(l.node.children, prefix + [l.name], item);
      ListedBelow(l, prefix, item);
    }
  }

  lemma {:induction false} PosixIsInjective(p: Path, q: Path)
    requires IsPath(p) && IsPath(q) && Posix(p) == Posix(q)
    ensures p == q
    decreases |p|
  {
    if |p| == 1 && |q| > 1 {
      SlashIsIn(q);
    } else if |q| == 1 && |p| > 1 {
      SlashIsIn(p);
    } else if |p| > 1 {
      assert p[0] + "/" + Posix(p[1..]) == q[0] + "/" + Posix(q[1..]);
      SplitAtFirst(p[0], Posix(p[1..]), q[0], Posix(q[1..]), '/');
      PosixIsInjective(p[1..], q[1..]);
      assert p == [p[0]] + p[1..] && q == [q[0]] + q[1..];
    }
  }

  lemma SlashIsIn(p: Path)
    requires |p| > 1
    ensures '/' in Posix(p)
  {
    assert Posix(p) == p[0] + "/" + Posix(p[1..]);
    assert Posix(p)[|p[0]|] == '/';
  }

  /** Among the items, the text of a path decides the item. */
  ghost predicate KeysDecide(items: multiset<Item>) {
    forall x, y :: x in items && y in items && Posix(x.path) == Posix(y.path) ==> x == y
  }

  lemma TreeKeysDecide(l: Listing)
    requires WellFormed(l)
    ensures KeysDecide(multiset(TreeEntries(l, [])))
  {
    hide TreeEntries, WellFormed, Find;
    var es := TreeEntries(l, []);
    forall x: Item, y: Item | x in multiset(es) && y in multiset(es) && Posix(x.path) == Posix(y.path) ensures x == y {
      EntriesAreListed(l, [], x);
      EntriesAreListed(l, [], y);
      PosixIsInjective(x.path, y.path);
    }
  }

  // ----- sorting -----

  ghost predicate InOrder(items: seq<Item>) {
    forall i, j :: 0 <= i < j < |items| ==> TextOrder.Leq(Posix(items[i].path), Posix(items[j].path))
  }

  lemma {:induction false} InsertKeeps(item: Item, sorted: seq<Item>)
    ensures multiset(InsertByPath(item, sorted)) == multiset(sorted) + multiset{item}
    decreases |sorted|
  {
    hide TextOrder.Leq, Posix;
    if sorted != [] {
      InsertKeeps(item, sorted[1..]);
      assert sorted == [sorted[0]] + sorted[1..];
    }
  }

  ghost predicate AfterKey(key: string, items: seq<Item>) {
    forall j :: 0 <= j < |items| ==> TextOrder.Leq(key, Posix(items[j].path))
  }

  lemma OrderStep(item: Item, items: seq<Item>)
    requires InOrder(items) && AfterKey(Posix(item.path), items)
    ensures InOrder([item] + items)
  {
    hide TextOrder.Leq, Posix;
    var r := [item] + items;
    forall i, j | 0 <= i < j < |r| ensures TextOrder.Leq(Posix(r[i].path), Posix(r[j].path)) {
      if i == 0 {
        assert r[j] == items[j - 1];
      } else {
        assert r[i] == items[i - 1] && r[j] == items[j - 1];
      }
    }
  }

  lemma InOrderTail(items: seq<Item>)
    requires InOrder(items) && items != []
    ensures InOrder(items[1..]) && AfterKey(Posix(items[0].path), items[1..])
  {
  }

  lemma {:induction false} InsertAfter(key: string, item: Item, sorted: seq<Item>)
    requires AfterKey(key, sorted) && TextOrder.Leq(key, Posix(item.path))
    ensures AfterKey(key, InsertByPath(item, sorted))
    decreases |sorted|
  {
    hide TextOrder.Leq, Posix;
    if sorted != [] {
      InsertAfter(key, item, sorted[1..]);
    }
  }

  lemma {:induction false} InsertFacts(item: Item, sorted: seq<Item>)
    requires InOrder(sorted)
    ensures InOrder(InsertByPath(item, sorted))
    decreases |sorted|
  {
    hide TextOrder.Leq, Posix, InOrder;
    if sorted != [] {
      InOrderTail(sorted);
      if TextOrder.Leq(Posix(sorted[0].path), Posix(item.path)) {
        InsertFacts(item, sorted[1..]);
        InsertAfter(Posix(sorted[0].path), item, sorted[1..]);
        OrderStep(sorted[0], InsertByPath(item, sorted[1..]));
      } else {
        TextOrder.Total(Posix(sorted[0].path), Posix(item.path));
        forall j | 0 <= j < |sorted| ensures TextOrder.Leq(Posix(item.path), Posix(sorted[j].path)) {
          if j > 0 {
            assert sorted[j] == sorted[1..][j - 1];
            TextOrder.Transitive(Posix(item.path), Posix(sorted[0].path), Posix(sorted[j].path));
          }
        }
        OrderStep(item, sorted);
      }
    } else {
      assert InOrder([item]) by { LoneIsInOrder(item); }
      assert InsertByPath(item, sorted) == [item];
    }
  }

  lemma LoneIsInOrder(item: Item)
    ensures InOrder([item])
  {
  }

  lemma {:induction false} SortFacts(items: seq<Item>)
    ensures InOrder(SortByPath(items)) && multiset(SortByPath(items)) == multiset(items)
    decreases |items|
  {
    hide Posix;
    if items != [] {
      var last := |items| - 1;
      SortFacts(items[..last]);
      InsertKeeps(items[last], SortByPath(items[..last]));
      InsertFacts(items[last], SortByPath(items[..last]));
      assert items == items[..last] + [items[last]];
    }
  }

  lemma SameSize(a: seq<Item>, b: seq<Item>)
    requires multiset(a) == multiset(b)
    ensures |a| == |b|
  {
    assert |multiset(a)| == |a| && |multiset(b)| == |b|;
  }

  lemma LeastFirst(a: seq<Item>, x: Item)
    requires InOrder(a) && x in multiset(a)
    ensures a != [] && TextOrder.Leq(Posix(a[0].path), Posix(x.path))
  {
    hide TextOrder.Leq, Posix;
    var i :| 0 <= i < |a| && a[i] == x;
    TextOrder.Total(Posix(x.path), Posix(x.path));
  }

  lemma SameTails(a: seq<Item>, b: seq<Item>)
    requires a != [] && b != [] && a[0] == b[0] && multiset(a) == multiset(b)
    ensures multiset(a[1..]) == multiset(b[1..]) && multiset(a[1..]) <= multiset(a)
  {
    assert a == [a[0]] + a[1..] && b == [b[0]] + b[1..];
    assert multiset(a[1..]) == multiset(a) - multiset{a[0]};
    assert multiset(b[1..]) == multiset(b) - multiset{a[0]};
  }

  lemma {:induction false} OrderIsCanonical(a: seq<Item>, b: seq<Item>)
    requires InOrder(a) && InOrder(b) && multiset(a) == multiset(b) && KeysDecide(multiset(a))
    ensures a == b
    decreases |a|
  {
    hide TextOrder.Leq, Posix, InOrder;
    SameSize(a, b);
    if a != [] {
      assert a[0] in multiset(a) && b[0] in multiset(b);
      LeastFirst(a, b[0]);
      LeastFirst(b, a[0]);
      TextOrder.Antisymmetric(Posix(a[0].path), Posix(b[0].path));
      SameTails(a, b);
      InOrderTail(a);
      InOrderTail(b);
      OrderIsCanonical(a[1..], b[1..]);
      assert a == [a[0]] + a[1..] && b == [b[0]] + b[1..];
    }
  }

  /** The digest does not depend on the order in which distinct entries were listed. */
  lemma DigestIgnoresOrder(a: seq<Item>, b: seq<Item>)
    requires multiset(a) == multiset(b) && KeysDecide(multiset(a))
    ensures DigestInput(a) == DigestInput(b)
  {
    hide KeysDecide, InOrder, SortByPath, Stream, Records;
    SortFacts(a);
    SortFacts(b);
    OrderIsCanonical(SortByPath(a), SortByPath(b));
  }

  // ----- equal streams have equally many entries -----

  lemma {:induction false} RecordsFacts(items: seq<Item>)
    requires Records(items).Some? && forall x :: x in items ==> '\0' !in Posix(x.path)
    ensures |Records(items).value| == |items|
    ensures forall r :: r in Records(items).value ==> Clean(r)
    decreases |items|
  {
    hide Posix;
    if items != [] {
      RecordsFacts(items[1..]);
      var r := RecordOf(items[0]).value;
      assert items[0] in items;
      assert '\0' !in "file" && '\0' !in "symlink" && '\0' !in "directory";
      assert Clean(r);
    }
  }

  lemma {:induction false} PosixHasNoNul(p: Path)
    requires forall i :: 0 <= i < |p| ==> IsName(p[i])
    ensures '\0' !in Posix(p)
    decreases |p|
  {
    if |p| > 1 {
      PosixHasNoNul(p[1..]);
      assert '\0' !in "/";
    }
  }

  ghost predicate CleanItems(items: seq<Item>) {
    forall x :: x in items ==> '\0' !in Posix(x.path)
  }

  /** Equal digest inputs come from equally many entries; more than that, from equal records. */
  lemma EqualInputsEqualRecords(a: seq<Item>, b: seq<Item>)
    requires CleanItems(a) && CleanItems(b) && DigestInput(a).Some? && DigestInput(a) == DigestInput(b)
    ensures Records(SortByPath(a)) == Records(SortByPath(b))
    ensures |a| == |b|
  {
    hide Posix, Stream, Records, InOrder, SortByPath, Clean;
    SortFacts(a);
    SortFacts(b);
    var sa, sb := SortByPath(a), SortByPath(b);
    forall x | x in sa ensures '\0' !in Posix(x.path) { assert x in multiset(sa); assert x in a; }
    forall x | x in sb ensures '\0' !in Posix(x.path) { assert x in multiset(sb); assert x in b; }
    RecordsFacts(sa);
    RecordsFacts(sb);
    var ra, rb := Records(sa).value, Records(sb).value;
    forall r | r in ra + rb ensures Clean(r) { }
    StreamIsInjective(ra, rb);
    assert |sa| == |multiset(sa)| == |a| && |sb| == |multiset(sb)| == |b|;
  }

  // ----- the two fingerprints -----

  ghost predicate WellFormedRepository(repo: Repository) {
    forall s :: s in Sources(repo) && s.tree.Some? ==> WellFormedTree(s.tree.value)
  }

  /** No source that a release can do without is a link that leads nowhere. */
  predicate NoDanglingSource(repo: Repository) {
    forall s :: s in Sources(repo) && s.tree.Some? ==> Exists(s.tree)
  }

  lemma DirectoryNamesArePlain()
    ensures Plain("backend") && Plain("web") && Plain("dist") && Plain("scripts") && Plain("deploy") && Plain("oa")
  {
  }

  lemma DocumentNamesArePlain()
    ensures Plain("README.md") && Plain("ARCHITECTURE.md") && Plain("AGENTS.md")
  {
  }

  lemma PlacedAtTop(name: string)
    requires Plain(name) && |name| > 0 && name[0] !in {'d', 'w'}
    ensures Placed([name])
  {
    assert "deploy"[0] == 'd' && "web"[0] == 'w';
    assert [name] != ["deploy"] by { assert ["deploy"][0][0] == 'd'; }
    assert [name] != ["web"] by { assert ["web"][0][0] == 'w'; }
  }

  lemma PlacedInside(parent: string, name: string)
    requires Plain(parent) && Plain(name) && [parent] in STRUCTURAL_DIRS
    ensures Placed([parent, name])
  {
    assert [parent, name][..1] == [parent];
    assert |["deploy"]| == 1 && |["web"]| == 1;
  }

  lemma SourcesAreGood(repo: Repository)
    requires WellFormedRepository(repo)
    ensures GoodSources(Sources(repo))
  {
    hide WellFormedTree, Placed, Plain;
    DirectoryNamesArePlain();
    DocumentNamesArePlain();
    PlacedAtTop("backend");
    PlacedAtTop("scripts");
    PlacedAtTop("README.md");
    PlacedAtTop("ARCHITECTURE.md");
    PlacedAtTop("AGENTS.md");
    PlacedInside("web", "dist");
    PlacedInside("deploy", "oa");
    var sources := Sources(repo);
    forall s | s in sources ensures GoodSource(s) && |s.path| > 0 {
    }
    HeadsDiffer(repo);
  }

  lemma HeadsDiffer(repo: Repository)
    ensures var sources := Sources(repo);
            forall i, j :: 0 <= i < j < |sources| ==> Head(sources[i]) != Head(sources[j])
  {
    var sources := Sources(repo);
    var heads := ["backend", "web", "scripts", "deploy", "README.md", "ARCHITECTURE.md", "AGENTS.md"];
    assert forall i :: 0 <= i < |sources| ==> Head(sources[i]) == heads[i];
    assert heads[0][0] == 'b' && heads[1][0] == 'w' && heads[2][0] == 's' && heads[3][0] == 'd' && heads[4][0] == 'R';
    assert heads[5][1] == 'R' && heads[6][1] == 'G' && heads[5][0] == 'A' && heads[6][0] == 'A';
  }

  lemma {:induction false} ShippedWithoutDangling(sources: seq<Source>)
    requires forall s :: s in sources && s.tree.Some? ==> Exists(s.tree)
    ensures ShippedAll(sources) == ReleaseEntries(sources)
    decreases |sources|
  {
    hide SourceEntries;
    if sources != [] {
      assert sources[0] in sources;
      ShippedWithoutDangling(sources[1..]);
      assert sources[0].tree.None? ==> SourceEntries(sources[0]) == [] by { AbsentHasNone(sources[0]); }
    }
  }

  lemma AbsentHasNone(s: Source)
    ensures s.tree.None? ==> SourceEntries(s) == []
    ensures s.tree.Some? ==> |SourceEntries(s)| > 0
  {
  }

  lemma {:induction false} DanglingIsExtra(sources: seq<Source>)
    ensures |ShippedAll(sources)| <= |ReleaseEntries(sources)|
    ensures (exists s :: s in sources && s.tree.Some? && !Exists(s.tree)) ==>
              |ShippedAll(sources)| < |ReleaseEntries(sources)|
    decreases |sources|
  {
    hide SourceEntries;
    if sources != [] {
      DanglingIsExtra(sources[1..]);
      AbsentHasNone(sources[0]);
      if exists s :: s in sources && s.tree.Some? && !Exists(s.tree) {
        var s :| s in sources && s.tree.Some? && !Exists(s.tree);
        if s != sources[0] {
          assert s in sources[1..];
        }
      }
    }
  }

  lemma {:induction false} ReleaseEntriesAreClean(sources: seq<Source>)
    requires forall s :: s in sources ==> GoodSource(s)
    ensures CleanItems(ReleaseEntries(sources))
    decreases |sources|
  {
    hide TreeEntries, GoodSource, Posix;
    if sources != [] {
      ReleaseEntriesAreClean(sources[1..]);
      assert sources[0] in sources;
      SourceEntriesAreClean(sources[0]);
    }
  }

  lemma SourceEntriesAreClean(s: Source)
    requires GoodSource(s)
    ensures CleanItems(SourceEntries(s))
  {
    hide TreeEntries, Posix, Find;
    PosixHasNoNul(s.path);
    if s.tree.Some? && s.tree.value.Directory? {
      var l := s.tree.value.children;
      forall x | x in TreeEntries(l, s.path) ensures '\0' !in Posix(x.path) {
        EntriesAreListed(l, s.path, x);
        forall i | 0 <= i < |x.path| ensures IsName(x.path[i]) {
          if i < |s.path| {
            assert x.path[i] == x.path[..|s.path|][i];
          }
        }
        PosixHasNoNul(x.path);
      }
    }
  }

  lemma TreeEntriesAreClean(l: Listing)
    requires WellFormed(l)
    ensures CleanItems(TreeEntries(l, []))
  {
    hide TreeEntries, Posix, Find;
    forall x | x in TreeEntries(l, []) ensures '\0' !in Posix(x.path) {
      EntriesAreListed(l, [], x);
      PosixHasNoNul(x.path);
    }
  }

  /** The unpacked release holds the metadata file and otherwise lists exactly the shipped sources. */
  lemma UnpackedEntries(repo: Repository, metadata: Bytes)
    requires WellFormedRepository(repo) && Archive(repo, metadata).Some?
    ensures Named(Archive(repo, metadata).value)
    ensures var src := ExtractAll(Empty, Archive(repo, metadata).value);
            && WellFormed(src) && multiset(TreeEntries(src, [])) == multiset(ShippedAll(Sources(repo)))
            && Get(src, "RELEASE.json") == Some(File(420, metadata))
  {
    hide TreeEntries, WellFormed, Get, AddedAll, ShippedAll, Head, GoodSources, WellFormedTree, Put;
    var sources := Sources(repo);
    SourcesAreGood(repo);
    assert WellFormed(Empty) && TreeEntries(Empty, []) == [] by { NothingListed(); }
    forall s | s in sources ensures Get(Empty, Head(s)).None? { EmptyHasNothing(Head(s)); }
    UnpackSources(Empty, sources);
    var l := ExtractAll(Empty, AddedAll(sources));
    var file := File(METADATA_MODE, metadata);
    var last := [Item(METADATA, file)];
    ExtractConcat(Empty, AddedAll(sources), last);
    assert Get(l, METADATA[0]).None? by {
      EmptyHasNothing(METADATA[0]);
      NoSourceIsMetadata(repo);
    }
    assert last[1..] == [];
    assert ExtractAll(l, last) == Put(l, METADATA[0], file);
    PutEntries(l, METADATA[0], file, []);
    GetPut(l, METADATA[0], file, METADATA[0]);
    assert [] + [METADATA[0]] == METADATA;
    assert WellFormed(Put(l, METADATA[0], file)) by { PutMetadata(l, file); }
  }

  lemma PutMetadata(l: Listing, file: Tree)
    requires WellFormed(l) && file.File?
    ensures WellFormed(Put(l, METADATA[0], file))
  {
    PutWellFormed(l, METADATA[0], file);
  }

  lemma NothingListed()
    ensures WellFormed(Empty) && TreeEntries(Empty, []) == []
  {
  }

  lemma NoSourceIsMetadata(repo: Repository)
    ensures forall s :: s in Sources(repo) ==> Head(s) != METADATA[0]
  {
    hide Plain;
    DirectoryNamesArePlain();
    DocumentNamesArePlain();
    forall s | s in Sources(repo) ensures Head(s) != METADATA[0] {
      assert Plain(Head(s));
      PlainIsNotExcluded(Head(s));
    }
  }

  /**
   * What is hashed is what is shipped. Whenever a release can be built and its fingerprint taken, the digest
   * is fed the same bytes on the repository and on the unpacked release if and only if none of the optional
   * sources (scripts, deploy/oa and the three documents) is a dangling link. Structural directories, excluded
   * files and the added metadata make no difference.
   */
  lemma HashedIsShippedExactly(repo: Repository, metadata: Bytes)
    requires WellFormedRepository(repo) && Archive(repo, metadata).Some?
    requires DigestInput(ReleaseEntries(Sources(repo))).Some?
    ensures Named(Archive(repo, metadata).value)
    ensures var src := ExtractAll(Empty, Archive(repo, metadata).value);
            DigestInput(ReleaseEntries(Sources(repo))) == DigestInput(TreeEntries(src, [])) <==> NoDanglingSource(repo)
  {
    hide TreeEntries, WellFormed, ReleaseEntries, DigestInput, ShippedAll, Archive, KeysDecide, Exists, WellFormedTree,
         CleanItems, GoodSource, GoodSources;
    UnpackedEntries(repo, metadata);
    var sources := Sources(repo);
    var src := ExtractAll(Empty, Archive(repo, metadata).value);
    var hashed, unpacked := ReleaseEntries(sources), TreeEntries(src, []);
    if NoDanglingSource(repo) {
      ShippedWithoutDangling(sources);
      TreeKeysDecide(src);
      DigestIgnoresOrder(unpacked, hashed);
    } else if DigestInput(hashed) == DigestInput(unpacked) {
      DanglingIsExtra(sources);
      SourcesAreGood(repo);
      SourcesAreGoodEach(sources);
      ReleaseEntriesAreClean(sources);
      TreeEntriesAreClean(src);
      SameSize(unpacked, ShippedAll(sources));
      EqualInputsEqualRecords(hashed, unpacked);
    }
  }

  lemma SourcesAreGoodEach(sources: seq<Source>)
    requires GoodSources(sources)
    ensures forall s :: s in sources ==> GoodSource(s)
  {
  }

  // ----- a release whose fingerprints differ -----

  ghost predicate NoneSpecial(items: seq<Item>) {
    forall x :: x in items ==> !x.node.Special?
  }

  lemma {:induction false} RecordsExist(items: seq<Item>)
    requires NoneSpecial(items)
    ensures Records(items).Some?
    decreases |items|
  {
    hide Posix;
    if items != [] {
      assert items[0] in items;
      RecordsExist(items[1..]);
    }
  }

  lemma InputExists(items: seq<Item>)
    requires NoneSpecial(items)
    ensures DigestInput(items).Some?
  {
    hide Posix, SortByPath, InOrder, Stream, Records;
    SortFacts(items);
    forall x | x in SortByPath(items) ensures !x.node.Special? {
      assert x in multiset(SortByPath(items));
    }
    RecordsExist(SortByPath(items));
  }

  lemma {:induction false} NoSpecialSource(sources: seq<Source>)
    requires forall s :: s in sources ==> NoneSpecial(SourceEntries(s))
    ensures NoneSpecial(ReleaseEntries(sources))
    decreases |sources|
  {
    hide SourceEntries;
    if sources != [] {
      assert sources[0] in sources;
      NoSpecialSource(sources[1..]);
    }
  }

  /** Empty backend and frontend, and `scripts` a link that leads nowhere. */
  const DANGLING := Repository(Some(Directory(493, Empty)), Some(Directory(493, Empty)), Some(Link(511, "gone", false)),
                               None, None, None, None)

  lemma DanglingEntries(s: Source)
    requires s in Sources(DANGLING)
    ensures NoneSpecial(SourceEntries(s))
    ensures s.tree.Some? ==> WellFormedTree(s.tree.value)
  {
    assert s.tree in {DANGLING.backend, DANGLING.scripts, None};
    NothingListed();
    assert TreeEntries(Empty, s.path) == [];
  }

  lemma DanglingRepository()
    ensures WellFormedRepository(DANGLING) && DigestInput(ReleaseEntries(Sources(DANGLING))).Some?
    ensures !NoDanglingSource(DANGLING)
  {
    hide DigestInput, ReleaseEntries, SourceEntries, WellFormedTree;
    var sources := Sources(DANGLING);
    forall s | s in sources
      ensures NoneSpecial(SourceEntries(s)) && (s.tree.Some? ==> WellFormedTree(s.tree.value))
    {
      DanglingEntries(s);
    }
    NoSpecialSource(sources);
    InputExists(ReleaseEntries(sources));
    assert sources[2] in sources && !Exists(sources[2].tree);
  }

  lemma DanglingArchive(metadata: Bytes)
    ensures Archive(DANGLING, metadata).Some?
  {
    hide AddedAll;
  }

  /** It can be built and fingerprinted, but the fingerprint covers a link that the release does not have. */
  lemma DanglingScriptsDiffer(metadata: Bytes)
    ensures Archive(DANGLING, metadata).Some? && Named(Archive(DANGLING, metadata).value)
    ensures var hashed := DigestInput(ReleaseEntries(Sources(DANGLING)));
            hashed.Some? && hashed != DigestInput(TreeEntries(ExtractAll(Empty, Archive(DANGLING, metadata).value), []))
  {
    hide *;
    DanglingRepository();
    DanglingArchive(metadata);
    HashedIsShippedExactly(DANGLING, metadata);
  }

  // ----- set-group-id and sticky bits on directories -----

  /** The same tree, except that directories may differ above the nine permission bits. */
  ghost predicate SameButDirectoryBits(a: Listing, b: Listing) {
    match (a, b)
    case (Empty, Empty) => true
    case (Entry(n, x, r), Entry(m, y, q)) =>
      && n == m
      && (if x.Directory? && y.Directory? then x.mode % 512 == y.mode % 512 && SameButDirectoryBits(x.children, y.children)
          else x == y)
      && SameButDirectoryBits(r, q)
    case _ => false
  }

  /** Entry by entry, the same path and the same record. */
  ghost predicate Alike(a: seq<Item>, b: seq<Item>) {
    |a| == |b| && forall i :: 0 <= i < |a| ==> a[i].path == b[i].path && RecordOf(a[i]) == RecordOf(b[i])
  }

  lemma AlikeConcat(a: seq<Item>, b: seq<Item>, c: seq<Item>, d: seq<Item>)
    requires Alike(a, b) && Alike(c, d)
    ensures Alike(a + c, b + d)
  {
    hide RecordOf;
  }

  lemma {:induction false} EntriesAlike(a: Listing, b: Listing, prefix: Path)
    requires SameButDirectoryBits(a, b)
    ensures Alike(TreeEntries(a, prefix), TreeEntries(b, prefix))
    decreases a
  {
    hide PathExcluded, Posix;
    if a.Entry? {
      var path := prefix + [a.name];
      EntriesAlike(a.rest, b.rest, prefix);
      assert Alike([Item(path, Shallow(a.node))], [Item(path, Shallow(b.node))]);
      if a.node.Directory? {
        EntriesAlike(a.node.children, b.node.children, path);
        AlikeConcat([Item(path, Shallow(a.node))], [Item(path, Shallow(b.node))],
                    TreeEntries(a.node.children, path), TreeEntries(b.node.children, path));
      }
      assert Alike(NodeEntries(a.node, path), NodeEntries(b.node, path));
      AlikeConcat(NodeEntries(a.node, path), NodeEntries(b.node, path),
                  TreeEntries(a.rest, prefix), TreeEntries(b.rest, prefix));
    }
  }

  lemma {:induction false} InsertAlike(x: Item, a: seq<Item>, y: Item, b: seq<Item>)
    requires Alike([x], [y]) && Alike(a, b)
    ensures Alike(InsertByPath(x, a), InsertByPath(y, b))
    decreases |a|
  {
    hide TextOrder.Leq, Posix, RecordOf;
    assert [x][0] == x && [y][0] == y;
    if a != [] {
      assert Alike(a[1..], b[1..]);
      InsertAlike(x, a[1..], y, b[1..]);
    }
  }

  lemma {:induction false} SortAlike(a: seq<Item>, b: seq<Item>)
    requires Alike(a, b)
    ensures Alike(SortByPath(a), SortByPath(b))
    decreases |a|
  {
    hide RecordOf;
    if a != [] {
      var last := |a| - 1;
      assert Alike(a[..last], b[..last]) && Alike([a[last]], [b[last]]);
      SortAlike(a[..last], b[..last]);
      InsertAlike(a[last], SortByPath(a[..last]), b[last], SortByPath(b[..last]));
    }
  }

  lemma {:induction false} RecordsAlike(a: seq<Item>, b: seq<Item>)
    requires Alike(a, b)
    ensures Records(a) == Records(b)
    decreases |a|
  {
    hide RecordOf;
    if a != [] {
      assert Alike(a[1..], b[1..]);
      RecordsAlike(a[1..], b[1..]);
    }
  }

  /** Bits above the nine permission bits of a directory, such as set-group-id, leave the fingerprint alone. */
  lemma DirectoryBitsDoNotMatter(a: Listing, b: Listing)
    requires SameButDirectoryBits(a, b)
    ensures DigestInput(TreeEntries(a, [])) == DigestInput(TreeEntries(b, []))
  {
    hide TreeEntries, SameButDirectoryBits, Alike, Records, SortByPath;
    EntriesAlike(a, b, []);
    SortAlike(TreeEntries(a, []), TreeEntries(b, []));
    RecordsAlike(SortByPath(TreeEntries(a, [])), SortByPath(TreeEntries(b, [])));
  }
}
