/** What a fingerprint says about the files, links and directories of a release: two are equal if and only if these are. */
module ReleaseContents {
  import opened Common
  import opened ReleaseTree
  import opened ReleaseArchive
  import opened ReleaseFraming
  import opened ReleaseFingerprint
  import opened ReleaseAgreement
  import TextOrder
  import Utf8

  // ----- entries -----

  /** The same file, link or directory as far as a release goes: of a directory only the permission bits count. */
  predicate SameEntry(x: Tree, y: Tree) {
    match (x, y)
    case (File(m, c), File(n, d)) => m == n && c == d
    case (Link(m, t, _), Link(n, u, _)) => m == n && t == u
    case (Directory(m, _), Directory(n, _)) => m % 512 == n % 512
    case _ => false
  }

  ghost predicate HasSame(x: Item, items: seq<Item>) {
    exists y :: y in items && y.path == x.path && SameEntry(x.node, y.node)
  }

  /** Both list the same paths, with the same entry under each. */
  ghost predicate SameContents(a: seq<Item>, b: seq<Item>) {
    (forall x :: x in a ==> HasSame(x, b)) && (forall y :: y in b ==> HasSame(y, a))
  }

  /** Paths of file names, each once. */
  ghost predicate Distinct(items: seq<Item>) {
    (forall x :: x in items ==> IsPath(x.path)) &&
    forall i, j :: 0 <= i < j < |items| ==> items[i].path != items[j].path
  }

  lemma SameRecord(x: Item, y: Item)
    requires IsPath(x.path) && IsPath(y.path) && !x.node.Special? && !y.node.Special?
    ensures RecordOf(x).Some? && RecordOf(y).Some?
    ensures RecordOf(x) == RecordOf(y) <==> x.path == y.path && SameEntry(x.node, y.node)
  {
    hide Posix, Utf8.Encode, IsName;
    assert "file"[0] == 'f' && "symlink"[0] == 's' && "directory"[0] == 'd';
    if RecordOf(x) == RecordOf(y) {
      PosixIsInjective(x.path, y.path);
      if x.node.Link? && y.node.Link? {
        SameText(x.node.target, y.node.target);
      }
    }
  }

  lemma {:induction false} RecordAt(items: seq<Item>, i: nat)
    requires i < |items| && Records(items).Some?
    ensures i < |Records(items).value| && RecordOf(items[i]) == Some(Records(items).value[i])
    decreases i
  {
    hide RecordOf;
    if i > 0 {
      RecordAt(items[1..], i - 1);
    }
  }

  lemma {:induction false} RecordsCount(items: seq<Item>)
    requires Records(items).Some?
    ensures |Records(items).value| == |items|
    ensures NoneSpecial(items)
    decreases |items|
  {
    if items != [] {
      RecordsCount(items[1..]);
      assert items == [items[0]] + items[1..];
    }
  }

  /** A fingerprint exists exactly where no entry is a special file. */
  lemma InputExistsExactly(items: seq<Item>)
    ensures DigestInput(items).Some? <==> NoneSpecial(items)
  {
    hide Records, SortByPath, InOrder, Stream, Posix;
    SortFacts(items);
    if NoneSpecial(items) {
      InputExists(items);
    }
    if DigestInput(items).Some? {
      RecordsCount(SortByPath(items));
      forall x | x in items ensures !x.node.Special? {
        assert x in multiset(items);
        assert x in SortByPath(items);
      }
    }
  }

  lemma SortedHas(items: seq<Item>)
    ensures |SortByPath(items)| == |items| && forall x :: x in items <==> x in SortByPath(items)
    ensures InOrder(SortByPath(items))
  {
    hide SortByPath, InOrder;
    SortFacts(items);
    SameSize(items, SortByPath(items));
    assert forall x :: x in items <==> x in multiset(items);
  }

  lemma PathsAreClean(items: seq<Item>)
    requires Distinct(items)
    ensures CleanItems(items)
  {
    hide Posix;
    forall x | x in items ensures '\0' !in Posix(x.path) {
      PosixHasNoNul(x.path);
    }
  }

  /** The items that the same records were made of. */
  lemma SameRecordsSameContents(a: seq<Item>, b: seq<Item>)
    requires Records(a).Some? && Records(a) == Records(b)
    requires forall x :: x in a || x in b ==> IsPath(x.path)
    ensures forall x :: x in a ==> HasSame(x, b)
  {
    hide Records, RecordOf, SameEntry, IsPath;
    RecordsCount(a);
    RecordsCount(b);
    forall x | x in a ensures HasSame(x, b) {
      var i :| 0 <= i < |a| && a[i] == x;
      RecordAt(a, i);
      RecordAt(b, i);
      assert b[i] in b;
      SameRecord(a[i], b[i]);
    }
  }

  lemma EqualInputsSameContents(a: seq<Item>, b: seq<Item>)
    requires Distinct(a) && Distinct(b) && DigestInput(a).Some? && DigestInput(a) == DigestInput(b)
    ensures SameContents(a, b)
  {
    hide Records, SortByPath, InOrder, Stream, HasSame;
    PathsAreClean(a);
    PathsAreClean(b);
    EqualInputsEqualRecords(a, b);
    SortedHas(a);
    SortedHas(b);
    var sa, sb := SortByPath(a), SortByPath(b);
    SameRecordsSameContents(sa, sb);
    SameRecordsSameContents(sb, sa);
    forall x | x in a ensures HasSame(x, b) { HasSameIn(x, sb, b); }
    forall x | x in b ensures HasSame(x, a) { HasSameIn(x, sa, a); }
  }

  lemma HasSameIn(x: Item, a: seq<Item>, b: seq<Item>)
    requires HasSame(x, a) && forall y :: y in a ==> y in b
    ensures HasSame(x, b)
  {
  }

  // ----- equal contents, equal streams -----

  function Keys(items: seq<Item>): (r: seq<string>)
    ensures |r| == |items| && forall i :: 0 <= i < |items| ==> r[i] == Posix(items[i].path)
  {
    if items == [] then [] else [Posix(items[0].path)] + Keys(items[1..])
  }

  lemma SortedStaysDistinct(items: seq<Item>)
    requires Distinct(items)
    ensures Distinct(SortByPath(items))
  {
    hide SortByPath, InOrder, IsPath;
    SortedHas(items);
    SortFacts(items);
    var s := SortByPath(items);
    forall i, j | 0 <= i < j < |s| ensures s[i].path != s[j].path {
      if s[i].path == s[j].path {
        assert s[i] in items && s[j] in items;
        var k, m :| 0 <= k < |items| && 0 <= m < |items| && items[k] == s[i] && items[m] == s[j];
        assert k == m;
        TwiceInOne(s, i, j);
        OnceInDistinct(items, k);
        assert false;
      }
    }
  }

  lemma TwiceInOne(s: seq<Item>, i: nat, j: nat)
    requires i < j < |s| && s[i] == s[j]
    ensures multiset(s)[s[i]] >= 2
  {
    assert s == s[..i] + [s[i]] + s[i + 1..j] + [s[j]] + s[j + 1..];
  }

  lemma OnceInDistinct(s: seq<Item>, k: nat)
    requires Distinct(s) && k < |s|
    ensures multiset(s)[s[k]] == 1
  {
    assert s == s[..k] + [s[k]] + s[k + 1..];
    assert s[k] !in s[..k] && s[k] !in s[k + 1..];
    assert multiset(s[..k])[s[k]] == 0 && multiset(s[k + 1..])[s[k]] == 0;
  }

  lemma KeysAscend(s: seq<Item>)
    requires Distinct(s) && InOrder(s)
    ensures TextOrder.Ascending(Keys(s))
  {
    hide Posix, TextOrder.Leq, IsPath;
    var keys := Keys(s);
    forall i, j | 0 <= i < j < |keys| ensures TextOrder.Less(keys[i], keys[j]) {
      assert s[i] in s && s[j] in s;
      if Posix(s[i].path) == Posix(s[j].path) {
        PosixIsInjective(s[i].path, s[j].path);
      }
    }
  }

  lemma SameKeys(a: seq<Item>, b: seq<Item>)
    requires forall x :: x in a ==> HasSame(x, b)
    ensures TextOrder.Elements(Keys(a)) <= TextOrder.Elements(Keys(b))
  {
    hide Posix, SameEntry;
    forall k | k in TextOrder.Elements(Keys(a)) ensures k in TextOrder.Elements(Keys(b)) {
      var i :| 0 <= i < |a| && Keys(a)[i] == k;
      assert a[i] in a;
      var y :| y in b && y.path == a[i].path;
      var j :| 0 <= j < |b| && b[j] == y;
      assert Keys(b)[j] == k;
    }
  }

  lemma SameSortedContents(a: seq<Item>, b: seq<Item>)
    requires Distinct(a) && Distinct(b) && InOrder(a) && InOrder(b) && SameContents(a, b)
    ensures |a| == |b| && forall i :: 0 <= i < |a| ==> a[i].path == b[i].path && SameEntry(a[i].node, b[i].node)
  {
    KeysAscend(a);
    KeysAscend(b);
    SameKeys(a, b);
    SameKeys(b, a);
    TextOrder.AscendingIsCanonical(Keys(a), Keys(b));
    hide Posix, InOrder, TextOrder.Ascending, IsPath;
    forall i | 0 <= i < |a| ensures a[i].path == b[i].path && SameEntry(a[i].node, b[i].node) {
      assert Keys(a)[i] == Keys(b)[i];
      assert a[i] in a && b[i] in b;
      PosixIsInjective(a[i].path, b[i].path);
      var y :| y in b && y.path == a[i].path && SameEntry(a[i].node, y.node);
      var j :| 0 <= j < |b| && b[j] == y;
      assert j == i;
    }
  }

  lemma SameContentsEqualInputs(a: seq<Item>, b: seq<Item>)
    requires Distinct(a) && Distinct(b) && NoneSpecial(a) && NoneSpecial(b) && SameContents(a, b)
    ensures DigestInput(a) == DigestInput(b)
  {
    hide SortByPath, InOrder, Records, Stream, HasSame, RecordOf, SameEntry, Posix;
    SortedHas(a);
    SortedHas(b);
    SortedStaysDistinct(a);
    SortedStaysDistinct(b);
    var sa, sb := SortByPath(a), SortByPath(b);
    forall x | x in sa ensures HasSame(x, sb) { HasSameIn(x, b, sb); }
    forall x | x in sb ensures HasSame(x, sa) { HasSameIn(x, a, sa); }
    SameSortedContents(sa, sb);
    forall i | 0 <= i < |sa| ensures RecordOf(sa[i]) == RecordOf(sb[i]) {
      assert sa[i] in sa && sb[i] in sb;
      SameRecord(sa[i], sb[i]);
    }
    RecordsAlike(sa, sb);
  }

  /**
   * Two listings of distinct paths have the same digest input if and only if they list the same paths and have under
   * each path the same kind of entry: a file with the same mode and content, a link with the same mode and target, or
   * a directory with the same permissions.
   */
  lemma InputsAgreeExactly(a: seq<Item>, b: seq<Item>)
    requires Distinct(a) && Distinct(b) && DigestInput(a).Some? && DigestInput(b).Some?
    ensures DigestInput(a) == DigestInput(b) <==> SameContents(a, b)
  {
    hide DigestInput, SameContents, Distinct;
    InputExistsExactly(a);
    InputExistsExactly(b);
    if DigestInput(a) == DigestInput(b) {
      EqualInputsSameContents(a, b);
    }
    if SameContents(a, b) {
      SameContentsEqualInputs(a, b);
    }
  }

  // ----- trees -----

  /** Names that a release leaves out, with everything below them. */
  predicate LeftOut(name: string) {
    name in {".git", ".mypy_cache", ".pytest_cache", ".ruff_cache", ".runtime", ".venv", "__pycache__", "node_modules", "venv"}
    || EndsWith(name, ".pyc") || EndsWith(name, ".pyo") || EndsWith(name, ".DS_Store")
  }

  predicate NoneLeftOut(path: Path) {
    forall i :: 0 <= i < |path| ==> !LeftOut(path[i])
  }

  /** What a tree has at a path: itself, or what the directory it is has there. */
  function Walk(t: Tree, path: Path): Option<Tree>
    decreases |path|
  {
    if path == [] then Some(t)
    else if !t.Directory? then None
    else
      match Get(t.children, path[0])
      case None => None
      case Some(child) => Walk(child, path[1..])
  }

  lemma LeftOutExactly(path: Path, name: string)
    requires path != [] && forall i :: 0 <= i < |path| ==> !LeftOut(path[i])
    ensures PathExcluded(path + [name]) <==> LeftOut(name)
  {
    hide EndsWith;
    var p := path + [name];
    assert p[|p| - 1] == name && |p| > 1;
    assert forall i :: 0 <= i < |path| ==> p[i] == path[i] && p[i] !in EXCLUDED_PARTS;
    if HasExcludedPart(p) {
      var i :| 0 <= i < |p| && p[i] in EXCLUDED_PARTS;
      assert i == |path|;
    }
  }

  /** The directory has the node at the end of the path, and leaves out nothing on the way. */
  ghost predicate Has(l: Listing, path: Path, node: Tree) {
    path != [] && NoneLeftOut(path) && Get(l, path[0]).Some? &&
    var found := Walk(Get(l, path[0]).value, path[1..]);
    found.Some? && node == Shallow(found.value)
  }

  lemma HasFirst(l: Listing, path: Path, node: Tree)
    requires WellFormed(l) && l.Entry?
    ensures path != [] && path[0] == l.name ==>
              (Has(l, path, node) <==> NoneLeftOut(path) && Walk(l.node, path[1..]).Some? &&
                                       node == Shallow(Walk(l.node, path[1..]).value))
    ensures path != [] && path[0] != l.name ==> (Has(l, path, node) <==> Has(l.rest, path, node))
  {
    hide Walk, LeftOut;
  }

  lemma NotLater(l: Listing, path: Path, node: Tree)
    requires WellFormed(l) && l.Entry? && path != [] && path[0] == l.name
    ensures !Has(l.rest, path, node)
  {
    hide Walk, LeftOut;
    if Has(l.rest, path, node) {
      LaterNames(l, path[0]);
    }
  }

  /** What lies at the end of a path that a prefix starts. */
  predicate Under(prefix: Path, path: Path) {
    |prefix| < |path| && path[..|prefix|] == prefix
  }

  lemma {:induction false} TreeEntriesExactly(l: Listing, prefix: Path, item: Item)
    requires WellFormed(l) && prefix != [] && NoneLeftOut(prefix)
    ensures item in TreeEntries(l, prefix) <==> Under(prefix, item.path) && Has(l, item.path[|prefix|..], item.node)
    decreases l, 0
  {
    hide PathExcluded, LeftOut, Walk, Shallow;
    if l.Entry? {
      var path := prefix + [l.name];
      LeftOutExactly(prefix, l.name);
      TreeEntriesExactly(l.rest, prefix, item);
      if !LeftOut(l.name) {
        assert NoneLeftOut(path);
        NodeEntriesExactly(l.node, path, item);
      }
      FirstOrLater(l, prefix, item);
    }
  }

  /** Under a listing's first name lies its first node, under others lies the rest. */
  lemma FirstOrLater(l: Listing, prefix: Path, item: Item)
    requires WellFormed(l) && l.Entry?
    ensures Under(prefix, item.path) && Has(l, item.path[|prefix|..], item.node) <==>
            || (!LeftOut(l.name) && AtOrBelow(prefix + [l.name], item, l.node))
            || (Under(prefix, item.path) && Has(l.rest, item.path[|prefix|..], item.node))
  {
    hide LeftOut, Walk, Shallow;
    if Under(prefix, item.path) {
      var rest := item.path[|prefix|..];
      HasFirst(l, rest, item.node);
      assert item.path[|prefix|] == rest[0];
      assert item.path[..|prefix| + 1] == prefix + [rest[0]];
      assert item.path[|prefix| + 1..] == rest[1..];
      if rest[0] == l.name {
        NotLater(l, rest, item.node);
        assert NoneLeftOut(rest) <==> !LeftOut(l.name) && NoneLeftOut(rest[1..]) by { NoneLeftOutFirst(rest); }
      } else {
        assert item.path[..|prefix| + 1] != prefix + [l.name] by { assert (prefix + [l.name])[|prefix|] == l.name; }
      }
    } else if |item.path| > |prefix| {
      assert item.path[..|prefix| + 1][..|prefix|] == item.path[..|prefix|];
      assert (prefix + [l.name])[..|prefix|] == prefix;
    }
  }

  lemma NoneLeftOutFirst(path: Path)
    requires path != []
    ensures NoneLeftOut(path) <==> !LeftOut(path[0]) && NoneLeftOut(path[1..])
  {
    hide LeftOut;
    assert path == [path[0]] + path[1..];
    if NoneLeftOut(path[1..]) {
      assert forall i :: 0 < i < |path| ==> path[i] == path[1..][i - 1];
    }
  }

  /** The item is the tree placed at the path, or what the tree has further on. */
  ghost predicate AtOrBelow(path: Path, item: Item, t: Tree) {
    |path| <= |item.path| && item.path[..|path|] == path && NoneLeftOut(item.path[|path|..]) &&
    var found := Walk(t, item.path[|path|..]);
    found.Some? && item.node == Shallow(found.value)
  }

  lemma {:induction false} NodeEntriesExactly(t: Tree, path: Path, item: Item)
    requires WellFormedTree(t) && |path| > 1 && NoneLeftOut(path)
    ensures item in NodeEntries(t, path) <==> AtOrBelow(path, item, t)
    decreases t, 1
  {
    hide LeftOut;
    assert path !in STRUCTURAL_DIRS by { assert |["deploy"]| == 1 && |["web"]| == 1; }
    if t.Directory? {
      TreeEntriesExactly(t.children, path, item);
      if Under(path, item.path) {
        WalkIntoDirectory(t, item.path[|path|..], item.node);
      }
    }
    AtItself(path, item, t);
    hide TreeEntries, Walk, Shallow, NoneLeftOut;
    assert NodeEntries(t, path) == [Item(path, Shallow(t))] + (if t.Directory? then TreeEntries(t.children, path) else []);
  }

  lemma AtItself(path: Path, item: Item, t: Tree)
    ensures |path| >= |item.path| ==> (AtOrBelow(path, item, t) <==> item == Item(path, Shallow(t)))
    ensures |path| < |item.path| && !t.Directory? ==> !AtOrBelow(path, item, t)
  {
    hide LeftOut;
    if |path| == |item.path| {
      assert item.path[..|path|] == item.path && item.path[|path|..] == [];
    } else if |path| < |item.path| {
      assert item.path[|path|..] != [];
    }
  }

  lemma WalkIntoDirectory(t: Tree, path: Path, node: Tree)
    requires t.Directory? && path != []
    ensures Has(t.children, path, node) <==>
            NoneLeftOut(path) && Walk(t, path).Some? && node == Shallow(Walk(t, path).value)
  {
    hide LeftOut;
  }

  // ----- each path once -----

  lemma DistinctBoth(a: seq<Item>, b: seq<Item>)
    requires Distinct(a) && Distinct(b) && forall x, y :: x in a && y in b ==> x.path != y.path
    ensures Distinct(a + b)
  {
    hide IsPath;
    var c := a + b;
    forall i, j | 0 <= i < j < |c| ensures c[i].path != c[j].path {
      if i < |a| && |a| <= j {
        assert c[i] in a && c[j] in b;
      }
    }
  }

  lemma LoneIsDistinct(x: Item)
    requires IsPath(x.path)
    ensures Distinct([x])
  {
    hide IsPath;
  }

  lemma {:induction false} TreeEntriesAreDistinct(l: Listing, prefix: Path)
    requires WellFormed(l) && IsPath(prefix) && NoneLeftOut(prefix)
    ensures Distinct(TreeEntries(l, prefix))
    decreases l, 0
  {
    hide LeftOut, PathExcluded, NodeEntries, Distinct, AtOrBelow;
    if l.Entry? {
      var path := prefix + [l.name];
      TreeEntriesAreDistinct(l.rest, prefix);
      LeftOutExactly(prefix, l.name);
      if !LeftOut(l.name) {
        assert NoneLeftOut(path) && IsPath(path);
        NodeEntriesAreDistinct(l.node, path);
        forall x, y | x in NodeEntries(l.node, path) && y in TreeEntries(l.rest, prefix) ensures x.path != y.path {
          NodeEntriesExactly(l.node, path, x);
          TreeEntriesExactly(l.rest, prefix, y);
          NotBelowLater(l, prefix, x, y);
        }
        DistinctBoth(NodeEntries(l.node, path), TreeEntries(l.rest, prefix));
      } else {
        assert [] + TreeEntries(l.rest, prefix) == TreeEntries(l.rest, prefix);
      }
    } else {
      assert Distinct([]) by { NothingIsDistinct(); }
    }
  }

  lemma NothingIsDistinct()
    ensures Distinct([])
  {
  }

  lemma NotBelowLater(l: Listing, prefix: Path, x: Item, y: Item)
    requires WellFormed(l) && l.Entry? && AtOrBelow(prefix + [l.name], x, l.node)
    requires Under(prefix, y.path) && Has(l.rest, y.path[|prefix|..], y.node)
    ensures x.path != y.path
  {
    hide Has, NoneLeftOut, Walk;
    if x.path == y.path {
      var rest := y.path[|prefix|..];
      assert rest[0] == y.path[|prefix|] == x.path[..|prefix| + 1][|prefix|] == l.name;
      NotLater(l, rest, y.node);
      assert false;
    }
  }

  lemma {:induction false} NodeEntriesAreDistinct(t: Tree, path: Path)
    requires WellFormedTree(t) && IsPath(path) && |path| > 1 && NoneLeftOut(path)
    ensures Distinct(NodeEntries(t, path))
    decreases t, 1
  {
    hide LeftOut, TreeEntries, Distinct, Has;
    assert path !in STRUCTURAL_DIRS by { assert |["deploy"]| == 1 && |["web"]| == 1; }
    var self := Item(path, Shallow(t));
    LoneIsDistinct(self);
    if t.Directory? {
      TreeEntriesAreDistinct(t.children, path);
      forall x, y | x in [self] && y in TreeEntries(t.children, path) ensures x.path != y.path {
        TreeEntriesExactly(t.children, path, y);
      }
      DistinctBoth([self], TreeEntries(t.children, path));
    } else {
      assert [self] + [] == [self];
    }
  }

  // ----- repositories -----

  lemma SourceEntriesExactly(s: Source, item: Item)
    requires s.tree.Some? ==> WellFormedTree(s.tree.value)
    requires IsPath(s.path) && NoneLeftOut(s.path)
    ensures item in SourceEntries(s) <==> s.tree.Some? && AtOrBelow(s.path, item, s.tree.value)
  {
    hide LeftOut;
    if s.tree.Some? {
      var t := s.tree.value;
      if t.Directory? {
        TreeEntriesExactly(t.children, s.path, item);
        if Under(s.path, item.path) {
          WalkIntoDirectory(t, item.path[|s.path|..], item.node);
        }
      }
      AtItself(s.path, item, t);
    }
    hide TreeEntries, Walk, Shallow, NoneLeftOut;
  }

  lemma SourceEntriesAreDistinct(s: Source)
    requires s.tree.Some? ==> WellFormedTree(s.tree.value)
    requires IsPath(s.path) && NoneLeftOut(s.path)
    ensures Distinct(SourceEntries(s))
  {
    hide LeftOut, TreeEntries, Distinct, Has;
    NothingIsDistinct();
    if s.tree.Some? {
      var t := s.tree.value;
      var self := Item(s.path, Shallow(t));
      LoneIsDistinct(self);
      if t.Directory? {
        TreeEntriesAreDistinct(t.children, s.path);
        forall x, y | x in [self] && y in TreeEntries(t.children, s.path) ensures x.path != y.path {
          TreeEntriesExactly(t.children, s.path, y);
        }
        DistinctBoth([self], TreeEntries(t.children, s.path));
      } else {
        assert [self] + [] == [self];
      }
    }
  }

  lemma {:induction false} InSomeSource(sources: seq<Source>, item: Item)
    ensures item in ReleaseEntries(sources) <==> exists i :: 0 <= i < |sources| && item in SourceEntries(sources[i])
    decreases |sources|
  {
    hide SourceEntries;
    if sources != [] {
      InSomeSource(sources[1..], item);
      if item in ReleaseEntries(sources[1..]) {
        var i :| 0 <= i < |sources[1..]| && item in SourceEntries(sources[1..][i]);
        assert sources[i + 1] == sources[1..][i];
      }
      if i :| 0 <= i < |sources| && item in SourceEntries(sources[i]) {
        assert i > 0 ==> sources[i] == sources[1..][i - 1];
      }
    }
  }

  /** The sources' paths: of names, left out by no rule, and different from the first name on. */
  ghost predicate Separate(sources: seq<Source>) {
    (forall s :: s in sources ==> IsPath(s.path) && NoneLeftOut(s.path) && (s.tree.Some? ==> WellFormedTree(s.tree.value))) &&
    forall i, j :: 0 <= i < j < |sources| ==> sources[i].path != [] && sources[j].path != [] && sources[i].path[0] != sources[j].path[0]
  }

  lemma {:induction false} ReleaseEntriesAreDistinct(sources: seq<Source>)
    requires Separate(sources)
    ensures Distinct(ReleaseEntries(sources))
    decreases |sources|
  {
    hide SourceEntries, Distinct, IsPath, NoneLeftOut;
    if sources == [] {
      NothingIsDistinct();
    } else {
      var s, rest := sources[0], sources[1..];
      assert s in sources;
      assert forall i :: 0 <= i < |rest| ==> rest[i] == sources[i + 1];
      ReleaseEntriesAreDistinct(rest);
      SourceEntriesAreDistinct(s);
      forall x, y | x in SourceEntries(s) && y in ReleaseEntries(rest) ensures x.path != y.path {
        InSomeSource(rest, y);
        var i :| 0 <= i < |rest| && y in SourceEntries(rest[i]);
        assert rest[i] in sources;
        SourceEntriesExactly(s, x);
        SourceEntriesExactly(rest[i], y);
        FirstName(s.path, x, s.tree.value);
        FirstName(rest[i].path, y, rest[i].tree.value);
      }
      DistinctBoth(SourceEntries(s), ReleaseEntries(rest));
    }
  }

  lemma FirstName(path: Path, item: Item, t: Tree)
    requires AtOrBelow(path, item, t) && path != []
    ensures item.path != [] && item.path[0] == path[0]
  {
    hide NoneLeftOut, Walk;
    assert item.path[..|path|][0] == item.path[0];
  }

  lemma PlainIsNotLeftOut(name: string)
    requires Plain(name)
    ensures IsName(name) && !LeftOut(name)
  {
    PlainIsNotExcluded(name);
  }

  lemma GoodPath(s: Source)
    requires GoodSource(s)
    ensures IsPath(s.path) && NoneLeftOut(s.path)
  {
    assert PlainPath(s.path);
    hide Plain, LeftOut, IsName, STRUCTURAL_DIRS;
    forall i | 0 <= i < |s.path| ensures IsName(s.path[i]) && !LeftOut(s.path[i]) {
      PlainIsNotLeftOut(s.path[i]);
    }
  }

  lemma SourcesAreSeparate(repo: Repository)
    requires WellFormedRepository(repo)
    ensures Separate(Sources(repo))
  {
    SourcesAreGood(repo);
    hide Sources;
    var sources := Sources(repo);
    forall s | s in sources ensures IsPath(s.path) && NoneLeftOut(s.path) && s.path != [] {
      GoodPath(s);
    }
    hide IsPath, NoneLeftOut, Placed;
    forall i, j | 0 <= i < j < |sources|
      ensures sources[i].path != [] && sources[j].path != [] && sources[i].path[0] != sources[j].path[0]
    {
      assert sources[i] in sources && sources[j] in sources;
      assert Head(sources[i]) != Head(sources[j]);
    }
  }

  /** What lies further on in one of the places a release is taken from. */
  function From(t: Option<Tree>, path: Path): Option<Tree> {
    if t.None? || !NoneLeftOut(path) then None else Walk(t.value, path)
  }

  /** What a repository releases under a path. */
  function ReleasedAt(repo: Repository, path: Path): Option<Tree> {
    if ["backend"] <= path then From(repo.backend, path[1..])
    else if ["web", "dist"] <= path then From(repo.frontend, path[2..])
    else if ["scripts"] <= path then From(repo.scripts, path[1..])
    else if ["deploy", "oa"] <= path then From(repo.deploy, path[2..])
    else if ["README.md"] <= path then From(repo.readme, path[1..])
    else if ["ARCHITECTURE.md"] <= path then From(repo.architecture, path[1..])
    else if ["AGENTS.md"] <= path then From(repo.agents, path[1..])
    else None
  }

  lemma FromExactly(s: Source, item: Item)
    ensures s.tree.Some? && AtOrBelow(s.path, item, s.tree.value) <==>
            s.path <= item.path && var found := From(s.tree, item.path[|s.path|..]);
                                   found.Some? && item.node == Shallow(found.value)
  {
    hide Walk, NoneLeftOut, Shallow;
  }

  lemma OneSource(repo: Repository, i: nat, j: nat, path: Path)
    requires WellFormedRepository(repo) && i < 7 && j < 7
    requires Sources(repo)[i].path <= path && Sources(repo)[j].path <= path
    ensures i == j
  {
    SourcesAreSeparate(repo);
    var sources := Sources(repo);
    assert sources[i].path[0] == path[0] == sources[j].path[0] by {
      assert sources[i] in sources && sources[j] in sources;
    }
    hide LeftOut, IsName;
  }

  /** The listing is exactly what is released. */
  lemma ReleasedExactly(repo: Repository, item: Item)
    requires WellFormedRepository(repo)
    ensures item in ReleaseEntries(Sources(repo)) <==>
            ReleasedAt(repo, item.path).Some? && item.node == Shallow(ReleasedAt(repo, item.path).value)
  {
    hide SourceEntries, ReleaseEntries, From, Shallow, LeftOut, IsName, AtOrBelow, WellFormedTree;
    SourcesAreSeparate(repo);
    var sources := Sources(repo);
    InSomeSource(sources, item);
    forall i | 0 <= i < 7
      ensures item in SourceEntries(sources[i]) <==>
              sources[i].path <= item.path &&
              var found := From(sources[i].tree, item.path[|sources[i].path|..]);
              found.Some? && item.node == Shallow(found.value)
    {
      assert sources[i] in sources;
      SourceEntriesExactly(sources[i], item);
      FromExactly(sources[i], item);
    }
    if i :| 0 <= i < 7 && sources[i].path <= item.path {
      forall j | 0 <= j < 7 && sources[j].path <= item.path ensures j == i {
        OneSource(repo, i, j, item.path);
      }
      ReleasedFrom(repo, i, item.path);
    } else {
      ReleasedNowhere(repo, item.path);
    }
  }

  lemma ReleasedFrom(repo: Repository, i: nat, path: Path)
    requires i < 7 && Sources(repo)[i].path <= path
    requires forall j :: 0 <= j < 7 && Sources(repo)[j].path <= path ==> j == i
    ensures ReleasedAt(repo, path) == From(Sources(repo)[i].tree, path[|Sources(repo)[i].path|..])
  {
    hide From;
    var sources := Sources(repo);
    assert sources[0].path <= path <==> i == 0;
    assert sources[1].path <= path <==> i == 1;
    assert sources[2].path <= path <==> i == 2;
    assert sources[3].path <= path <==> i == 3;
    assert sources[4].path <= path <==> i == 4;
    assert sources[5].path <= path <==> i == 5;
    assert sources[6].path <= path <==> i == 6;
  }

  lemma ReleasedNowhere(repo: Repository, path: Path)
    requires forall j :: 0 <= j < 7 ==> !(Sources(repo)[j].path <= path)
    ensures ReleasedAt(repo, path).None?
  {
    hide From;
    var sources := Sources(repo);
    assert !(sources[0].path <= path) && !(sources[1].path <= path) && !(sources[2].path <= path);
    assert !(sources[3].path <= path) && !(sources[4].path <= path) && !(sources[5].path <= path);
    assert !(sources[6].path <= path);
  }

  /** Both release the same under a path, or neither releases anything there. */
  predicate SameAt(a: Repository, b: Repository, path: Path) {
    match (ReleasedAt(a, path), ReleasedAt(b, path))
    case (None, None) => true
    case (Some(x), Some(y)) => SameEntry(x, y)
    case _ => false
  }

  lemma SameShallow(x: Tree, y: Tree)
    ensures SameEntry(Shallow(x), Shallow(y)) <==> SameEntry(x, y)
  {
  }

  lemma SameContentsSameAt(a: Repository, b: Repository, path: Path)
    requires WellFormedRepository(a) && WellFormedRepository(b)
    requires NoneSpecial(ReleaseEntries(Sources(a))) && NoneSpecial(ReleaseEntries(Sources(b)))
    requires SameContents(ReleaseEntries(Sources(a)), ReleaseEntries(Sources(b)))
    ensures SameAt(a, b, path)
  {
    hide ReleaseEntries, ReleasedAt, Sources, SameEntry, Shallow;
    if ReleasedAt(a, path).Some? {
      SameThere(a, b, path);
    }
    if ReleasedAt(b, path).Some? {
      SameThere(b, a, path);
    }
  }

  lemma SameThere(a: Repository, b: Repository, path: Path)
    requires WellFormedRepository(a) && WellFormedRepository(b)
    requires forall x :: x in ReleaseEntries(Sources(a)) ==> HasSame(x, ReleaseEntries(Sources(b)))
    requires ReleasedAt(a, path).Some?
    ensures ReleasedAt(b, path).Some? && SameEntry(ReleasedAt(a, path).value, ReleasedAt(b, path).value)
  {
    hide ReleaseEntries, ReleasedAt, Sources, SameEntry, Shallow;
    var x := Item(path, Shallow(ReleasedAt(a, path).value));
    ReleasedExactly(a, x);
    var y :| y in ReleaseEntries(Sources(b)) && y.path == x.path && SameEntry(x.node, y.node);
    ReleasedExactly(b, y);
    SameShallow(ReleasedAt(a, path).value, ReleasedAt(b, path).value);
  }

  lemma SameAtHasSame(a: Repository, b: Repository, x: Item)
    requires WellFormedRepository(a) && WellFormedRepository(b) && SameAt(a, b, x.path)
    requires x in ReleaseEntries(Sources(a))
    ensures HasSame(x, ReleaseEntries(Sources(b)))
  {
    hide ReleaseEntries, ReleasedAt, Sources, SameEntry, Shallow;
    ReleasedExactly(a, x);
    var y := Item(x.path, Shallow(ReleasedAt(b, x.path).value));
    ReleasedExactly(b, y);
    SameShallow(ReleasedAt(a, x.path).value, ReleasedAt(b, x.path).value);
  }

  lemma SameAtIsSymmetric(a: Repository, b: Repository, path: Path)
    ensures SameAt(a, b, path) == SameAt(b, a, path)
  {
    hide ReleasedAt;
  }

  /**
   * Equal fingerprints mean equal releases: two repositories that can be fingerprinted feed the digest the same bytes
   * if and only if under every path both release the same file (mode and content), link (mode and target) or directory
   * (permissions), or both release nothing.
   */
  lemma FingerprintsAgreeExactly(a: Repository, b: Repository)
    requires WellFormedRepository(a) && WellFormedRepository(b)
    requires DigestInput(ReleaseEntries(Sources(a))).Some? && DigestInput(ReleaseEntries(Sources(b))).Some?
    ensures DigestInput(ReleaseEntries(Sources(a))) == DigestInput(ReleaseEntries(Sources(b))) <==>
            forall path :: SameAt(a, b, path)
  {
    hide DigestInput, ReleaseEntries, Sources, SameAt, HasSame, Separate, Distinct, WellFormedRepository, NoneSpecial;
    var x, y := ReleaseEntries(Sources(a)), ReleaseEntries(Sources(b));
    SourcesAreSeparate(a);
    SourcesAreSeparate(b);
    ReleaseEntriesAreDistinct(Sources(a));
    ReleaseEntriesAreDistinct(Sources(b));
    InputExistsExactly(x);
    InputExistsExactly(y);
    InputsAgreeExactly(x, y);
    if SameContents(x, y) {
      forall path ensures SameAt(a, b, path) {
        SameContentsSameAt(a, b, path);
      }
    }
    if forall path :: SameAt(a, b, path) {
      forall item | item in x ensures HasSame(item, y) {
        SameAtHasSame(a, b, item);
      }
      forall item | item in y ensures HasSame(item, x) {
        SameAtIsSymmetric(a, b, item.path);
        SameAtHasSame(b, a, item);
      }
    }
  }

  // ----- the format, on an example -----

  const SCRIPT := Item(["bin", "run"], File(493, [104, 105]))
  const FOLDER := Item(["bin"], Directory(1517, Empty))
  const TARGET := "bin/run"
  const ALIAS := Item(["go"], Link(511, TARGET, true))

  lemma InPathOrder()
    ensures SortByPath([SCRIPT, ALIAS, FOLDER]) == [FOLDER, SCRIPT, ALIAS]
  {
    var a, b, c := Posix(FOLDER.path), Posix(SCRIPT.path), Posix(ALIAS.path);
    assert ["bin", "run"][1..] == ["run"];
    assert a == "bin" && b == "bin/run" && c == "go";
    assert TextOrder.Leq(a, b) by {
      assert a[1..] == "in" && b[1..] == "in/run" && "in"[1..] == "n" && "in/run"[1..] == "n/run";
      assert "n"[1..] == "" && "n/run"[1..] == "/run";
    }
    assert 'b' < 'g';
    assert TextOrder.Leq(a, c) && !TextOrder.Leq(c, a) && TextOrder.Leq(b, c) && !TextOrder.Leq(c, b);
    assert !TextOrder.Leq(b, a) by {
      if TextOrder.Leq(b, a) {
        TextOrder.Antisymmetric(a, b);
      }
    }
    var items := [SCRIPT, ALIAS, FOLDER];
    assert items[..2] == [SCRIPT, ALIAS] && items[..2][..1] == [SCRIPT] && items[..1][..0] == [];
    assert SortByPath([SCRIPT]) == [SCRIPT] by { assert [SCRIPT][..0] == []; }
    hide Posix, TextOrder.Leq;
    assert SortByPath([SCRIPT, ALIAS]) == InsertByPath(ALIAS, SortByPath([SCRIPT]));
    assert InsertByPath(ALIAS, [SCRIPT]) == [SCRIPT] + InsertByPath(ALIAS, []);
    assert SortByPath(items) == InsertByPath(FOLDER, SortByPath([SCRIPT, ALIAS]));
  }

  lemma SampleModes()
    ensures ModeText(493) == "0755" && ModeText(511) == "0777"
  {
    OctalMode(493, 7, 5, 5);
    OctalMode(511, 7, 7, 7);
  }

  lemma OctalMode(mode: nat, a: nat, b: nat, c: nat)
    requires 0 < a < 8 && b < 8 && c < 8 && mode == a * 64 + b * 8 + c
    ensures ModeText(mode) == ['0', Numerals.DigitChar(a), Numerals.DigitChar(b), Numerals.DigitChar(c)]
  {
    var three := [Numerals.DigitChar(a), Numerals.DigitChar(b), Numerals.DigitChar(c)];
    assert mode / 8 == a * 8 + b && mode % 8 == c && (a * 8 + b) / 8 == a && (a * 8 + b) % 8 == b;
    assert Numerals.Digits(a, 8) == [Numerals.DigitChar(a)];
    assert Numerals.Digits(a * 8 + b, 8) == Numerals.Digits(a, 8) + [Numerals.DigitChar(b)];
    assert Numerals.Digits(mode, 8) == Numerals.Digits(a * 8 + b, 8) + [Numerals.DigitChar(c)];
    assert Numerals.Digits(mode, 8) == three;
    var four := "0" + three;
    assert Numerals.AllDigits(four) && Numerals.Padded(three, 4) == Numerals.Padded(four, 4) == four;
  }

  lemma SampleLengths()
    ensures Numerals.Decimal(0) == "0" && Numerals.Decimal(2) == "2" && Numerals.Decimal(7) == "7"
  {
  }

  const R0 := Record("bin", "directory", 493, [])
  const R1 := Record("bin/run", "file", 493, [104, 105])
  const R2 := Record("go", "symlink", 511, Utf8.Encode(TARGET))

  lemma SampleRecord()
    ensures RecordOf(FOLDER) == Some(R0) && RecordOf(SCRIPT) == Some(R1) && RecordOf(ALIAS) == Some(R2)
  {
    hide Utf8.Encode;
    assert ["bin", "run"][1..] == ["run"];
    assert Posix(["bin", "run"]) == "bin" + "/" + "run" == "bin/run";
  }

  lemma {:induction false} OneOctetEach(s: string)
    requires forall i :: 0 <= i < |s| ==> s[i] < '\U{80}'
    ensures |Utf8.Encode(s)| == |s|
    decreases |s|
  {
    if s != [] {
      OneOctetEach(s[1..]);
    }
  }

  lemma SampleRecords()
    ensures Records([FOLDER, SCRIPT, ALIAS]) == Some([R0, R1, R2])
  {
    SampleRecord();
    hide RecordOf, Records, FOLDER, SCRIPT, ALIAS, R0, R1, R2;
    assert [ALIAS] + [] == [ALIAS] && [SCRIPT] + [ALIAS] == [SCRIPT, ALIAS] && [R2] + [] == [R2] && [R1] + [R2] == [R1, R2];
    assert [FOLDER] + [SCRIPT, ALIAS] == [FOLDER, SCRIPT, ALIAS] && [R0] + [R1, R2] == [R0, R1, R2];
    assert Records([]) == Some([]) by { NoRecords(); }
    OneMoreRecord(ALIAS, [], R2, []);
    OneMoreRecord(SCRIPT, [ALIAS], R1, [R2]);
    OneMoreRecord(FOLDER, [SCRIPT, ALIAS], R0, [R1, R2]);
  }

  lemma NoRecords()
    ensures Records([]) == Some([])
  {
  }

  lemma OneMoreRecord(x: Item, rest: seq<Item>, r: Record, records: seq<Record>)
    requires RecordOf(x) == Some(r) && Records(rest) == Some(records)
    ensures Records([x] + rest) == Some([r] + records)
  {
    hide RecordOf;
    assert ([x] + rest)[1..] == rest;
  }

  const FOLDER_HEADER := "bin\0" + "directory\0" + "0755\0" + "0\0"
  const SCRIPT_HEADER := "bin/run\0" + "file\0" + "0755\0" + "2\0"
  const ALIAS_HEADER := "go\0" + "symlink\0" + "0777\0" + "7\0"

  /** Path, kind, octal mode and length, each closed by NUL, then the payload and another NUL; in path order. */
  lemma SampleStream()
    ensures DigestInput([SCRIPT, ALIAS, FOLDER]) ==
            Some(Utf8.Encode(FOLDER_HEADER) + [0] +
                 (Utf8.Encode(SCRIPT_HEADER) + [104, 105] + [0] + (Utf8.Encode(ALIAS_HEADER) + Utf8.Encode(TARGET) + [0])))
  {
    hide *;
    InPathOrder();
    SampleRecords();
    SampleLength();
    SampleHeaders(R0, R1, R2);
    SamplePayloads();
    StreamFrom([SCRIPT, ALIAS, FOLDER], R0, R1, R2);
    FrameFrom(R0, FOLDER_HEADER);
    FrameFrom(R1, SCRIPT_HEADER);
    FrameFrom(R2, ALIAS_HEADER);
    assert Utf8.Encode(FOLDER_HEADER) + [] + [0] == Utf8.Encode(FOLDER_HEADER) + [0];
  }

  lemma SampleLength()
    ensures R0 == Record("bin", "directory", 493, []) && R1 == Record("bin/run", "file", 493, [104, 105])
    ensures |R2.payload| == 7 && R2.path == "go" && R2.kind == "symlink" && R2.mode == 511
  {
    OneOctetEach(TARGET);
  }

  lemma SamplePayloads()
    ensures R0.payload == [] && R1.payload == [104, 105] && R2.payload == Utf8.Encode(TARGET)
  {
  }

  lemma StreamFrom(items: seq<Item>, a: Record, b: Record, c: Record)
    requires Records(SortByPath(items)) == Some([a, b, c])
    ensures DigestInput(items) == Some(Frame(a) + (Frame(b) + Frame(c)))
  {
    ThreeFrames(a, b, c);
    hide Frame, Records, SortByPath, Stream;
  }

  lemma FrameFrom(r: Record, header: string)
    requires Header(r) == header
    ensures Frame(r) == Utf8.Encode(header) + r.payload + [0]
  {
    hide Header, Utf8.Encode;
  }

  lemma ThreeFrames(a: Record, b: Record, c: Record)
    ensures Stream([a, b, c]) == Frame(a) + (Frame(b) + Frame(c))
  {
    hide Frame;
    assert [a, b, c][1..] == [b, c] && [b, c][1..] == [c] && [c][1..] == [];
    assert Stream([c]) == Frame(c) + [];
  }

  lemma SampleHeaders(r0: Record, r1: Record, r2: Record)
    requires r0 == Record("bin", "directory", 493, []) && r1 == Record("bin/run", "file", 493, [104, 105])
    requires r2.path == "go" && r2.kind == "symlink" && r2.mode == 511 && |r2.payload| == 7
    ensures Header(r0) == FOLDER_HEADER && Header(r1) == SCRIPT_HEADER && Header(r2) == ALIAS_HEADER
  {
    SampleModes();
    SampleLengths();
    hide ModeText, Numerals.Decimal;
  }
}
