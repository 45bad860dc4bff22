/**
 * What is hashed is what is shipped: the fingerprint of the repository's release files and the one taken
 * of the unpacked release are over the same bytes, exactly when no optional source is a dangling link.
 */
module ReleaseFingerprint {
  import opened ReleaseTree
  import opened ReleaseArchive
  import TextOrder

  // ----- the filter keeps what the listing lists -----

  /** Below a named directory the archive's filter and the listing's exclusions are the same. */
  lemma {:induction false} KeptEntries(l: Listing, prefix: Path)
    requires prefix != []
    ensures TreeEntries(Kept(l, ["src"] + prefix), prefix) == TreeEntries(l, prefix)
    decreases l, 0
  {
    hide PathExcluded, MemberExcluded;
    if l.Entry? {
      var path := prefix + [l.name];
      assert ["src"] + prefix + [l.name] == ["src"] + path;
      ExclusionsAgree(path);
      assert path != METADATA by { assert |path| > 1; }
      KeptEntries(l.rest, prefix);
      if !PathExcluded(path) {
        KeptNodeEntries(l.node, path);
      }
    }
  }

  lemma {:induction false} KeptNodeEntries(t: Tree, path: Path)
    requires path != []
    ensures NodeEntries(KeptTree(t, ["src"] + path), path) == NodeEntries(t, path)
    decreases t, 1
  {
    if t.Directory? {
      KeptEntries(t.children, path);
    }
  }

  lemma {:induction false} KeptWellFormed(l: Listing, arc: Path)
    requires WellFormed(l)
    ensures WellFormed(Kept(l, arc))
    ensures Kept(l, arc).Entry? ==> l.Entry? && TextOrder.Leq(l.name, Kept(l, arc).name)
    decreases l
  {
    hide MemberExcluded;
    if l.Entry? {
      KeptWellFormed(l.rest, arc);
      TextOrder.Total(l.name, l.name);
      if Kept(l.rest, arc).Entry? {
        TextOrder.Transitive(l.name, l.rest.name, Kept(l.rest, arc).name);
        if l.name == Kept(l.rest, arc).name {
          TextOrder.Antisymmetric(l.name, l.rest.name);
        }
      }
      if l.node.Directory? {
        KeptWellFormed(l.node.children, arc + [l.name]);
      }
    }
  }

  // ----- names that no rule excludes -----

  /** A first letter and a last letter that no excluded name and no excluded suffix has. */
  predicate Plain(s: string) {
    IsName(s) && s[0] !in {'.', '_', 'n', 'v'} && s[|s| - 1] !in {'c', 'o', 'e', 'n'}
  }

  lemma EndsOtherwise(s: string, suffix: string)
    requires s != [] && suffix != [] && s[|s| - 1] != suffix[|suffix| - 1]
    ensures !EndsWith(s, suffix)
  {
    if |suffix| <= |s| {
      assert s[|s| - |suffix|..][|suffix| - 1] == s[|s| - 1];
    }
  }

  lemma PlainIsNotExcluded(s: string)
    requires Plain(s)
    ensures s !in EXCLUDED_PARTS && !BadSuffix(s) && s != "RELEASE.json"
  {
    assert forall x :: x in EXCLUDED_PARTS ==> x != [] && x[0] in {'.', '_', 'n', 'v'};
    EndsOtherwise(s, ".pyc");
    EndsOtherwise(s, ".pyo");
    EndsOtherwise(s, ".DS_Store");
    assert "RELEASE.json"[11] == 'n';
  }

  ghost predicate PlainPath(p: Path) {
    p != [] && forall i :: 0 <= i < |p| ==> Plain(p[i])
  }

  lemma PlainPathIsNotExcluded(p: Path)
    requires PlainPath(p)
    ensures !MemberExcluded(["src"] + p) && !PathExcluded(p)
  {
    hide Plain;
    forall i | 0 <= i < |p| ensures p[i] !in EXCLUDED_PARTS && !BadSuffix(p[i]) && p[i] != "RELEASE.json" {
      PlainIsNotExcluded(p[i]);
    }
    ExclusionsAgree(p);
  }

  // ----- unpacking source by source -----

  /** Adding one entry to a directory adds its entries to the listing. */
  lemma {:induction false} PutEntries(l: Listing, n: string, t: Tree, prefix: Path)
    requires Get(l, n).None?
    ensures multiset(TreeEntries(Put(l, n, t), prefix)) ==
            multiset(TreeEntries(l, prefix)) +
            multiset(if PathExcluded(prefix + [n]) then [] else NodeEntries(t, prefix + [n]))
    decreases l
  {
    hide PathExcluded, NodeEntries;
    if l.Entry? && !TextOrder.Leq(n, l.name) {
      PutEntries(l.rest, n, t, prefix);
    }
  }

  /** Members below a directory that is not there make it. */
  lemma ExtractFresh(l: Listing, n: string, members: seq<Item>)
    requires Get(l, n).None? && Named(members) && members != []
    ensures Named(Prefixed(n, members))
    ensures ExtractAll(l, Prefixed(n, members)) == Put(l, n, Directory(IMPLICIT_MODE, ExtractAll(Empty, members)))
  {
    PrefixedIsNamed(n, members);
    var m := members[0];
    assert ([n] + m.path)[1..] == m.path;
    ExtractInto(l, n, IMPLICIT_MODE, Extract(Empty, m.path, m.node), members[1..]);
  }

  /** Where a source may go: a plain name, or a plain name in a structural directory. */
  ghost predicate Placed(path: Path) {
    && PlainPath(path)
    && path !in STRUCTURAL_DIRS
    && (|path| == 1 || (|path| == 2 && path[..1] in STRUCTURAL_DIRS))
  }

  ghost predicate GoodSource(s: Source) {
    Placed(s.path) && (s.tree.Some? ==> WellFormedTree(s.tree.value))
  }

  function ShippedEntries(s: Source): seq<Item> {
    if Exists(s.tree) then SourceEntries(s) else []
  }

  /** Unpacking one source into a release without it adds exactly the source's entries. */
  lemma UnpackSource(l: Listing, s: Source)
    requires WellFormed(l) && GoodSource(s) && Get(l, s.path[0]).None?
    ensures Named(Added(s))
    ensures var l' := ExtractAll(l, Added(s));
            && WellFormed(l')
            && multiset(TreeEntries(l', [])) == multiset(TreeEntries(l, [])) + multiset(ShippedEntries(s))
            && forall m :: m != s.path[0] ==> Get(l', m) == Get(l, m)
  {
    hide MemberExcluded, PathExcluded, WellFormed, TreeEntries, Get, Plain;
    PlainPathIsNotExcluded(s.path);
    if Exists(s.tree) {
      if |s.path| == 1 {
        UnpackPlainSource(l, s);
      } else {
        UnpackNestedSource(l, s);
      }
    }
  }

  lemma SourceIsNode(s: Source, arc: Path)
    requires s.tree.Some? && s.path !in STRUCTURAL_DIRS && s.path != [] && arc == ["src"] + s.path
    ensures NodeEntries(KeptTree(s.tree.value, arc), s.path) == SourceEntries(s)
  {
    KeptNodeEntries(s.tree.value, s.path);
  }

  lemma PutKept(l: Listing, n: string, t: Tree, arc: Path)
    requires WellFormed(l) && IsName(n) && WellFormedTree(t)
    ensures WellFormed(Put(l, n, KeptTree(t, arc)))
    ensures forall m :: m != n ==> Get(Put(l, n, KeptTree(t, arc)), m) == Get(l, m)
  {
    hide MemberExcluded;
    if t.Directory? {
      KeptWellFormed(t.children, arc);
    }
    PutWellFormed(l, n, KeptTree(t, arc));
    forall m | m != n ensures Get(Put(l, n, KeptTree(t, arc)), m) == Get(l, m) {
      GetPut(l, n, KeptTree(t, arc), m);
    }
  }

  lemma UnpackPlainSource(l: Listing, s: Source)
    requires WellFormed(l) && GoodSource(s) && Get(l, s.path[0]).None? && Exists(s.tree) && |s.path| == 1
    requires !MemberExcluded(["src"] + s.path) && !PathExcluded(s.path)
    ensures Named(Added(s))
    ensures var l' := ExtractAll(l, Added(s));
            && WellFormed(l')
            && multiset(TreeEntries(l', [])) == multiset(TreeEntries(l, [])) + multiset(SourceEntries(s))
            && forall m :: m != s.path[0] ==> Get(l', m) == Get(l, m)
  {
    hide MemberExcluded, PathExcluded, WellFormed, TreeEntries, SourceEntries, Get, NodeMembers, KeptTree;
    var n, t := s.path[0], s.tree.value;
    assert s.path == [n] && s.path[..0] == [] && ["src"] + s.path[..0] == ["src"];
    assert ["src"] + s.path == ["src"] + [n] && [] + [n] == s.path;
    UnpackNode(l, n, t, ["src"]);
    PutEntries(l, n, KeptTree(t, ["src"] + [n]), []);
    SourceIsNode(s, ["src"] + [n]);
    assert Plain(n);
    PutKept(l, n, t, ["src"] + [n]);
  }

  lemma UnpackNestedSource(l: Listing, s: Source)
    requires WellFormed(l) && GoodSource(s) && Get(l, s.path[0]).None? && Exists(s.tree) && |s.path| == 2
    requires !MemberExcluded(["src"] + s.path) && !PathExcluded(s.path)
    ensures Named(Added(s))
    ensures var l' := ExtractAll(l, Added(s));
            && WellFormed(l')
            && multiset(TreeEntries(l', [])) == multiset(TreeEntries(l, [])) + multiset(SourceEntries(s))
            && forall m :: m != s.path[0] ==> Get(l', m) == Get(l, m)
  {
    hide MemberExcluded, PathExcluded, WellFormed, TreeEntries, SourceEntries, Get, NodeMembers, KeptTree;
    var w, n, t := s.path[0], s.path[1], s.tree.value;
    var arc := ["src"] + [w];
    assert s.path[..1] == [w] && ["src"] + s.path == arc + [n] && [w] + [n] == s.path;
    assert Get(Empty, n).None? by { EmptyHasNothing(n); }
    UnpackNode(Empty, n, t, arc);
    var members := NodeMembers(n, t, arc);
    assert members != [] by { NodeIsAMember(n, t, arc); }
    assert [w][1..] == [];
    assert Added(s) == Prefixed(w, members);
    ExtractFresh(l, w, members);
    var kept := KeptTree(t, arc + [n]);
    var inner := Directory(IMPLICIT_MODE, Put(Empty, n, kept));
    assert Plain(w) && Plain(n);
    PlainPathIsNotExcluded([w]);
    assert [] + [w] == [w];
    PutEntries(l, w, inner, []);
    assert NodeEntries(inner, [w]) == NodeEntries(kept, s.path) by { LoneEntry(w, n, kept, s.path); }
    SourceIsNode(s, arc + [n]);
    assert WellFormed(Empty) by { EmptyIsWellFormed(); }
    PutKept(Empty, n, t, arc + [n]);
    PutDirectory(l, w, IMPLICIT_MODE, Put(Empty, n, kept));
  }

  lemma EmptyHasNothing(n: string)
    ensures Get(Empty, n).None?
  {
  }

  lemma EmptyIsWellFormed()
    ensures WellFormed(Empty)
  {
  }

  lemma NodeIsAMember(n: string, t: Tree, arc: Path)
    ensures NodeMembers(n, t, arc) != []
  {
  }

  lemma LoneEntry(w: string, n: string, t: Tree, path: Path)
    requires path == [w] + [n] && [w] in STRUCTURAL_DIRS && !PathExcluded(path)
    ensures NodeEntries(Directory(IMPLICIT_MODE, Put(Empty, n, t)), [w]) == NodeEntries(t, path)
  {
    hide PathExcluded;
    assert Put(Empty, n, t) == Entry(n, t, Empty);
    assert TreeEntries(Empty, [w]) == [];
    assert NodeEntries(t, path) + [] == NodeEntries(t, path);
    assert TreeEntries(Entry(n, t, Empty), [w]) == NodeEntries(t, path);
  }

  lemma PutDirectory(l: Listing, n: string, mode: nat, kids: Listing)
    requires WellFormed(l) && IsName(n) && WellFormed(kids)
    ensures WellFormed(Put(l, n, Directory(mode, kids)))
    ensures forall m :: m != n ==> Get(Put(l, n, Directory(mode, kids)), m) == Get(l, m)
  {
    PutWellFormed(l, n, Directory(mode, kids));
    forall m | m != n ensures Get(Put(l, n, Directory(mode, kids)), m) == Get(l, m) {
      GetPut(l, n, Directory(mode, kids), m);
    }
  }

  // ----- all sources -----

  function ShippedAll(sources: seq<Source>): seq<Item> {
    if sources == [] then [] else ShippedEntries(sources[0]) + ShippedAll(sources[1..])
  }

  /** The entry of `src` a source goes into. */
  function Head(s: Source): string {
    if s.path == [] then "" else s.path[0]
  }

  ghost predicate GoodSources(sources: seq<Source>) {
    && (forall s :: s in sources ==> GoodSource(s) && |s.path| > 0)
    && (forall i, j :: 0 <= i < j < |sources| ==> Head(sources[i]) != Head(sources[j]))
  }

  lemma GoodTail(sources: seq<Source>)
    requires GoodSources(sources) && sources != []
    ensures GoodSources(sources[1..])
    ensures forall s :: s in sources[1..] ==> s in sources && Head(s) != Head(sources[0])
  {
    hide GoodSource;
    var rest := sources[1..];
    forall i, j | 0 <= i < j < |rest| ensures Head(rest[i]) != Head(rest[j]) {
      assert rest[i] == sources[i + 1] && rest[j] == sources[j + 1];
    }
    forall s | s in rest ensures s in sources && Head(s) != Head(sources[0]) {
      var i :| 0 <= i < |rest| && rest[i] == s;
      assert sources[i + 1] == s;
    }
  }

  lemma {:induction false} UnpackSources(l: Listing, sources: seq<Source>)
    requires WellFormed(l) && GoodSources(sources)
    requires forall s :: s in sources ==> Get(l, Head(s)).None?
    ensures Named(AddedAll(sources))
    ensures var l' := ExtractAll(l, AddedAll(sources));
            && WellFormed(l')
            && multiset(TreeEntries(l', [])) == multiset(TreeEntries(l, [])) + multiset(ShippedAll(sources))
            && forall m :: (forall s :: s in sources ==> Head(s) != m) ==> Get(l', m) == Get(l, m)
    decreases |sources|
  {
    hide WellFormed, TreeEntries, Get, ShippedEntries, Added, GoodSource;
    if sources != [] {
      GoodTail(sources);
      assert sources[0] in sources && GoodSource(sources[0]) && |sources[0].path| > 0;
      assert Get(l, Head(sources[0])).None?;
      UnpackSource(l, sources[0]);
      var l1 := ExtractAll(l, Added(sources[0]));
      UnpackSources(l1, sources[1..]);
      ExtractConcat(l, Added(sources[0]), AddedAll(sources[1..]));
      assert multiset(ShippedAll(sources)) == multiset(ShippedEntries(sources[0])) + multiset(ShippedAll(sources[1..]));
    }
  }
}
