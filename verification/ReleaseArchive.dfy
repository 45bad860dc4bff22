/**
 * The release archive: which files of the repository go into it under which names, and the directory
 * that unpacking it leaves.
 */
module ReleaseArchive {
  import opened Common
  import opened ReleaseTree
  import TextOrder

  /** One of the places a release is taken from, and where it goes below `src`. */
  datatype Source = Source(path: Path, tree: Option<Tree>)

  datatype Repository = Repository(backend: Option<Tree>, frontend: Option<Tree>, scripts: Option<Tree>,
                                   deploy: Option<Tree>, readme: Option<Tree>, architecture: Option<Tree>,
                                   agents: Option<Tree>)

  function Sources(repo: Repository): seq<Source> {
    [Source(["backend"], repo.backend),
     Source(["web", "dist"], repo.frontend),
     Source(["scripts"], repo.scripts),
     Source(["deploy", "oa"], repo.deploy),
     Source(["README.md"], repo.readme),
     Source(["ARCHITECTURE.md"], repo.architecture),
     Source(["AGENTS.md"], repo.agents)]
  }

  /** `Path.exists` follows links; a link that leads nowhere does not exist. */
  predicate Exists(t: Option<Tree>) {
    t.Some? && (t.value.Link? ==> t.value.resolves)
  }

  /** `_release_source_sha256` takes whatever is there, dangling links included. */
  function SourceEntries(source: Source): seq<Item> {
    if source.tree.None? then []
    else
      var t := source.tree.value;
      [Item(source.path, Shallow(t))] + (if t.Directory? then TreeEntries(t.children, source.path) else [])
  }

  function ReleaseEntries(sources: seq<Source>): seq<Item> {
    if sources == [] then [] else SourceEntries(sources[0]) + ReleaseEntries(sources[1..])
  }

  function Prefixed(name: string, members: seq<Item>): seq<Item> {
    if members == [] then []
    else [members[0].(path := [name] + members[0].path)] + Prefixed(name, members[1..])
  }

  function PrefixedBy(path: Path, members: seq<Item>): seq<Item>
    decreases |path|
  {
    if path == [] then members else Prefixed(path[0], PrefixedBy(path[1..], members))
  }

  /** What `archive.add` puts in for the contents of the directory archived as `arc`, named from that directory. */
  function Members(l: Listing, arc: Path): seq<Item>
    decreases l
  {
    match l
    case Empty => []
    case Entry(n, node, rest) =>
      (if MemberExcluded(arc + [n]) then [] else NodeMembers(n, node, arc)) + Members(rest, arc)
  }

  function NodeMembers(n: string, node: Tree, arc: Path): seq<Item>
    decreases node
  {
    [Item([n], Shallow(node))] + (if node.Directory? then Prefixed(n, Members(node.children, arc + [n])) else [])
  }

  /** `archive.add(tree, arcname="src/" + path)`, named from `src`. */
  function Added(source: Source): seq<Item>
    requires |source.path| > 0
  {
    if !Exists(source.tree) || MemberExcluded(["src"] + source.path) then []
    else
      var last := |source.path| - 1;
      PrefixedBy(source.path[..last], NodeMembers(source.path[last], source.tree.value, ["src"] + source.path[..last]))
  }

  function AddedAll(sources: seq<Source>): seq<Item>
    requires forall s :: s in sources ==> |s.path| > 0
  {
    if sources == [] then [] else Added(sources[0]) + AddedAll(sources[1..])
  }

  const METADATA_MODE := 420 // rw-r--r--
  const IMPLICIT_MODE := 493 // rwxr-xr-x

  /** The archive's members below `src`; it is only made when the backend and the frontend are there. */
  function Archive(repo: Repository, metadata: Bytes): Option<seq<Item>> {
    if !Exists(repo.backend) || !Exists(repo.frontend) then None
    else Some(AddedAll(Sources(repo)) + [Item(METADATA, File(METADATA_MODE, metadata))])
  }

  function Get(l: Listing, n: string): Option<Tree> {
    if l.Empty? then None else if l.name == n then Some(l.node) else Get(l.rest, n)
  }

  /** Create or replace an entry of a directory. */
  function Put(l: Listing, n: string, node: Tree): Listing {
    if l.Empty? then Entry(n, node, Empty)
    else if l.name == n then Entry(n, node, l.rest)
    else if TextOrder.Leq(n, l.name) then Entry(n, node, l)
    else Entry(l.name, l.node, Put(l.rest, n, node))
  }

  /** Unpack one member; the directories above it are made if need be, and a directory keeps what is in it. */
  function Extract(l: Listing, path: Path, node: Tree): Listing
    requires path != []
    decreases |path|
  {
    var old' := Get(l, path[0]);
    if |path| == 1 then
      Put(l, path[0], if old'.Some? && old'.value.Directory? && node.Directory?
                      then Directory(node.mode, old'.value.children) else node)
    else if old'.Some? && old'.value.Directory? then
      Put(l, path[0], Directory(old'.value.mode, Extract(old'.value.children, path[1..], node)))
    else
      Put(l, path[0], Directory(IMPLICIT_MODE, Extract(Empty, path[1..], node)))
  }

  ghost predicate Named(members: seq<Item>) {
    forall m :: m in members ==> m.path != []
  }

  function ExtractAll(l: Listing, members: seq<Item>): Listing
    requires Named(members)
    decreases |members|
  {
    if members == [] then l
    else ExtractAll(Extract(l, members[0].path, members[0].node), members[1..])
  }

  /** What of a directory survives the archive's filter. */
  function Kept(l: Listing, arc: Path): Listing {
    match l
    case Empty => Empty
    case Entry(n, node, rest) =>
      if MemberExcluded(arc + [n]) then Kept(rest, arc)
      else Entry(n, KeptTree(node, arc + [n]), Kept(rest, arc))
  }

  function KeptTree(t: Tree, arc: Path): Tree {
    if t.Directory? then Directory(t.mode, Kept(t.children, arc)) else t
  }

  // ----- directories as finite maps -----

  ghost predicate Above(l: Listing, n: string) {
    l.Entry? ==> TextOrder.Less(l.name, n) && Above(l.rest, n)
  }

  lemma {:induction false} PutWellFormed(l: Listing, n: string, t: Tree)
    requires WellFormed(l) && IsName(n) && WellFormedTree(t)
    ensures WellFormed(Put(l, n, t))
    decreases l
  {
    if l.Entry? && l.name != n {
      TextOrder.Total(l.name, n);
      if !TextOrder.Leq(n, l.name) {
        PutWellFormed(l.rest, n, t);
      }
    }
  }

  lemma {:induction false} GetPut(l: Listing, n: string, t: Tree, m: string)
    ensures Get(Put(l, n, t), m) == if m == n then Some(t) else Get(l, m)
    decreases l
  {
    if l.Entry? && l.name != n && !TextOrder.Leq(n, l.name) {
      GetPut(l.rest, n, t, m);
    }
  }

  lemma {:induction false} PutPut(l: Listing, n: string, a: Tree, b: Tree)
    ensures Put(Put(l, n, a), n, b) == Put(l, n, b)
    decreases l
  {
    if l.Entry? && l.name != n && !TextOrder.Leq(n, l.name) {
      PutPut(l.rest, n, a, b);
    }
  }

  // ----- unpacking -----

  lemma {:induction false} ExtractConcat(l: Listing, a: seq<Item>, b: seq<Item>)
    requires Named(a) && Named(b)
    ensures Named(a + b) && ExtractAll(l, a + b) == ExtractAll(ExtractAll(l, a), b)
    decreases |a|
  {
    if a == [] {
      assert a + b == b;
    } else {
      assert (a + b)[1..] == a[1..] + b;
      ExtractConcat(Extract(l, a[0].path, a[0].node), a[1..], b);
    }
  }

  lemma {:induction false} PrefixedIsNamed(n: string, members: seq<Item>)
    ensures Named(Prefixed(n, members)) && |Prefixed(n, members)| == |members|
    decreases |members|
  {
    if members != [] {
      PrefixedIsNamed(n, members[1..]);
    }
  }

  /** Members below a directory that is there go into that directory. */
  lemma {:induction false} ExtractInto(l: Listing, n: string, mode: nat, kids: Listing, members: seq<Item>)
    requires Named(members)
    ensures Named(Prefixed(n, members))
    ensures ExtractAll(Put(l, n, Directory(mode, kids)), Prefixed(n, members)) ==
            Put(l, n, Directory(mode, ExtractAll(kids, members)))
    decreases |members|
  {
    PrefixedIsNamed(n, members);
    if members != [] {
      var m := members[0];
      var kids' := Extract(kids, m.path, m.node);
      assert ([n] + m.path)[1..] == m.path;
      GetPut(l, n, Directory(mode, kids), n);
      PutPut(l, n, Directory(mode, kids), Directory(mode, kids'));
      ExtractInto(l, n, mode, kids', members[1..]);
    }
  }

  function Append(k: Listing, l: Listing): Listing {
    if k.Empty? then l else Entry(k.name, k.node, Append(k.rest, l))
  }

  lemma {:induction false} PutLast(k: Listing, n: string, t: Tree)
    requires Above(k, n)
    ensures Put(k, n, t) == Append(k, Entry(n, t, Empty))
    ensures Get(k, n).None?
    decreases k
  {
    if k.Entry? {
      if TextOrder.Leq(n, k.name) {
        TextOrder.Antisymmetric(n, k.name);
      }
      PutLast(k.rest, n, t);
    }
  }

  lemma {:induction false} AppendAbove(k: Listing, n: string, t: Tree, m: string)
    requires Above(k, n) && TextOrder.Less(n, m)
    ensures Above(Append(k, Entry(n, t, Empty)), m)
    decreases k
  {
    if k.Entry? {
      TextOrder.LessTransitive(k.name, n, m);
      AppendAbove(k.rest, n, t, m);
    }
  }

  lemma {:induction false} AboveLater(k: Listing, n: string, m: string)
    requires Above(k, n) && TextOrder.Less(n, m)
    ensures Above(k, m)
    decreases k
  {
    if k.Entry? {
      TextOrder.LessTransitive(k.name, n, m);
      AboveLater(k.rest, n, m);
    }
  }

  lemma {:induction false} AppendEntry(k: Listing, n: string, t: Tree, l: Listing)
    ensures Append(Append(k, Entry(n, t, Empty)), l) == Append(k, Entry(n, t, l))
    decreases k
  {
    if k.Entry? {
      AppendEntry(k.rest, n, t, l);
    }
  }

  lemma {:induction false} MembersAreNamed(l: Listing, arc: Path)
    ensures Named(Members(l, arc))
    decreases l
  {
    if l.Entry? {
      MembersAreNamed(l.rest, arc);
      if l.node.Directory? {
        PrefixedIsNamed(l.name, Members(l.node.children, arc + [l.name]));
      }
    }
  }

  /** Unpacking what was archived of a directory leaves what the filter kept of it. */
  lemma {:induction false} UnpackDirectory(k: Listing, l: Listing, arc: Path)
    requires WellFormed(l) && (l.Entry? ==> Above(k, l.name))
    ensures Named(Members(l, arc))
    ensures ExtractAll(k, Members(l, arc)) == Append(k, Kept(l, arc))
    decreases l, 1
  {
    MembersAreNamed(l, arc);
    match l {
      case Empty =>
        AppendEmpty(k);
      case Entry(n, node, rest) =>
        MembersAreNamed(rest, arc);
        if rest.Entry? {
          AboveLater(k, n, rest.name);
        }
        if MemberExcluded(arc + [n]) {
          assert Members(l, arc) == Members(rest, arc);
          UnpackDirectory(k, rest, arc);
        } else {
          PutLast(k, n, node);
          UnpackNode(k, n, node, arc);
          ExtractConcat(k, NodeMembers(n, node, arc), Members(rest, arc));
          var kept := KeptTree(node, arc + [n]);
          PutLast(k, n, kept);
          if rest.Entry? {
            AppendAbove(k, n, kept, rest.name);
          }
          UnpackDirectory(Append(k, Entry(n, kept, Empty)), rest, arc);
          AppendEntry(k, n, kept, Kept(rest, arc));
        }
    }
  }

  lemma {:induction false} AppendEmpty(k: Listing)
    ensures Append(k, Empty) == k
    decreases k
  {
    if k.Entry? {
      AppendEmpty(k.rest);
    }
  }

  /** Unpacking what was archived of one entry into a directory without it leaves what the filter kept of it. */
  lemma {:induction false} UnpackNode(k: Listing, n: string, node: Tree, arc: Path)
    requires Get(k, n).None? && WellFormedTree(node)
    ensures Named(NodeMembers(n, node, arc))
    ensures ExtractAll(k, NodeMembers(n, node, arc)) == Put(k, n, KeptTree(node, arc + [n]))
    decreases node, 2
  {
    var first := [Item([n], Shallow(node))];
    assert first[1..] == [];
    assert ExtractAll(k, first) == Put(k, n, Shallow(node));
    if node.Directory? {
      var below := Members(node.children, arc + [n]);
      MembersAreNamed(node.children, arc + [n]);
      PrefixedIsNamed(n, below);
      ExtractConcat(k, first, Prefixed(n, below));
      ExtractInto(k, n, node.mode, Empty, below);
      UnpackDirectory(Empty, node.children, arc + [n]);
    } else {
      assert NodeMembers(n, node, arc) == first;
    }
  }
}
