/** The files of a release: directory trees, what a release leaves out, and the listing of a tree. */
module ReleaseTree {
  import opened Common
  import TextOrder

  /** A path, component by component. */
  type Path = seq<string>

  /** A directory is the list of its entries in name order. `resolves` says whether a link leads anywhere. */
  datatype Tree =
    | File(mode: nat, content: Bytes)
    | Link(mode: nat, target: string, resolves: bool)
    | Directory(mode: nat, children: Listing)
    | Special(mode: nat)

  datatype Listing = Empty | Entry(name: string, node: Tree, rest: Listing)

  const EXCLUDED_PARTS: set<string> := {
    ".git", ".mypy_cache", ".pytest_cache", ".ruff_cache", ".runtime", ".venv", "__pycache__", "node_modules", "venv"
  }
  const STRUCTURAL_DIRS: set<Path> := {["deploy"], ["web"]}
  const METADATA: Path := ["RELEASE.json"]

  /** A file name: not empty, without '/' or NUL. */
  predicate IsName(s: string) {
    s != [] && '/' !in s && '\0' !in s
  }

  predicate IsPath(p: Path) {
    p != [] && forall i :: 0 <= i < |p| ==> IsName(p[i])
  }

  /** Names in strictly ascending order, all the way down. */
  ghost predicate WellFormed(l: Listing) {
    match l
    case Empty => true
    case Entry(n, node, rest) =>
      IsName(n) && (rest.Entry? ==> TextOrder.Less(n, rest.name)) && WellFormedTree(node) && WellFormed(rest)
  }

  ghost predicate WellFormedTree(t: Tree) {
    t.Directory? ==> WellFormed(t.children)
  }

  function Posix(p: Path): string {
    if p == [] then "" else if |p| == 1 then p[0] else p[0] + "/" + Posix(p[1..])
  }

  predicate EndsWith(s: string, suffix: string) {
    |suffix| <= |s| && s[|s| - |suffix|..] == suffix
  }

  predicate BadSuffix(s: string) {
    EndsWith(s, ".pyc") || EndsWith(s, ".pyo") || EndsWith(s, ".DS_Store")
  }

  predicate HasExcludedPart(p: Path) {
    exists i :: 0 <= i < |p| && p[i] in EXCLUDED_PARTS
  }

  /** `_release_path_excluded`: decided on the path below the release root. */
  predicate PathExcluded(p: Path)
    requires p != []
  {
    p == METADATA || HasExcludedPart(p) || BadSuffix(p[|p| - 1])
  }

  /** `_tar_filter`: decided on the name of the archive member. */
  predicate MemberExcluded(p: Path) {
    HasExcludedPart(p) || BadSuffix(Posix(p))
  }

  /** A node without what is below it. */
  function Shallow(t: Tree): Tree {
    if t.Directory? then t.(children := Empty) else t
  }

  datatype Item = Item(path: Path, node: Tree)

  /** `_tree_entries`: the entries below a directory, in the order the visitor appends them. */
  function TreeEntries(l: Listing, prefix: Path): seq<Item> {
    match l
    case Empty => []
    case Entry(n, node, rest) =>
      (if PathExcluded(prefix + [n]) then [] else NodeEntries(node, prefix + [n])) + TreeEntries(rest, prefix)
  }

  function NodeEntries(node: Tree, path: Path): seq<Item> {
    (if path in STRUCTURAL_DIRS then [] else [Item(path, Shallow(node))])
    + (if node.Directory? then TreeEntries(node.children, path) else [])
  }

  /** The visitor, appending to its list as it goes down. */
  class TreeVisitor {
    var entries: seq<Item>

    constructor ()
      ensures entries == []
    {
      entries := [];
    }

    method Visit(directory: Listing, relative: Path)
      modifies this
      ensures entries == old(entries) + TreeEntries(directory, relative)
      decreases directory, 0
    {
      hide PathExcluded, NodeEntries, TreeEntries;
      var todo := directory;
      NoEntries(relative);
      while todo.Entry?
        invariant todo == directory || todo < directory
        invariant entries + TreeEntries(todo, relative) == old(entries) + TreeEntries(directory, relative)
        decreases todo
      {
        var path := relative + [todo.name];
        EntriesStep(todo, relative);
        if !PathExcluded(path) {
          Enter(todo.node, path);
        }
        todo := todo.rest;
      }
    }

    method Enter(node: Tree, path: Path)
      modifies this
      ensures entries == old(entries) + NodeEntries(node, path)
      decreases node
    {
      hide TreeEntries;
      if path !in STRUCTURAL_DIRS {
        entries := entries + [Item(path, Shallow(node))];
      }
      if node.Directory? {
        Visit(node.children, path);
      }
    }
  }

  lemma NoEntries(prefix: Path)
    ensures TreeEntries(Empty, prefix) == []
  {
  }

  lemma EntriesStep(l: Listing, prefix: Path)
    requires l.Entry?
    ensures TreeEntries(l, prefix) ==
            (if PathExcluded(prefix + [l.name]) then [] else NodeEntries(l.node, prefix + [l.name]))
            + TreeEntries(l.rest, prefix)
  {
  }

  lemma {:induction false} PosixLast(p: Path)
    requires p != []
    ensures |p[|p| - 1]| <= |Posix(p)|
    ensures Posix(p)[|Posix(p)| - |p[|p| - 1]|..] == p[|p| - 1]
    ensures |p| > 1 && |p[|p| - 1]| < |Posix(p)| ==> Posix(p)[|Posix(p)| - |p[|p| - 1]| - 1] == '/'
    ensures |p| > 1 ==> |p[|p| - 1]| < |Posix(p)|
    decreases |p|
  {
    if |p| > 1 {
      PosixLast(p[1..]);
      var rest, last := Posix(p[1..]), p[|p| - 1];
      var head := p[0] + "/";
      assert Posix(p) == head + rest;
      assert (head + rest)[|head + rest| - |last|..] == rest[|rest| - |last|..];
      if |p| > 2 {
        assert (head + rest)[|head + rest| - |last| - 1] == rest[|rest| - |last| - 1];
      }
    }
  }

  lemma SuffixOfTail(whole: string, last: string, suffix: string)
    requires |last| <= |whole| && whole[|whole| - |last|..] == last
    requires |last| < |whole| ==> whole[|whole| - |last| - 1] == '/'
    requires '/' !in suffix
    ensures EndsWith(whole, suffix) <==> EndsWith(last, suffix)
  {
    if |suffix| <= |last| {
      assert whole[|whole| - |suffix|..] == last[|last| - |suffix|..];
    } else if |suffix| <= |whole| {
      var end := whole[|whole| - |suffix|..];
      assert end[|suffix| - |last| - 1] == whole[|whole| - |last| - 1] == '/';
      assert '/' in end;
    }
  }

  /** A suffix without '/' ends the whole path exactly when it ends the last component. */
  lemma SuffixOfLast(p: Path, suffix: string)
    requires p != [] && '/' !in suffix
    ensures EndsWith(Posix(p), suffix) <==> EndsWith(p[|p| - 1], suffix)
  {
    hide EndsWith;
    PosixLast(p);
    if |p| == 1 {
      assert Posix(p) == p[0];
    } else {
      SuffixOfTail(Posix(p), p[|p| - 1], suffix);
    }
  }

  /** The two exclusion rules, one on paths below the root and one on archive names below `src`, agree but for the metadata file. */
  lemma ExclusionsAgree(p: Path)
    requires p != []
    ensures PathExcluded(p) <==> p == METADATA || MemberExcluded(["src"] + p)
  {
    var q := ["src"] + p;
    assert q[|q| - 1] == p[|p| - 1];
    SuffixOfLast(q, ".pyc");
    SuffixOfLast(q, ".pyo");
    SuffixOfLast(q, ".DS_Store");
    if HasExcludedPart(p) {
      var i :| 0 <= i < |p| && p[i] in EXCLUDED_PARTS;
      assert q[i + 1] in EXCLUDED_PARTS;
    }
    if HasExcludedPart(q) {
      var i :| 0 <= i < |q| && q[i] in EXCLUDED_PARTS;
      assert "src" !in EXCLUDED_PARTS by { SourceIsNotExcluded(); }
      assert p[i - 1] in EXCLUDED_PARTS;
    }
  }

  lemma SourceIsNotExcluded()
    ensures "src" !in EXCLUDED_PARTS
  {
    assert forall x :: x in EXCLUDED_PARTS ==> x[0] != 's';
  }
}
