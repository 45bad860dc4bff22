/** The different texts of a sequence, in the order in which each is first used. */
module FirstUse {

  /** Each different text once, where it is first used. */
  function FirstUses(xs: seq<string>): seq<string> {
    if xs == [] then []
    else
      var before, last := xs[..|xs| - 1], xs[|xs| - 1];
      if last in before then FirstUses(before) else FirstUses(before) + [last]
  }

  lemma FirstUsesNext(xs: seq<string>, x: string)
    ensures FirstUses(xs + [x]) == if x in xs then FirstUses(xs) else FirstUses(xs) + [x]
  {
    assert (xs + [x])[..|xs|] == xs;
  }

  lemma {:induction false} SameMembers(xs: seq<string>)
    ensures forall x :: x in FirstUses(xs) <==> x in xs
    decreases |xs|
  {
    if xs != [] {
      var before, last := xs[..|xs| - 1], xs[|xs| - 1];
      SameMembers(before);
      assert xs == before + [last];
    }
  }

  ghost predicate NoDuplicates(xs: seq<string>) {
    forall i, j :: 0 <= i < j < |xs| ==> xs[i] != xs[j]
  }

  lemma {:induction false} FirstUsesOnce(xs: seq<string>)
    ensures NoDuplicates(FirstUses(xs))
    decreases |xs|
  {
    if xs != [] {
      FirstUsesOnce(xs[..|xs| - 1]);
      SameMembers(xs[..|xs| - 1]);
    }
  }

  /** `x` is first used at position `k`. */
  ghost predicate FirstAt(xs: seq<string>, x: string, k: nat) {
    k < |xs| && xs[k] == x && x !in xs[..k]
  }

  /** Of two first uses, the one used first stands first. */
  lemma {:induction false} InFirstUseOrder(xs: seq<string>, i: nat, j: nat, a: nat, b: nat)
    requires i < j < |FirstUses(xs)|
    requires FirstAt(xs, FirstUses(xs)[i], a) && FirstAt(xs, FirstUses(xs)[j], b)
    ensures a < b
    decreases |xs|
  {
    var n := |xs| - 1;
    var before, last := xs[..n], xs[n];
    var values := FirstUses(before);
    SameMembers(before);
    assert forall k :: 0 <= k <= n ==> before[..k] == xs[..k];
    assert values[i] in before;
    if j < |values| {
      assert values[j] in before;
      InFirstUseOrder(before, i, j, a, b);
    } else {
      assert FirstUses(xs)[j] == last && last !in before;
      assert b == n;
    }
  }
}
