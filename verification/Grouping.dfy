/**
 * Grouping of category choices on two levels. A list of groups is kept as the groups' labels and, beside them, the
 * groups' members.
 */
module Grouping {
  import opened Common
  import opened FirstUse

  datatype Choice = Choice(code: string, primary: string, sub: string, third: string)

  /** The items that carry a label, in order; `labels[i]` is the label of `items[i]`. */
  function Members(items: seq<Choice>, labels: seq<string>, name: string): seq<Choice>
    requires |items| == |labels|
    decreases |items|
  {
    if items == [] then []
    else
      var n := |items| - 1;
      Members(items[..n], labels[..n], name) + (if labels[n] == name then [items[n]] else [])
  }

  /** One group for each label, in the order of first use, with exactly the items that carry it. */
  ghost predicate Grouped(names: seq<string>, members: seq<seq<Choice>>, items: seq<Choice>, labels: seq<string>) {
    |items| == |labels| && names == FirstUses(labels) && |members| == |names| &&
    forall g :: 0 <= g < |names| ==> members[g] == Members(items, labels, names[g])
  }

  lemma MembersNext(items: seq<Choice>, labels: seq<string>, x: Choice, tag: string, name: string)
    requires |items| == |labels|
    ensures Members(items + [x], labels + [tag], name) == Members(items, labels, name) + (if tag == name then [x] else [])
  {
    assert (items + [x])[..|items|] == items && (labels + [tag])[..|labels|] == labels;
  }

  lemma {:induction false} NoMembers(items: seq<Choice>, labels: seq<string>, name: string)
    requires |items| == |labels|
    ensures Members(items, labels, name) == [] <==> name !in labels
    decreases |items|
  {
    if items != [] {
      var n := |items| - 1;
      NoMembers(items[..n], labels[..n], name);
      assert labels == labels[..n] + [labels[n]];
    }
  }

  /** An item joins its group. */
  lemma JoinsGroup(names: seq<string>, members: seq<seq<Choice>>, items: seq<Choice>, labels: seq<string>, x: Choice, g: nat)
    requires Grouped(names, members, items, labels) && g < |names|
    ensures Grouped(names, members[g := members[g] + [x]], items + [x], labels + [names[g]])
  {
    FirstUsesNext(labels, names[g]);
    SameMembers(labels);
    FirstUsesOnce(labels);
    assert names[g] in names;
    hide FirstUses, Members;
    forall i | 0 <= i < |names| ensures members[g := members[g] + [x]][i] == Members(items + [x], labels + [names[g]], names[i]) {
      MembersNext(items, labels, x, names[g], names[i]);
    }
  }

  /** An item with a new label starts a group. */
  lemma StartsGroup(names: seq<string>, members: seq<seq<Choice>>, items: seq<Choice>, labels: seq<string>, x: Choice, name: string)
    requires Grouped(names, members, items, labels) && name !in names
    ensures Grouped(names + [name], members + [[x]], items + [x], labels + [name])
  {
    FirstUsesNext(labels, name);
    SameMembers(labels);
    NoMembers(items, labels, name);
    hide FirstUses, Members;
    forall i | 0 <= i <= |names| ensures (members + [[x]])[i] == Members(items + [x], labels + [name], (names + [name])[i]) {
      MembersNext(items, labels, x, name, (names + [name])[i]);
      if i < |names| {
        assert names[i] in names;
      }
    }
  }

  // ----- a partition -----

  function Concat(lists: seq<seq<Choice>>): seq<Choice> {
    if lists == [] then [] else Concat(lists[..|lists| - 1]) + lists[|lists| - 1]
  }

  /** The members of several groups after one another. */
  function AllMembers(names: seq<string>, items: seq<Choice>, labels: seq<string>): seq<Choice>
    requires |items| == |labels|
  {
    if names == [] then [] else AllMembers(names[..|names| - 1], items, labels) + Members(items, labels, names[|names| - 1])
  }

  lemma AllMembersNext(names: seq<string>, items: seq<Choice>, labels: seq<string>)
    requires |items| == |labels| && names != []
    ensures multiset(AllMembers(names, items, labels)) ==
            multiset(AllMembers(names[..|names| - 1], items, labels)) + multiset(Members(items, labels, names[|names| - 1]))
  {
  }

  lemma AddOnce(m0: multiset<Choice>, m1: multiset<Choice>, f0: multiset<Choice>, f1: multiset<Choice>,
                l0: seq<Choice>, l1: seq<Choice>, x: Choice, inFront: bool, isLast: bool)
    requires m0 == f0 + multiset(l0) && m1 == f1 + multiset(l1) && !(inFront && isLast)
    requires f1 == f0 + (if inFront then multiset{x} else multiset{})
    requires l1 == l0 + (if isLast then [x] else [])
    ensures m1 == m0 + (if inFront || isLast then multiset{x} else multiset{})
  {
    LastAdded(l0, x);
  }

  lemma LastOnce(names: seq<string>, tag: string)
    requires names != [] && NoDuplicates(names)
    ensures NoDuplicates(names[..|names| - 1])
    ensures tag in names <==> tag in names[..|names| - 1] || tag == names[|names| - 1]
    ensures !(tag in names[..|names| - 1] && tag == names[|names| - 1])
  {
    assert names == names[..|names| - 1] + [names[|names| - 1]];
  }

  lemma {:induction false} OneMoreMember(names: seq<string>, items: seq<Choice>, labels: seq<string>, x: Choice, tag: string)
    requires |items| == |labels| && NoDuplicates(names)
    ensures multiset(AllMembers(names, items + [x], labels + [tag])) ==
            multiset(AllMembers(names, items, labels)) + (if tag in names then multiset{x} else multiset{})
    decreases |names|
  {
    hide Members, NoDuplicates;
    if names != [] {
      var n := |names| - 1;
      var front, last := names[..n], names[n];
      LastOnce(names, tag);
      OneMoreMember(front, items, labels, x, tag);
      AllMembersNext(names, items, labels);
      AllMembersNext(names, items + [x], labels + [tag]);
      hide AllMembers;
      MembersNext(items, labels, x, tag, last);
      AddOnce(multiset(AllMembers(names, items, labels)), multiset(AllMembers(names, items + [x], labels + [tag])),
              multiset(AllMembers(front, items, labels)), multiset(AllMembers(front, items + [x], labels + [tag])),
              Members(items, labels, last), Members(items + [x], labels + [tag], last), x, tag in front, tag == last);
    }
  }

  lemma LastAdded(xs: seq<Choice>, x: Choice)
    ensures multiset(xs + [x]) == multiset(xs) + multiset{x} && xs + [] == xs
  {
  }

  lemma {:induction false} NothingToGroup(names: seq<string>, items: seq<Choice>, labels: seq<string>)
    requires items == [] && labels == []
    ensures AllMembers(names, items, labels) == []
    decreases |names|
  {
    if names != [] {
      NothingToGroup(names[..|names| - 1], items, labels);
    }
  }

  ghost predicate AllIn(labels: seq<string>, names: seq<string>) {
    forall i :: 0 <= i < |labels| ==> labels[i] in names
  }

  lemma OneMoreGrouped(names: seq<string>, items: seq<Choice>, labels: seq<string>, x: Choice, tag: string)
    requires |items| == |labels| && NoDuplicates(names) && tag in names
    requires multiset(AllMembers(names, items, labels)) == multiset(items)
    ensures multiset(AllMembers(names, items + [x], labels + [tag])) == multiset(items + [x])
  {
    hide AllMembers, NoDuplicates;
    OneMoreMember(names, items, labels, x, tag);
  }

  lemma {:induction false} AllAreGrouped(names: seq<string>, items: seq<Choice>, labels: seq<string>)
    requires |items| == |labels| && NoDuplicates(names) && AllIn(labels, names)
    ensures multiset(AllMembers(names, items, labels)) == multiset(items)
    decreases |items|
  {
    hide AllMembers, NoDuplicates;
    if items == [] {
      NothingToGroup(names, items, labels);
    } else {
      var n := |items| - 1;
      assert AllIn(labels[..n], names) && labels[n] in names;
      hide AllIn;
      AllAreGrouped(names, items[..n], labels[..n]);
      OneMoreGrouped(names, items[..n], labels[..n], items[n], labels[n]);
      assert items == items[..n] + [items[n]];
      assert labels == labels[..n] + [labels[n]];
    }
  }

  lemma {:induction false} ConcatIsAllMembers(names: seq<string>, members: seq<seq<Choice>>, items: seq<Choice>, labels: seq<string>)
    requires |items| == |labels| && |names| == |members|
    requires forall g :: 0 <= g < |names| ==> members[g] == Members(items, labels, names[g])
    ensures Concat(members) == AllMembers(names, items, labels)
    decreases |names|
  {
    if names != [] {
      ConcatIsAllMembers(names[..|names| - 1], members[..|names| - 1], items, labels);
    }
  }

  /** Grouping keeps every item exactly once, names no group twice and leaves none empty. */
  lemma GroupingIsAPartition(names: seq<string>, members: seq<seq<Choice>>, items: seq<Choice>, labels: seq<string>)
    requires Grouped(names, members, items, labels)
    ensures multiset(Concat(members)) == multiset(items)
    ensures NoDuplicates(names) && forall g :: 0 <= g < |members| ==> members[g] != []
  {
    SameMembers(labels);
    FirstUsesOnce(labels);
    hide FirstUses;
    forall g | 0 <= g < |members| ensures members[g] != [] {
      assert names[g] in names;
      NoMembers(items, labels, names[g]);
    }
    ConcatIsAllMembers(names, members, items, labels);
    assert AllIn(labels, names) by {
      assert forall i :: 0 <= i < |labels| ==> labels[i] in labels;
    }
    AllAreGrouped(names, items, labels);
  }

  // ----- choices -----

  /** The key that tells choices apart; its parts are kept apart by a character that codes do not hold. */
  function ChoiceKey(c: Choice): string {
    c.code + "\0" + c.third
  }

  function SubLabel(c: Choice): string {
    if c.sub != "" then c.sub else c.primary
  }

  function Keys(cs: seq<Choice>): (ks: seq<string>)
    ensures |ks| == |cs|
  {
    if cs == [] then [] else Keys(cs[..|cs| - 1]) + [ChoiceKey(cs[|cs| - 1])]
  }

  function Primaries(cs: seq<Choice>): (ks: seq<string>)
    ensures |ks| == |cs|
  {
    if cs == [] then [] else Primaries(cs[..|cs| - 1]) + [cs[|cs| - 1].primary]
  }

  function SubLabels(cs: seq<Choice>): (ks: seq<string>)
    ensures |ks| == |cs|
  {
    if cs == [] then [] else SubLabels(cs[..|cs| - 1]) + [SubLabel(cs[|cs| - 1])]
  }

  /** The choices that are there. */
  function Present(cs: seq<Option<Choice>>): seq<Choice> {
    if cs == [] then []
    else Present(cs[..|cs| - 1]) + (match cs[|cs| - 1] case None => [] case Some(c) => [c])
  }

  /** Each choice key once, with the choice that had it first. */
  function Kept(cs: seq<Option<Choice>>): seq<Choice> {
    if cs == [] then []
    else
      var before := cs[..|cs| - 1];
      match cs[|cs| - 1]
      case None => Kept(before)
      case Some(c) => if ChoiceKey(c) in Keys(Present(before)) then Kept(before) else Kept(before) + [c]
  }

  lemma KeptNext(cs: seq<Option<Choice>>, c: Option<Choice>)
    ensures Kept(cs + [c]) == if c.None? || ChoiceKey(c.value) in Keys(Present(cs)) then Kept(cs) else Kept(cs) + [c.value]
    ensures Keys(Present(cs + [c])) == Keys(Present(cs)) + (if c.None? then [] else [ChoiceKey(c.value)])
  {
    assert (cs + [c])[..|cs|] == cs;
    if c.Some? {
      assert (Present(cs) + [c.value])[..|Present(cs)|] == Present(cs);
    } else {
      assert Present(cs) + [] == Present(cs);
    }
  }

  lemma KeysNext(cs: seq<Choice>, c: Choice)
    ensures Keys(cs + [c]) == Keys(cs) + [ChoiceKey(c)]
  {
    assert (cs + [c])[..|cs|] == cs;
  }

  lemma {:induction false} KeptOnce(cs: seq<Option<Choice>>)
    ensures Keys(Kept(cs)) == FirstUses(Keys(Present(cs)))
    decreases |cs|
  {
    if cs != [] {
      var before, last := cs[..|cs| - 1], cs[|cs| - 1];
      assert cs == before + [last];
      KeptOnce(before);
      KeptNext(before, last);
      hide Kept, Present, Keys, FirstUses, ChoiceKey;
      if last.Some? {
        FirstUsesNext(Keys(Present(before)), ChoiceKey(last.value));
        KeysNext(Kept(before), last.value);
      } else {
        assert Keys(Present(before)) + [] == Keys(Present(before));
      }
    }
  }

  lemma LabelsNext(cs: seq<Choice>, c: Choice)
    ensures Primaries(cs + [c]) == Primaries(cs) + [c.primary] && SubLabels(cs + [c]) == SubLabels(cs) + [SubLabel(c)]
  {
    assert (cs + [c])[..|cs|] == cs;
  }

  ghost predicate Indexed(index: map<string, nat>, names: seq<string>) {
    (forall n :: n in index ==> index[n] < |names| && names[index[n]] == n) && forall g :: 0 <= g < |names| ==> names[g] in index
  }

  lemma FoundName(index: map<string, nat>, names: seq<string>, name: string)
    requires Indexed(index, names)
    ensures name in index ==> index[name] < |names| && names[index[name]] == name
    ensures name !in index ==> name !in names && Indexed(index[name := |names|], names + [name])
  {
  }

  lemma SameLengths(names: seq<string>, members: seq<seq<Choice>>, items: seq<Choice>, labels: seq<string>)
    requires Grouped(names, members, items, labels)
    ensures |members| == |names| && |items| == |labels|
  {
  }

  lemma SeenNext(seen: set<string>, keys: seq<string>, key: string)
    requires forall k :: k in seen <==> k in keys
    ensures forall k :: k in seen + {key} <==> k in keys + [key]
  {
  }

  /** Put a choice into the group with its label, a new one at the end if need be. */
  method AddToGroup(names0: seq<string>, members0: seq<seq<Choice>>, index0: map<string, nat>, c: Choice, name: string,
                    ghost items: seq<Choice>, ghost labels: seq<string>)
    returns (names: seq<string>, members: seq<seq<Choice>>, index: map<string, nat>, g: nat)
    requires Indexed(index0, names0) && Grouped(names0, members0, items, labels)
    ensures Indexed(index, names) && Grouped(names, members, items + [c], labels + [name])
    ensures g <= |members0|
    ensures members == if g < |members0| then members0[g := members0[g] + [c]] else members0 + [[c]]
  {
    FoundName(index0, names0, name);
    SameLengths(names0, members0, items, labels);
    hide Indexed, Grouped;
    names, members, index := names0, members0, index0;
    if name in index {
      g := index[name];
      JoinsGroup(names, members, items, labels, c, g);
      members := members[g := members[g] + [c]];
    } else {
      StartsGroup(names, members, items, labels, c, name);
      g := |members|;
      index := index[name := |names|];
      names, members := names + [name], members + [[c]];
    }
  }

  lemma TakenNext<T>(xs: seq<T>, i: nat)
    requires i < |xs|
    ensures xs[..i + 1] == xs[..i] + [xs[i]]
  {
  }

  lemma NothingIsGrouped()
    ensures Grouped([], [], [], Primaries([])) && Grouped([], [], [], SubLabels([])) && Indexed(map[], [])
    ensures Kept([]) == [] && Keys(Present([])) == []
  {
  }

  /** First-level groups of the choices that were not seen before. */
  method BuildChoiceGroups(choices: seq<Option<Choice>>) returns (names: seq<string>, members: seq<seq<Choice>>)
    ensures Grouped(names, members, Kept(choices), Primaries(Kept(choices)))
  {
    hide Kept, Present, Keys, ChoiceKey, Primaries, SubLabels, Grouped, Indexed;
    var index: map<string, nat>, seen: set<string>;
    names, members, index, seen := [], [], map[], {};
    ghost var kept: seq<Choice>, taken: seq<Option<Choice>> := [], [];
    NothingIsGrouped();
    var i := 0;
    while i < |choices|
      invariant 0 <= i <= |choices| && taken == choices[..i] && kept == Kept(taken)
      invariant Indexed(index, names) && forall k :: k in seen <==> k in Keys(Present(taken))
      invariant Grouped(names, members, kept, Primaries(kept))
    {
      var choice := choices[i];
      TakenNext(choices, i);
      KeptNext(taken, choice);
      if choice.Some? {
        var key := ChoiceKey(choice.value);
        SeenNext(seen, Keys(Present(taken)), key);
        if key !in seen {
          var g: nat;
          names, members, index, g := AddToGroup(names, members, index, choice.value, choice.value.primary, kept, Primaries(kept));
          LabelsNext(kept, choice.value);
          kept := kept + [choice.value];
        }
        seen := seen + {key};
      } else {
        assert Keys(Present(taken)) + [] == Keys(Present(taken));
      }
      taken := taken + [choice];
      i := i + 1;
    }
    assert choices[..i] == choices;
  }

  ghost predicate HasThird(cs: seq<Choice>) {
    exists i :: 0 <= i < |cs| && cs[i].third != ""
  }

  ghost predicate MarksThird(third: seq<bool>, members: seq<seq<Choice>>) {
    |third| == |members| && forall g :: 0 <= g < |members| ==> (third[g] <==> HasThird(members[g]))
  }

  lemma ThirdNext(third: seq<bool>, members: seq<seq<Choice>>, g: nat, c: Choice)
    requires MarksThird(third, members) && g <= |members|
    ensures g < |members| ==>
              MarksThird(if c.third != "" then third[g := true] else third, members[g := members[g] + [c]])
    ensures MarksThird(third + [c.third != ""], members + [[c]])
  {
    hide HasThird;
    OneMoreThird([], c);
    if g < |members| {
      OneMoreThird(members[g], c);
    }
  }

  /** Second-level groups of one group's choices, and whether any member has a third label. */
  method BuildSubGroups(choices: seq<Choice>) returns (names: seq<string>, members: seq<seq<Choice>>, third: seq<bool>)
    ensures Grouped(names, members, choices, SubLabels(choices)) && MarksThird(third, members)
  {
    hide SubLabels, SubLabel, Grouped, HasThird, Indexed, Kept, Present, Keys, Primaries;
    var index: map<string, nat>;
    names, members, third, index := [], [], [], map[];
    ghost var taken: seq<Choice> := [];
    NothingIsGrouped();
    var i := 0;
    while i < |choices|
      invariant 0 <= i <= |choices| && taken == choices[..i]
      invariant Indexed(index, names) && Grouped(names, members, taken, SubLabels(taken)) && MarksThird(third, members)
    {
      hide MarksThird;
      var c := choices[i];
      TakenNext(choices, i);
      LabelsNext(taken, c);
      var before, g := members, 0;
      names, members, index, g := AddToGroup(names, members, index, c, SubLabel(c), taken, SubLabels(taken));
      ThirdNext(third, before, g, c);
      if g == |before| {
        third := third + [c.third != ""];
      } else if c.third != "" {
        assert |third| == |before| by { ThirdLength(third, before); }
        third := third[g := true];
      }
      taken := taken + [c];
      i := i + 1;
    }
    assert choices[..i] == choices;
  }

  lemma ThirdLength(third: seq<bool>, members: seq<seq<Choice>>)
    requires MarksThird(third, members)
    ensures |third| == |members|
  {
  }

  lemma OneMoreThird(cs: seq<Choice>, c: Choice)
    ensures HasThird(cs + [c]) <==> HasThird(cs) || c.third != ""
    ensures !HasThird([]) && [] + [c] == [c]
  {
    if i :| 0 <= i < |cs| && cs[i].third != "" {
      assert (cs + [c])[i] == cs[i];
    }
    if c.third != "" {
      assert (cs + [c])[|cs|] == c;
    }
    if i :| 0 <= i < |cs + [c]| && (cs + [c])[i].third != "" {
      assert i < |cs| ==> cs[i] == (cs + [c])[i];
    }
  }

  function ConcatEach(lists: seq<seq<seq<Choice>>>): seq<seq<Choice>> {
    if lists == [] then [] else ConcatEach(lists[..|lists| - 1]) + [Concat(lists[|lists| - 1])]
  }

  lemma ConcatNext(lists: seq<seq<Choice>>, last: seq<Choice>)
    ensures multiset(Concat(lists + [last])) == multiset(Concat(lists)) + multiset(last)
  {
    assert (lists + [last])[..|lists|] == lists;
  }

  lemma SameItemsNext(each: seq<seq<Choice>>, members: seq<seq<Choice>>, x: seq<Choice>, m: seq<Choice>)
    requires multiset(Concat(each)) == multiset(Concat(members)) && multiset(x) == multiset(m)
    ensures multiset(Concat(each + [x])) == multiset(Concat(members + [m]))
  {
    hide Concat;
    ConcatNext(each, x);
    ConcatNext(members, m);
  }

  lemma {:induction false} SameItems(lists: seq<seq<seq<Choice>>>, members: seq<seq<Choice>>)
    requires |lists| == |members| && forall g :: 0 <= g < |lists| ==> multiset(Concat(lists[g])) == multiset(members[g])
    ensures multiset(Concat(ConcatEach(lists))) == multiset(Concat(members))
    decreases |lists|
  {
    hide Concat;
    if lists == [] {
      assert ConcatEach(lists) == [] == members;
    } else {
      var n := |lists| - 1;
      SameItems(lists[..n], members[..n]);
      SameItemsNext(ConcatEach(lists[..n]), members[..n], Concat(lists[n]), members[n]);
      assert members == members[..n] + [members[n]];
    }
  }

  /** Both levels together hold, for every choice key that was given, exactly the first choice with it, once. */
  lemma TwoLevelsArePartition(choices: seq<Option<Choice>>, names: seq<string>, members: seq<seq<Choice>>,
                              subNames: seq<seq<string>>, subs: seq<seq<seq<Choice>>>)
    requires Grouped(names, members, Kept(choices), Primaries(Kept(choices)))
    requires |subNames| == |subs| == |members|
    requires forall g :: 0 <= g < |members| ==> Grouped(subNames[g], subs[g], members[g], SubLabels(members[g]))
    ensures multiset(Concat(ConcatEach(subs))) == multiset(Kept(choices))
    ensures Keys(Kept(choices)) == FirstUses(Keys(Present(choices)))
  {
    hide Grouped, Kept, Primaries, SubLabels, Concat, ConcatEach;
    forall g | 0 <= g < |members| ensures multiset(Concat(subs[g])) == multiset(members[g]) {
      GroupingIsAPartition(subNames[g], subs[g], members[g], SubLabels(members[g]));
    }
    SameItems(subs, members);
    GroupingIsAPartition(names, members, Kept(choices), Primaries(Kept(choices)));
    KeptOnce(choices);
  }
}
