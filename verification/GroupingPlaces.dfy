/** Where a choice ends up in the two-level grouping, told from the choice and the list alone. */
module GroupingPlaces {
  import opened Common
  import opened Grouping

  /** Keys are equal if and only if the codes and the third labels are; codes hold no NUL. */
  lemma KeyTellsApart(a: Choice, b: Choice)
    requires '\0' !in a.code && '\0' !in b.code
    ensures ChoiceKey(a) == ChoiceKey(b) <==> a.code == b.code && a.third == b.third
  {
    if ChoiceKey(a) == ChoiceKey(b) {
      SplitAtFirst(a.code, a.third, b.code, b.third, '\0');
    }
  }

  /** The list has the choice there, and none with its key before. */
  predicate IsFirstAt(choices: seq<Option<Choice>>, x: Choice, i: nat) {
    i < |choices| && choices[i] == Some(x) &&
    forall j :: 0 <= j < i && choices[j].Some? ==> ChoiceKey(choices[j].value) != ChoiceKey(x)
  }

  ghost predicate IsFirst(choices: seq<Option<Choice>>, x: Choice) {
    exists i :: IsFirstAt(choices, x, i)
  }

  lemma {:induction false} KeysPresent(choices: seq<Option<Choice>>, k: string)
    ensures k in Keys(Present(choices)) <==>
            exists j :: 0 <= j < |choices| && choices[j].Some? && ChoiceKey(choices[j].value) == k
    decreases |choices|
  {
    hide ChoiceKey;
    if choices != [] {
      var before, last := choices[..|choices| - 1], choices[|choices| - 1];
      assert choices == before + [last];
      KeysPresent(before, k);
      KeptNext(before, last);
      hide Keys, Present;
      if j :| 0 <= j < |before| && before[j].Some? && ChoiceKey(before[j].value) == k {
        assert choices[j] == before[j];
      }
      if j :| 0 <= j < |choices| && choices[j].Some? && ChoiceKey(choices[j].value) == k {
        assert j < |before| ==> before[j] == choices[j];
      }
    }
  }

  /** Kept are the choices that are first with their key. */
  lemma {:induction false} KeptExactly(choices: seq<Option<Choice>>, x: Choice)
    ensures x in Kept(choices) <==> IsFirst(choices, x)
    decreases |choices|
  {
    hide ChoiceKey, Keys, Present;
    if choices != [] {
      var n := |choices| - 1;
      var before, last := choices[..n], choices[n];
      assert choices == before + [last];
      KeptExactly(before, x);
      KeysPresent(before, ChoiceKey(x));
      KeptNext(before, last);
      hide Kept;
      if i: nat :| IsFirstAt(before, x, i) {
        assert IsFirstAt(choices, x, i);
      }
      if i: nat :| IsFirstAt(choices, x, i) {
        assert i < n ==> IsFirstAt(before, x, i);
        assert forall j :: 0 <= j < n ==> choices[j] == before[j];
      }
      if last == Some(x) && ChoiceKey(x) !in Keys(Present(before)) {
        assert IsFirstAt(choices, x, n);
      }
    }
  }

  lemma {:induction false} MembersExactly(items: seq<Choice>, labels: seq<string>, name: string, x: Choice)
    requires |items| == |labels|
    ensures x in Members(items, labels, name) <==> exists i :: 0 <= i < |items| && items[i] == x && labels[i] == name
    decreases |items|
  {
    if items != [] {
      var n := |items| - 1;
      MembersExactly(items[..n], labels[..n], name, x);
      if i :| 0 <= i < n && items[..n][i] == x && labels[..n][i] == name {
        assert items[i] == x && labels[i] == name;
      }
      if i :| 0 <= i < |items| && items[i] == x && labels[i] == name {
        assert i < n ==> items[..n][i] == x && labels[..n][i] == name;
      }
    }
  }

  /** The label of the second level: the second label, or the first where there is none. */
  predicate HasSubLabel(x: Choice, name: string) {
    if x.sub == "" then x.primary == name else x.sub == name
  }

  lemma {:induction false} LabelsAt(cs: seq<Choice>, i: nat)
    requires i < |cs|
    ensures Primaries(cs)[i] == cs[i].primary && HasSubLabel(cs[i], SubLabels(cs)[i])
    ensures forall name :: HasSubLabel(cs[i], name) ==> SubLabels(cs)[i] == name
    decreases |cs|
  {
    if i < |cs| - 1 {
      LabelsAt(cs[..|cs| - 1], i);
    }
  }

  lemma PrimaryMembers(items: seq<Choice>, name: string, x: Choice)
    ensures x in Members(items, Primaries(items), name) <==> x in items && x.primary == name
  {
    MembersExactly(items, Primaries(items), name, x);
    hide Members, Primaries;
    forall i | 0 <= i < |items| ensures Primaries(items)[i] == items[i].primary { LabelsAt(items, i); }
  }

  lemma SubMembers(items: seq<Choice>, name: string, x: Choice)
    ensures x in Members(items, SubLabels(items), name) <==> x in items && HasSubLabel(x, name)
  {
    MembersExactly(items, SubLabels(items), name, x);
    hide Members, SubLabels, HasSubLabel;
    forall i | 0 <= i < |items| ensures HasSubLabel(items[i], name) <==> SubLabels(items)[i] == name { LabelsAt(items, i); }
  }

  /**
   * A choice is in a second-level group if and only if it is the first with its key, the first level's name is its first
   * label, and the group's name is its second label, or its first where it has none.
   */
  lemma PlacedExactly(choices: seq<Option<Choice>>, names: seq<string>, members: seq<seq<Choice>>, subNames: seq<string>,
                      subs: seq<seq<Choice>>, g: nat, h: nat, x: Choice)
    requires Grouped(names, members, Kept(choices), Primaries(Kept(choices))) && g < |members|
    requires Grouped(subNames, subs, members[g], SubLabels(members[g])) && h < |subs|
    ensures x in subs[h] <==> IsFirst(choices, x) && x.primary == names[g] && HasSubLabel(x, subNames[h])
  {
    KeptExactly(choices, x);
    PrimaryMembers(Kept(choices), names[g], x);
    SubMembers(members[g], subNames[h], x);
  }
}
