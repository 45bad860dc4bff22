/** What a read of the batch page asks for next, and what picking and dropping do, in terms of what the user sees. */
module BatchOutcomes {
  import opened Common
  import opened BatchReads

  // ----- the codes of a category -----

  /** The first group of that name. */
  ghost predicate IsGroup(groups: seq<Group>, name: string, i: nat) {
    i < |groups| && groups[i].name == name && forall j :: 0 <= j < i ==> groups[j].name != name
  }

  ghost predicate IsChild(children: seq<Child>, key: string, i: nat) {
    i < |children| && children[i].key == key && forall j :: 0 <= j < i ==> children[j].key != key
  }

  lemma {:induction false} GroupIsFound(groups: seq<Group>, name: string)
    ensures forall i: nat :: IsGroup(groups, name, i) ==> FindGroup(groups, name) == Some(groups[i])
    ensures (forall j :: 0 <= j < |groups| ==> groups[j].name != name) ==> FindGroup(groups, name).None?
    decreases |groups|
  {
    if groups != [] {
      GroupIsFound(groups[1..], name);
      forall i: nat | IsGroup(groups, name, i) ensures FindGroup(groups, name) == Some(groups[i]) {
        if i > 0 {
          assert groups[0].name != name;
          assert IsGroup(groups[1..], name, i - 1);
        }
      }
    }
  }

  lemma {:induction false} ChildIsFound(children: seq<Child>, key: string)
    ensures forall i: nat :: IsChild(children, key, i) ==> FindChild(children, key) == Some(children[i])
    ensures (forall j :: 0 <= j < |children| ==> children[j].key != key) ==> FindChild(children, key).None?
    decreases |children|
  {
    if children != [] {
      ChildIsFound(children[1..], key);
      forall i: nat | IsChild(children, key, i) ensures FindChild(children, key) == Some(children[i]) {
        if i > 0 {
          assert children[0].key != key;
          assert IsChild(children[1..], key, i - 1);
        }
      }
    }
  }

  /**
   * A category's codes: none are asked for without a category; a group's are its own, a child's its own; and a category
   * that the groups do not have has none.
   */
  lemma CodesExactly(groups: seq<Group>, primary: string, sub: Option<string>)
    ensures primary == "" ==> CodesFor(groups, primary, sub) == Some([])
    ensures primary != "" && sub.None? ==>
              forall i: nat :: IsGroup(groups, primary, i) ==> CodesFor(groups, primary, sub) == Some(groups[i].codes)
    ensures primary != "" && sub.Some? ==>
              forall i: nat, j: nat :: IsGroup(groups, primary, i) && IsChild(groups[i].children, sub.value, j) ==>
                CodesFor(groups, primary, sub) == Some(groups[i].children[j].codes)
    ensures primary != "" && (forall j :: 0 <= j < |groups| ==> groups[j].name != primary) ==>
              CodesFor(groups, primary, sub).None?
    ensures primary != "" && sub.Some? ==>
              forall i: nat :: IsGroup(groups, primary, i) &&
                               (forall j :: 0 <= j < |groups[i].children| ==> groups[i].children[j].key != sub.value) ==>
                CodesFor(groups, primary, sub).None?
  {
    hide IsGroup, IsChild;
    GroupIsFound(groups, primary);
    if sub.Some? && FindGroup(groups, primary).Some? {
      ChildIsFound(FindGroup(groups, primary).value.children, sub.value);
    }
    hide FindGroup, FindChild;
    forall i: nat | IsGroup(groups, primary, i) ensures i < |groups| {
      GroupIsThere(groups, primary, i);
    }
    forall i: nat, j: nat | IsGroup(groups, primary, i) && i < |groups| && sub.Some? && IsChild(groups[i].children, sub.value, j)
      ensures j < |groups[i].children|
    {
      ChildIsThere(groups[i].children, sub.value, j);
    }
  }

  lemma GroupIsThere(groups: seq<Group>, name: string, i: nat)
    requires IsGroup(groups, name, i)
    ensures i < |groups|
  {
  }

  lemma ChildIsThere(children: seq<Child>, key: string, i: nat)
    requires IsChild(children, key, i)
    ensures i < |children|
  {
  }

  // ----- what a read asks for -----

  /** A read's first request is what the page asked when it began. */
  lemma FirstRequest(s: State, start: Filters, reload: bool)
    ensures var t := Begin(s, start, reload);
            && t.latest == s.latest + 1 && t.latest in t.calls
            && t.calls[t.latest].next == t.calls[t.latest].start == start && t.calls[t.latest].stage == First
            && t.calls[t.latest].ending == Waiting && !t.calls[t.latest].aborted && t.loading
            && (t.error <==> reload && s.error)
  {
  }

  /** The codes that the answer's groups give for the read's category; none are left where the category is gone. */
  function Given(f: Filters, groups: seq<Group>): seq<string> {
    match CodesFor(groups, f.primary, f.sub)
    case None => []
    case Some(codes) => codes
  }

  /** The same number of codes, each of them asked for. */
  ghost predicate AsAsked(given: seq<string>, asked: seq<string>) {
    |given| == |asked| && forall code :: code in given ==> code in asked
  }

  /** The category goes when the groups do not have it any more. */
  ghost predicate Relabelled(f: Filters, g: Filters, groups: seq<Group>) {
    if CodesFor(groups, f.primary, f.sub).None? then g.primary == "" && g.sub == None
    else g.primary == f.primary && g.sub == f.sub
  }

  /** The page is the last one there is: it holds the end of the list, or there is but one. */
  ghost predicate IsLastPage(page: nat, r: Response) {
    page >= 1 && r.total <= page * r.pageSize && (page == 1 || (page - 1) * r.pageSize < r.total)
  }

  /** The page lies past the last one. */
  ghost predicate IsPast(page: nat, r: Response) {
    r.pageSize > 0 && page > 1 && (page - 1) * r.pageSize >= r.total
  }

  lemma PastExactly(page: nat, r: Response)
    ensures Beyond(page, r) <==> IsPast(page, r)
  {
    if r.pageSize > 0 {
      var last := LastPage(r);
      if page > last {
        Growing(last, page - 1, r.pageSize);
      } else if page > 1 {
        Growing(page - 1, last - 1, r.pageSize);
      }
    }
  }

  lemma Growing(a: nat, b: nat, size: nat)
    requires a <= b
    ensures a * size <= b * size
  {
  }

  /**
   * The first answer. If its groups give other codes than were asked for, the read asks again for these codes and the
   * first page. Otherwise it keeps its codes, and asks for the last page if its own lies past it.
   */
  lemma AfterFirstAnswer(c: Call, r: Response)
    requires c.stage == First && r.groups.Some?
    ensures !AsAsked(Given(c.next, r.groups.value), c.next.query.codes) ==>
              Advance(c, r).Ask? &&
              var d := Advance(c, r).call;
              && d.stage == Second && d.changed && d.next.query.codes == Given(c.next, r.groups.value) && d.next.query.page == 1
              && d.next.query.month == c.next.query.month && d.next.query.bucket == c.next.query.bucket
              && Relabelled(c.next, d.next, r.groups.value)
    ensures AsAsked(Given(c.next, r.groups.value), c.next.query.codes) && !IsPast(c.next.query.page, r) ==>
              Advance(c, r).Commit? && Advance(c, r).call.next.query == c.next.query &&
              Relabelled(c.next, Advance(c, r).call.next, r.groups.value)
    ensures AsAsked(Given(c.next, r.groups.value), c.next.query.codes) && IsPast(c.next.query.page, r) ==>
              Advance(c, r).Ask? &&
              var d := Advance(c, r).call;
              && d.stage == Third && IsLastPage(d.next.query.page, r)
              && d.next.query == c.next.query.(page := d.next.query.page) && Relabelled(c.next, d.next, r.groups.value)
  {
    hide CodesFor;
    PastExactly(c.next.query.page, r);
    MatchesExactly(Given(c.next, r.groups.value), c.next.query.codes);
  }

  lemma MatchesExactly(given: seq<string>, asked: seq<string>)
    ensures Matches(Some(given), asked) <==> AsAsked(given, asked)
  {
  }

  /** A later answer has to give the codes that were asked for; only the second may still turn back a page. */
  lemma AfterLaterAnswer(c: Call, r: Response)
    requires c.stage != First && r.groups.Some?
    ensures (CodesFor(r.groups.value, c.next.primary, c.next.sub).None? ||
             !AsAsked(Given(c.next, r.groups.value), c.next.query.codes)) ==> Advance(c, r) == Fail
    ensures CodesFor(r.groups.value, c.next.primary, c.next.sub).Some? &&
            AsAsked(Given(c.next, r.groups.value), c.next.query.codes) ==>
              if c.stage == Second && IsPast(c.next.query.page, r) then
                Advance(c, r).Ask? && Advance(c, r).call.stage == Third &&
                IsLastPage(Advance(c, r).call.next.query.page, r) &&
                Advance(c, r).call.next == c.next.(query := c.next.query.(page := Advance(c, r).call.next.query.page))
              else Advance(c, r).Commit? && Advance(c, r).call.next == c.next
  {
    hide CodesFor;
    PastExactly(c.next.query.page, r);
    MatchesExactly(Given(c.next, r.groups.value), c.next.query.codes);
  }

  /** An answer without the counts that groups need fails the read. */
  lemma AnswerWithoutGroups(c: Call, r: Response)
    requires r.groups.None?
    ensures Advance(c, r) == Fail
  {
  }

  /** A current read that fails shows an error, unless it was a plain load that looks like an abort. */
  lemma FailureIsShownExactly(s: State, id: nat, outcome: Outcome)
    requires IsCurrent(s, id) && s.calls[id].ending == Waiting
    requires outcome.Rejected? || Advance(s.calls[id], outcome.response).Fail?
    ensures var t := Answer(s, id, outcome);
            && t.shown == s.shown && t.filters == s.filters && !t.loading
            && (t.error <==> s.error || outcome.Answered? || !outcome.abortLike || s.calls[id].reload)
  {
    hide Advance;
  }

  /**
   * A read that succeeds puts its answer and the filters it answers on the page and clears the error and the selection.
   * If it has corrected the page, the labels or the codes, the page takes these over and notes what it has to skip.
   */
  lemma SuccessIsShownExactly(s: State, id: nat, r: Response)
    requires IsCurrent(s, id) && s.calls[id].ending == Waiting && Advance(s.calls[id], r).Commit?
    ensures var t, c := Answer(s, id, Answered(r)), Advance(s.calls[id], r).call;
            var kept := c.next.query.page == c.start.query.page && c.next.primary == c.start.primary &&
                        c.next.sub == c.start.sub && !c.changed;
            && t.shown == Some(Shown(id, c.next, r, c.stage)) && !t.loading && !t.error
            && t.selection.ids == {} && t.selection.scope == None && t.calls[id].ending == Committed
            && (kept ==> t.filters == s.filters && t.corrected == s.corrected)
            && (!kept ==> t.filters == Filters(Query(s.filters.query.month, s.filters.query.bucket, c.next.query.page, c.next.query.codes),
                                               c.next.primary, c.next.sub) &&
                          t.corrected == Some(c.next.query))
  {
    hide Advance;
  }

  /** The effect skips the filters that a read has just set, once; else it reads what the page asks for. */
  lemma EffectExactly(s: State)
    ensures s.corrected == Some(s.filters.query) ==>
              Step(s, Effect) == s.(corrected := None) && Step(s.(corrected := None), Effect).latest == s.latest + 1
    ensures s.corrected != Some(s.filters.query) ==>
              var t := Step(s, Effect);
              t.latest == s.latest + 1 && t.calls[t.latest].start == s.filters && !t.calls[t.latest].reload && !t.error && t.loading
  {
  }

  /** Other filters, or a click that clears, leave nothing selected. */
  lemma NothingStaysSelected(s: State, f: Filters)
    ensures Step(s, Navigate(f)).filters == f && Step(s, Navigate(f)).selection.ids == {} &&
            Step(s, Navigate(f)).selection.scope == None
    ensures Step(s, Clear) == s.(selection := Step(s, Clear).selection) && Step(s, Clear).selection.ids == {} &&
            Step(s, Clear).selection.scope == None
  {
  }

  // ----- picking and dropping -----

  /** The batch may be picked from: it names an account and a month, and the selection is of no others. */
  ghost predicate Pickable(s: Selection, batch: Batch) {
    batch.account != "" && batch.month.Some? && batch.month.value != "" &&
    (s.scope == None || s.scope == Some(Scope(batch.account, batch.month.value)))
  }

  /** Exactly these ids have been added, under the batch's account and month. */
  ghost predicate Added(s: Selection, t: Selection, batch: Batch, ids: set<string>)
    requires Pickable(s, batch)
  {
    var scope := Scope(batch.account, batch.month.value);
    && (forall id :: id in t.ids <==> id in s.ids || id in ids)
    && t.scope == (if t.ids == {} then None else Some(scope))
    && (forall id :: id in t.origins <==> id in s.origins || id in ids)
    && (forall id :: id in t.origins ==> t.origins[id] == if id in ids then scope else s.origins[id])
  }

  /** Exactly these ids have been dropped; with the last one the account and month go. */
  ghost predicate DroppedFrom(s: Selection, t: Selection, ids: set<string>) {
    && (forall id :: id in t.ids <==> id in s.ids && id !in ids)
    && t.scope == (if t.ids == {} then None else s.scope) && t.origins == s.origins
  }

  /** Picking one transaction adds it if its batch may be picked from and is of its account, and else changes nothing. */
  lemma ToggleExactly(s: Selection, batch: Batch, row: Row, checked: bool)
    ensures checked && Pickable(s, batch) && row.account == batch.account ==> Added(s, Toggle(s, batch, row, true), batch, {row.id})
    ensures checked && !(Pickable(s, batch) && row.account == batch.account) ==> Toggle(s, batch, row, true) == s
    ensures !checked ==> DroppedFrom(s, Toggle(s, batch, row, false), {row.id})
  {
    assert row.id in s.ids + {row.id};
  }

  /** Picking a region adds all its rows, if the batch may be picked from and is of every row's account. */
  lemma RegionExactly(s: Selection, batch: Batch, rows: seq<Row>, checked: bool)
    ensures var all := forall row :: row in rows ==> row.account == batch.account;
            (checked && Pickable(s, batch) && all ==> Added(s, PickRegion(s, batch, rows, true), batch, IdsOf(rows))) &&
            (checked && !(Pickable(s, batch) && all) ==> PickRegion(s, batch, rows, true) == s)
    ensures !checked ==> DroppedFrom(s, PickRegion(s, batch, rows, false), IdsOf(rows))
  {
    assert Ids(rows) == IdsOf(rows) by { SameIds(rows); }
    assert (forall row :: row in rows ==> row.account == batch.account) <==>
           !exists i :: 0 <= i < |rows| && rows[i].account != batch.account;
    hide Ids;
  }

  function IdsOf(rows: seq<Row>): set<string> {
    set row | row in rows :: row.id
  }

  lemma SameIds(rows: seq<Row>)
    ensures Ids(rows) == IdsOf(rows)
  {
    forall id | id in Ids(rows) ensures id in IdsOf(rows) {
      var i :| 0 <= i < |rows| && rows[i].id == id;
      assert rows[i] in rows;
    }
  }

  /** What is picked and then dropped leaves the selection as it was, if none of it had been picked before. */
  lemma PickThenDrop(s: Selection, batch: Batch, rows: seq<Row>)
    requires SelectionOk(s) && Pickable(s, batch) && (forall row :: row in rows ==> row.account == batch.account)
    requires s.ids !! IdsOf(rows)
    ensures var t := PickRegion(PickRegion(s, batch, rows, true), batch, rows, false); t.ids == s.ids && t.scope == s.scope
  {
    RegionExactly(s, batch, rows, true);
    RegionExactly(PickRegion(s, batch, rows, true), batch, rows, false);
    hide PickRegion, IdsOf;
  }
}
