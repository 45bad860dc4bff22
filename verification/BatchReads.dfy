/**
 * The batch page's reading protocol. A read makes up to three requests, and anything may happen while it waits
 * for one; what the page holds is a value here, and every event turns it into the next. The class `BatchPage`
 * does the same in place.
 */
module BatchReads {
  import opened Common

  // ----- what is asked and answered -----

  datatype Child = Child(key: string, codes: seq<string>)
  datatype Group = Group(name: string, codes: seq<string>, children: seq<Child>)

  datatype Query = Query(month: string, bucket: string, page: nat, codes: seq<string>)

  /** The page's filters: the query and the category labels its codes come from. */
  datatype Filters = Filters(query: Query, primary: string, sub: Option<string>)

  /** An answer; without groups when its summary lacks the counts a group needs. */
  datatype Response = Response(groups: Option<seq<Group>>, total: nat, pageSize: nat)

  datatype Outcome = Answered(response: Response) | Rejected(abortLike: bool)

  function FindGroup(groups: seq<Group>, name: string): Option<Group> {
    if groups == [] then None else if groups[0].name == name then Some(groups[0]) else FindGroup(groups[1..], name)
  }

  function FindChild(children: seq<Child>, key: string): Option<Child> {
    if children == [] then None else if children[0].key == key then Some(children[0]) else FindChild(children[1..], key)
  }

  /** The codes of the selected category, if the groups still have it. */
  function CodesFor(groups: seq<Group>, primary: string, sub: Option<string>): Option<seq<string>> {
    if primary == "" then Some([])
    else
      match FindGroup(groups, primary)
      case None => None
      case Some(group) =>
        match sub
        case None => Some(group.codes)
        case Some(key) =>
          match FindChild(group.children, key)
          case None => None
          case Some(child) => Some(child.codes)
  }

  predicate Matches(codes: Option<seq<string>>, asked: seq<string>) {
    codes.Some? && |codes.value| == |asked| && forall i :: 0 <= i < |codes.value| ==> codes.value[i] in asked
  }

  /** An answer's own summary gives the codes that were asked for. */
  predicate Consistent(f: Filters, r: Response) {
    r.groups.Some? && Matches(CodesFor(r.groups.value, f.primary, f.sub), f.query.codes)
  }

  /** Rounding up: so many pages hold the total, and one less does not. */
  lemma PagesHold(total: nat, size: nat)
    requires size > 0
    ensures var pages := (total + size - 1) / size;
            total <= pages * size && (pages > 0 ==> (pages - 1) * size < total)
  {
    var pages, rest := (total + size - 1) / size, (total + size - 1) % size;
    assert total + size - 1 == pages * size + rest;
    assert (pages - 1) * size == pages * size - size;
  }

  function LastPage(r: Response): (p: nat)
    requires r.pageSize > 0
    ensures p >= 1 && r.total <= p * r.pageSize && (p == 1 || (p - 1) * r.pageSize < r.total)
  {
    PagesHold(r.total, r.pageSize);
    var pages := (r.total + r.pageSize - 1) / r.pageSize;
    if pages < 1 then 1 else pages
  }

  /** Past the last page; a page size of nought bounds no page. */
  predicate Beyond(page: nat, r: Response) {
    r.pageSize > 0 && page > LastPage(r)
  }

  // ----- one read -----

  datatype Stage = First | Second | Third
  datatype Ending = Waiting | Committed | Superseded | Failed(silent: bool)

  /** A read that was started with some filters, and what it has corrected them to. */
  datatype Call = Call(start: Filters, next: Filters, stage: Stage, changed: bool, reload: bool, aborted: bool, ending: Ending)

  datatype Progress = Ask(call: Call) | Commit(call: Call) | Fail

  /** Go back to the last page there is, with one more request. */
  function TurnPage(c: Call, r: Response): Progress {
    if Beyond(c.next.query.page, r) then Ask(c.(next := c.next.(query := c.next.query.(page := LastPage(r))), stage := Third))
    else Commit(c)
  }

  /** What a read that is still current does with an answer. */
  function Advance(c: Call, r: Response): Progress {
    if r.groups.None? then Fail
    else if c.stage == First then
      var found := CodesFor(r.groups.value, c.next.primary, c.next.sub);
      var labelled := if found.None? then c.next.(primary := "", sub := None) else c.next;
      var resolved := if found.None? then [] else found.value;
      if Matches(Some(resolved), c.next.query.codes) then TurnPage(c.(next := labelled), r)
      else Ask(c.(next := labelled.(query := labelled.query.(codes := resolved, page := 1)), stage := Second, changed := true))
    else if !Consistent(c.next, r) then Fail
    else if c.stage == Second then TurnPage(c, r)
    else Commit(c)
  }

  /** Whether a read ends with other filters than it started with. */
  predicate Corrects(c: Call) {
    c.next.query.page != c.start.query.page || c.next.primary != c.start.primary || c.next.sub != c.start.sub || c.changed
  }

  // ----- selected transactions -----

  datatype Scope = Scope(account: string, month: string)
  datatype Batch = Batch(account: string, month: Option<string>)
  datatype Row = Row(id: string, account: string)

  /** `origins` remembers which account and month each transaction was picked from. */
  datatype Selection = Selection(ids: set<string>, scope: Option<Scope>, origins: map<string, Scope>)

  const NOTHING: Selection := Selection({}, None, map[])

  predicate BatchMatches(batch: Batch, scope: Option<Scope>) {
    batch.month.Some? && batch.month.value != "" && batch.account != "" &&
    (scope.None? || scope.value == Scope(batch.account, batch.month.value))
  }

  function Toggle(s: Selection, batch: Batch, row: Row, checked: bool): Selection {
    if checked then
      if !BatchMatches(batch, s.scope) || row.account != batch.account then s
      else
        var scope := Scope(batch.account, batch.month.value);
        Selection(s.ids + {row.id}, Some(scope), s.origins[row.id := scope])
    else
      var left := s.ids - {row.id};
      Selection(left, if left == {} then None else s.scope, s.origins)
  }

  function Ids(rows: seq<Row>): set<string> {
    set i | 0 <= i < |rows| :: rows[i].id
  }

  function PickedFrom(rows: seq<Row>, scope: Scope): map<string, Scope> {
    map id | id in Ids(rows) :: scope
  }

  function PickRegion(s: Selection, batch: Batch, rows: seq<Row>, checked: bool): Selection {
    if checked then
      if !BatchMatches(batch, s.scope) || exists i :: 0 <= i < |rows| && rows[i].account != batch.account then s
      else
        var scope := Scope(batch.account, batch.month.value);
        var all := s.ids + Ids(rows);
        Selection(all, if all == {} then None else Some(scope), s.origins + PickedFrom(rows, scope))
    else
      var left := s.ids - Ids(rows);
      Selection(left, if left == {} then None else s.scope, s.origins)
  }

  // ----- the page -----

  /** What is on the page: the answer, the filters it answers, the read that brought it and on which request. */
  datatype Shown = Shown(reader: nat, filters: Filters, response: Response, stage: Stage)

  datatype State = State(
    filters: Filters,
    latest: nat,
    calls: map<nat, Call>,
    shown: Option<Shown>,
    version: nat,
    corrected: Option<Query>,
    loading: bool,
    error: bool,
    selection: Selection)

  datatype Event =
    | Effect
    | Reload(start: Filters)
    | Abort(id: nat)
    | Respond(id: nat, outcome: Outcome)
    | Navigate(filters: Filters)
    | Pick(batch: Batch, row: Row, checked: bool)
    | Region(batch: Batch, rows: seq<Row>, checked: bool)
    | Clear

  predicate IsCurrent(s: State, id: nat) {
    id in s.calls && !s.calls[id].aborted && id == s.latest
  }

  function Begin(s: State, start: Filters, reload: bool): State {
    var id := s.latest + 1;
    s.(latest := id, calls := s.calls[id := Call(start, start, First, false, reload, false, Waiting)], loading := true,
       error := reload && s.error)
  }

  /** A current read gives up; a background read keeps quiet about what looks like an abort. */
  function GiveUp(s: State, id: nat, abortLike: bool): State
    requires id in s.calls
  {
    var silent := abortLike && !s.calls[id].reload;
    s.(calls := s.calls[id := s.calls[id].(ending := Failed(silent))], loading := false, error := s.error || !silent)
  }

  /** A current read puts its answer on the page, and its corrections if it made any. */
  function Apply(s: State, id: nat, c: Call, r: Response): State {
    var placed := s.filters.query.(page := c.next.query.page, codes := c.next.query.codes);
    s.(filters := if Corrects(c) then Filters(placed, c.next.primary, c.next.sub) else s.filters,
       corrected := if Corrects(c) then Some(c.next.query) else s.corrected,
       calls := s.calls[id := c.(ending := Committed)],
       shown := Some(Shown(id, c.next, r, c.stage)), version := s.version + 1, loading := false, error := false,
       selection := NOTHING)
  }

  function Answer(s: State, id: nat, outcome: Outcome): State {
    if id !in s.calls || s.calls[id].ending != Waiting then s
    else if !IsCurrent(s, id) then s.(calls := s.calls[id := s.calls[id].(ending := Superseded)])
    else
      match outcome
      case Rejected(abortLike) => GiveUp(s, id, abortLike)
      case Answered(r) =>
        match Advance(s.calls[id], r)
        case Ask(c) => s.(calls := s.calls[id := c])
        case Fail => GiveUp(s, id, false)
        case Commit(c) => Apply(s, id, c, r)
  }

  function Step(s: State, e: Event): State {
    match e
    case Effect => if s.corrected == Some(s.filters.query) then s.(corrected := None) else Begin(s, s.filters, false)
    case Reload(start) => Begin(s, start, true)
    case Abort(id) =>
      if id in s.calls && s.calls[id].ending == Waiting then s.(calls := s.calls[id := s.calls[id].(aborted := true)]) else s
    case Respond(id, outcome) => Answer(s, id, outcome)
    case Navigate(f) => s.(filters := f, selection := NOTHING)
    case Pick(batch, row, checked) => s.(selection := Toggle(s.selection, batch, row, checked))
    case Region(batch, rows, checked) => s.(selection := PickRegion(s.selection, batch, rows, checked))
    case Clear => s.(selection := NOTHING)
  }

  function Start(f: Filters): State {
    State(f, 0, map[], None, 0, None, false, false, NOTHING)
  }

  function Run(s: State, events: seq<Event>): State
    decreases |events|
  {
    if events == [] then s else Run(Step(s, events[0]), events[1..])
  }

  // ----- what every run keeps -----

  ghost predicate SelectionOk(s: Selection) {
    (s.ids != {} <==> s.scope.Some?) &&
    (forall id :: id in s.ids ==> id in s.origins && s.scope == Some(s.origins[id])) &&
    (s.scope.Some? ==> s.scope.value.account != "" && s.scope.value.month != "")
  }

  ghost predicate CallOk(c: Call) {
    c.next.query.month == c.start.query.month && c.next.query.bucket == c.start.query.bucket &&
    (c.stage == First && c.ending == Waiting ==> c.next == c.start && !c.changed) &&
    (!c.changed ==> c.next.query.codes == c.start.query.codes)
  }

  /** What is shown agrees with its own summary, and is on a page it has unless the list shrank once more. */
  ghost predicate ShownOk(f: Filters, r: Response, stage: Stage) {
    Consistent(f, r) && (stage != Third ==> !Beyond(f.query.page, r))
  }

  /** The page says that it is loading exactly while its latest read is open, or ended after an abort. */
  ghost predicate LoadingOk(s: State)
    requires forall id :: id in s.calls <==> 1 <= id <= s.latest
  {
    s.loading <==> s.latest > 0 && (s.calls[s.latest].ending == Waiting || s.calls[s.latest].ending == Superseded)
  }

  ghost predicate ShownIsNewest(s: State) {
    (forall id :: id in s.calls && s.calls[id].ending == Committed ==> s.shown.Some? && id <= s.shown.value.reader) &&
    (s.shown.Some? ==> s.shown.value.reader in s.calls && s.calls[s.shown.value.reader].ending == Committed &&
                       s.calls[s.shown.value.reader].next == s.shown.value.filters &&
                       ShownOk(s.shown.value.filters, s.shown.value.response, s.shown.value.stage))
  }

  ghost predicate Inv(s: State) {
    (forall id :: id in s.calls <==> 1 <= id <= s.latest) && (forall id :: id in s.calls ==> CallOk(s.calls[id])) &&
    LoadingOk(s) && ShownIsNewest(s) && SelectionOk(s.selection)
  }

  lemma ToggleKeeps(s: Selection, batch: Batch, row: Row, checked: bool)
    requires SelectionOk(s)
    ensures SelectionOk(Toggle(s, batch, row, checked))
  {
    if checked {
      assert row.id in s.ids + {row.id};
    }
  }

  lemma RegionKeeps(s: Selection, batch: Batch, rows: seq<Row>, checked: bool)
    requires SelectionOk(s)
    ensures SelectionOk(PickRegion(s, batch, rows, checked))
  {
  }

  lemma AdvanceIsOk(c: Call, r: Response)
    requires CallOk(c) && c.ending == Waiting
    ensures Advance(c, r).Ask? ==> CallOk(Advance(c, r).call) && Advance(c, r).call.ending == Waiting
    ensures Advance(c, r).Commit? ==> CallOk(Advance(c, r).call.(ending := Committed))
    ensures Advance(c, r).Commit? ==> ShownOk(Advance(c, r).call.next, r, Advance(c, r).call.stage)
  {
    hide LastPage, CodesFor;
    if c.stage == First && r.groups.Some? {
      NoLabelNoCodes(r.groups.value);
    }
  }

  lemma NoLabelNoCodes(groups: seq<Group>)
    ensures CodesFor(groups, "", None) == Some([])
  {
  }

  lemma ApplyKeeps(s: State, id: nat, c: Call, r: Response)
    requires Inv(s) && id == s.latest && id in s.calls && s.calls[id].ending == Waiting
    requires CallOk(c.(ending := Committed)) && ShownOk(c.next, r, c.stage)
    ensures Inv(Apply(s, id, c, r))
  {
    hide CallOk, SelectionOk, ShownOk, Corrects;
    NothingIsOk();
  }

  lemma GiveUpKeeps(s: State, id: nat, abortLike: bool)
    requires Inv(s) && id == s.latest && id in s.calls && s.calls[id].ending == Waiting
    ensures Inv(GiveUp(s, id, abortLike))
  {
    hide CallOk, SelectionOk, ShownOk;
    EndingIsOk(s.calls[id]);
  }

  /** A waiting read goes on, or one that is no longer current ends. */
  lemma GoOnKeeps(s: State, id: nat, c: Call)
    requires Inv(s) && id in s.calls && s.calls[id].ending == Waiting && CallOk(c)
    requires c.ending == Waiting || c.ending == Superseded
    ensures Inv(s.(calls := s.calls[id := c]))
  {
    hide CallOk, SelectionOk, ShownOk;
  }

  lemma BeginKeeps(s: State, start: Filters, reload: bool)
    requires Inv(s)
    ensures Inv(Begin(s, start, reload))
  {
    hide SelectionOk, ShownOk;
  }

  lemma AnswerKeeps(s: State, id: nat, outcome: Outcome)
    requires Inv(s)
    ensures Inv(Answer(s, id, outcome))
  {
    hide Inv, CallOk, SelectionOk, Advance, ShownOk, Corrects, Apply, GiveUp;
    if id in s.calls && s.calls[id].ending == Waiting {
      var c := s.calls[id];
      assert CallOk(c) by { CallsAreOk(s, id); }
      EndingIsOk(c);
      if !IsCurrent(s, id) {
        GoOnKeeps(s, id, c.(ending := Superseded));
      } else {
        match outcome
        case Rejected(abortLike) => GiveUpKeeps(s, id, abortLike);
        case Answered(r) =>
          AdvanceIsOk(c, r);
          match Advance(c, r)
          case Ask(next) => GoOnKeeps(s, id, next);
          case Fail => GiveUpKeeps(s, id, false);
          case Commit(next) => ApplyKeeps(s, id, next, r);
      }
    }
  }

  lemma CallsAreOk(s: State, id: nat)
    requires Inv(s) && id in s.calls
    ensures CallOk(s.calls[id])
  {
  }

  lemma SelectionKeeps(s: State, f: Filters, selection: Selection, corrected: Option<Query>)
    requires Inv(s) && SelectionOk(selection)
    ensures Inv(s.(filters := f, selection := selection, corrected := corrected))
    ensures SelectionOk(s.selection)
  {
    hide CallOk, SelectionOk, ShownOk;
  }

  lemma EndingIsOk(c: Call)
    requires CallOk(c)
    ensures CallOk(c.(ending := Superseded))
    ensures forall silent :: CallOk(c.(ending := Failed(silent)))
    ensures CallOk(c.(aborted := true))
  {
  }

  lemma NothingIsOk()
    ensures SelectionOk(NOTHING)
  {
  }

  lemma StepKeeps(s: State, e: Event)
    requires Inv(s)
    ensures Inv(Step(s, e))
  {
    hide Inv, CallOk, SelectionOk, Answer, Begin, Toggle, PickRegion;
    NothingIsOk();
    SelectionKeeps(s, s.filters, NOTHING, None);
    match e
    case Effect =>
      if s.corrected == Some(s.filters.query) {
        SelectionKeeps(s, s.filters, s.selection, None);
      } else {
        BeginKeeps(s, s.filters, false);
      }
    case Reload(start) => BeginKeeps(s, start, true);
    case Respond(id, outcome) => AnswerKeeps(s, id, outcome);
    case Pick(batch, row, checked) =>
      ToggleKeeps(s.selection, batch, row, checked);
      SelectionKeeps(s, s.filters, Toggle(s.selection, batch, row, checked), s.corrected);
    case Region(batch, rows, checked) =>
      RegionKeeps(s.selection, batch, rows, checked);
      SelectionKeeps(s, s.filters, PickRegion(s.selection, batch, rows, checked), s.corrected);
    case Navigate(f) => SelectionKeeps(s, f, NOTHING, s.corrected);
    case Clear => SelectionKeeps(s, s.filters, NOTHING, s.corrected);
    case Abort(id) =>
      if id in s.calls && s.calls[id].ending == Waiting {
        CallsAreOk(s, id);
        EndingIsOk(s.calls[id]);
        GoOnKeeps(s, id, s.calls[id].(aborted := true));
      }
  }

  /** Over every interleaving of reads, answers, aborts and clicks. */
  lemma {:induction false} RunKeeps(s: State, events: seq<Event>)
    requires Inv(s)
    ensures Inv(Run(s, events))
    decreases |events|
  {
    hide Inv, Step;
    if events != [] {
      StepKeeps(s, events[0]);
      RunKeeps(Step(s, events[0]), events[1..]);
    }
  }
}
