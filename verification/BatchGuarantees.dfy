/** What the batch page's reading protocol guarantees over whole runs, and where its guarantee ends. */
module BatchGuarantees {
  import opened Common
  import opened BatchReads

  /** A page starts in order, and so stays in order through every run. */
  lemma EveryRunIsInOrder(f: Filters, events: seq<Event>)
    ensures Inv(Run(Start(f), events))
  {
    RunKeeps(Start(f), events);
  }

  // ----- the latest read wins -----

  /** Only an answer to the newest read, not aborted and still waiting, puts anything on the page. */
  lemma OnlyTheNewestIsShown(s: State, e: Event)
    requires Inv(s)
    ensures var t := Step(s, e);
            if t.version == s.version then t.shown == s.shown
            else
              e.Respond? && IsCurrent(s, e.id) && s.calls[e.id].ending == Waiting &&
              t.version == s.version + 1 && t.shown.Some? && t.shown.value.reader == e.id == t.latest &&
              !t.loading && !t.error && t.selection.ids == {}
  {
    hide Advance, Toggle, PickRegion, CallOk, SelectionOk, ShownOk, Corrects;
  }

  /** A read that a newer one overtook, that was aborted or that has ended. */
  predicate Retired(s: State, id: nat) {
    id in s.calls && (id < s.latest || s.calls[id].aborted || s.calls[id].ending != Waiting)
  }

  lemma RetiredStays(s: State, e: Event, id: nat)
    requires Inv(s) && Retired(s, id)
    ensures Retired(Step(s, e), id)
    ensures var t := Step(s, e); t.shown.Some? && t.shown.value.reader == id ==> t.shown == s.shown
  {
    hide CallOk, SelectionOk, ShownOk, Corrects, Toggle, PickRegion;
    if e.Respond? && e.outcome.Answered? && e.id in s.calls {
      AdvanceAborts(s.calls[e.id], e.outcome.response);
      hide Advance;
    }
  }

  lemma AdvanceAborts(c: Call, r: Response)
    ensures Advance(c, r).Ask? ==> Advance(c, r).call.aborted == c.aborted
    ensures Advance(c, r).Commit? ==> Advance(c, r).call.aborted == c.aborted
  {
  }

  /** From then on its answers never reach the page, whatever happens in between. */
  lemma {:induction false} RetiredNeverShows(s: State, events: seq<Event>, id: nat)
    requires Inv(s) && Retired(s, id)
    ensures var t := Run(s, events); t.shown.Some? && t.shown.value.reader == id ==> t.shown == s.shown
    decreases |events|
  {
    hide Inv, Retired, Step;
    if events != [] {
      RetiredStays(s, events[0], id);
      StepKeeps(s, events[0]);
      RetiredNeverShows(Step(s, events[0]), events[1..], id);
    }
  }

  function Requests(stage: Stage): nat {
    match stage case First => 1 case Second => 2 case Third => 3
  }

  /** Each answer that asks again asks a later question, so a read makes three requests at most. */
  lemma AsksGoForward(c: Call, r: Response)
    requires c.stage == Third || CallOk(c)
    ensures Advance(c, r).Ask? ==> Requests(c.stage) < Requests(Advance(c, r).call.stage) <= 3
  {
  }

  // ----- what is shown -----

  /** What any run shows has the codes of its own summary, and a page in range unless the list shrank twice. */
  lemma ShownAgreesWithItsSummary(f: Filters, events: seq<Event>)
    ensures var s := Run(Start(f), events);
            s.shown.Some? ==>
              var x := s.shown.value;
              Consistent(x.filters, x.response) && (x.stage != Third ==> !Beyond(x.filters.query.page, x.response))
  {
    hide Run, Consistent, Beyond;
    EveryRunIsInOrder(f, events);
  }

  /** Transactions are selected exactly while an account and month are, and every one was picked from those. */
  lemma SelectionHasOneScope(f: Filters, events: seq<Event>)
    ensures var s := Run(Start(f), events).selection;
            (s.ids != {} <==> s.scope.Some?) &&
            (forall id :: id in s.ids ==> id in s.origins && s.scope == Some(s.origins[id])) &&
            (s.ids != {} ==> s.scope.value.month != "" && s.scope.value.account != "")
  {
    hide Run, CallOk, ShownOk, LoadingOk, ShownIsNewest;
    EveryRunIsInOrder(f, events);
  }

  /**
   * After an answer is put on the page, the page's filters are those it answers if and only if the read was
   * started with the page's month and bucket and, unless it made corrections, with all of the page's filters.
   */
  lemma FiltersAgreeExactly(s: State, id: nat, c: Call, r: Response)
    requires CallOk(c.(ending := Committed))
    ensures var t := Apply(s, id, c, r);
            t.filters == t.shown.value.filters <==>
            (s.filters.query.month == c.start.query.month && s.filters.query.bucket == c.start.query.bucket &&
             (Corrects(c) || s.filters == c.start))
  {
    if !Corrects(c) {
      assert c.next == c.start;
    }
  }

  /** The event puts an answer on the page. */
  predicate Commits(s: State, e: Event) {
    Step(s, e).version != s.version
  }

  /** The page's filters are those that it shows the answer to. */
  predicate Agree(s: State) {
    s.shown.Some? && s.filters == s.shown.value.filters
  }

  /** The read that shows its answer began with the page's month and bucket, and corrected or began with the rest. */
  predicate BeganAlike(s: State, e: Event) {
    e.Respond? && e.id in Step(s, e).calls &&
    var c := Step(s, e).calls[e.id];
    c.start.query.month == s.filters.query.month && c.start.query.bucket == s.filters.query.bucket &&
    (Corrects(c) || c.start == s.filters)
  }

  lemma CommitIsExact(s: State, e: Event)
    requires Inv(s) && Commits(s, e)
    ensures Agree(Step(s, e)) <==> BeganAlike(s, e)
  {
    OnlyTheNewestIsShown(s, e);
    var c := s.calls[e.id];
    CallsAreOk(s, e.id);
    hide Inv, Toggle, PickRegion;
    if e.outcome.Answered? && Advance(c, e.outcome.response).Commit? {
      AdvanceIsOk(c, e.outcome.response);
      FiltersAgreeExactly(s, e.id, Advance(c, e.outcome.response).call, e.outcome.response);
    }
    hide Advance;
  }

  predicate AgreesThroughout(s: State, events: seq<Event>)
    decreases |events|
  {
    events == [] || ((Commits(s, events[0]) ==> Agree(Step(s, events[0]))) && AgreesThroughout(Step(s, events[0]), events[1..]))
  }

  predicate BeginsAlikeThroughout(s: State, events: seq<Event>)
    decreases |events|
  {
    events == [] ||
    ((Commits(s, events[0]) ==> BeganAlike(s, events[0])) && BeginsAlikeThroughout(Step(s, events[0]), events[1..]))
  }

  lemma {:induction false} ThroughoutExactly(s: State, events: seq<Event>)
    requires Inv(s)
    ensures AgreesThroughout(s, events) <==> BeginsAlikeThroughout(s, events)
    decreases |events|
  {
    hide Inv, Step, Agree, BeganAlike, Commits;
    if events != [] {
      if Commits(s, events[0]) {
        CommitIsExact(s, events[0]);
      }
      StepKeeps(s, events[0]);
      ThroughoutExactly(Step(s, events[0]), events[1..]);
    }
  }

  /**
   * Over every run, stale handlers, aborts and late answers included: each time an answer is put on the page the
   * page's filters are those it answers, if and only if each read that shows its answer began with the month and
   * bucket the page then has, and either corrected the filters or began with all of them.
   */
  lemma FiltersAgreeOverRuns(f: Filters, events: seq<Event>)
    ensures AgreesThroughout(Start(f), events) <==> BeginsAlikeThroughout(Start(f), events)
  {
    EveryRunIsInOrder(f, []);
    hide Inv;
    assert Run(Start(f), []) == Start(f);
    ThroughoutExactly(Start(f), events);
  }

  // ----- a page whose handlers see its present filters -----

  /**
   * One turn of the page: the filters change or a refresh is asked for, and the effect runs after its clean-up has
   * aborted the read it started before; a completed write reads again; an answer arrives, and corrected filters
   * run the effect; transactions are picked.
   */
  datatype Turn =
    | Change(filters: Filters, before: nat)
    | Refresh(before: nat)
    | Reread
    | Reply(id: nat, outcome: Outcome, before: nat)
    | Choose(batch: Batch, row: Row, checked: bool)
    | ChooseRegion(batch: Batch, rows: seq<Row>, checked: bool)
    | Unselect

  function CleanAndRun(s: State, before: nat): State {
    Step(Step(s, Abort(before)), Effect)
  }

  function Take(s: State, t: Turn): State {
    match t
    case Change(f, before) => CleanAndRun(Step(s, Navigate(f)), before)
    case Refresh(before) => CleanAndRun(s, before)
    case Reread => Step(s, Reload(s.filters))
    case Reply(id, outcome, before) =>
      var after := Step(s, Respond(id, outcome));
      if after.corrected.Some? then CleanAndRun(after, before) else after
    case Choose(batch, row, checked) => Step(s, Pick(batch, row, checked))
    case ChooseRegion(batch, rows, checked) => Step(s, Region(batch, rows, checked))
    case Unselect => Step(s, Clear)
  }

  function TakeAll(s: State, turns: seq<Turn>): State
    decreases |turns|
  {
    if turns == [] then s else TakeAll(Take(s, turns[0]), turns[1..])
  }

  /** The newest read is about the page's filters. */
  ghost predicate NewestIsAsked(s: State)
    requires s.latest > 0 ==> s.latest in s.calls
  {
    s.latest > 0 ==>
      var c := s.calls[s.latest];
      match c.ending
      case Waiting => c.start == s.filters && !c.aborted
      case Committed => c.next == s.filters
      case Superseded => false
      case Failed(silent) => silent || s.error
  }

  ghost predicate InStep(s: State) {
    Inv(s) && s.corrected.None? && NewestIsAsked(s)
  }

  lemma BeginIsInStep(s: State, start: Filters, reload: bool)
    requires Inv(s) && s.corrected.None? && start == s.filters
    ensures InStep(Begin(s, start, reload))
  {
    hide Inv;
    BeginKeeps(s, start, reload);
  }

  lemma AdvanceKeepsStart(c: Call, r: Response)
    ensures Advance(c, r).Ask? ==> Advance(c, r).call.start == c.start && Advance(c, r).call.ending == c.ending
    ensures Advance(c, r).Commit? ==> Advance(c, r).call.start == c.start
  {
  }

  lemma CleanAndRunIsInStep(s: State, before: nat)
    requires Inv(s) && s.corrected.None?
    ensures InStep(CleanAndRun(s, before))
  {
    hide Inv;
    StepKeeps(s, Abort(before));
    var t := Step(s, Abort(before));
    BeginIsInStep(t, t.filters, false);
  }

  /** An answer leaves the newest read about the page's filters; what it corrects is what the page now asks. */
  lemma AnswerIsAsked(s: State, id: nat, outcome: Outcome)
    requires InStep(s)
    ensures var t := Answer(s, id, outcome);
            Inv(t) && NewestIsAsked(t) &&
            (t.corrected.Some? ==> t.corrected == Some(t.filters.query) && t.latest > 0 &&
                                   t.calls[t.latest].ending != Waiting)
  {
    hide Inv, Advance, ShownOk, SelectionOk, Begin, CallOk, Corrects;
    AnswerKeeps(s, id, outcome);
    NewestExists(s);
    NewestExists(Answer(s, id, outcome));
    if IsCurrent(s, id) && s.calls[id].ending == Waiting && outcome.Answered? {
      var c := s.calls[id];
      AdvanceKeepsStart(c, outcome.response);
      AdvanceAborts(c, outcome.response);
      CallsAreOk(s, id);
      AdvanceIsOk(c, outcome.response);
      if Advance(c, outcome.response).Commit? {
        FiltersAgreeExactly(s, id, Advance(c, outcome.response).call, outcome.response);
      }
    }
  }

  /** An answer that corrects the filters is followed by an effect that finds its own correction and asks nothing. */
  lemma ReplyIsInStep(s: State, id: nat, outcome: Outcome, before: nat)
    requires InStep(s)
    ensures InStep(Take(s, Reply(id, outcome, before)))
  {
    hide Inv, Answer, Begin;
    var t := Answer(s, id, outcome);
    AnswerIsAsked(s, id, outcome);
    if t.corrected.Some? {
      NewestExists(t);
      StepKeeps(t, Abort(before));
      StepKeeps(Step(t, Abort(before)), Effect);
    }
  }

  lemma NewestExists(s: State)
    requires Inv(s)
    ensures s.latest > 0 <==> s.latest in s.calls
  {
  }

  lemma TurnIsInStep(s: State, t: Turn)
    requires InStep(s)
    ensures InStep(Take(s, t))
  {
    hide Inv, Toggle, PickRegion;
    match t
    case Change(f, before) =>
      StepKeeps(s, Navigate(f));
      CleanAndRunIsInStep(Step(s, Navigate(f)), before);
    case Refresh(before) => CleanAndRunIsInStep(s, before);
    case Reread => BeginIsInStep(s, s.filters, true);
    case Reply(id, outcome, before) => ReplyIsInStep(s, id, outcome, before);
    case Choose(batch, row, checked) => StepKeeps(s, Pick(batch, row, checked));
    case ChooseRegion(batch, rows, checked) => StepKeeps(s, Region(batch, rows, checked));
    case Unselect => StepKeeps(s, Clear);
  }

  lemma {:induction false} TurnsAreInStep(s: State, turns: seq<Turn>)
    requires InStep(s)
    ensures InStep(TakeAll(s, turns))
    decreases |turns|
  {
    hide InStep, Take;
    if turns != [] {
      TurnIsInStep(s, turns[0]);
      TurnsAreInStep(Take(s, turns[0]), turns[1..]);
    }
  }

  lemma StartIsInStep(f: Filters)
    ensures InStep(Start(f))
  {
  }

  /**
   * After any number of turns, a page that is not loading either reports an error, lost its newest read to what
   * looked like an abort, or shows the answer to exactly the filters it displays.
   */
  lemma IdlePageShowsWhatIsAsked(f: Filters, turns: seq<Turn>)
    ensures var s := TakeAll(Start(f), turns);
            !s.loading && s.latest > 0 && !s.error && s.latest in s.calls && s.calls[s.latest].ending != Failed(true) ==>
              s.shown.Some? && s.shown.value.reader == s.latest && s.shown.value.filters == s.filters &&
              Consistent(s.filters, s.shown.value.response)
  {
    hide Take, TakeAll, Consistent, CallOk, SelectionOk;
    StartIsInStep(f);
    TurnsAreInStep(Start(f), turns);
  }

  // ----- where the guarantee ends -----

  const OPENING := Filters(Query("", "unsubmitted", 1, []), "", None)
  const SUBMITTED := Filters(Query("", "submitted", 1, []), "", None)
  const HELD := Filters(Query("", "submitted", 3, []), "", None)
  const MOVED := Filters(Query("", "submitted", 2, []), "", None)
  const SHORT := Answered(Response(Some([]), 60, 50))
  const LONG := Answered(Response(Some([]), 120, 50))

  predicate Uncategorised(f: Filters) {
    f.query.codes == [] && f.primary == "" && f.sub.None?
  }

  /** Nothing is to be corrected, and nothing is wrong. */
  predicate Settled(s: State, f: Filters, latest: nat) {
    s.filters == f && s.corrected.None? && s.latest == latest && !s.error
  }

  /** The page reads and shows what it asks for. */
  lemma Loads(s: State, f: Filters, latest: nat)
    requires Settled(s, f, latest) && Uncategorised(f) && f.query.page <= 3
    ensures Settled(Step(Step(s, Effect), Respond(latest + 1, LONG)), f, latest + 1)
  {
    assert LastPage(LONG.response) == 3;
    var t := Step(s, Effect);
    assert t.calls[latest + 1] == Call(f, f, First, false, false, false, Waiting);
  }

  /** The page reads past the end of a list that has shrunk, and moves back to the last page there is. */
  lemma PageMovesBack(s: State, latest: nat)
    requires Settled(s, HELD, latest)
    ensures var asked := Step(s, Effect);
            var answered := Step(Step(asked, Respond(latest + 1, SHORT)), Respond(latest + 1, SHORT));
            Settled(Step(answered, Effect), MOVED, latest + 1)
  {
    var t := Step(Step(s, Effect), Respond(latest + 1, SHORT));
    assert LastPage(SHORT.response) == 2;
    assert t.calls[latest + 1] == Call(HELD, MOVED, Third, false, false, false, Waiting);
    assert Step(t, Respond(latest + 1, SHORT)).corrected == Some(MOVED.query);
  }

  lemma HeldFiltersAreShown(s: State, latest: nat)
    requires Settled(s, MOVED, latest)
    ensures var t := Step(Step(s, Reload(HELD)), Respond(latest + 1, LONG));
            !t.loading && !t.error && t.shown.Some? && t.shown.value.filters == HELD && t.filters == MOVED
  {
    assert LastPage(LONG.response) == 3;
  }

  /** From the page's first state: it loads, its user turns to the submitted batches and then to their third page. */
  const TO_THIRD_PAGE: seq<Event> :=
    [Effect, Respond(1, LONG), Navigate(SUBMITTED), Effect, Respond(2, LONG), Navigate(HELD)]

  lemma ReachesThirdPage()
    ensures Settled(Run(Start(OPENING), TO_THIRD_PAGE), HELD, 2)
  {
    var s0 := Start(OPENING);
    assert Settled(s0, OPENING, 0);
    Loads(s0, OPENING, 0);
    var s2 := Step(Step(s0, Effect), Respond(1, LONG));
    var s3 := Step(s2, Navigate(SUBMITTED));
    assert Settled(s3, SUBMITTED, 1);
    Loads(s3, SUBMITTED, 1);
    var s5 := Step(Step(s3, Effect), Respond(2, LONG));
    assert Settled(Step(s5, Navigate(HELD)), HELD, 2);
    hide Step, Start, Settled;
    OneByOne(s0, Effect, [Respond(1, LONG), Navigate(SUBMITTED), Effect, Respond(2, LONG), Navigate(HELD)]);
    OneByOne(Step(s0, Effect), Respond(1, LONG), [Navigate(SUBMITTED), Effect, Respond(2, LONG), Navigate(HELD)]);
    OneByOne(s2, Navigate(SUBMITTED), [Effect, Respond(2, LONG), Navigate(HELD)]);
    OneByOne(s3, Effect, [Respond(2, LONG), Navigate(HELD)]);
    OneByOne(Step(s3, Effect), Respond(2, LONG), [Navigate(HELD)]);
    OneByOne(s5, Navigate(HELD), []);
  }

  /**
   * A write that is confirmed while a read is open holds on to the filters of that moment. If the read then moves
   * the page back to the last page there is, and the list grows before the write has ended, the reading after the
   * write shows the old page under the new page's number, and nothing on the page says so.
   */
  lemma StaleHandlerShowsAnotherPage()
    ensures var s := Run(Start(OPENING), TO_THIRD_PAGE + [Effect, Respond(3, SHORT), Respond(3, SHORT), Effect,
                                                          Reload(HELD), Respond(4, LONG)]);
            !s.loading && !s.error && s.shown.Some? && s.shown.value.filters == HELD && s.filters == MOVED != HELD
  {
    ReachesThirdPage();
    hide Step, Start, Settled, TO_THIRD_PAGE;
    var a, b, c := Respond(3, SHORT), Reload(HELD), Respond(4, LONG);
    var s0 := Run(Start(OPENING), TO_THIRD_PAGE);
    RunConcat(Start(OPENING), TO_THIRD_PAGE, [Effect, a, a, Effect, b, c]);
    var s1 := Step(s0, Effect);
    var s2 := Step(s1, a);
    var s3 := Step(s2, a);
    var s4 := Step(s3, Effect);
    PageMovesBack(s0, 2);
    HeldFiltersAreShown(s4, 3);
    OneByOne(s0, Effect, [a, a, Effect, b, c]);
    OneByOne(s1, a, [a, Effect, b, c]);
    OneByOne(s2, a, [Effect, b, c]);
    OneByOne(s3, Effect, [b, c]);
    OneByOne(s4, b, [c]);
    OneByOne(Step(s4, b), c, []);
  }

  lemma {:induction false} RunConcat(s: State, xs: seq<Event>, ys: seq<Event>)
    ensures Run(s, xs + ys) == Run(Run(s, xs), ys)
    decreases |xs|
  {
    hide Step;
    if xs == [] {
      assert xs + ys == ys;
    } else {
      assert (xs + ys)[1..] == xs[1..] + ys;
      RunConcat(Step(s, xs[0]), xs[1..], ys);
    }
  }

  lemma OneByOne(s: State, e: Event, rest: seq<Event>)
    ensures Run(s, [e] + rest) == Run(Step(s, e), rest)
    ensures Run(s, []) == s
  {
    assert ([e] + rest)[1..] == rest;
  }
}
