/** Whole runs of toggles and drags, and exactly when a run leaves no pane to be seen. */
module PaneRuns {
  import opened Common
  import opened PaneWidths

  datatype Panes = Panes(widths: seq<int>, drag: Option<Drag>)

  datatype Event = Toggle(pane: nat) | Start(left: nat, right: nat, x: real, container: real) | Move(x: real) | Release

  ghost predicate Next(p: Panes, e: Event, q: Panes, defaults: seq<int>) {
    match e
    case Toggle(t) => t < |p.widths| == |defaults| && Toggled(p.widths, t, defaults, q.widths) && q.drag == p.drag
    case Start(l, r, x, container) =>
      IsDrag(Drag(l, r, x, p.widths, container), |p.widths|) && q == p.(drag := Some(Drag(l, r, x, p.widths, container)))
    case Move(x) =>
      p.drag.Some? && q.drag == p.drag && IsDrag(p.drag.value, |p.widths|) && Moved(p.widths, p.drag.value, x, q.widths)
    case Release => q == p.(drag := None)
  }

  ghost predicate NotNegative(ws: seq<int>) {
    forall i :: 0 <= i < |ws| ==> ws[i] >= 0
  }

  ghost predicate Good(p: Panes, n: nat) {
    |p.widths| == n && NotNegative(p.widths) &&
    (p.drag.Some? ==> IsDrag(p.drag.value, n) && NotNegative(p.drag.value.start))
  }

  /** What can be looked up before a move: the pair was not shut when the drag began, or some other pane is visible. */
  ghost predicate LeavesOne(p: Panes) {
    p.drag.Some? && IsDrag(p.drag.value, |p.widths|) ==>
      Visible(PairTotal(p.drag.value)) || OtherVisible(p.widths, p.drag.value)
  }

  ghost predicate OtherVisible(ws: seq<int>, d: Drag) {
    exists i :: 0 <= i < |ws| && i != d.left && i != d.right && Visible(ws[i])
  }

  /** A pair that was shut when the drag began is shut by every move. */
  lemma ShutPairStaysShut(d: Drag, x: real)
    requires d.left < |d.start| && d.right < |d.start| && 0 <= PairTotal(d) && !Visible(PairTotal(d))
    ensures 0 <= RoundWidth(WantedLeft(d, x)) && !Visible(RoundWidth(WantedLeft(d, x)))
    ensures var rest := RoundWidth(PairTotal(d) as real - WantedLeft(d, x)); 0 <= rest && !Visible(rest)
  {
    hide RoundWidth;
    WantedIsWithin(d, x);
    RoundWhole(PairTotal(d));
    RoundWhole(0);
  }

  /** A move leaves a visible pane if and only if its pair was not shut at the start or another pane is visible. */
  lemma MoveKeepsSaneExactly(ws: seq<int>, d: Drag, x: real, next: seq<int>)
    requires IsDrag(d, |ws|) && NotNegative(ws) && NotNegative(d.start) && Moved(ws, d, x, next)
    ensures NotNegative(next)
    ensures Sane(next) <==> Visible(PairTotal(d)) || OtherVisible(ws, d)
  {
    if Visible(PairTotal(d)) {
      DragLeavesOneVisible(d, x);
      hide RoundWidth, WantedLeft;
      assert Visible(next[d.left]) || Visible(next[d.right]);
    } else {
      ShutPairStaysShut(d, x);
      hide RoundWidth, WantedLeft;
      if OtherVisible(ws, d) {
        var i :| 0 <= i < |ws| && i != d.left && i != d.right && Visible(ws[i]);
        assert Visible(next[i]);
      }
    }
  }

  lemma ToggleKeepsNotNegative(ws: seq<int>, t: nat, defaults: seq<int>, next: seq<int>)
    requires NotNegative(ws) && GoodDefaults(defaults) && t < |ws| == |defaults| && Toggled(ws, t, defaults, next)
    ensures NotNegative(next) && |next| == |ws|
  {
    var total := Others(ws, t, |ws|);
    hide ScaledWidth, Others, CollapseFactor, RestoreFactor, CountVisible;
    if total > 0 {
      forall i | 0 <= i < |ws| ensures |next| == |ws| && next[i] >= 0 {
        if Visible(ws[t]) {
          GrownWidth(ws[i], ws[t], total);
        } else {
          ScaledIsNotNegative(ws[i], WHOLE - defaults[t], total);
        }
      }
    }
  }

  lemma NextKeepsGood(p: Panes, e: Event, q: Panes, defaults: seq<int>)
    requires GoodDefaults(defaults) && Good(p, |defaults|) && Next(p, e, q, defaults)
    ensures Good(q, |defaults|)
    ensures Sane(p.widths) ==> (Sane(q.widths) <==> (e.Move? ==> LeavesOne(p)))
  {
    hide GoodDefaults, NotNegative, Sane, OtherVisible, Toggled, Moved;
    match e
    case Toggle(t) =>
      ToggleKeepsNotNegative(p.widths, t, defaults, q.widths);
      if Sane(p.widths) {
        ToggleKeepsSane(p.widths, t, defaults, q.widths);
      }
    case Move(x) =>
      MoveKeepsSaneExactly(p.widths, p.drag.value, x, q.widths);
      MovedKeepsLength(p.widths, p.drag.value, x, q.widths);
    case Start(_, _, _, _) =>
    case Release =>
  }

  lemma MovedKeepsLength(ws: seq<int>, d: Drag, x: real, next: seq<int>)
    requires IsDrag(d, |ws|) && Moved(ws, d, x, next)
    ensures |next| == |ws|
  {
  }

  ghost predicate IsRun(states: seq<Panes>, events: seq<Event>, defaults: seq<int>) {
    |states| == |events| + 1 && forall k :: 0 <= k < |events| ==> Next(states[k], events[k], states[k + 1], defaults)
  }

  /** Over every run no width is negative, toggles in mid-drag and drags of shut pairs included. */
  lemma {:induction false} RunsStayGood(states: seq<Panes>, events: seq<Event>, defaults: seq<int>, k: nat)
    requires GoodDefaults(defaults) && IsRun(states, events, defaults) && Good(states[0], |defaults|) && k <= |events|
    ensures Good(states[k], |defaults|)
    decreases k
  {
    hide Next, GoodDefaults, Good;
    if k > 0 {
      RunsStayGood(states, events, defaults, k - 1);
      NextKeepsGood(states[k - 1], events[k - 1], states[k], defaults);
    }
  }

  /** Every state up to the `k`-th has a visible pane. */
  ghost predicate SaneUpTo(states: seq<Panes>, k: nat)
    requires k < |states|
  {
    forall j :: 0 <= j <= k ==> Sane(states[j].widths)
  }

  ghost predicate MovesLeaveOne(states: seq<Panes>, events: seq<Event>, k: nat)
    requires |states| == |events| + 1 && k <= |events|
  {
    forall j :: 0 <= j < k && events[j].Move? ==> LeavesOne(states[j])
  }

  lemma {:induction false} SaneExactly(states: seq<Panes>, events: seq<Event>, defaults: seq<int>, k: nat)
    requires GoodDefaults(defaults) && IsRun(states, events, defaults) && Good(states[0], |defaults|) && k <= |events|
    requires Sane(states[0].widths)
    ensures SaneUpTo(states, k) <==> MovesLeaveOne(states, events, k)
    decreases k
  {
    hide Next, GoodDefaults, Good, Sane, LeavesOne;
    if k > 0 {
      SaneExactly(states, events, defaults, k - 1);
      RunsStayGood(states, events, defaults, k - 1);
      NextKeepsGood(states[k - 1], events[k - 1], states[k], defaults);
      assert SaneUpTo(states, k) <==> SaneUpTo(states, k - 1) && Sane(states[k].widths);
      assert MovesLeaveOne(states, events, k) <==>
             MovesLeaveOne(states, events, k - 1) && (events[k - 1].Move? ==> LeavesOne(states[k - 1]));
    }
  }

  /**
   * Exactly when a pane stays visible: over every run of toggles, drags of any pair, moves and releases, every state
   * has a visible pane if and only if every move was made with a pair that was not shut when its drag began, or
   * while another pane was visible.
   */
  lemma RunsStaySaneExactly(states: seq<Panes>, events: seq<Event>, defaults: seq<int>)
    requires GoodDefaults(defaults) && IsRun(states, events, defaults)
    requires |states[0].widths| == |defaults| && Sane(states[0].widths) && states[0].drag.None?
    ensures (forall k :: 0 <= k < |states| ==> Sane(states[k].widths)) <==>
            (forall k :: 0 <= k < |events| && events[k].Move? ==> LeavesOne(states[k]))
  {
    hide Next, GoodDefaults, LeavesOne;
    SaneExactly(states, events, defaults, |events|);
  }

  // ----- a run on the wrong side -----

  const DEFAULTS: seq<int> := [3200, 3600, 3200]
  const SHUT: seq<int> := [0, 0, 10000]
  const STALE := Drag(0, 1, 0.0, SHUT, 1000.0)

  /** Widths along the run: the drag starts, the first pane is opened, the third is closed, the mouse moves. */
  const STATES := [Panes(SHUT, None), Panes(SHUT, Some(STALE)), Panes([3200, 0, 6800], Some(STALE)),
                   Panes([10000, 0, 0], Some(STALE)), Panes([0, 0, 0], Some(STALE))]
  const EVENTS := [Start(0, 1, 0.0, 1000.0), Toggle(0), Toggle(2), Move(0.0)]

  lemma OthersOfThree(ws: seq<int>, t: nat)
    requires |ws| == 3
    ensures Others(ws, t, 3) == (if IsOther(ws, t, 0) then ws[0] else 0) + (if IsOther(ws, t, 1) then ws[1] else 0)
                                + (if IsOther(ws, t, 2) then ws[2] else 0)
    ensures CountVisible(ws) == (if Visible(ws[0]) then 1 else 0) + (if Visible(ws[1]) then 1 else 0)
                                + (if Visible(ws[2]) then 1 else 0)
  {
    assert Others(ws, t, 1) == if IsOther(ws, t, 0) then ws[0] else 0;
    assert CountOthers(ws, 3, 1) == if Visible(ws[0]) then 1 else 0;
    assert CountOthers(ws, 3, 2) == CountOthers(ws, 3, 1) + if Visible(ws[1]) then 1 else 0;
    assert CountOthers(ws, 3, 3) == CountOthers(ws, 3, 2) + if Visible(ws[2]) then 1 else 0;
  }

  lemma OpensFirst()
    ensures Toggled(SHUT, 0, DEFAULTS, [3200, 0, 6800])
  {
    OthersOfThree(SHUT, 0);
    RoundWhole(6800);
    QuotientTimes(6800, 10000);
  }

  lemma ClosesThird()
    ensures Toggled([3200, 0, 6800], 2, DEFAULTS, [10000, 0, 0])
  {
    OthersOfThree([3200, 0, 6800], 2);
    RoundWhole(10000);
    QuotientTimes(6800, 3200);
  }

  lemma ShutsAll()
    ensures Moved([10000, 0, 0], STALE, 0.0, [0, 0, 0])
  {
    RoundWhole(0);
  }

  /** A drag that began on a shut pair, outlived two toggles and then moved leaves nothing to be seen. */
  lemma StaleDragShutsAll()
    ensures GoodDefaults(DEFAULTS) && IsRun(STATES, EVENTS, DEFAULTS) && Sane(STATES[0].widths) && STATES[0].drag.None?
    ensures !Sane(STATES[4].widths) && !LeavesOne(STATES[3])
  {
    OpensFirst();
    ClosesThird();
    ShutsAll();
    hide Toggled, Moved;
    assert Visible(SHUT[2]);
    assert Next(STATES[0], EVENTS[0], STATES[1], DEFAULTS);
    assert Next(STATES[1], EVENTS[1], STATES[2], DEFAULTS);
    assert Next(STATES[2], EVENTS[2], STATES[3], DEFAULTS);
    assert Next(STATES[3], EVENTS[3], STATES[4], DEFAULTS);
  }
}
