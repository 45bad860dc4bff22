/** What a user sees of a drag and of a toggle, in steps of a ten-thousandth of the container. */
module PaneOutcomes {
  import opened Common
  import opened PaneWidths
  import PaneRuns

  // ----- dragging -----

  /** Where the mouse has taken the left edge of the pair's right pane, in a container of at least one pixel. */
  function Asked(d: Drag, x: real): real
    requires d.left < |d.start|
  {
    d.start[d.left] as real + (x - d.startX) / (if d.container > 1.0 then d.container else 1.0) * 10000.0
  }

  /** A width is the number rounded to the nearest step. */
  predicate IsNear(w: int, x: real) {
    -0.5 <= w as real - x <= 0.5
  }

  /**
   * The left pane follows the mouse and the right one takes what the pair has left, but within six hundredths of the
   * container from an end the pane at that end shuts.
   */
  lemma DragFollowsMouse(ws: seq<int>, d: Drag, x: real, next: seq<int>)
    requires IsDrag(d, |ws|) && Moved(ws, d, x, next) && d.start[d.left] + d.start[d.right] >= 0
    ensures var pair, asked := d.start[d.left] + d.start[d.right], Asked(d, x);
            && (asked <= 600.0 || pair <= 600 ==> next[d.left] == 0 && next[d.right] == pair)
            && (pair > 600 && asked >= pair as real - 600.0 && asked > 600.0 ==> next[d.left] == pair && next[d.right] == 0)
            && (600.0 < asked < pair as real - 600.0 ==>
                  IsNear(next[d.left], asked) && IsNear(next[d.right], pair as real - asked))
  {
    hide RoundWidth;
    var w := WantedLeft(d, x);
    RoundWhole(0);
    RoundWhole(PairTotal(d));
    RoundedWithinHalf(w);
    RoundedWithinHalf(PairTotal(d) as real - w);
  }

  /** Back where the drag began, the pair has its widths again, if neither pane was near its end. */
  lemma DragBackRestores(ws: seq<int>, d: Drag, next: seq<int>)
    requires IsDrag(d, |ws|) && Moved(ws, d, d.startX, next)
    requires d.start[d.left] > 600 && d.start[d.right] > 600
    ensures next[d.left] == d.start[d.left] && next[d.right] == d.start[d.right]
  {
    assert Asked(d, d.startX) == d.start[d.left] as real;
    hide RoundWidth;
    RoundWhole(d.start[d.left]);
    RoundWhole(d.start[d.right]);
  }

  lemma QuotientIsMonotone(a: real, b: real, c: real)
    requires a <= b && c > 0.0
    ensures a / c <= b / c
  {
  }

  lemma RoundingIsMonotone(a: real, b: real)
    requires a <= b
    ensures RoundWidth(a) <= RoundWidth(b)
  {
  }

  /** A mouse further right never leaves the left pane narrower or the right one wider. */
  lemma DragIsMonotone(ws: seq<int>, d: Drag, x: real, y: real, next: seq<int>, later: seq<int>)
    requires IsDrag(d, |ws|) && Moved(ws, d, x, next) && Moved(ws, d, y, later) && x <= y
    requires d.start[d.left] + d.start[d.right] >= 0
    ensures next[d.left] <= later[d.left] && next[d.right] >= later[d.right]
  {
    hide RoundWidth;
    QuotientIsMonotone(x - d.startX, y - d.startX, MaxReal(d.container, 1.0));
    assert WantedLeft(d, x) <= WantedLeft(d, y);
    RoundingIsMonotone(WantedLeft(d, x), WantedLeft(d, y));
    RoundingIsMonotone(PairTotal(d) as real - WantedLeft(d, y), PairTotal(d) as real - WantedLeft(d, x));
  }

  /** A drag takes hold of the widths there are: a first move that goes nowhere changes none, if neither pane was near its end. */
  lemma StartMovesNothing(p: PaneRuns.Panes, q: PaneRuns.Panes, r: PaneRuns.Panes, left: nat, right: nat, x: real, container: real,
                          defaults: seq<int>)
    requires PaneRuns.Next(p, PaneRuns.Start(left, right, x, container), q, defaults) && PaneRuns.Next(q, PaneRuns.Move(x), r, defaults)
    requires left < |p.widths| && right < |p.widths| && p.widths[left] > 600 && p.widths[right] > 600
    ensures r.widths == p.widths && r.drag == q.drag && r.drag.Some?
  {
    hide Moved;
    var d := q.drag.value;
    DragBackRestores(q.widths, d, r.widths);
    OthersStay(q.widths, d, x, r.widths);
  }

  lemma OthersStay(ws: seq<int>, d: Drag, x: real, next: seq<int>)
    requires IsDrag(d, |ws|) && Moved(ws, d, x, next)
    ensures |next| == |ws| && forall i :: 0 <= i < |ws| && i != d.left && i != d.right ==> next[i] == ws[i]
  {
  }

  // ----- toggling -----

  /** Some pane other than this one is more than one step wide. */
  ghost predicate AnotherIsOpen(ws: seq<int>, t: nat) {
    exists i :: 0 <= i < |ws| && i != t && ws[i] > 1
  }

  /** The other panes keep their proportions: the open ones are multiplied by one factor, the shut ones stay as they are. */
  ghost predicate InProportion(ws: seq<int>, t: nat, next: seq<int>) {
    |next| == |ws| && exists c: real :: ByFactor(ws, t, next, c)
  }

  ghost predicate ByFactor(ws: seq<int>, t: nat, next: seq<int>, c: real)
    requires |next| == |ws|
  {
    forall i :: 0 <= i < |ws| && i != t ==> if ws[i] > 1 then IsNear(next[i], c * ws[i] as real) else next[i] == ws[i]
  }

  lemma {:induction false} CountsOpen(ws: seq<int>, t: nat, n: nat)
    requires n <= |ws|
    ensures CountOthers(ws, t, n) > 0 <==> exists i :: 0 <= i < n && IsOther(ws, t, i)
    ensures CountOthers(ws, |ws|, n) == CountOthers(ws, t, n) + if t < n && Visible(ws[t]) then 1 else 0
  {
    if n > 0 {
      CountsOpen(ws, t, n - 1);
      assert IsOther(ws, t, n - 1) ==> CountOthers(ws, t, n) > 0;
    }
  }

  lemma ScaledIsProportional(ws: seq<int>, t: nat, next: seq<int>, c: real, v: int)
    requires Scaled(ws, t, next, c, v)
    ensures InProportion(ws, t, next)
  {
    hide ScaledWidth;
    forall i | 0 <= i < |ws| && i != t
      ensures if ws[i] > 1 then IsNear(next[i], c * ws[i] as real) else next[i] == ws[i]
    {
      ScaledWidthWithinHalf(ws[i], c);
    }
    assert ByFactor(ws, t, next, c);
  }

  lemma OpenOthers(ws: seq<int>, t: nat)
    requires t < |ws|
    ensures AnotherIsOpen(ws, t) <==> Others(ws, t, |ws|) > 0
    ensures CountVisible(ws) <= 1 <==> !AnotherIsOpen(ws, t) || (ws[t] <= 1 && CountOthers(ws, t, |ws|) == 1)
  {
    OthersArePositive(ws, t, |ws|);
    CountsOpen(ws, t, |ws|);
    if AnotherIsOpen(ws, t) {
      var i :| 0 <= i < |ws| && i != t && ws[i] > 1;
      assert IsOther(ws, t, i);
    }
  }

  /**
   * An open pane shuts, unless it is the last; a shut pane opens at its default, and if no other is open all panes go
   * back to their defaults. The others keep their proportions.
   */
  lemma ToggleExactly(ws: seq<int>, t: nat, defaults: seq<int>, next: seq<int>)
    requires t < |ws| == |defaults| && Toggled(ws, t, defaults, next)
    ensures ws[t] > 1 && AnotherIsOpen(ws, t) ==> next[t] == 0 && InProportion(ws, t, next)
    ensures ws[t] > 1 && !AnotherIsOpen(ws, t) ==> next == ws
    ensures ws[t] <= 1 && AnotherIsOpen(ws, t) ==> next[t] == defaults[t] && InProportion(ws, t, next)
    ensures ws[t] <= 1 && !AnotherIsOpen(ws, t) ==> next == defaults
  {
    OpenOthers(ws, t);
    hide AnotherIsOpen, InProportion, Others, CountVisible, CountOthers, CollapseFactor, RestoreFactor, Scaled;
    var total := Others(ws, t, |ws|);
    if total > 0 {
      if ws[t] > 1 {
        Shut(ws, t, next, CollapseFactor(ws[t], total), 0);
      } else {
        Shut(ws, t, next, RestoreFactor(10000 - defaults[t], total), defaults[t]);
      }
    }
  }

  lemma Shut(ws: seq<int>, t: nat, next: seq<int>, c: real, v: int)
    requires Scaled(ws, t, next, c, v)
    ensures t < |ws| == |next| && next[t] == v && InProportion(ws, t, next)
  {
    ScaledIsProportional(ws, t, next, c, v);
  }
}
