/**
 * Widths of resizable panes. The program keeps fractions of a container with four decimals; here a width is the
 * number of those steps of 0.0001, and the container is 10000 of them. What is not yet rounded is real.
 */
module PaneWidths {
  import opened Common

  const WHOLE: int := 10000
  const COLLAPSE_EPSILON: int := 1
  const SNAP_THRESHOLD: real := 600.0

  /** To whole steps, halves going up. */
  function RoundWidth(x: real): int {
    (x + 0.5).Floor
  }

  function Times(a: real, b: real): real {
    a * b
  }

  predicate Visible(w: int) {
    w > COLLAPSE_EPSILON
  }

  lemma RoundedWithinHalf(x: real)
    ensures -0.5 <= RoundWidth(x) as real - x <= 0.5
    ensures x >= 0.0 ==> RoundWidth(x) >= 0
  {
  }

  lemma RoundedAtLeast(x: real, w: int)
    requires w as real <= x
    ensures RoundWidth(x) >= w
  {
  }

  // ----- sums -----

  function Total(ws: seq<int>, n: nat): int
    requires n <= |ws|
  {
    if n == 0 then 0 else Total(ws, n - 1) + ws[n - 1]
  }

  predicate IsOther(ws: seq<int>, t: nat, i: nat)
    requires i < |ws|
  {
    i != t && Visible(ws[i])
  }

  /** The width of the visible panes other than `t`, among the first `n`. */
  function Others(ws: seq<int>, t: nat, n: nat): (r: nat)
    requires n <= |ws|
  {
    if n == 0 then 0 else Others(ws, t, n - 1) + (if IsOther(ws, t, n - 1) then ws[n - 1] else 0)
  }

  function CountOthers(ws: seq<int>, t: nat, n: nat): nat
    requires n <= |ws|
  {
    if n == 0 then 0 else CountOthers(ws, t, n - 1) + (if IsOther(ws, t, n - 1) then 1 else 0)
  }

  /** The width of the panes other than `t` that are not visible. */
  function Hidden(ws: seq<int>, t: nat, n: nat): int
    requires n <= |ws|
  {
    if n == 0 then 0
    else Hidden(ws, t, n - 1) + (if n - 1 != t && !Visible(ws[n - 1]) then ws[n - 1] else 0)
  }

  lemma {:induction false} OthersArePositive(ws: seq<int>, t: nat, n: nat)
    requires n <= |ws|
    ensures Others(ws, t, n) > 0 <==> exists i :: 0 <= i < n && IsOther(ws, t, i)
  {
    if n > 0 {
      OthersArePositive(ws, t, n - 1);
      assert IsOther(ws, t, n - 1) ==> Others(ws, t, n) > 0;
    }
  }

  lemma {:induction false} TotalParts(ws: seq<int>, t: nat, n: nat)
    requires n <= |ws| && t < |ws|
    ensures Total(ws, n) == Others(ws, t, n) + Hidden(ws, t, n) + (if t < n then ws[t] else 0)
  {
    if n > 0 {
      TotalParts(ws, t, n - 1);
    }
  }

  // ----- what the operations do -----

  /** Pane `t` gets a width, the other visible panes keep their proportions, and hidden ones stay as they are. */
  ghost predicate Scaled(ws: seq<int>, t: nat, next: seq<int>, c: real, v: int) {
    |next| == |ws| && t < |ws| && next[t] == v &&
    forall i :: 0 <= i < |ws| && i != t ==> next[i] == ScaledWidth(ws[i], c)
  }

  function ScaledWidth(w: int, c: real): int {
    if Visible(w) then RoundWidth(Times(c, w as real)) else w
  }

  lemma ScaledWidthWithinHalf(w: int, c: real)
    ensures Visible(w) ==> -0.5 <= ScaledWidth(w, c) as real - Times(c, w as real) <= 0.5
    ensures !Visible(w) ==> ScaledWidth(w, c) == w
  {
    hide RoundWidth, Times;
    RoundedWithinHalf(Times(c, w as real));
  }

  lemma Distribute(c: real, a: int, b: int)
    ensures Times(c, (a + b) as real) == Times(c, a as real) + Times(c, b as real)
  {
  }

  /** The total before anything is rounded. */
  function Exact(ws: seq<int>, t: nat, c: real, v: int, n: nat): real
    requires n <= |ws|
  {
    if n == 0 then 0.0
    else Exact(ws, t, c, v, n - 1) + ExactWidth(ws[n - 1], n - 1 == t, c, v)
  }

  function ExactWidth(w: int, changed: bool, c: real, v: int): real {
    if changed then v as real else if Visible(w) then Times(c, w as real) else w as real
  }

  lemma {:induction false} ExactIs(ws: seq<int>, t: nat, c: real, v: int, n: nat)
    requires n <= |ws|
    ensures Exact(ws, t, c, v, n) ==
            Times(c, Others(ws, t, n) as real) + Hidden(ws, t, n) as real + (if t < n then v else 0) as real
  {
    if n == 0 {
      assert Times(c, 0.0) == 0.0;
    } else {
      var i := n - 1;
      ExactIs(ws, t, c, v, i);
      hide ExactWidth, Times;
      ExactStep(c, Others(ws, t, i), Hidden(ws, t, i), ws[i], i == t, v);
    }
  }

  lemma ExactStep(c: real, o: int, h: int, w: int, changed: bool, v: int)
    ensures var other, hidden := if !changed && Visible(w) then w else 0, if !changed && !Visible(w) then w else 0;
            Times(c, o as real) + h as real + ExactWidth(w, changed, c, v) ==
            Times(c, (o + other) as real) + (h + hidden) as real + (if changed then v else 0) as real
  {
    if !changed && Visible(w) {
      Distribute(c, o, w);
      hide Times;
    }
  }

  /** Rounding moves the scaled total by at most half a step for each visible pane. */
  lemma {:induction false} ScaledTotal(ws: seq<int>, t: nat, next: seq<int>, c: real, v: int, n: nat)
    requires Scaled(ws, t, next, c, v) && n <= |ws|
    ensures var bound := 0.5 * CountOthers(ws, t, n) as real;
            -bound <= Total(next, n) as real - Exact(ws, t, c, v, n) <= bound
  {
    if n > 0 {
      var i := n - 1;
      ScaledTotal(ws, t, next, c, v, i);
      ScaledWidthWithinHalf(ws[i], c);
      hide ScaledWidth;
      var e := ExactWidth(ws[i], i == t, c, v);
      assert IsOther(ws, t, i) ==> -0.5 <= next[i] as real - e <= 0.5;
      assert !IsOther(ws, t, i) ==> next[i] as real == e;
      hide ExactWidth;
    }
  }

  /** What collapsing or restoring a pane multiplies the other visible widths by. */
  function CollapseFactor(released: int, total: int): real
    requires total > 0
  {
    1.0 + released as real / total as real
  }

  function RestoreFactor(remaining: int, total: int): real
    requires total > 0
  {
    remaining as real / total as real
  }

  ghost predicate Collapsed(ws: seq<int>, t: nat, next: seq<int>)
    requires t < |ws|
  {
    var total := Others(ws, t, |ws|);
    if total > 0 then Scaled(ws, t, next, CollapseFactor(ws[t], total), 0) else next == ws
  }

  ghost predicate Restored(ws: seq<int>, t: nat, defaults: seq<int>, next: seq<int>)
    requires t < |ws| == |defaults|
  {
    var total := Others(ws, t, |ws|);
    if total > 0 then Scaled(ws, t, next, RestoreFactor(WHOLE - defaults[t], total), defaults[t]) else next == defaults
  }

  function CountVisible(ws: seq<int>): nat {
    CountOthers(ws, |ws|, |ws|)
  }

  ghost predicate Toggled(ws: seq<int>, t: nat, defaults: seq<int>, next: seq<int>)
    requires t < |ws| == |defaults|
  {
    if Visible(ws[t]) then (if CountVisible(ws) <= 1 then next == ws else Collapsed(ws, t, next))
    else Restored(ws, t, defaults, next)
  }

  // ----- the program -----

  /** The visible panes other than `t`, in order, and their width. */
  method OtherIndices(ws: seq<int>, t: nat) returns (indices: seq<nat>, total: nat)
    ensures forall k :: 0 <= k < |indices| ==> indices[k] < |ws| && IsOther(ws, t, indices[k])
    ensures forall j, k :: 0 <= j < k < |indices| ==> indices[j] < indices[k]
    ensures forall i :: 0 <= i < |ws| && IsOther(ws, t, i) ==> i in indices
    ensures total == Others(ws, t, |ws|) && (indices == [] <==> total == 0)
  {
    indices, total := [], 0;
    var i := 0;
    while i < |ws|
      invariant 0 <= i <= |ws|
      invariant forall k :: 0 <= k < |indices| ==> indices[k] < i && IsOther(ws, t, indices[k])
      invariant forall j, k :: 0 <= j < k < |indices| ==> indices[j] < indices[k]
      invariant forall j :: 0 <= j < i && IsOther(ws, t, j) ==> j in indices
      invariant total == Others(ws, t, i) && (indices == [] <==> total == 0)
    {
      if i != t && ws[i] > COLLAPSE_EPSILON {
        indices := indices + [i];
        total := total + ws[i];
      }
      i := i + 1;
    }
  }

  lemma ShareOfReleased(w: real, released: real, total: real)
    requires total > 0.0
    ensures w + released * (w / total) == Times(1.0 + released / total, w)
  {
    ShareOfRemaining(w, released, total);
    var q := released / total;
    assert (1.0 + q) * w == w + q * w;
  }

  lemma ShareOfRemaining(w: real, remaining: real, total: real)
    requires total > 0.0
    ensures remaining * (w / total) == Times(remaining / total, w)
  {
    var p, q := w / total, remaining / total;
    assert p * total == w && q * total == remaining;
    assert remaining * p == q * total * p == q * (p * total);
  }

  /** A pane's width with its share of what a collapsed pane released. */
  function WithShare(w: int, released: int, total: int): int
    requires total > 0
  {
    RoundWidth(w as real + released as real * (w as real / total as real))
  }

  /** A pane's share of what a restored pane leaves. */
  function ShareOf(w: int, remaining: int, total: int): int
    requires total > 0
  {
    RoundWidth(remaining as real * (w as real / total as real))
  }

  method RedistributeWidths(ws: seq<int>, t: nat) returns (result: seq<int>)
    requires t < |ws|
    ensures Collapsed(ws, t, result)
  {
    hide WithShare, ShareOf, CollapseFactor, RestoreFactor, RoundWidth, Times, Others;
    var indices, total := OtherIndices(ws, t);
    if indices == [] { return ws; }
    var next := new int[|ws|];
    forall i | 0 <= i < |ws| {
      next[i] := ws[i];
    }
    var released := next[t];
    next[t] := 0;
    ghost var c := CollapseFactor(released, total);
    var k := 0;
    while k < |indices|
      invariant 0 <= k <= |indices|
      invariant next[t] == 0
      invariant forall i :: 0 <= i < |ws| && i != t ==> next[i] == if i in indices[..k] then ScaledWidth(ws[i], c) else ws[i]
    {
      var index := indices[k];
      NotYet(indices, k);
      CollapseStep(ws[index], released, total);
      next[index] := WithShare(next[index], released, total);
      k := k + 1;
    }
    assert indices[..k] == indices;
    result := next[..];
    assert forall i :: 0 <= i < |ws| && i !in indices && i != t ==> ScaledWidth(ws[i], c) == ws[i];
  }

  lemma CollapseStep(w: int, released: int, total: nat)
    requires Visible(w) && total > 0
    ensures WithShare(w, released, total) == ScaledWidth(w, CollapseFactor(released, total))
  {
    ScaledVisible(w, 1.0 + released as real / total as real);
    hide RoundWidth, Times, ScaledWidth;
    ShareOfReleased(w as real, released as real, total as real);
  }

  lemma ScaledVisible(w: int, c: real)
    requires Visible(w)
    ensures ScaledWidth(w, c) == RoundWidth(Times(c, w as real))
  {
  }

  lemma RoundSame(x: real, y: real)
    requires x == y
    ensures RoundWidth(x) == RoundWidth(y)
  {
  }

  lemma RestoreStep(w: int, remaining: int, total: nat)
    requires Visible(w) && total > 0
    ensures ShareOf(w, remaining, total) == ScaledWidth(w, RestoreFactor(remaining, total))
  {
    ScaledVisible(w, remaining as real / total as real);
    hide Times, ScaledWidth, RoundWidth;
    ShareOfRemaining(w as real, remaining as real, total as real);
    RoundSame(remaining as real * (w as real / total as real), Times(remaining as real / total as real, w as real));
  }

  lemma NotYet(indices: seq<nat>, k: nat)
    requires k < |indices| && forall i, j :: 0 <= i < j < |indices| ==> indices[i] < indices[j]
    ensures indices[k] !in indices[..k]
    ensures forall i :: i in indices[..k + 1] <==> i in indices[..k] || i == indices[k]
  {
    assert indices[..k + 1] == indices[..k] + [indices[k]];
  }

  method RestoreWidth(ws: seq<int>, t: nat, defaults: seq<int>) returns (result: seq<int>)
    requires t < |ws| == |defaults|
    ensures Restored(ws, t, defaults, result)
  {
    hide WithShare, ShareOf, CollapseFactor, RestoreFactor, RoundWidth, Times, Others;
    var indices, total := OtherIndices(ws, t);
    if indices == [] { return defaults; }
    var next := new int[|ws|];
    forall i | 0 <= i < |ws| {
      next[i] := ws[i];
    }
    var remaining := WHOLE - defaults[t];
    ghost var c := RestoreFactor(remaining, total);
    var k := 0;
    while k < |indices|
      invariant 0 <= k <= |indices|
      invariant forall i :: 0 <= i < |ws| && i != t ==> next[i] == if i in indices[..k] then ScaledWidth(ws[i], c) else ws[i]
    {
      var index := indices[k];
      NotYet(indices, k);
      RestoreStep(ws[index], remaining, total);
      next[index] := ShareOf(next[index], remaining, total);
      k := k + 1;
    }
    assert indices[..k] == indices;
    next[t] := RoundWidth(defaults[t] as real);
    assert next[t] == defaults[t] by { RoundWhole(defaults[t]); }
    result := next[..];
  }

  lemma RoundWhole(w: int)
    ensures RoundWidth(w as real) == w
  {
  }

  method TogglePane(ws: seq<int>, t: nat, defaults: seq<int>) returns (next: seq<int>)
    requires t < |ws| == |defaults|
    ensures Toggled(ws, t, defaults, next)
  {
    if ws[t] > COLLAPSE_EPSILON {
      var active, i := 0, 0;
      while i < |ws|
        invariant 0 <= i <= |ws|
        invariant active == CountOthers(ws, |ws|, i)
      {
        if ws[i] > COLLAPSE_EPSILON {
          active := active + 1;
        }
        i := i + 1;
      }
      if active <= 1 { return ws; }
      next := RedistributeWidths(ws, t);
    } else {
      next := RestoreWidth(ws, t, defaults);
    }
  }

  // ----- what toggling keeps -----

  ghost predicate Sane(ws: seq<int>) {
    (forall i :: 0 <= i < |ws| ==> ws[i] >= 0) && exists i :: 0 <= i < |ws| && Visible(ws[i])
  }

  /** The defaults a caller may give: each pane visible and at most the whole. */
  ghost predicate GoodDefaults(defaults: seq<int>) {
    defaults != [] && forall i :: 0 <= i < |defaults| ==> Visible(defaults[i]) && defaults[i] <= WHOLE
  }

  lemma GrownWidth(w: int, released: int, total: int)
    requires w >= 0 && released >= 0 && total > 0
    ensures ScaledWidth(w, CollapseFactor(released, total)) >= w
  {
    var q := released as real / total as real;
    if Visible(w) {
      ScaledVisible(w, CollapseFactor(released, total));
      assert q >= 0.0;
      assert q * w as real >= 0.0;
      assert (1.0 + q) * w as real == w as real + q * w as real;
      hide ScaledWidth, RoundWidth;
      RoundedAtLeast(Times(CollapseFactor(released, total), w as real), w);
    }
  }

  lemma ScaledIsNotNegative(w: int, remaining: int, total: int)
    requires w >= 0 && remaining >= 0 && total > 0
    ensures ScaledWidth(w, RestoreFactor(remaining, total)) >= 0
  {
    var q := remaining as real / total as real;
    if Visible(w) {
      ScaledVisible(w, q);
      assert q >= 0.0;
      assert q * w as real >= 0.0;
      hide ScaledWidth, RoundWidth;
      RoundedWithinHalf(Times(q, w as real));
    }
  }

  /** Collapsing makes no other pane narrower. */
  lemma CollapseKeeps(ws: seq<int>, t: nat, next: seq<int>)
    requires Sane(ws) && t < |ws| && Collapsed(ws, t, next)
    ensures Sane(next)
    ensures forall i :: 0 <= i < |ws| && i != t ==> next[i] >= ws[i]
  {
    var total := Others(ws, t, |ws|);
    OthersArePositive(ws, t, |ws|);
    hide ScaledWidth, Others, CollapseFactor, RestoreFactor;
    if total > 0 {
      forall i | 0 <= i < |ws| ensures next[i] >= 0 && (i != t ==> next[i] >= ws[i]) {
        GrownWidth(ws[i], ws[t], total);
      }
      var i :| 0 <= i < |ws| && IsOther(ws, t, i);
      assert Visible(next[i]);
    }
  }

  lemma RestoreKeeps(ws: seq<int>, t: nat, defaults: seq<int>, next: seq<int>)
    requires Sane(ws) && GoodDefaults(defaults) && t < |ws| == |defaults| && Restored(ws, t, defaults, next)
    ensures Sane(next) && Visible(next[t])
  {
    var total := Others(ws, t, |ws|);
    hide ScaledWidth, Others, CollapseFactor, RestoreFactor;
    if total > 0 {
      forall i | 0 <= i < |ws| ensures next[i] >= 0 {
        ScaledIsNotNegative(ws[i], WHOLE - defaults[t], total);
      }
    }
    assert Visible(next[t]);
  }

  /** Toggling never leaves a negative width or no visible pane. */
  lemma ToggleKeepsSane(ws: seq<int>, t: nat, defaults: seq<int>, next: seq<int>)
    requires Sane(ws) && GoodDefaults(defaults) && t < |ws| == |defaults| && Toggled(ws, t, defaults, next)
    ensures Sane(next)
  {
    hide Sane, GoodDefaults, Collapsed, Restored;
    if Visible(ws[t]) {
      if CountVisible(ws) > 1 {
        CollapseKeeps(ws, t, next);
      }
    } else {
      RestoreKeeps(ws, t, defaults, next);
    }
  }

  lemma QuotientTimes(a: int, total: int)
    requires total > 0
    ensures Times(RestoreFactor(a, total), total as real) == a as real
    ensures Times(CollapseFactor(a, total), total as real) == total as real + a as real
  {
    var q := a as real / total as real;
    assert (1.0 + q) * total as real == total as real + q * total as real;
  }

  predicate Within(d: int, bound: nat) {
    d <= bound && -d <= bound
  }

  /** Collapsing a pane moves the total by at most half a step for each pane that is left. */
  lemma CollapseKeepsTotal(ws: seq<int>, t: nat, next: seq<int>)
    requires t < |ws| && Collapsed(ws, t, next)
    ensures |next| == |ws|
    ensures Within(2 * (Total(next, |ws|) - Total(ws, |ws|)), CountOthers(ws, t, |ws|))
  {
    var total := Others(ws, t, |ws|);
    hide Others, Hidden, Total, CountOthers, Exact, Times, CollapseFactor, RestoreFactor;
    if total > 0 {
      ScaledTotal(ws, t, next, CollapseFactor(ws[t], total), 0, |ws|);
      ExactIs(ws, t, CollapseFactor(ws[t], total), 0, |ws|);
      TotalParts(ws, t, |ws|);
      QuotientTimes(ws[t], total);
    }
  }

  /** Restoring a pane brings the total to the whole and the hidden widths, within half a step for each other pane. */
  lemma RestoreMakesWhole(ws: seq<int>, t: nat, defaults: seq<int>, next: seq<int>)
    requires t < |ws| == |defaults| && Restored(ws, t, defaults, next) && Others(ws, t, |ws|) > 0
    ensures |next| == |ws|
    ensures Within(2 * (Total(next, |ws|) - (WHOLE + Hidden(ws, t, |ws|))), CountOthers(ws, t, |ws|))
  {
    var total := Others(ws, t, |ws|);
    hide Others, Hidden, Total, CountOthers, Exact, Times, CollapseFactor, RestoreFactor;
    ScaledTotal(ws, t, next, RestoreFactor(WHOLE - defaults[t], total), defaults[t], |ws|);
    ExactIs(ws, t, RestoreFactor(WHOLE - defaults[t], total), defaults[t], |ws|);
    QuotientTimes(WHOLE - defaults[t], total);
  }

  // ----- dragging -----

  /** A drag remembers the widths and the mouse position of its start. */
  datatype Drag = Drag(left: nat, right: nat, startX: real, start: seq<int>, container: real)

  ghost predicate IsDrag(d: Drag, n: nat) {
    |d.start| == n && d.left < n && d.right < n && d.left != d.right
  }

  function PairTotal(d: Drag): int
    requires d.left < |d.start| && d.right < |d.start|
  {
    d.start[d.left] + d.start[d.right]
  }

  function MinReal(a: real, b: real): real {
    if a < b then a else b
  }

  function MaxReal(a: real, b: real): real {
    if a > b then a else b
  }

  /** The left width the mouse asks for, within the pair and snapped shut near its ends. */
  function WantedLeft(d: Drag, x: real): real
    requires d.left < |d.start| && d.right < |d.start|
  {
    var pair := PairTotal(d) as real;
    var raw := d.start[d.left] as real + (x - d.startX) / MaxReal(d.container, 1.0) * WHOLE as real;
    var clamped := MaxReal(0.0, MinReal(pair, raw));
    if clamped <= SNAP_THRESHOLD then 0.0 else if pair - clamped <= SNAP_THRESHOLD then pair else clamped
  }

  /** The two panes of a drag share its pair's width; the other panes stay as they are. */
  ghost predicate Moved(ws: seq<int>, d: Drag, x: real, next: seq<int>)
    requires IsDrag(d, |ws|)
  {
    |next| == |ws| &&
    (forall i :: 0 <= i < |ws| && i != d.left && i != d.right ==> next[i] == ws[i]) &&
    next[d.left] == RoundWidth(WantedLeft(d, x)) &&
    next[d.right] == RoundWidth(PairTotal(d) as real - WantedLeft(d, x))
  }

  /**
   * Whatever moved since the drag began, its two panes get their widths from its start; a position that is not
   * finite is no position and moves nothing.
   */
  method OnPointerMove(ws: seq<int>, d: Drag, x: Option<real>) returns (next: seq<int>)
    requires IsDrag(d, |ws|)
    ensures x.None? ==> next == ws
    ensures x.Some? ==> Moved(ws, d, x.value, next)
  {
    hide RoundWidth;
    if x.None? { return ws; }
    var delta := (x.value - d.startX) / MaxReal(d.container, 1.0) * WHOLE as real;
    var pair := PairTotal(d) as real;
    var clamped := MaxReal(0.0, MinReal(pair, d.start[d.left] as real + delta));
    var left, right := clamped, pair - clamped;
    if left <= SNAP_THRESHOLD {
      left, right := 0.0, pair;
    } else if right <= SNAP_THRESHOLD {
      left, right := pair, 0.0;
    }
    next := ws[d.left := RoundWidth(left)];
    next := next[d.right := RoundWidth(right)];
  }

  lemma WantedIsWithin(d: Drag, x: real)
    requires d.left < |d.start| && d.right < |d.start| && PairTotal(d) >= 0
    ensures var w := WantedLeft(d, x);
            0.0 <= w <= PairTotal(d) as real &&
            (w == 0.0 || w == PairTotal(d) as real || (w > SNAP_THRESHOLD && PairTotal(d) as real - w > SNAP_THRESHOLD))
  {
  }

  /** Two halves that are rounded apart exceed their whole by one step when both lie midway, and else make it up. */
  lemma RoundedHalves(whole: int, a: real)
    ensures var rest := whole as real - a;
            RoundWidth(a) + RoundWidth(rest) == whole + (if (a + 0.5).Floor as real == a + 0.5 then 1 else 0)
  {
    var n := (a + 0.5).Floor;
    assert n as real <= a + 0.5 < n as real + 1.0;
    if n as real == a + 0.5 {
      FloorIs(whole as real - a + 0.5, whole - n + 1);
    } else {
      FloorIs(whole as real - a + 0.5, whole - n);
    }
  }

  lemma FloorIs(x: real, n: int)
    requires n as real <= x < n as real + 1.0
    ensures x.Floor == n
  {
  }

  /** A drag keeps its pair's total, but for one step when the mouse falls exactly between two. */
  lemma DragKeepsPair(d: Drag, x: real)
    requires d.left < |d.start| && d.right < |d.start|
    ensures var w := WantedLeft(d, x);
            RoundWidth(w) + RoundWidth(PairTotal(d) as real - w) ==
            PairTotal(d) + (if (w + 0.5).Floor as real == w + 0.5 then 1 else 0)
  {
    hide RoundWidth;
    RoundedHalves(PairTotal(d), WantedLeft(d, x));
  }

  /** The pair that is dragged keeps a visible pane. */
  lemma DragLeavesOneVisible(d: Drag, x: real)
    requires d.left < |d.start| && d.right < |d.start| && Visible(PairTotal(d))
    ensures RoundWidth(WantedLeft(d, x)) >= 0 && RoundWidth(PairTotal(d) as real - WantedLeft(d, x)) >= 0
    ensures Visible(RoundWidth(WantedLeft(d, x))) || Visible(RoundWidth(PairTotal(d) as real - WantedLeft(d, x)))
  {
    hide RoundWidth;
    var w, rest := WantedLeft(d, x), PairTotal(d) as real - WantedLeft(d, x);
    WantedIsWithin(d, x);
    RoundedWithinHalf(w);
    RoundedWithinHalf(rest);
    RoundWhole(PairTotal(d));
    RoundWhole(0);
  }
}
