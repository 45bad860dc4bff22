/** The batch page itself: refs and state that reads, answers and clicks change in place. */
module BatchPage {
  import opened Common
  import opened BatchReads

  class BatchPage {
    var filters: Filters
    var latest: nat
    var calls: map<nat, Call>
    var shown: Option<Shown>
    var version: nat
    var corrected: Option<Query>
    var loading: bool
    var error: bool
    var ids: set<string>
    var scope: Option<Scope>
    ghost var origins: map<string, Scope>

    ghost function View(): State
      reads this
    {
      State(filters, latest, calls, shown, version, corrected, loading, error, Selection(ids, scope, origins))
    }

    constructor (f: Filters)
      ensures View() == Start(f)
    {
      filters, latest, calls, shown, version := f, 0, map[], None, 0;
      corrected, loading, error := None, false, false;
      ids, scope, origins := {}, None, map[];
    }

    /** A read takes the next number and makes its first request. */
    method BeginRead(start: Filters, reload: bool) returns (id: nat)
      modifies this
      ensures View() == Begin(old(View()), start, reload) && id == latest
    {
      loading := true;
      if !reload {
        error := false;
      }
      latest := latest + 1;
      id := latest;
      calls := calls[id := Call(start, start, First, false, reload, false, Waiting)];
    }

    /** An answer, or a failure, of the request a read is waiting for. */
    method Resume(id: nat, outcome: Outcome)
      modifies this
      ensures View() == Step(old(View()), Respond(id, outcome))
    {
      hide CodesFor, LastPage, Matches, Apply, GiveUp;
      if id !in calls || calls[id].ending != Waiting { return; }
      var c := calls[id];
      if c.aborted || id != latest {
        calls := calls[id := c.(ending := Superseded)];
        return;
      }
      if outcome.Rejected? {
        FailRead(id, outcome.abortLike);
        return;
      }
      var r := outcome.response;
      if r.groups.None? {
        FailRead(id, false);
        return;
      }
      var next := c.next;
      if c.stage == First {
        var codes := CodesFor(r.groups.value, next.primary, next.sub);
        if codes.None? {
          next := next.(primary := "", sub := None);
        }
        var resolved := if codes.None? then [] else codes.value;
        if !Matches(Some(resolved), next.query.codes) {
          next := next.(query := next.query.(codes := resolved, page := 1));
          calls := calls[id := c.(next := next, stage := Second, changed := true)];
          return;
        }
      } else if !Matches(CodesFor(r.groups.value, next.primary, next.sub), next.query.codes) {
        FailRead(id, false);
        return;
      }
      if c.stage != Third && Beyond(next.query.page, r) {
        next := next.(query := next.query.(page := LastPage(r)));
        calls := calls[id := c.(next := next, stage := Third)];
        return;
      }
      CommitRead(id, c.(next := next), r);
    }

    method FailRead(id: nat, abortLike: bool)
      requires id in calls
      modifies this
      ensures View() == GiveUp(old(View()), id, abortLike)
    {
      var silent := abortLike && !calls[id].reload;
      if !silent {
        error := true;
      }
      loading := false;
      calls := calls[id := calls[id].(ending := Failed(silent))];
    }

    method CommitRead(id: nat, c: Call, r: Response)
      modifies this
      ensures View() == Apply(old(View()), id, c, r)
    {
      hide Corrects;
      if Corrects(c) {
        corrected := Some(c.next.query);
        filters := Filters(filters.query.(page := c.next.query.page, codes := c.next.query.codes), c.next.primary, c.next.sub);
      }
      shown := Some(Shown(id, c.next, r, c.stage));
      version := version + 1;
      error := false;
      ClearSelection();
      calls := calls[id := c.(ending := Committed)];
      loading := false;
    }

    method AbortRead(id: nat)
      modifies this
      ensures View() == Step(old(View()), Abort(id))
    {
      if id in calls && calls[id].ending == Waiting {
        calls := calls[id := calls[id].(aborted := true)];
      }
    }

    /** The effect reads the page's filters again unless a read has just corrected them. */
    method RunEffect()
      modifies this
      ensures View() == Step(old(View()), Effect)
    {
      if corrected == Some(filters.query) {
        corrected := None;
        return;
      }
      var _ := BeginRead(filters, false);
    }

    method Navigate(f: Filters)
      modifies this
      ensures View() == Step(old(View()), BatchReads.Navigate(f))
    {
      ClearSelection();
      filters := f;
    }

    method ClearSelection()
      modifies this
      ensures View() == Step(old(View()), Clear)
    {
      ids, scope, origins := {}, None, map[];
    }

    method ToggleTransaction(batch: Batch, row: Row, checked: bool)
      modifies this
      ensures View() == Step(old(View()), Pick(batch, row, checked))
    {
      if checked && (!BatchMatches(batch, scope) || row.account != batch.account) { return; }
      var next := ids;
      if checked {
        next := next + {row.id};
        scope := Some(Scope(batch.account, batch.month.value));
        origins := origins[row.id := scope.value];
      } else {
        next := next - {row.id};
        if next == {} {
          scope := None;
        }
      }
      ids := next;
    }

    method SetRegionSelection(batch: Batch, rows: seq<Row>, checked: bool)
      modifies this
      ensures View() == Step(old(View()), Region(batch, rows, checked))
    {
      if checked && (!BatchMatches(batch, scope) || exists i :: 0 <= i < |rows| && rows[i].account != batch.account) {
        return;
      }
      var next := ids;
      var k := 0;
      while k < |rows|
        invariant 0 <= k <= |rows|
        invariant next == if checked then ids + Ids(rows[..k]) else ids - Ids(rows[..k])
        modifies {}
      {
        OneMoreId(rows, k);
        next := if checked then next + {rows[k].id} else next - {rows[k].id};
        k := k + 1;
      }
      assert rows[..k] == rows;
      ids := next;
      if next == {} {
        scope := None;
      } else if checked {
        scope := Some(Scope(batch.account, batch.month.value));
      }
      if checked {
        origins := origins + PickedFrom(rows, Scope(batch.account, batch.month.value));
      }
    }
  }

  lemma OneMoreId(rows: seq<Row>, k: nat)
    requires k < |rows|
    ensures Ids(rows[..k + 1]) == Ids(rows[..k]) + {rows[k].id}
  {
    var less, more := rows[..k], rows[..k + 1];
    forall id | id in Ids(more) ensures id in Ids(less) + {rows[k].id} {
      var i :| 0 <= i < |more| && more[i].id == id;
      assert i < k ==> less[i] == more[i];
    }
    forall id | id in Ids(less) ensures id in Ids(more) {
      var i :| 0 <= i < |less| && less[i].id == id;
      assert more[i] == less[i];
    }
    assert more[k] == rows[k];
  }
}
