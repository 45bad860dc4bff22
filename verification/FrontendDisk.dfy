/**
 * What the asset publisher keeps on disk, and the atomic steps it is made of.
 * A process may die (or an operating system call may fail) between any two steps.
 */
module FrontendDisk {
  import opened Common

  /** One inventory version: its HTML, the asset names it needs, and when it left service. */
  datatype Entry = Entry(index: string, files: seq<string>, retiredAt: Option<real>)

  /** The JSON inventory beside `dist`. */
  datatype Inventory = Inventory(versions: map<string, Entry>, previous: string)

  /** The live directory: the inventory file, `dist/index.html`, and every other file under `dist`. */
  datatype Disk = Disk(inventory: Option<Inventory>, index: Option<string>, assets: map<string, Bytes>)

  /**
   * A frontend build directory. `names` is the order in which the walk over the directory
   * yields its files (without `index.html`); `bytes` is what they hold.
   */
  datatype Build = Build(index: Option<string>, names: seq<string>, bytes: map<string, Bytes>)
  {
    /** A walk yields each file once. */
    ghost predicate Listed() {
      && (forall i, j :: 0 <= i < j < |names| ==> names[i] != names[j])
      && (forall n :: n in names <==> n in bytes)
    }
  }

  /** `release_root/<name>/src/web/dist` and the modification time of its index. */
  datatype Release = Release(dist: Build, indexTime: real)

  datatype Failure =
    | InvalidAssetPath
    | NoAssets
    | IndexMissing
    | InventoryMissing
    | FileMissing
    | ContentConflict
    | NoIntactBuild
    | OutsideInventory
    | HtmlDiffers
    | AssetDiffers
    | UnmanagedAssets

  datatype Outcome = Done | Raised(failure: Failure) | Crashed

  datatype Effect =
    | Save(inventory: Inventory)
    | Write(name: string, data: Bytes)
    | Unlink(name: string)
    | Switch(index: string)

  function Apply(d: Disk, e: Effect): Disk {
    match e
    case Save(inventory) => d.(inventory := Some(inventory))
    case Write(name, data) => d.(assets := d.assets[name := data])
    case Unlink(name) => d.(assets := d.assets - {name})
    case Switch(index) => d.(index := Some(index))
  }

  function ApplyAll(d: Disk, es: seq<Effect>): Disk
    decreases |es|
  {
    if es == [] then d else ApplyAll(Apply(d, es[0]), es[1..])
  }

  /** The atomic steps an operation takes from a given disk when nothing stops it, and how it then ends. */
  datatype Plan = Plan(effects: seq<Effect>, result: Outcome)

  const NOTHING := Plan([], Done)

  function Fail(failure: Failure): Plan {
    Plan([], Raised(failure))
  }

  function One(e: Effect): Plan {
    Plan([e], Done)
  }

  function Then(p: Plan, q: Plan): Plan {
    if p.result.Done? then Plan(p.effects + q.effects, q.result) else p
  }

  /** The disk after a plan is cut once `fuse` steps have been taken. */
  function Cut(d: Disk, p: Plan, fuse: nat): Disk {
    ApplyAll(d, p.effects[..Min(fuse, |p.effects|)])
  }

  function Finish(d: Disk, p: Plan): Disk {
    ApplyAll(d, p.effects)
  }

  /** A process that ran: the disk it left, how it ended, and how many more steps it could have taken. */
  datatype Halt = Halt(disk: Disk, outcome: Outcome, fuse: nat)

  /** Running a plan in a process that dies after `fuse` steps. */
  function Execute(d: Disk, p: Plan, fuse: nat): Halt {
    if fuse < |p.effects| then Halt(Cut(d, p, fuse), Crashed, 0)
    else Halt(Finish(d, p), p.result, fuse - |p.effects|)
  }

  lemma {:induction false} ApplyConcat(d: Disk, xs: seq<Effect>, ys: seq<Effect>)
    ensures ApplyAll(d, xs + ys) == ApplyAll(ApplyAll(d, xs), ys)
    decreases |xs|
  {
    if xs == [] {
      assert xs + ys == ys;
    } else {
      assert (xs + ys)[1..] == xs[1..] + ys;
      ApplyConcat(Apply(d, xs[0]), xs[1..], ys);
    }
  }

  lemma CutIsWhole(d: Disk, p: Plan, fuse: nat)
    requires |p.effects| <= fuse
    ensures Cut(d, p, fuse) == Finish(d, p)
  {
    assert p.effects[..|p.effects|] == p.effects;
  }

  /** Running two operations in sequence runs the second only if the first completes. */
  lemma ThenExecutes(d: Disk, p: Plan, q: Plan, fuse: nat)
    ensures Execute(d, Then(p, q), fuse) ==
            var r := Execute(d, p, fuse);
            if r.outcome.Done? then Execute(Finish(d, p), q, r.fuse) else r
  {
    if p.result.Done? {
      var all := p.effects + q.effects;
      if fuse < |p.effects| {
        assert all[..fuse] == p.effects[..fuse];
      } else if fuse < |all| {
        assert all[..fuse] == p.effects + q.effects[..fuse - |p.effects|];
        ApplyConcat(d, p.effects, q.effects[..fuse - |p.effects|]);
      } else {
        ApplyConcat(d, p.effects, q.effects);
      }
    }
  }

  lemma ExecuteOne(d: Disk, e: Effect, fuse: nat)
    ensures Finish(d, One(e)) == Apply(d, e)
    ensures Execute(d, One(e), fuse) == if fuse == 0 then Halt(d, Crashed, 0) else Halt(Apply(d, e), Done, fuse - 1)
  {
    var es := One(e).effects;
    assert es[0] == e && es[1..] == [];
    assert ApplyAll(d, es) == ApplyAll(Apply(d, e), []);
    if fuse == 0 {
      assert One(e).effects[..Min(fuse, 1)] == [];
    }
  }
}
