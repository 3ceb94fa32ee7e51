/**
 The "workspace exists" cache: an ensure cell that single-flights the create request and
 is replaced by an empty one whenever the workspace may be gone. Every await point of
 `ensure_workspace`, `force_ensure`, `delete_workspace` and `get_or_create_workspace` is a
 step of its own, so a run is any interleaving of any number of calls.
 */
module WorkspaceCache {
  import opened Basics

  /** A `OnceCell<()>`: set or not, and who holds the permit to initialize it. */
  datatype Cell = Cell(full: bool, holder: Option<nat>, wins: nat)

  const EMPTY: Cell := Cell(false, None, 0)

  /** Where a call is. Cells are numbered in the order in which they were made current. */
  datatype Pc =
    | Start                          // ensure: about to snapshot the current cell
    | Waiting(cell: nat)             // ensure: holds a snapshot
    | Posting(cell: nat)             // ensure: holds the permit, request on its way
    | Replied(cell: nat, ok: bool)   // ensure: the server has acted and answered
    | Deleting                       // delete: request on its way
    | Deleted(cell: nat)             // delete: took effect while `cell` was current
    | DeleteLost(cell: nat)          // delete: took effect, but the call ended without a reset
    | Getting                        // get-or-create: request on its way
    | Got(cell: nat, at: nat)        // get-or-create: took effect under `cell`, after `at` deletes

  /** `deletes` counts the deletes that took effect; no step depends on it. */
  datatype State = State(present: bool, cells: seq<Cell>, current: nat, calls: map<nat, Pc>, deletes: nat)

  const INITIAL: State := State(false, [EMPTY], 0, map[], 0)

  datatype ServerReply = Created | Conflict | Refused(effect: bool)

  datatype Action =
    | BeginEnsure(t: nat) | BeginForce(t: nat) | Snapshot(t: nat) | AlreadySet(t: nat) | Acquire(t: nat)
    | Serve(t: nat, reply: ServerReply) | Settle(t: nat) | DropEnsure(t: nat)
    | BeginDelete(t: nat) | DeleteServed(t: nat) | DeleteFails(t: nat) | LoseDelete(t: nat) | Reset(t: nat)
    | BeginGet(t: nat) | GetServed(t: nat) | GetFails(t: nat) | GetFill(t: nat)
    | CreatedElsewhere

  predicate At(s: State, t: nat, pc: Pc) { t in s.calls && s.calls[t] == pc }

  predicate Enabled(s: State, a: Action) {
    match a
    case CreatedElsewhere => true
    case BeginEnsure(t) => t !in s.calls
    case BeginForce(t) => t !in s.calls
    case BeginDelete(t) => t !in s.calls
    case BeginGet(t) => t !in s.calls
    case Snapshot(t) => At(s, t, Start)
    case AlreadySet(t) =>
      t in s.calls && s.calls[t].Waiting? && s.calls[t].cell < |s.cells| && s.cells[s.calls[t].cell].full
    case Acquire(t) =>
      t in s.calls && s.calls[t].Waiting? && s.calls[t].cell < |s.cells|
      && !s.cells[s.calls[t].cell].full && s.cells[s.calls[t].cell].holder.None?
    case Serve(t, reply) => t in s.calls && s.calls[t].Posting? && (reply.Conflict? ==> s.present)
    case Settle(t) => t in s.calls && s.calls[t].Replied? && s.calls[t].cell < |s.cells|
    case DropEnsure(t) =>
      t in s.calls && (s.calls[t].Start? || s.calls[t].Waiting?
        || ((s.calls[t].Posting? || s.calls[t].Replied?) && s.calls[t].cell < |s.cells|))
    case DeleteServed(t) => At(s, t, Deleting)
    case DeleteFails(t) => At(s, t, Deleting)
    case LoseDelete(t) => t in s.calls && s.calls[t].Deleted?
    case Reset(t) => t in s.calls && s.calls[t].Deleted?
    case GetServed(t) => At(s, t, Getting)
    case GetFails(t) => At(s, t, Getting)
    case GetFill(t) => t in s.calls && s.calls[t].Got? && s.current < |s.cells|
  }

  function Ended(s: State, t: nat): State { s.(calls := s.calls - {t}) }

  function Goto(s: State, t: nat, pc: Pc): State { s.(calls := s.calls[t := pc]) }

  function WithCell(s: State, c: nat, cell: Cell): State
    requires c < |s.cells|
  {
    s.(cells := s.cells[c := cell])
  }

  /** `reset_ensure`: a fresh cell becomes current. */
  function ResetEnsure(s: State): State {
    s.(cells := s.cells + [EMPTY], current := |s.cells|)
  }

  function Apply(s: State, a: Action): State
    requires Enabled(s, a)
  {
    match a
    case CreatedElsewhere => s.(present := true)
    case BeginEnsure(t) => Goto(s, t, Start)
    case BeginForce(t) => Goto(ResetEnsure(s), t, Start)
    case Snapshot(t) => Goto(s, t, Waiting(s.current))
    case AlreadySet(t) => Ended(s, t)
    case Acquire(t) =>
      var c := s.calls[t].cell;
      Goto(WithCell(s, c, s.cells[c].(holder := Some(t))), t, Posting(c))
    case Serve(t, reply) =>
      var present' := match reply { case Created => true case Conflict => s.present case Refused(e) => s.present || e };
      Goto(s, t, Replied(s.calls[t].cell, !reply.Refused?)).(present := present')
    case Settle(t) =>
      var c := s.calls[t].cell;
      var cell := s.cells[c];
      var cell' := if s.calls[t].ok then Cell(true, None, cell.wins + 1) else cell.(holder := None);
      Ended(WithCell(s, c, cell'), t)
    case DropEnsure(t) =>
      if s.calls[t].Posting? || s.calls[t].Replied? then
        var c := s.calls[t].cell;
        Ended(WithCell(s, c, s.cells[c].(holder := None)), t)
      else Ended(s, t)
    case BeginDelete(t) => Goto(s, t, Deleting)
    case DeleteServed(t) => Goto(s, t, Deleted(s.current)).(present := false, deletes := s.deletes + 1)
    case DeleteFails(t) => Ended(s, t)
    case LoseDelete(t) => Goto(s, t, DeleteLost(s.calls[t].cell))
    case Reset(t) => Ended(ResetEnsure(s), t)
    case BeginGet(t) => Goto(s, t, Getting)
    case GetServed(t) => Goto(s, t, Got(s.current, s.deletes)).(present := true)
    case GetFails(t) => Ended(s, t)
    case GetFill(t) => Ended(Fill(s), t)
  }

  /** `OnceCell::set` on the current cell: fails if it is set or being initialized. */
  function Fill(s: State): State
    requires s.current < |s.cells|
  {
    var cell := s.cells[s.current];
    if cell.full || cell.holder.Some? then s else WithCell(s, s.current, cell.(full := true))
  }

  ghost predicate IsRun(s: State, actions: seq<Action>, s': State)
    decreases |actions|
  {
    if actions == [] then s == s'
    else Enabled(s, actions[0]) && IsRun(Apply(s, actions[0]), actions[1..], s')
  }

  // ---------------------------------------------------------------------
  // What the cache promises
  // ---------------------------------------------------------------------

  /**
   Some delete of the workspace took effect while `c` was the current cell, and its call has
   yet to reset the cache; with `lost`, also one whose call ended without a reset.
   */
  ghost predicate DeletedUnder(s: State, c: nat, lost: bool) {
    exists t :: t in s.calls && (s.calls[t] == Deleted(c) || (lost && s.calls[t] == DeleteLost(c)))
  }

  ghost predicate Excused(s: State, lost: bool) { s.present || DeletedUnder(s, s.current, lost) }

  /** If the current cell says the workspace exists, it does, or it was deleted under this cell. */
  ghost predicate Coherent(s: State) {
    s.current < |s.cells| && (s.cells[s.current].full ==> Excused(s, true))
  }

  /** The same with the only excuse that a reset of the cell is on its way. */
  ghost predicate UpToDate(s: State) {
    s.current < |s.cells| && (s.cells[s.current].full ==> Excused(s, false))
  }

  // What can break it. `get_or_create_workspace` fills whatever cell is current when its
  // reply is handled, and a delete can end without a reset.

  /**
   Of a fill: the cell is still the one under which the request took effect, or no delete has
   taken effect since. Of a lost delete: see `HarmlessLoss`.
   */
  ghost predicate Safe(s: State, a: Action, lost: bool)
    requires Enabled(s, a)
  {
    match a
    case GetFill(t) => s.calls[t].cell == s.current || s.calls[t].at == s.deletes
    case LoseDelete(t) => lost || HarmlessLoss(s, t)
    case _ => true
  }

  ghost predicate AllSafe(s: State, actions: seq<Action>, lost: bool)
    decreases |actions|
  {
    actions == [] ||
    (Enabled(s, actions[0]) ==> Safe(s, actions[0], lost) && AllSafe(Apply(s, actions[0]), actions[1..], lost))
  }

  /** The fill takes effect, the workspace is gone, and no delete under this cell accounts for it. */
  ghost predicate HarmfulFill(s: State, lost: bool)
    requires s.current < |s.cells|
  {
    !s.cells[s.current].full && s.cells[s.current].holder.None? && !Excused(s, lost)
  }

  /** The workspace exists, another reset of the cell is on its way, or the cell is not set nor about to be. */
  ghost predicate HarmlessLoss(s: State, t: nat)
    requires Enabled(s, LoseDelete(t))
  {
    || s.present || s.calls[t].cell != s.current
    || (exists u :: u != t && At(s, u, Deleted(s.current)))
    || !(SetNow(s) || exists u: nat :: Vouched(s, u))
  }

  predicate SetNow(s: State) { s.current < |s.cells| && s.cells[s.current].full }

  predicate InFlight(s: State, t: nat, c: nat) {
    t in s.calls && (s.calls[t] == Posting(c) || s.calls[t] == Replied(c, true) || s.calls[t] == Replied(c, false))
  }

  ghost predicate SingleFlight(s: State) {
    && (forall t: nat, u: nat, c: nat :: InFlight(s, t, c) && InFlight(s, u, c) ==> t == u)
    && (forall c :: 0 <= c < |s.cells| ==> s.cells[c].wins <= 1)
  }

  /** A success on its way to the current cell is as good as the cell being set. */
  predicate Vouched(s: State, t: nat) {
    At(s, t, Replied(s.current, true)) || (t in s.calls && s.calls[t].Got? && s.calls[t].cell == s.current)
  }

  predicate CellIn(s: State, t: nat)
    requires t in s.calls
  {
    match s.calls[t]
    case Waiting(c) => c < |s.cells|
    case Posting(c) => c < |s.cells|
    case Replied(c, _) => c < |s.cells|
    case Deleted(c) => c <= s.current
    case DeleteLost(c) => c <= s.current
    case Got(c, at) => c <= s.current && at <= s.deletes && (at == s.deletes ==> s.present)
    case _ => true
  }

  /** Permits: who is initializing a cell holds its permit, and a full cell needs none. */
  ghost predicate Shape(s: State) {
    && s.current == |s.cells| - 1
    && (forall t :: t in s.calls ==> CellIn(s, t))
    && (forall t: nat, c: nat :: InFlight(s, t, c) ==> c < |s.cells| && s.cells[c].holder == Some(t))
    && (forall c :: 0 <= c < |s.cells| && s.cells[c].full ==> s.cells[c].holder.None?)
    && (forall c :: 0 <= c < |s.cells| ==> s.cells[c].wins <= if s.cells[c].full then 1 else 0)
  }

  ghost predicate Trust(s: State, lost: bool)
    requires s.current < |s.cells|
  {
    && (s.cells[s.current].full ==> Excused(s, lost))
    && (forall t: nat :: Vouched(s, t) ==> Excused(s, lost))
  }

  ghost predicate Inv(s: State, lost: bool) { Shape(s) && Trust(s, lost) }

  /** The workspace goes only with a delete that is counted. */
  predicate Later(s: State, s': State) {
    s'.deletes > s.deletes || (s'.deletes == s.deletes && (s.present ==> s'.present))
  }

  ghost predicate OthersStay(s: State, s': State, t: nat) {
    forall u: nat :: u != t ==> (u in s'.calls <==> u in s.calls) && (u in s.calls ==> s'.calls[u] == s.calls[u])
  }

  lemma {:induction false} StepKeepsShape(s: State, a: Action)
    requires Shape(s) && Enabled(s, a)
    ensures Shape(Apply(s, a))
  {
    if a.Reset? || a.BeginForce? {
      ShapeOfReset(s, Apply(s, a), a.t);
    } else if a.Acquire? || a.Settle? || a.DropEnsure? {
      PermitStep(s, a);
    } else if a.GetFill? {
      FillStep(s, a.t);
    } else if a.CreatedElsewhere? {
      assert forall t :: t in s.calls ==> CellIn(s, t);
    } else {
      PlainStep(s, a);
    }
  }

  lemma FillStep(s: State, t: nat)
    requires Shape(s) && Enabled(s, GetFill(t))
    ensures Shape(Apply(s, GetFill(t)))
  {
    var filled := Fill(s);
    assert forall u :: u in s.calls ==> CellIn(s, u);
    assert forall u: nat, c: nat :: InFlight(filled, u, c) ==> InFlight(s, u, c);
    ShapeOfMove(filled, Apply(s, GetFill(t)), t);
  }

  lemma PlainStep(s: State, a: Action)
    requires Shape(s) && Enabled(s, a) && !a.CreatedElsewhere?
    requires !a.Reset? && !a.BeginForce? && !a.Acquire? && !a.Settle? && !a.DropEnsure? && !a.GetFill?
    ensures Shape(Apply(s, a))
  {
    var s' := Apply(s, a);
    assert s'.cells == s.cells && s'.current == s.current && OthersStay(s, s', a.t);
    assert a.t in s.calls ==> CellIn(s, a.t);
    assert a.Serve? ==> InFlight(s, a.t, s.calls[a.t].cell);
    ShapeOfMove(s, s', a.t);
  }

  lemma PermitStep(s: State, a: Action)
    requires Shape(s) && Enabled(s, a) && (a.Acquire? || a.Settle? || a.DropEnsure?)
    ensures Shape(Apply(s, a))
  {
    var pc := s.calls[a.t];
    if a.Acquire? || pc.Posting? || pc.Replied? {
      assert !a.Acquire? ==> InFlight(s, a.t, pc.cell);
      ShapeOfPermit(s, Apply(s, a), a.t, pc.cell);
    } else {
      ShapeOfMove(s, Apply(s, a), a.t);
    }
  }

  /** Only call `t` moves, and it holds a permit only if it did before. */
  lemma ShapeOfMove(s: State, s': State, t: nat)
    requires Shape(s) && s'.cells == s.cells && s'.current == s.current
    requires OthersStay(s, s', t) && Later(s, s')
    requires t in s'.calls ==> CellIn(s', t)
    requires forall c: nat :: InFlight(s', t, c) ==> InFlight(s, t, c)
    ensures Shape(s')
  {
  }

  /** Call `t` takes or gives back the permit of cell `c`. */
  lemma ShapeOfPermit(s: State, s': State, t: nat, c: nat)
    requires Shape(s) && c < |s.cells| && t in s.calls
    requires |s'.cells| == |s.cells| && s'.current == s.current
    requires forall d :: 0 <= d < |s.cells| && d != c ==> s'.cells[d] == s.cells[d]
    requires OthersStay(s, s', t) && Later(s, s')
    requires s.calls[t] == Waiting(c) || InFlight(s, t, c)
    requires if t in s'.calls then s'.calls[t] == Posting(c) && s.cells[c].holder.None? && s'.cells[c].holder == Some(t)
             else InFlight(s, t, c) && s'.cells[c].holder.None?
    requires s'.cells[c].full ==> s'.cells[c].holder.None?
    requires s'.cells[c].wins <= if s'.cells[c].full then 1 else 0
    ensures Shape(s')
  {
    assert forall u: nat, d: nat :: u != t && InFlight(s', u, d) ==> InFlight(s, u, d);
    assert forall u: nat :: u != t ==> !InFlight(s, u, c);
    assert forall u :: u in s'.calls && u != t ==> CellIn(s, u);
  }

  lemma ShapeOfReset(s: State, s': State, t: nat)
    requires Shape(s) && s'.cells == s.cells + [EMPTY] && s'.current == |s.cells|
    requires OthersStay(s, s', t) && Later(s, s') && (t in s'.calls ==> s'.calls[t] == Start)
    ensures Shape(s')
  {
    assert forall u: nat, c: nat :: InFlight(s', u, c) ==> InFlight(s, u, c);
    assert forall u :: u in s'.calls && u != t ==> CellIn(s, u);
  }

  /** An excuse lasts until the current cell is replaced or the delete behind it is lost. */
  lemma ExcuseLasts(s: State, a: Action, lost: bool)
    requires Shape(s) && Enabled(s, a) && Excused(s, lost) && !a.Reset? && !a.BeginForce?
    requires a.LoseDelete? && !lost ==> exists u :: u != a.t && At(s, u, Deleted(s.current))
    ensures Excused(Apply(s, a), lost)
  {
    var s' := Apply(s, a);
    if a.DeleteServed? {
      assert s'.calls[a.t] == Deleted(s'.current);
    } else if a.LoseDelete? && !lost {
      var u :| u != a.t && At(s, u, Deleted(s.current));
      assert At(s', u, Deleted(s'.current));
    } else if DeletedUnder(s, s.current, lost) {
      var t :| t in s.calls && (s.calls[t] == Deleted(s.current) || (lost && s.calls[t] == DeleteLost(s.current)));
      assert t in s'.calls && (s'.calls[t] == Deleted(s.current) || (lost && s'.calls[t] == DeleteLost(s.current)));
    }
  }

  /** Nothing vouches for a fresh cell. */
  lemma FreshCell(s: State, a: Action, lost: bool)
    requires Shape(s) && Enabled(s, a) && (a.Reset? || a.BeginForce?)
    ensures Trust(Apply(s, a), lost)
  {
  }

  /** The current cell is filled by a call that vouched for it, or by a fill that is not harmful. */
  lemma FilledByVoucher(s: State, a: Action, lost: bool)
    requires Shape(s) && Enabled(s, a) && !a.Reset? && !a.BeginForce?
    requires a.GetFill? ==> !HarmfulFill(s, lost)
    requires Apply(s, a).cells[s.current].full && !s.cells[s.current].full
    ensures Vouched(s, a.t) || (a.GetFill? && Excused(s, lost))
  {
  }

  /** A call vouches for the current cell from the moment the server created the workspace. */
  lemma NewVoucher(s: State, a: Action, t: nat)
    requires Shape(s) && Enabled(s, a) && !a.Reset? && !a.BeginForce?
    requires Vouched(Apply(s, a), t) && !Vouched(s, t)
    ensures Apply(s, a).present
  {
  }

  /** A safe fill is not harmful. */
  lemma SafeFill(s: State, t: nat, lost: bool)
    requires Inv(s, lost) && Enabled(s, GetFill(t)) && Safe(s, GetFill(t), lost)
    ensures !HarmfulFill(s, lost)
  {
    assert CellIn(s, t);
    assert s.calls[t].cell == s.current ==> Vouched(s, t);
  }

  lemma StepKeepsInv(s: State, a: Action, lost: bool)
    requires Inv(s, lost) && Enabled(s, a)
    requires a.GetFill? ==> !HarmfulFill(s, lost)
    requires a.LoseDelete? ==> lost || HarmlessLoss(s, a.t)
    ensures Inv(Apply(s, a), lost)
  {
    StepKeepsShape(s, a);
    if a.Reset? || a.BeginForce? {
      FreshCell(s, a, lost);
    } else if a.LoseDelete? && !lost {
      LoseDeleteStep(s, a.t);
    } else {
      TrustStep(s, a, lost);
    }
  }

  lemma TrustStep(s: State, a: Action, lost: bool)
    requires Inv(s, lost) && Enabled(s, a) && !a.Reset? && !a.BeginForce? && (a.LoseDelete? ==> lost)
    requires a.GetFill? ==> !HarmfulFill(s, lost)
    ensures Trust(Apply(s, a), lost)
  {
    var s' := Apply(s, a);
    if Excused(s, lost) {
      ExcuseLasts(s, a, lost);
    }
    if s'.cells[s.current].full && !s.cells[s.current].full {
      FilledByVoucher(s, a, lost);
    }
    forall t: nat | Vouched(s', t)
      ensures Excused(s', lost)
    {
      if !Vouched(s, t) {
        NewVoucher(s, a, t);
      }
    }
  }

  /** Losing the reply of a delete takes away the excuse that rested on it, and nothing else. */
  lemma LoseDeleteStep(s: State, t: nat)
    requires Shape(s) && Enabled(s, LoseDelete(t))
    ensures var s' := Apply(s, LoseDelete(t));
            && s'.cells == s.cells && s'.current == s.current && s'.present == s.present
            && (forall u: nat :: Vouched(s', u) <==> Vouched(s, u))
            && (DeletedUnder(s', s.current, false) <==> exists u :: u != t && At(s, u, Deleted(s.current)))
    ensures Inv(s, false) && HarmlessLoss(s, t) ==> Trust(Apply(s, LoseDelete(t)), false)
  {
    var s' := Apply(s, LoseDelete(t));
    assert forall u :: At(s', u, Deleted(s.current)) <==> u != t && At(s, u, Deleted(s.current));
    if exists u :: u != t && At(s, u, Deleted(s.current)) {
      var u :| u != t && At(s, u, Deleted(s.current));
      assert s'.calls[u] == Deleted(s.current);
    }
    if DeletedUnder(s', s.current, false) {
      var u :| u in s'.calls && s'.calls[u] == Deleted(s.current);
      assert At(s', u, Deleted(s.current));
    }
    if s.calls[t].cell != s.current && DeletedUnder(s, s.current, false) {
      var u :| u in s.calls && s.calls[u] == Deleted(s.current);
      assert u != t && At(s, u, Deleted(s.current));
    }
  }

  lemma {:induction false} RunKeepsInv(s: State, actions: seq<Action>, s': State, lost: bool)
    requires Inv(s, lost) && IsRun(s, actions, s') && AllSafe(s, actions, lost)
    ensures Inv(s', lost)
    decreases |actions|
  {
    if actions != [] {
      var a := actions[0];
      if a.GetFill? {
        SafeFill(s, a.t, lost);
      }
      StepKeepsInv(s, a, lost);
      RunKeepsInv(Apply(s, a), actions[1..], s', lost);
    }
  }

  /**
   Over every interleaving in which each fill of get-or-create is safe: a set current cell
   means that the workspace exists or was deleted under that very cell.
   */
  lemma CacheIsCoherent(actions: seq<Action>, s: State)
    requires IsRun(INITIAL, actions, s) && AllSafe(INITIAL, actions, true)
    ensures Coherent(s)
  {
    RunKeepsInv(INITIAL, actions, s, true);
  }

  /** If the losses of replies are harmless as well, the only excuse is a reset on its way. */
  lemma CacheIsUpToDate(actions: seq<Action>, s: State)
    requires IsRun(INITIAL, actions, s) && AllSafe(INITIAL, actions, false)
    ensures UpToDate(s)
  {
    RunKeepsInv(INITIAL, actions, s, false);
  }

  lemma {:induction false} SafeWithoutLoss(s: State, actions: seq<Action>)
    requires AllSafe(s, actions, true) && forall a :: a in actions ==> !a.LoseDelete?
    ensures AllSafe(s, actions, false)
    decreases |actions|
  {
    if actions != [] && Enabled(s, actions[0]) {
      SafeWithoutLoss(Apply(s, actions[0]), actions[1..]);
    }
  }

  lemma CacheIsCoherentIfNothingIsLost(actions: seq<Action>, s: State)
    requires IsRun(INITIAL, actions, s) && AllSafe(INITIAL, actions, true)
    requires forall a :: a in actions ==> !a.LoseDelete?
    ensures UpToDate(s)
  {
    SafeWithoutLoss(INITIAL, actions);
    CacheIsUpToDate(actions, s);
  }

  // Single flight needs no condition at all.

  lemma {:induction false} RunKeepsShape(s: State, actions: seq<Action>, s': State)
    requires Shape(s) && IsRun(s, actions, s')
    ensures Shape(s')
    decreases |actions|
  {
    if actions != [] {
      StepKeepsShape(s, actions[0]);
      RunKeepsShape(Apply(s, actions[0]), actions[1..], s');
    }
  }

  /** Over every interleaving: at most one create request in flight per cell, and at most one ever fills it. */
  lemma EveryRunIsSingleFlight(actions: seq<Action>, s: State)
    requires IsRun(INITIAL, actions, s)
    ensures SingleFlight(s)
  {
    RunKeepsShape(INITIAL, actions, s);
  }

  // ---------------------------------------------------------------------
  // What an answer does to the cell, and that nobody waits in vain
  // ---------------------------------------------------------------------

  /** The action is a step of call `t`. */
  predicate IsOf(a: Action, t: nat) { !a.CreatedElsewhere? && a.t == t }

  lemma {:induction false} RepliedStays(s: State, actions: seq<Action>, s': State, t: nat)
    requires Shape(s) && IsRun(s, actions, s') && t in s.calls && s.calls[t].Replied?
    requires forall a :: a in actions ==> !IsOf(a, t)
    ensures Shape(s') && At(s', t, s.calls[t])
    decreases |actions|
  {
    if actions != [] {
      var a := actions[0];
      assert !IsOf(a, t);
      StepKeepsShape(s, a);
      RepliedStays(Apply(s, a), actions[1..], s', t);
    }
  }

  /**
   A create request fills the cell its call snapshotted if and only if the server created
   the workspace or answered that it exists, whatever other calls do before the reply is handled.
   */
  lemma ReplyFillsIff(s: State, t: nat, reply: ServerReply, between: seq<Action>, s': State)
    requires Shape(s) && Enabled(s, Serve(t, reply))
    requires IsRun(Apply(s, Serve(t, reply)), between, s') && forall a :: a in between ==> !IsOf(a, t)
    ensures Enabled(s', Settle(t))
    ensures var c := s.calls[t].cell;
            && c < |s'.cells| && !s'.cells[c].full
            && (Apply(s', Settle(t)).cells[c].full <==> reply == Created || reply == Conflict)
            && Apply(s', Settle(t)).cells[c].holder.None?
  {
    var served := Apply(s, Serve(t, reply));
    var c := s.calls[t].cell;
    StepKeepsShape(s, Serve(t, reply));
    RepliedStays(served, between, s', t);
    assert InFlight(s', t, c);
  }

  /** The steps of call `t`, in order. */
  function OwnSteps(actions: seq<Action>, t: nat): seq<Action> {
    if actions == [] then []
    else (if IsOf(actions[0], t) then [actions[0]] else []) + OwnSteps(actions[1..], t)
  }

  lemma {:induction false} LastIsOwn(actions: seq<Action>, t: nat)
    requires actions != [] && IsOf(actions[|actions| - 1], t)
    ensures OwnSteps(actions, t) != []
  {
    if |actions| > 1 {
      LastIsOwn(actions[1..], t);
    }
  }

  /** What call `t` has still to do to fill cell `c` with the answer `reply`. */
  function Remaining(pc: Pc, t: nat, c: nat, reply: ServerReply): Option<seq<Action>> {
    if pc == Waiting(c) then Some([Acquire(t), Serve(t, reply), Settle(t)])
    else if pc == Posting(c) then Some([Serve(t, reply), Settle(t)])
    else if pc == Replied(c, reply == Created || reply == Conflict) then Some([Settle(t)])
    else None
  }

  lemma OtherStep(s: State, a: Action, t: nat)
    requires Shape(s) && Enabled(s, a) && t in s.calls && !IsOf(a, t)
    ensures At(Apply(s, a), t, s.calls[t])
  {
  }

  lemma OwnStep(s: State, a: Action, t: nat, c: nat, reply: ServerReply)
    requires Shape(s) && Enabled(s, a) && t in s.calls && IsOf(a, t) && a != Settle(t)
    requires Remaining(s.calls[t], t, c, reply).Some? && Remaining(s.calls[t], t, c, reply).value[0] == a
    ensures var m := Apply(s, a);
            && t in m.calls && Remaining(m.calls[t], t, c, reply).Some?
            && Remaining(m.calls[t], t, c, reply).value == Remaining(s.calls[t], t, c, reply).value[1..]
  {
  }

  lemma {:induction false} FillsFrom(s: State, actions: seq<Action>, s': State, t: nat, c: nat, reply: ServerReply)
    requires Shape(s) && IsRun(s, actions, s') && actions != [] && actions[|actions| - 1] == Settle(t)
    requires t in s.calls && Remaining(s.calls[t], t, c, reply) == Some(OwnSteps(actions, t))
    ensures c < |s'.cells| && (s'.cells[c].full <==> reply == Created || reply == Conflict)
    decreases |actions|
  {
    var a, rest := actions[0], actions[1..];
    StepKeepsShape(s, a);
    if |actions| > 1 {
      LastIsOwn(rest, t);
      if IsOf(a, t) {
        assert OwnSteps(actions, t)[0] == a && OwnSteps(actions, t)[1..] == OwnSteps(rest, t);
        OwnStep(s, a, t, c, reply);
      } else {
        assert OwnSteps(actions, t) == OwnSteps(rest, t);
        OtherStep(s, a, t);
      }
      FillsFrom(Apply(s, a), rest, s', t, c, reply);
    } else {
      assert OwnSteps(actions, t) == [Settle(t)];
      ReplyOnly(s, t, c, reply);
    }
  }

  lemma ReplyOnly(s: State, t: nat, c: nat, reply: ServerReply)
    requires Shape(s) && Enabled(s, Settle(t)) && Remaining(s.calls[t], t, c, reply) == Some([Settle(t)])
    ensures Apply(s, Settle(t)).cells[c].full <==> reply == Created || reply == Conflict
  {
    var full := Remaining(Waiting(c), t, c, reply).value;
    assert |full| == 3 && |Remaining(Posting(c), t, c, reply).value| == 2;
    assert InFlight(s, t, c);
  }

  /**
   One ensure from its snapshot to its end, whatever other calls do meanwhile: the cell that
   was current at the snapshot is filled if and only if the server created the workspace or
   answered that it exists.
   */
  lemma EnsureFillsIff(s: State, actions: seq<Action>, s': State, t: nat, reply: ServerReply)
    requires Shape(s) && IsRun(s, actions, s')
    requires |actions| > 1 && actions[0] == Snapshot(t) && actions[|actions| - 1] == Settle(t)
    requires OwnSteps(actions, t) == [Snapshot(t), Acquire(t), Serve(t, reply), Settle(t)]
    ensures s.current < |s'.cells| && (s'.cells[s.current].full <==> reply == Created || reply == Conflict)
  {
    StepKeepsShape(s, Snapshot(t));
    assert OwnSteps(actions, t)[1..] == OwnSteps(actions[1..], t);
    FillsFrom(Apply(s, Snapshot(t)), actions[1..], s', t, s.current, reply);
  }

  /** Once the current cell is set, an ensure sends nothing. */
  lemma SetCellIsEnough(s: State, t: nat)
    requires Shape(s) && SetNow(s) && Enabled(s, BeginEnsure(t))
    ensures var began := Apply(s, BeginEnsure(t));
            Enabled(began, Snapshot(t)) &&
            var waits := Apply(began, Snapshot(t)); Enabled(waits, AlreadySet(t)) && !Enabled(waits, Acquire(t))
  {
  }

  /** `force_ensure` asks the server anew, whatever the cache held and whoever was asking. */
  lemma ForceAsksAnew(s: State, t: nat)
    requires Shape(s) && Enabled(s, BeginForce(t))
    ensures var began := Apply(s, BeginForce(t));
            Enabled(began, Snapshot(t)) &&
            var waits := Apply(began, Snapshot(t)); Enabled(waits, Acquire(t)) && !Enabled(waits, AlreadySet(t))
  {
  }

  /** A held permit belongs to a request in flight. */
  ghost predicate PermitsInUse(s: State) {
    forall c, t: nat :: 0 <= c < |s.cells| && s.cells[c].holder == Some(t) ==> InFlight(s, t, c)
  }

  lemma StepKeepsPermits(s: State, a: Action)
    requires Shape(s) && PermitsInUse(s) && Enabled(s, a)
    ensures PermitsInUse(Apply(s, a))
  {
    var s' := Apply(s, a);
    forall c, t: nat | 0 <= c < |s'.cells| && s'.cells[c].holder == Some(t)
      ensures InFlight(s', t, c)
    {
      PermitAfter(s, a, c, t);
    }
  }

  lemma PermitAfter(s: State, a: Action, c: nat, t: nat)
    requires Shape(s) && PermitsInUse(s) && Enabled(s, a)
    requires c < |Apply(s, a).cells| && Apply(s, a).cells[c].holder == Some(t)
    ensures InFlight(Apply(s, a), t, c)
  {
    if c < |s.cells| && s.cells[c].holder == Some(t) {
      assert InFlight(s, t, c);
    }
  }

  lemma {:induction false} RunKeepsPermits(s: State, actions: seq<Action>, s': State)
    requires Shape(s) && PermitsInUse(s) && IsRun(s, actions, s')
    ensures Shape(s') && PermitsInUse(s')
    decreases |actions|
  {
    if actions != [] {
      StepKeepsShape(s, actions[0]);
      StepKeepsPermits(s, actions[0]);
      RunKeepsPermits(Apply(s, actions[0]), actions[1..], s');
    }
  }

  /**
   Nobody waits in vain: over every run, a call that waits for its cell finds it set, or
   takes its permit, or the permit is held by a call whose own next step is possible.
   */
  lemma WaiterGoesOn(actions: seq<Action>, s: State, t: nat, c: nat)
    requires IsRun(INITIAL, actions, s) && At(s, t, Waiting(c))
    ensures PermitsInUse(s)
    ensures Enabled(s, AlreadySet(t)) || Enabled(s, Acquire(t))
            || exists u: nat :: InFlight(s, u, c) && (Enabled(s, Serve(u, Created)) || Enabled(s, Settle(u)))
  {
    RunKeepsPermits(INITIAL, actions, s);
    assert CellIn(s, t);
    if s.cells[c].holder.Some? {
      assert InFlight(s, s.cells[c].holder.value, c);
    }
  }

  // ---------------------------------------------------------------------
  // Exactly when the promise is kept
  // ---------------------------------------------------------------------

  ghost predicate AlwaysCoherent(s: State, actions: seq<Action>)
    decreases |actions|
  {
    Coherent(s) && (actions == [] || (Enabled(s, actions[0]) ==> AlwaysCoherent(Apply(s, actions[0]), actions[1..])))
  }

  ghost predicate NoHarmfulFill(s: State, actions: seq<Action>)
    decreases |actions|
  {
    actions == [] ||
    (Enabled(s, actions[0]) ==>
       (actions[0].GetFill? ==> !HarmfulFill(s, true)) && NoHarmfulFill(Apply(s, actions[0]), actions[1..]))
  }

  /**
   One fill. It breaks the promise exactly if it takes effect on a workspace that is gone
   with no delete under the cell; and then its call is late twice over: another cell has
   become current and a delete has taken effect since its request did.
   */
  lemma GetFillIff(s: State, t: nat)
    requires Inv(s, true) && Enabled(s, GetFill(t))
    ensures Coherent(Apply(s, GetFill(t))) <==> !HarmfulFill(s, true)
    ensures HarmfulFill(s, true) ==> s.calls[t].cell < s.current && s.calls[t].at < s.deletes
  {
    var s' := Apply(s, GetFill(t));
    assert CellIn(s, t);
    if HarmfulFill(s, true) {
      if DeletedUnder(s', s.current, true) {
        RecordsOnlyFromDeletes(s, GetFill(t), s.current);
      }
      if !(s.calls[t].cell < s.current && s.calls[t].at < s.deletes) {
        SafeFill(s, t, true);
      }
    } else {
      StepKeepsInv(s, GetFill(t), true);
    }
  }

  /** Whole runs: the promise holds in every state if and only if no fill on the way is harmful. */
  lemma {:induction false} CoherentThroughoutIff(s: State, actions: seq<Action>)
    requires Inv(s, true)
    ensures AlwaysCoherent(s, actions) <==> NoHarmfulFill(s, actions)
    decreases |actions|
  {
    if actions != [] && Enabled(s, actions[0]) {
      var a := actions[0];
      if a.GetFill? {
        GetFillIff(s, a.t);
      }
      if a.GetFill? && HarmfulFill(s, true) {
        assert !Coherent(Apply(s, a));
      } else {
        StepKeepsInv(s, a, true);
        CoherentThroughoutIff(Apply(s, a), actions[1..]);
      }
    }
  }

  /** One lost reply: what it breaks, and exactly when. */
  lemma LoseDeleteIff(s: State, t: nat)
    requires Inv(s, false) && Enabled(s, LoseDelete(t))
    ensures Inv(Apply(s, LoseDelete(t)), false) <==> HarmlessLoss(s, t)
    ensures UpToDate(Apply(s, LoseDelete(t))) <==>
            !SetNow(s) || s.present || exists u :: u != t && At(s, u, Deleted(s.current))
  {
    StepKeepsShape(s, LoseDelete(t));
    LoseDeleteStep(s, t);
    if s.calls[t].cell != s.current && DeletedUnder(s, s.current, false) {
      var u :| u in s.calls && s.calls[u] == Deleted(s.current);
      assert u != t && At(s, u, Deleted(s.current));
    }
  }

  /** A harmful loss: the lost reply leaves a full cell, no workspace, and no reset to come. */
  lemma {:induction false} LostDeleteLeavesStaleCell() returns (s: State)
    ensures SetNow(s) && !Excused(s, false)
    ensures IsRun(INITIAL, [BeginEnsure(0), Snapshot(0), Acquire(0), Serve(0, Created), Settle(0),
                            BeginDelete(1), DeleteServed(1), LoseDelete(1)], s)
  {
    s := State(false, [Cell(true, None, 1)], 0, map[1 := DeleteLost(0)], 1);
    LostDeleteEnds(State(true, [Cell(true, None, 1)], 0, map[], 0), s);
    EnsureFills([BeginDelete(1), DeleteServed(1), LoseDelete(1)], s);
    assert [BeginEnsure(0), Snapshot(0), Acquire(0), Serve(0, Created), Settle(0)]
           + [BeginDelete(1), DeleteServed(1), LoseDelete(1)]
        == [BeginEnsure(0), Snapshot(0), Acquire(0), Serve(0, Created), Settle(0),
            BeginDelete(1), DeleteServed(1), LoseDelete(1)];
  }

  lemma LostDeleteEnds(s5: State, s: State)
    requires s5 == State(true, [Cell(true, None, 1)], 0, map[], 0)
    requires s == State(false, [Cell(true, None, 1)], 0, map[1 := DeleteLost(0)], 1)
    ensures IsRun(s5, [BeginDelete(1), DeleteServed(1), LoseDelete(1)], s)
  {
  }

  lemma EnsureFills(rest: seq<Action>, s: State)
    requires IsRun(State(true, [Cell(true, None, 1)], 0, map[], 0), rest, s)
    ensures IsRun(INITIAL, [BeginEnsure(0), Snapshot(0), Acquire(0), Serve(0, Created), Settle(0)] + rest, s)
  {
    var held := Cell(false, Some(0), 0);
    var s4 := State(true, [held], 0, map[0 := Replied(0, true)], 0);
    assert Apply(s4, Settle(0)) == State(true, [Cell(true, None, 1)], 0, map[], 0);
    RunStep(s4, Settle(0), rest, s);
    var s3 := State(false, [held], 0, map[0 := Posting(0)], 0);
    assert Apply(s3, Serve(0, Created)) == s4;
    RunStep(s3, Serve(0, Created), [Settle(0)] + rest, s);
    EnsureStarts([Serve(0, Created)] + ([Settle(0)] + rest), s);
    assert [BeginEnsure(0), Snapshot(0), Acquire(0)] + ([Serve(0, Created)] + ([Settle(0)] + rest))
        == [BeginEnsure(0), Snapshot(0), Acquire(0), Serve(0, Created), Settle(0)] + rest;
  }

  lemma EnsureStarts(rest: seq<Action>, s: State)
    requires IsRun(State(false, [Cell(false, Some(0), 0)], 0, map[0 := Posting(0)], 0), rest, s)
    ensures IsRun(INITIAL, [BeginEnsure(0), Snapshot(0), Acquire(0)] + rest, s)
  {
    var s2 := State(false, [EMPTY], 0, map[0 := Waiting(0)], 0);
    assert Apply(s2, Acquire(0)) == State(false, [Cell(false, Some(0), 0)], 0, map[0 := Posting(0)], 0);
    RunStep(s2, Acquire(0), rest, s);
    var s1 := State(false, [EMPTY], 0, map[0 := Start], 0);
    assert Apply(s1, Snapshot(0)) == s2;
    RunStep(s1, Snapshot(0), [Acquire(0)] + rest, s);
    assert Apply(INITIAL, BeginEnsure(0)) == s1;
    RunStep(INITIAL, BeginEnsure(0), [Snapshot(0)] + ([Acquire(0)] + rest), s);
    assert [BeginEnsure(0)] + ([Snapshot(0)] + ([Acquire(0)] + rest)) == [BeginEnsure(0), Snapshot(0), Acquire(0)] + rest;
  }

  // ---------------------------------------------------------------------
  // What a reset restores
  // ---------------------------------------------------------------------

  ghost predicate NoRecordSince(s: State, k: nat) {
    k <= s.current && forall c: nat :: k <= c ==> !DeletedUnder(s, c, true)
  }

  lemma RecordsOnlyFromDeletes(s: State, a: Action, c: nat)
    requires Enabled(s, a) && !a.DeleteServed? && DeletedUnder(Apply(s, a), c, true)
    ensures DeletedUnder(s, c, true)
  {
  }

  lemma {:induction false} NoDeleteNoRecord(s: State, actions: seq<Action>, s': State, k: nat)
    requires IsRun(s, actions, s') && NoRecordSince(s, k) && s.current < |s.cells|
    requires forall a :: a in actions ==> !a.DeleteServed?
    ensures NoRecordSince(s', k)
    decreases |actions|
  {
    if actions != [] {
      var a := actions[0];
      var m := Apply(s, a);
      forall c | k <= c && DeletedUnder(m, c, true)
        ensures DeletedUnder(s, c, true)
      {
        RecordsOnlyFromDeletes(s, a, c);
      }
      NoDeleteNoRecord(m, actions[1..], s', k);
    }
  }

  /**
   `force_ensure` forgets whatever happened before, lost deletes and harmful fills included:
   from its reset on, and until the next delete takes effect, a set cell means the workspace
   exists. Only the steps after the reset have to be safe.
   */
  lemma ForceRestoresTrust(before: seq<Action>, s: State, t: nat, actions: seq<Action>, s': State)
    requires IsRun(INITIAL, before, s) && Enabled(s, BeginForce(t))
    requires IsRun(Apply(s, BeginForce(t)), actions, s') && AllSafe(Apply(s, BeginForce(t)), actions, true)
    requires forall a :: a in actions ==> !a.DeleteServed?
    ensures s'.current < |s'.cells| && (s'.cells[s'.current].full ==> s'.present)
  {
    RunKeepsShape(INITIAL, before, s);
    var forced := Apply(s, BeginForce(t));
    StepKeepsShape(s, BeginForce(t));
    FreshCell(s, BeginForce(t), true);
    RunKeepsInv(forced, actions, s', true);
    assert forall u :: u in forced.calls ==> u == t || CellIn(s, u);
    NoDeleteNoRecord(forced, actions, s', forced.current);
  }

  /** Helper: a late reply fills the cell its call snapshotted, and no other. */
  lemma StaleEnsureKeepsCurrent(s: State, t: nat)
    requires Shape(s) && Enabled(s, Settle(t)) && s.calls[t].cell != s.current
    ensures Apply(s, Settle(t)).cells[s.current] == s.cells[s.current]
    ensures s.cells[s.calls[t].cell].holder == Some(t)
  {
  }

  // ---------------------------------------------------------------------
  // Where the promise fails
  // ---------------------------------------------------------------------

  /**
   A get-or-create whose reply is handled after a delete has reset the cache marks the new
   cell: the cache then claims a workspace that is gone, with no delete under that cell.
   */
  lemma LateGetBreaksCoherence() returns (s: State)
    ensures IsRun(INITIAL, [BeginGet(0), GetServed(0), BeginDelete(1), DeleteServed(1), Reset(1), GetFill(0)], s)
    ensures !Coherent(s)
  {
    s := State(false, [EMPTY, EMPTY.(full := true)], 1, map[], 1);
    LateGetEnds(State(true, [EMPTY], 0, map[0 := Got(0, 0), 1 := Deleting], 0), s);
    LateGetBegins([DeleteServed(1), Reset(1), GetFill(0)], s);
    assert [BeginGet(0), GetServed(0), BeginDelete(1)] + [DeleteServed(1), Reset(1), GetFill(0)]
        == [BeginGet(0), GetServed(0), BeginDelete(1), DeleteServed(1), Reset(1), GetFill(0)];
  }

  lemma LateGetBegins(rest: seq<Action>, s: State)
    requires IsRun(State(true, [EMPTY], 0, map[0 := Got(0, 0), 1 := Deleting], 0), rest, s)
    ensures IsRun(INITIAL, [BeginGet(0), GetServed(0), BeginDelete(1)] + rest, s)
  {
    var s2 := State(true, [EMPTY], 0, map[0 := Got(0, 0)], 0);
    assert Apply(s2, BeginDelete(1)) == State(true, [EMPTY], 0, map[0 := Got(0, 0), 1 := Deleting], 0);
    RunStep(s2, BeginDelete(1), rest, s);
    var s1 := State(false, [EMPTY], 0, map[0 := Getting], 0);
    assert Apply(s1, GetServed(0)) == s2;
    RunStep(s1, GetServed(0), [BeginDelete(1)] + rest, s);
    assert Apply(INITIAL, BeginGet(0)) == s1;
    RunStep(INITIAL, BeginGet(0), [GetServed(0)] + ([BeginDelete(1)] + rest), s);
    assert [BeginGet(0)] + ([GetServed(0)] + ([BeginDelete(1)] + rest))
        == [BeginGet(0), GetServed(0), BeginDelete(1)] + rest;
  }

  lemma LateGetEnds(s3: State, s: State)
    requires s3 == State(true, [EMPTY], 0, map[0 := Got(0, 0), 1 := Deleting], 0)
    requires s == State(false, [EMPTY, EMPTY.(full := true)], 1, map[], 1)
    ensures IsRun(s3, [DeleteServed(1), Reset(1), GetFill(0)], s)
  {
    var s5 := State(false, [EMPTY, EMPTY], 1, map[0 := Got(0, 0)], 1);
    assert Apply(s5, GetFill(0)) == s;
    RunStep(s5, GetFill(0), [], s);
    var s4 := State(false, [EMPTY], 0, map[0 := Got(0, 0), 1 := Deleted(0)], 1);
    assert Apply(s4, Reset(1)) == s5;
    RunStep(s4, Reset(1), [GetFill(0)], s);
    assert Apply(s3, DeleteServed(1)) == s4;
    RunStep(s3, DeleteServed(1), [Reset(1), GetFill(0)], s);
  }

  lemma RunStep(s: State, a: Action, rest: seq<Action>, s': State)
    requires Enabled(s, a) && IsRun(Apply(s, a), rest, s')
    ensures IsRun(s, [a] + rest, s')
  {
  }
}
