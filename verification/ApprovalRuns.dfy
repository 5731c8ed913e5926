/** Any number of callers at once (approval/store.py `decide`, `cancel`, `system_cancel`): every statement is atomic,
    anything may happen between two of them. */
module ApprovalRuns {
  import opened Base
  import opened ApprovalEngine
  import opened ApprovalStore

  type Caller = nat

  /** Where a caller is between two statements, with what it remembers. `seen` is the turn it read at first. */
  datatype Place =
    | Idle
    /** `decide` has read the request row. */
    | ReadRequest(actor: int, action: Action, request: Request)
    /** It has read the steps too, and the rules let it go on. */
    | Allowed(actor: int, action: Action, seen: nat)
    /** Its own step is written. */
    | Written(seen: nat)
    /** It has read the ledger again: what the request should become. */
    | Reread(seen: nat, status: Outcome, next: nat)
    /** It won the transition; steps are still to be adjusted. */
    | Won(status: Outcome, next: nat)
    /** A withdrawal has read the request row; `who` is None for the system. */
    | CancelRead(who: Option<int>, request: Request)
    /** The rules let it go on. */
    | Canceling
    /** Open steps are skipped; the request row is still to be closed. */
    | Closing

  /** The ledger, the callers, and who took the request out of each turn, by a decision or by closing it (kept only to
      state that it is one). */
  datatype State = State(rows: Rows, callers: map<Caller, Place>, winners: map<nat, Caller>)

  // ---------------------------------------------------------------- one statement of one caller

  function PlaceOf(s: State, c: Caller): Place {
    if c in s.callers then s.callers[c] else Idle
  }

  ghost predicate Goes(s: State, s': State, c: Caller, rows: Rows, place: Place) {
    s' == s.(rows := rows, callers := s.callers[c := place])
  }

  /** One caller does its next statement, or gives up where the program raises an error. The fields of the form do not
      matter here: any blocks may let an approval pass. */
  ghost predicate Does(s: State, s': State, c: Caller) {
    match PlaceOf(s, c)
    case Idle =>
      || (exists actor, action :: Goes(s, s', c, s.rows, ReadRequest(actor, action, s.rows.request)))
      || (exists actor :: Goes(s, s', c, s.rows, CancelRead(actor, s.rows.request)))
    case ReadRequest(actor, action, request) =>
      var may := MayDecide<int>(request, s.rows.steps, actor, action, []);
      Goes(s, s', c, s.rows, Idle) || (may.Ok? && Goes(s, s', c, s.rows, Allowed(actor, action, request.current)))
    case Allowed(actor, action, seen) =>
      Goes(s, s', c, Sign(s.rows, actor, action), if SignWins(s.rows, actor) then Written(seen) else Idle)
    case Written(seen) =>
      var (status, next) := Advance(s.rows.steps, seen);
      Goes(s, s', c, s.rows, if status != Open || next != seen then Reread(seen, status, next) else Idle)
    case Reread(seen, status, next) =>
      if MoveWins(s.rows, seen) then
        s' == State(Move(s.rows, seen, status, next), s.callers[c := Won(status, next)], s.winners[seen := c])
      else Goes(s, s', c, s.rows, Idle)
    case Won(status, next) =>
      Goes(s, s', c, if status == Refused then SkipOpen(s.rows) else if status == Open then Ask(s.rows, next) else s.rows, Idle)
    case CancelRead(who, request) =>
      || Goes(s, s', c, s.rows, Idle)
      || (Goes(s, s', c, s.rows, Canceling)
          && if who.Some? then Cancel(request, s.rows.steps, who.value).Ok? else request.status == Open)
    case Canceling => Goes(s, s', c, SkipOpen(s.rows), Closing)
    case Closing =>
      if s.rows.request.status == Open then
        s' == State(Close(s.rows), s.callers[c := Idle], s.winners[s.rows.request.current := c])
      else Goes(s, s', c, s.rows, Idle)
  }

  ghost predicate Next(s: State, s': State) {
    exists c :: Does(s, s', c)
  }

  /** A freshly submitted request. */
  ghost predicate Initial(s: State) {
    Running(s.rows.request, s.rows.steps) && s.rows.request.current == 1 && s.callers == map[] && s.winners == map[]
  }

  ghost predicate Run(states: seq<State>) {
    states != [] && Initial(states[0]) && forall i, j :: 0 <= i && j == i + 1 && j < |states| ==> Next(states[i], states[j])
  }

  // ---------------------------------------------------------------- the invariant

  ghost predicate ApprovedBefore(steps: seq<Step>, k: nat) {
    forall i :: 0 <= i < k && i < |steps| ==> steps[i].status == Approved
  }

  /** What the ledger alone always satisfies. */
  ghost predicate RowsOk(rows: Rows) {
    && Line(rows.steps) && 1 <= rows.request.current <= |rows.steps|
    && (forall k: nat :: k < |rows.steps| && rows.steps[k].status in {Approved, Rejected, Pending} ==>
          ApprovedBefore(rows.steps, k))
    && (forall k: nat :: k < |rows.steps| && rows.steps[k].status == Pending ==>
          rows.request.status == Open && rows.request.current == k + 1)
    && (rows.request.status == Granted ==> ApprovedBefore(rows.steps, |rows.steps|))
    && (rows.request.status == Refused ==> SomeRejected(rows.steps))
    && (rows.request.status == Canceled ==> NoneOpen(rows.steps))
  }

  ghost predicate SomeRejected(steps: seq<Step>) {
    exists k: nat :: k < |steps| && steps[k].status == Rejected
  }

  ghost predicate NoneOpen(steps: seq<Step>) {
    forall k: nat :: k < |steps| ==> steps[k].status != Waiting && steps[k].status != Pending
  }

  /** What a decision that was computed still says about the ledger, however late it is carried out. */
  ghost predicate Justified(rows: Rows, seen: nat, status: Outcome, next: nat) {
    match status
    case Granted => ApprovedBefore(rows.steps, |rows.steps|) && next == seen && 1 <= next <= |rows.steps|
    case Refused => SomeRejected(rows.steps) && next == seen && 1 <= next <= |rows.steps|
    case Open => next == seen + 1 && next <= |rows.steps| && ApprovedBefore(rows.steps, seen)
    case Canceled => false
  }

  ghost predicate PlaceOk(rows: Rows, p: Place) {
    match p
    case ReadRequest(_, _, request) => 1 <= request.current <= |rows.steps|
    case Allowed(_, _, seen) => 1 <= seen <= |rows.steps|
    case Written(seen) => 1 <= seen <= |rows.steps|
    case Reread(seen, status, next) => Justified(rows, seen, status, next)
    case Won(status, next) =>
      && Justified(rows, if status == Open && next > 0 then next - 1 else next, status, next)
      && (status == Open && rows.steps[next - 1].status == Waiting ==>
            rows.request.status == Open && rows.request.current == next)
      && (status != Open ==> rows.request.status == status)
    case Closing => NoneOpen(rows.steps)
    case _ => true
  }

  ghost predicate Inv(s: State) {
    && RowsOk(s.rows)
    && (forall c :: c in s.callers ==> PlaceOk(s.rows, s.callers[c]))
    && (forall k :: k in s.winners ==> s.rows.request.status != Open || k < s.rows.request.current)
  }

  // ---------------------------------------------------------------- what never changes back

  /** Signatures and skipped steps stay; an ended request stays as it is; the turn never goes back. */
  ghost predicate Lasting(a: Rows, b: Rows) {
    && |a.steps| == |b.steps|
    && (forall k: nat :: k < |a.steps| ==>
          && b.steps[k].order == a.steps[k].order && b.steps[k].approver == a.steps[k].approver
          && (a.steps[k].status in {Approved, Rejected, Skipped} ==> b.steps[k].status == a.steps[k].status)
          && (b.steps[k].status == Waiting ==> a.steps[k].status == Waiting))
    && (a.request.status != Open ==> b.request == a.request)
    && a.request.current <= b.request.current && b.request.requester == a.request.requester
  }

  lemma {:induction false} LastingTwice(a: Rows, b: Rows, c: Rows)
    requires Lasting(a, b) && Lasting(b, c)
    ensures Lasting(a, c)
  {
  }

  lemma {:induction false} JustifiedLasts(a: Rows, b: Rows, seen: nat, status: Outcome, next: nat)
    requires Lasting(a, b) && Justified(a, seen, status, next)
    ensures Justified(b, seen, status, next)
  {
    if status == Refused {
      var k: nat :| k < |a.steps| && a.steps[k].status == Rejected;
      assert b.steps[k].status == Rejected;
    }
  }

  /** A justified decision that finds the request at its turn meets nobody who is still to sign there. */
  lemma {:induction false} NothingOpenAt(rows: Rows, seen: nat, status: Outcome, next: nat, k: nat)
    requires RowsOk(rows) && Justified(rows, seen, status, next) && k < |rows.steps|
    requires ApprovedBefore(rows.steps, k) && (rows.steps[k].status == Waiting || rows.steps[k].status == Pending)
    ensures status == Open && k + 1 != seen
  {
    NotPastRejected(rows, k);
  }

  /** Nobody is asked, and nobody approves, beyond a rejection. */
  lemma {:induction false} NotPastRejected(rows: Rows, k: nat)
    requires RowsOk(rows) && k < |rows.steps| && ApprovedBefore(rows.steps, k)
    requires rows.steps[k].status == Waiting || rows.steps[k].status == Pending
    ensures !SomeRejected(rows.steps)
  {
    forall j: nat | j < |rows.steps|
      ensures rows.steps[j].status != Rejected
    {
      assert rows.steps[j].status == Rejected ==> ApprovedBefore(rows.steps, j);
      assert j > k && ApprovedBefore(rows.steps, j) ==> rows.steps[k].status == Approved;
      assert j < k ==> rows.steps[j].status == Approved;
    }
  }

  // ---------------------------------------------------------------- every statement keeps the invariant

  /** Whoever waits at the turn still finds it there. */
  ghost predicate TurnKept(a: Rows, b: Rows) {
    forall k: nat :: k < |a.steps| && k < |b.steps| && b.steps[k].status == Waiting && ApprovedBefore(a.steps, k)
                     && a.request.status == Open && a.request.current == k + 1 ==>
      b.request.status == Open && b.request.current == k + 1
  }

  ghost predicate Keeps(a: Rows, b: Rows) {
    RowsOk(b) && Lasting(a, b) && TurnKept(a, b)
  }

  lemma {:induction false} PlaceLasts(a: Rows, b: Rows, p: Place)
    requires RowsOk(a) && Keeps(a, b) && PlaceOk(a, p)
    ensures PlaceOk(b, p)
  {
    hide RowsOk;
    match p {
      case Reread(seen, status, next) => JustifiedLasts(a, b, seen, status, next);
      case Won(status, next) =>
        var seen: nat := if status == Open && next > 0 then next - 1 else next;
        JustifiedLasts(a, b, seen, status, next);
      case Closing =>
      case _ =>
    }
  }

  lemma {:induction false} NothingChanges(rows: Rows)
    requires RowsOk(rows)
    ensures Keeps(rows, rows)
  {
  }

  lemma {:induction false} SignKeeps(rows: Rows, actor: int, action: Action)
    requires RowsOk(rows)
    ensures Keeps(rows, Sign(rows, actor, action))
  {
    var b := Sign(rows, actor, action);
    assert Lasting(rows, b);
    forall k: nat | k < |b.steps| && b.steps[k].status in {Approved, Rejected, Pending}
      ensures ApprovedBefore(b.steps, k)
    {
      assert ApprovedBefore(rows.steps, k);
    }
    if rows.request.status == Refused {
      var k: nat :| k < |rows.steps| && rows.steps[k].status == Rejected;
      assert b.steps[k].status == Rejected;
    }
  }

  lemma {:induction false} MoveKeeps(rows: Rows, seen: nat, status: Outcome, next: nat)
    requires RowsOk(rows) && Justified(rows, seen, status, next) && MoveWins(rows, seen)
    ensures Keeps(rows, Move(rows, seen, status, next))
    ensures PlaceOk(Move(rows, seen, status, next), Won(status, next))
    ensures status == Open ==> seen < next
  {
    var b := Move(rows, seen, status, next);
    forall k: nat | k < |rows.steps| && ApprovedBefore(rows.steps, k) && seen == k + 1
      ensures rows.steps[k].status != Waiting && rows.steps[k].status != Pending
    {
      if rows.steps[k].status == Waiting || rows.steps[k].status == Pending {
        NothingOpenAt(rows, seen, status, next, k);
      }
    }
    assert forall k: nat :: k < |rows.steps| ==> rows.steps[k].status != Pending;
    JustifiedLasts(rows, b, seen, status, next);
  }

  lemma {:induction false} SkipKeeps(rows: Rows)
    requires RowsOk(rows)
    ensures Keeps(rows, SkipOpen(rows)) && NoneOpen(SkipOpen(rows).steps)
  {
    var b := SkipOpen(rows);
    assert Lasting(rows, b);
    forall k: nat | k < |b.steps| && b.steps[k].status in {Approved, Rejected, Pending}
      ensures ApprovedBefore(b.steps, k)
    {
      assert ApprovedBefore(rows.steps, k);
    }
    if rows.request.status == Refused {
      var k: nat :| k < |rows.steps| && rows.steps[k].status == Rejected;
      assert b.steps[k].status == Rejected;
    }
  }

  /** Asking concerns one step, and only if it still waits. */
  lemma {:induction false} AskIs(rows: Rows, next: nat)
    requires Line(rows.steps) && 1 <= next <= |rows.steps|
    ensures Ask(rows, next)
         == if rows.steps[next - 1].status == Waiting
            then rows.(steps := rows.steps[next - 1 := rows.steps[next - 1].(status := Pending)]) else rows
  {
    var k := next - 1;
    var changed := if rows.steps[k].status == Waiting then rows.steps[k := rows.steps[k].(status := Pending)] else rows.steps;
    assert Ask(rows, next).steps == changed;
  }

  lemma {:induction false} AskKeeps(rows: Rows, next: nat)
    requires RowsOk(rows) && PlaceOk(rows, Won(Open, next))
    ensures Keeps(rows, Ask(rows, next))
  {
    assert Line(rows.steps) && 1 <= next <= |rows.steps| && ApprovedBefore(rows.steps, next - 1);
    AskIs(rows, next);
    if rows.steps[next - 1].status == Waiting {
      PendingKeeps(rows, next - 1);
    } else {
      NothingChanges(rows);
    }
  }

  lemma {:induction false} PendingKeeps(rows: Rows, k: nat)
    requires RowsOk(rows) && k < |rows.steps| && rows.steps[k].status == Waiting && ApprovedBefore(rows.steps, k)
    requires rows.request.status == Open && rows.request.current == k + 1
    ensures Keeps(rows, rows.(steps := rows.steps[k := rows.steps[k].(status := Pending)]))
  {
    var b := rows.steps[k := rows.steps[k].(status := Pending)];
    forall j: nat | j < |b| && b[j].status in {Approved, Rejected, Pending}
      ensures ApprovedBefore(b, j)
    {
      if j != k { assert ApprovedBefore(rows.steps, j); }
    }
  }

  lemma {:induction false} CloseKeeps(rows: Rows)
    requires RowsOk(rows) && NoneOpen(rows.steps)
    ensures Keeps(rows, Close(rows))
  {
  }

  /** Reading the ledger again: what `advance` computes is justified from then on. */
  lemma {:induction false} AdvanceJustified(rows: Rows, seen: nat)
    requires RowsOk(rows) && 1 <= seen <= |rows.steps|
    ensures var (status, next) := Advance(rows.steps, seen);
            status != Open || next != seen ==> Justified(rows, seen, status, next)
  {
    hide NextOrder, Advance;
    var steps := rows.steps;
    NextIsOneMore(steps, seen);
    AdvanceIs(steps, seen);
    if steps[seen - 1].status == Approved { assert ApprovedBefore(steps, seen - 1); }
  }

  lemma {:induction false} AdvanceIs(steps: seq<Step>, seen: nat)
    requires Line(steps) && 1 <= seen <= |steps|
    ensures Advance(steps, seen)
              == if SomeRejected(steps) then (Refused, seen)
                 else if steps[seen - 1].status != Approved then (Open, seen)
                 else match NextOrder(steps, seen) case None => (Granted, seen) case Some(next) => (Open, next)
  {
    hide NextOrder;
    assert steps[seen - 1].order == seen;
    if exists i :: 0 <= i < |steps| && steps[i].status == Rejected {
      var i: nat :| i < |steps| && steps[i].status == Rejected;
    }
  }

  // ---------------------------------------------------------------- runs

  /** A statement of one caller keeps the invariant, changes nothing that is final, and wins a turn at most once. */
  lemma {:induction false} StepKeeps(s: State, s': State, c: Caller)
    requires Inv(s) && Does(s, s', c)
    ensures Inv(s') && Lasting(s.rows, s'.rows)
    ensures forall k :: k in s.winners ==> k in s'.winners && s'.winners[k] == s.winners[k]
  {
    hide *;
    InvParts(s);
    var p := PlaceOf(s, c);
    OwnPlace(s, c);
    match p {
      case Idle => StepReads(s, s', c);
      case ReadRequest(_, _, _) => StepReads(s, s', c);
      case Allowed(actor, action, seen) =>
        WritesRows(s, s', c);
        SignKeeps(s.rows, actor, action);
        StepWrites(s, s', c);
      case Written(seen) =>
        StepRereads(s, s', c, seen);
      case Reread(seen, status, next) =>
        StepMoves(s, s', c, seen, status, next);
      case Won(status, next) =>
        WritesRows(s, s', c);
        SkipKeeps(s.rows);
        if status == Open { AskKeeps(s.rows, next); }
        NothingChanges(s.rows);
        StepWrites(s, s', c);
      case CancelRead(_, _) => StepReads(s, s', c);
      case Canceling =>
        WritesRows(s, s', c);
        SkipKeeps(s.rows);
        StepWrites(s, s', c);
      case Closing =>
        ClosingMeans(s.rows);
        StepCloses(s, s', c);
    }
  }

  /** What the writing statements make of the rows. */
  lemma {:induction false} WritesRows(s: State, s': State, c: Caller)
    requires Does(s, s', c)
    ensures match PlaceOf(s, c)
            case Allowed(actor, action, _) => s'.rows == Sign(s.rows, actor, action)
            case Won(status, next) =>
              s'.rows == if status == Refused then SkipOpen(s.rows) else if status == Open then Ask(s.rows, next) else s.rows
            case Canceling => s'.rows == SkipOpen(s.rows)
            case _ => true
  {
    hide Sign, SkipOpen, Ask, Close, Cancel, MayDecide, Advance;
  }

  lemma {:induction false} ClosingMeans(rows: Rows)
    requires PlaceOk(rows, Closing)
    ensures NoneOpen(rows.steps)
  {
  }

  lemma {:induction false} InvParts(s: State)
    requires Inv(s)
    ensures RowsOk(s.rows)
  {
  }

  lemma {:induction false} OwnPlace(s: State, c: Caller)
    requires Inv(s)
    ensures PlaceOk(s.rows, PlaceOf(s, c))
  {
  }

  /** Only this caller moves on; the others' places stay right. */
  lemma {:induction false} InvAfter(s: State, s': State, c: Caller, place: Place)
    requires Inv(s) && s'.callers == s.callers[c := place] && Keeps(s.rows, s'.rows) && PlaceOk(s'.rows, place)
    requires forall k :: k in s'.winners ==> s'.rows.request.status != Open || k < s'.rows.request.current
    ensures Inv(s') && Lasting(s.rows, s'.rows)
  {
    hide PlaceOk, RowsOk, Lasting, TurnKept;
    assert Lasting(s.rows, s'.rows) && RowsOk(s'.rows) by { KeepsParts(s.rows, s'.rows); }
    forall d | d in s'.callers
      ensures PlaceOk(s'.rows, s'.callers[d])
    {
      if d != c { PlaceLasts(s.rows, s'.rows, s.callers[d]); }
    }
  }

  lemma {:induction false} KeepsParts(a: Rows, b: Rows)
    requires Keeps(a, b)
    ensures RowsOk(b) && Lasting(a, b)
  {
  }

  /** Winners stay right while the turn does not go back. */
  lemma {:induction false} WinnersLast(s: State, b: Rows)
    requires Inv(s) && Lasting(s.rows, b)
    ensures forall k :: k in s.winners ==> b.request.status != Open || k < b.request.current
  {
    hide RowsOk, PlaceOk;
  }

  /** Statements that only read, and giving up. */
  lemma {:induction false} StepReads(s: State, s': State, c: Caller)
    requires Inv(s) && Does(s, s', c)
    requires var p := PlaceOf(s, c); p.Idle? || p.ReadRequest? || p.CancelRead?
    ensures Inv(s') && Lasting(s.rows, s'.rows) && s'.winners == s.winners
  {
    hide Keeps, Lasting, Cancel, MayDecide, Line;
    NothingChanges(s.rows);
    OwnPlace(s, c);
    InvAfter(s, s', c, s'.callers[c]);
  }

  /** Statements that change step rows. */
  lemma {:induction false} StepWrites(s: State, s': State, c: Caller)
    requires Inv(s) && Does(s, s', c) && Keeps(s.rows, s'.rows)
    requires var p := PlaceOf(s, c); p.Allowed? || p.Won? || p.Canceling?
    requires PlaceOf(s, c).Canceling? ==> NoneOpen(s'.rows.steps)
    ensures Inv(s') && Lasting(s.rows, s'.rows) && s'.winners == s.winners
  {
    hide Sign, SkipOpen, Ask, Close, RowsOk, TurnKept;
    KeepsParts(s.rows, s'.rows);
    OwnPlace(s, c);
    WinnersLast(s, s'.rows);
    InvAfter(s, s', c, s'.callers[c]);
  }

  lemma {:induction false} StepRereads(s: State, s': State, c: Caller, seen: nat)
    requires Inv(s) && Does(s, s', c) && PlaceOf(s, c) == Written(seen)
    ensures Inv(s') && Lasting(s.rows, s'.rows) && s'.winners == s.winners
  {
    hide Advance, Keeps, Lasting, RowsOk, Justified;
    InvParts(s);
    OwnPlace(s, c);
    NothingChanges(s.rows);
    AdvanceJustified(s.rows, seen);
    InvAfter(s, s', c, s'.callers[c]);
  }

  lemma {:induction false} StepMoves(s: State, s': State, c: Caller, seen: nat, status: Outcome, next: nat)
    requires Inv(s) && Does(s, s', c) && PlaceOf(s, c) == Reread(seen, status, next)
    ensures Inv(s') && Lasting(s.rows, s'.rows)
    ensures forall k :: k in s.winners ==> k in s'.winners && s'.winners[k] == s.winners[k]
  {
    hide RowsOk, TurnKept, Justified, Lasting;
    InvParts(s);
    OwnPlace(s, c);
    if MoveWins(s.rows, seen) {
      MoveKeeps(s.rows, seen, status, next);
      KeepsParts(s.rows, s'.rows);
      WinnersLast(s, s'.rows);
      assert seen !in s.winners;
      InvAfter(s, s', c, Won(status, next));
    } else {
      NothingChanges(s.rows);
      InvAfter(s, s', c, Idle);
    }
  }

  /** The closing of a withdrawn request. */
  lemma {:induction false} StepCloses(s: State, s': State, c: Caller)
    requires Inv(s) && Does(s, s', c) && PlaceOf(s, c) == Closing && NoneOpen(s.rows.steps)
    ensures Inv(s') && Lasting(s.rows, s'.rows)
    ensures forall k :: k in s.winners ==> k in s'.winners && s'.winners[k] == s.winners[k]
  {
    hide RowsOk, TurnKept, Lasting;
    InvParts(s);
    if s.rows.request.status == Open {
      CloseKeeps(s.rows);
      KeepsParts(s.rows, s'.rows);
      WinnersLast(s, s'.rows);
      assert s.rows.request.current !in s.winners;
      assert s'.rows.request.status == Canceled;
    } else {
      NothingChanges(s.rows);
    }
    InvAfter(s, s', c, Idle);
  }

  lemma {:induction false} InitialInv(s: State)
    requires Initial(s)
    ensures Inv(s)
  {
  }

  lemma {:induction false} LastingSelf(rows: Rows)
    ensures Lasting(rows, rows)
  {
  }

  lemma {:induction false} RunInv(states: seq<State>, i: nat)
    requires Run(states) && i < |states|
    ensures Inv(states[i])
    decreases i
  {
    hide Inv, Initial, Next;
    if i == 0 {
      InitialInv(states[0]);
    } else {
      RunInv(states, i - 1);
      RunStep(states[i - 1], states[i]);
    }
  }

  lemma {:induction false} RunStep(s: State, s': State)
    requires Inv(s) && Next(s, s')
    ensures Inv(s') && Lasting(s.rows, s'.rows)
    ensures forall k :: k in s.winners ==> k in s'.winners && s'.winners[k] == s.winners[k]
  {
    hide Inv, Does, Lasting;
    var c :| Does(s, s', c);
    StepKeeps(s, s', c);
  }

  /** In every interleaving: at most one step is pending, it is the one whose turn it is and everything before it is
      approved; and a granted request has every step approved. */
  lemma {:induction false} RunsAreSafe(states: seq<State>, i: nat)
    requires Run(states) && i < |states|
    ensures var rows := states[i].rows;
            && (forall j: nat, k: nat :: j < k < |rows.steps| && rows.steps[j].status == Pending ==>
                  rows.steps[k].status != Pending)
            && (forall k: nat :: k < |rows.steps| && rows.steps[k].status == Pending ==>
                  rows.request.status == Open && rows.request.current == k + 1 && ApprovedBefore(rows.steps, k))
            && (rows.request.status == Granted ==>
                  forall k: nat :: k < |rows.steps| ==> rows.steps[k].status == Approved)
            && (rows.request.status == Canceled ==> NoneOpen(rows.steps))
  {
    RunInv(states, i);
    hide PlaceOk, Run;
  }

  /** In every interleaving: signatures, skipped steps and ended requests never change again, and no turn is left twice. */
  lemma {:induction false} RunsLast(states: seq<State>, i: nat, j: nat)
    requires Run(states) && i <= j < |states|
    ensures Lasting(states[i].rows, states[j].rows)
    ensures forall k :: k in states[i].winners ==> k in states[j].winners && states[j].winners[k] == states[i].winners[k]
    decreases j
  {
    hide Lasting, Inv, Next;
    if i == j {
      LastingSelf(states[i].rows);
    } else {
      RunsLast(states, i, j - 1);
      RunInv(states, j - 1);
      RunStep(states[j - 1], states[j]);
      LastingTwice(states[i].rows, states[j - 1].rows, states[j].rows);
    }
  }

  /** Whoever wins a turn is the first and only one: the request has left it for good. */
  lemma {:induction false} TurnWonOnce(states: seq<State>, i: nat, k: nat)
    requires Run(states) && i < |states| && k in states[i].winners
    ensures !MoveWins(states[i].rows, k)
  {
    RunInv(states, i);
    hide RowsOk, PlaceOk, Run;
  }
}
