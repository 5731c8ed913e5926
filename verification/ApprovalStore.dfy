/** The ledger of one request and the SQL statements on it (approval/store.py): each statement is one atomic step. */
module ApprovalStore {
  import opened Base
  import opened ApprovalEngine

  /** The request row and its step rows. */
  datatype Rows = Rows(request: Request, steps: seq<Step>)

  // ---------------------------------------------------------------- statements

  /** `UPDATE … steps SET status = action WHERE approver_id = actor AND status = 'pending'`. */
  function Sign(rows: Rows, actor: int, action: Action): Rows {
    rows.(steps := Map(rows.steps, (s: Step) =>
      if s.approver == actor && s.status == Pending then Signed(action) else s.status))
  }

  /** Whether that statement finds a row. */
  predicate SignWins(rows: Rows, actor: int) {
    exists i :: 0 <= i < |rows.steps| && rows.steps[i].approver == actor && rows.steps[i].status == Pending
  }

  /** `UPDATE … requests SET status, current_step_order WHERE status = 'pending' AND current_step_order = seen`. */
  function Move(rows: Rows, seen: nat, status: Outcome, next: nat): Rows {
    if MoveWins(rows, seen) then rows.(request := rows.request.(status := status, current := next)) else rows
  }

  predicate MoveWins(rows: Rows, seen: nat) {
    rows.request.status == Open && rows.request.current == seen
  }

  /** `UPDATE … steps SET status = 'skipped' WHERE status IN ('waiting', 'pending')`. */
  function SkipOpen(rows: Rows): Rows {
    rows.(steps := Map(rows.steps, SkipRest))
  }

  /** `UPDATE … steps SET status = 'pending' WHERE step_order = next AND status = 'waiting'`. */
  function Ask(rows: Rows, next: nat): Rows {
    rows.(steps := Map(rows.steps, (s: Step) => if s.order == next && s.status == Waiting then Pending else s.status))
  }

  /** `UPDATE … requests SET status = 'canceled' WHERE status = 'pending'`. */
  function Close(rows: Rows): Rows {
    if rows.request.status == Open then rows.(request := rows.request.(status := Canceled)) else rows
  }

  /** Every state a request can be in between two operations that run alone. */
  ghost predicate Reachable(rows: Rows) {
    Running(rows.request, rows.steps) || Ended(rows.request, rows.steps)
  }

  // ---------------------------------------------------------------- the ledger

  class Ledger {
    var request: Request
    var steps: seq<Step>

    function Now(): Rows
      reads this
    {
      Rows(request, steps)
    }

    /** `submit`, once the line is planned: nobody signs their own request, and only the first person is asked. */
    constructor (requester: int, planned: seq<Step>)
      requires Line(planned) && forall i :: 0 <= i < |planned| ==> planned[i].approver != requester
      ensures Running(request, steps) && request.requester == requester
      ensures |steps| == |planned| && forall i :: 0 <= i < |steps| ==> steps[i].approver == planned[i].approver
    {
      OpeningRuns(requester, planned);
      request := Request(requester, Open, FirstOrder(planned));
      steps := OpenSteps(planned).value;
    }

    /** On a running request it wins exactly if the turn is the actor's, and then signs that one step; otherwise nothing
        changes. */
    method UpdateOwnStep(actor: int, action: Action) returns (won: bool)
      modifies this
      ensures Now() == Sign(old(Now()), actor, action) && won == SignWins(old(Now()), actor)
      ensures var was := old(Now());
              Running(was.request, was.steps) ==>
                var k := was.request.current - 1;
                && (won <==> was.steps[k].approver == actor)
                && Now() == if won then was.(steps := was.steps[k := was.steps[k].(status := Signed(action))]) else was
    {
      SignOnTurn(Now(), actor, action);
      won := SignWins(Now(), actor);
      steps := Sign(Now(), actor, action).steps;
    }

    method UpdateRequest(seen: nat, status: Outcome, next: nat) returns (won: bool)
      modifies this
      ensures Now() == Move(old(Now()), seen, status, next) && won == MoveWins(old(Now()), seen)
    {
      won := request.status == Open && request.current == seen;
      if won { request := request.(status := status, current := next); }
    }

    method SkipOpenSteps()
      modifies this
      ensures Now() == SkipOpen(old(Now()))
    {
      steps := Map(steps, SkipRest);
    }

    method AskNext(next: nat)
      modifies this
      ensures Now() == Ask(old(Now()), next)
    {
      steps := Ask(Now(), next).steps;
    }

    method CloseRequest()
      modifies this
      ensures Now() == Close(old(Now()))
    {
      if request.status == Open { request := request.(status := Canceled); }
    }

    /** `decide`, run alone: conditional writes and a second look at the ledger leave exactly what the rules say. */
    method DecideAlone<Data>(actor: int, action: Action, blocks: seq<Block<Data>>) returns (r: Result<bool, Reason>)
      requires Reachable(Now())
      modifies this
      ensures var was := old(Now()); var rule := Decide(was.request, was.steps, actor, action, blocks);
              match rule
              case Err(reason) => r == Err(reason) && Now() == was
              case Ok(out) => r == Ok(true) && Now() == Rows(out.0, out.1) && Reachable(Now())
    {
      ghost var was := Now();
      ghost var rule := Decide(request, steps, actor, action, blocks);
      var seen := request.current;
      var may := MayDecide(request, steps, actor, action, blocks);
      DecideAsks(request, steps, actor, action, blocks);
      if may.Err? { return Err(may.error); }
      DecideRuns(was, actor, action, blocks);
      hide *;
      var won := UpdateOwnStep(actor, action);
      if !won { return Err(AlreadySigned); }
      var (status, next) := Advance(steps, seen);
      var moved := status != Open || next != seen;
      var mine := false;
      if moved { mine := UpdateRequest(seen, status, next); }
      if mine {
        if status == Refused {
          SkipOpenSteps();
        } else if status == Open {
          AskNext(next);
        }
      }
      return Ok(mine);
    }

    /** `cancel`, run alone. */
    method CancelAlone(actor: int) returns (r: Result<bool, Reason>)
      requires Reachable(Now())
      modifies this
      ensures var was := old(Now()); var rule := Cancel(was.request, was.steps, actor);
              match rule
              case Err(reason) => r == Err(reason) && Now() == was
              case Ok(out) => r == Ok(true) && Now() == Rows(out.0, out.1) && Reachable(Now())
    {
      var rule := Cancel(request, steps, actor);
      if rule.Err? { return Err(rule.error); }
      CancelKeepsShape(request, steps, actor);
      SkipOpenSteps();
      CloseRequest();
      return Ok(true);
    }

    /** `system_cancel`, run alone: signatures given so far stay, everything else is skipped. */
    method SystemCancelAlone()
      requires Reachable(Now())
      modifies this
      ensures old(request).status != Open ==> Now() == old(Now())
      ensures old(request).status == Open ==>
                Ended(request, steps) && request == old(request).(status := Canceled) && steps == Map(old(steps), SkipRest)
    {
      if request.status != Open { return; }
      SkipOpenSteps();
      CloseRequest();
    }
  }

  lemma {:induction false} DecideAsks<Data>(r: Request, steps: seq<Step>, actor: int, action: Action, blocks: seq<Block<Data>>)
    ensures MayDecide(r, steps, actor, action, blocks).Ok? <==> Decide(r, steps, actor, action, blocks).Ok?
    ensures Decide(r, steps, actor, action, blocks).Err? ==>
              MayDecide(r, steps, actor, action, blocks) == Err(Decide(r, steps, actor, action, blocks).error)
  {
    hide MayDecide;
  }

  /** What the statements of `decide` do when nobody interferes. */
  ghost function Alone(rows: Rows, actor: int, action: Action): Rows {
    var signed := Sign(rows, actor, action);
    var (status, next) := Advance(signed.steps, rows.request.current);
    if status == Open && next == rows.request.current then signed
    else
      var moved := Move(signed, rows.request.current, status, next);
      if !MoveWins(signed, rows.request.current) then moved
      else if status == Refused then SkipOpen(moved)
      else if status == Open then Ask(moved, next)
      else moved
  }

  lemma {:induction false} SignIsOne(rows: Rows, actor: int, action: Action)
    requires Running(rows.request, rows.steps) && rows.steps[rows.request.current - 1].approver == actor
    ensures SignWins(rows, actor)
    ensures var k := rows.request.current - 1;
            Sign(rows, actor, action).steps == rows.steps[k := rows.steps[k].(status := Signed(action))]
  {
    var k := rows.request.current - 1;
    assert rows.steps[k].status == Pending;
    assert forall i :: 0 <= i < |rows.steps| && i != k ==> rows.steps[i].status != Pending;
  }

  lemma {:induction false} SignOnTurn(rows: Rows, actor: int, action: Action)
    ensures Running(rows.request, rows.steps) ==>
              var k := rows.request.current - 1;
              && (SignWins(rows, actor) <==> rows.steps[k].approver == actor)
              && Sign(rows, actor, action)
                   == if SignWins(rows, actor) then rows.(steps := rows.steps[k := rows.steps[k].(status := Signed(action))])
                      else rows
  {
    if Running(rows.request, rows.steps) {
      var k := rows.request.current - 1;
      if rows.steps[k].approver == actor {
        SignIsOne(rows, actor, action);
      } else {
        assert forall i :: 0 <= i < |rows.steps| && i != k ==> rows.steps[i].status != Pending;
        assert Sign(rows, actor, action).steps == rows.steps;
      }
    }
  }

  lemma {:induction false} AdvanceAfter(r: Request, steps: seq<Step>, action: Action)
    requires Running(r, steps)
    ensures var k := r.current - 1; var signed := steps[k := steps[k].(status := Signed(action))];
            Advance(signed, r.current) == if action == Reject then (Refused, r.current)
                                          else if r.current < |steps| then (Open, r.current + 1)
                                          else (Granted, r.current)
  {
    var k := r.current - 1;
    var signed := steps[k := steps[k].(status := Signed(action))];
    assert Line(signed) && signed[k].order == r.current && signed[k].status == Signed(action);
    NextIsOneMore(signed, r.current);
  }

  lemma {:induction false} AskIsOne(rows: Rows, signed: seq<Step>, next: nat)
    requires Line(signed) && 1 <= next <= |signed| && signed[next - 1].status == Waiting
    ensures Ask(Rows(rows.request, signed), next).steps
         == Map(signed, (s: Step) => if s.order == next then Pending else s.status)
  {
  }

  /** Refinement: the writes of `decide`, driven by a second look at the ledger, are the rules' decision. */
  lemma {:induction false} DecideRuns<Data>(rows: Rows, actor: int, action: Action, blocks: seq<Block<Data>>)
    requires Reachable(rows) && MayDecide(rows.request, rows.steps, actor, action, blocks).Ok?
    ensures Running(rows.request, rows.steps) && SignWins(rows, actor)
    ensures var rule := Decide(rows.request, rows.steps, actor, action, blocks);
            rule.Ok? && Alone(rows, actor, action) == Rows(rule.value.0, rule.value.1)
    ensures Reachable(Alone(rows, actor, action))
    ensures var (status, next) := Advance(Sign(rows, actor, action).steps, rows.request.current);
            (status != Open || next != rows.request.current) && MoveWins(Sign(rows, actor, action), rows.request.current)
  {
    hide *;
    var r, steps := rows.request, rows.steps;
    IsRunning(rows, actor, action, blocks);
    OnlyTheTurn(r, steps, actor, action, blocks);
    SignIsOne(rows, actor, action);
    AdvanceAfter(r, steps, action);
    DecideKeepsShape(r, steps, actor, action, blocks);
    DecideIs(rows, actor, action, blocks);
    AloneIs(rows, actor, action);
    IsReachable(Alone(rows, actor, action));
  }

  lemma {:induction false} IsRunning<Data>(rows: Rows, actor: int, action: Action, blocks: seq<Block<Data>>)
    requires Reachable(rows) && MayDecide(rows.request, rows.steps, actor, action, blocks).Ok?
    ensures Running(rows.request, rows.steps)
    ensures Decide(rows.request, rows.steps, actor, action, blocks).Ok?
  {
    hide UnfilledUpto, NextOrder, StepOf;
  }

  lemma {:induction false} IsReachable(rows: Rows)
    ensures Reachable(rows) <==> Running(rows.request, rows.steps) || Ended(rows.request, rows.steps)
  {
  }

  /** The rules' decision of the pending step, case by case. */
  lemma {:induction false} DecideIs<Data>(rows: Rows, actor: int, action: Action, blocks: seq<Block<Data>>)
    requires Running(rows.request, rows.steps)
    requires MayDecide(rows.request, rows.steps, actor, action, blocks) == Ok(rows.request.current - 1)
    ensures var r, k := rows.request, rows.request.current - 1;
            var signed := rows.steps[k := rows.steps[k].(status := Signed(action))];
            Decide(r, rows.steps, actor, action, blocks)
              == if action == Reject then Ok((r.(status := Refused), Map(signed, SkipRest)))
                 else if r.current == |rows.steps| then Ok((r.(status := Granted), signed))
                 else Ok((r.(current := r.current + 1),
                          Map(signed, (s: Step) => if s.order == r.current + 1 then Pending else s.status)))
  {
    hide UnfilledUpto, MayDecide, NextOrder;
    var r, k := rows.request, rows.request.current - 1;
    var signed := rows.steps[k := rows.steps[k].(status := Signed(action))];
    assert Line(signed);
    NextIsOneMore(signed, r.current);
    if action == Approve && r.current < |rows.steps| {
      assert Map(signed, (s: Step) => if s.order == r.current + 1 then Pending else s.status)
          == Decide(r, rows.steps, actor, action, blocks).value.1;
    }
  }

  /** The statements of the pending step's decision, case by case. */
  lemma {:induction false} AloneIs(rows: Rows, actor: int, action: Action)
    requires Running(rows.request, rows.steps)
    requires var r, k := rows.request, rows.request.current - 1;
             var signed := rows.steps[k := rows.steps[k].(status := Signed(action))];
             && Sign(rows, actor, action).steps == signed
             && Advance(signed, r.current) == if action == Reject then (Refused, r.current)
                                              else if r.current < |rows.steps| then (Open, r.current + 1)
                                              else (Granted, r.current)
    ensures MoveWins(Sign(rows, actor, action), rows.request.current)
    ensures var r, k := rows.request, rows.request.current - 1;
            var signed := rows.steps[k := rows.steps[k].(status := Signed(action))];
            Alone(rows, actor, action)
              == if action == Reject then Rows(r.(status := Refused), Map(signed, SkipRest))
                 else if r.current == |rows.steps| then Rows(r.(status := Granted), signed)
                 else Rows(r.(current := r.current + 1),
                           Map(signed, (s: Step) => if s.order == r.current + 1 then Pending else s.status))
  {
    hide Advance, SkipRest;
    var r, k := rows.request, rows.request.current - 1;
    var signed := rows.steps[k := rows.steps[k].(status := Signed(action))];
    assert r.(status := Open) == r && r.(current := r.current) == r;
    if action == Approve && r.current < |rows.steps| {
      assert Line(signed);
      AskIsOne(Rows(r.(current := r.current + 1), signed), signed, r.current + 1);
    }
  }
}
