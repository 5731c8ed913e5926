/** A withdrawal can overlap an approval (approval/store.py `cancel`): the rule that nobody withdraws an approved request
    holds for operations that run alone, but not between the statements of two of them. Exactly when it fails. */
module ApprovalRace {
  import opened Base
  import opened ApprovalEngine
  import opened ApprovalStore
  import opened ApprovalRuns

  const REQUESTER: int := 5
  const APPROVER: int := 7

  ghost function Asked(): Request { Request(REQUESTER, Open, 1) }
  ghost function Before(): Rows { Rows(Asked(), [Step(1, APPROVER, Pending)]) }
  ghost function Signed(): Rows { Rows(Asked(), [Step(1, APPROVER, Approved)]) }
  ghost function After(): Rows { Rows(Request(REQUESTER, Canceled, 1), [Step(1, APPROVER, Approved)]) }

  /** Caller 1 withdraws, caller 2 approves in between. */
  ghost function Overlap(): seq<State> {
    [State(Before(), map[], map[]),
     State(Before(), map[1 := CancelRead(Some(REQUESTER), Asked())], map[]),
     State(Before(), map[1 := Canceling], map[]),
     State(Before(), map[1 := Canceling, 2 := ReadRequest(APPROVER, Approve, Asked())], map[]),
     State(Before(), map[1 := Canceling, 2 := Allowed(APPROVER, Approve, 1)], map[]),
     State(Signed(), map[1 := Canceling, 2 := Written(1)], map[]),
     State(Signed(), map[1 := Closing, 2 := Written(1)], map[]),
     State(After(), map[1 := Idle, 2 := Written(1)], map[1 := 1])]
  }

  lemma {:induction false} WithdrawalBegins()
    ensures Initial(Overlap()[0]) && Does(Overlap()[0], Overlap()[1], 1) && Does(Overlap()[1], Overlap()[2], 1)
  {
    var s, s' := Overlap()[0], Overlap()[1];
    assert Goes(s, s', 1, s.rows, CancelRead(Some(REQUESTER), s.rows.request));
    assert Cancel(Asked(), Before().steps, REQUESTER).Ok?;
    assert Goes(s', Overlap()[2], 1, s'.rows, Canceling);
  }

  lemma {:induction false} ApprovalPasses()
    ensures Does(Overlap()[2], Overlap()[3], 2) && Does(Overlap()[3], Overlap()[4], 2) && Does(Overlap()[4], Overlap()[5], 2)
  {
    var s, t, u, v := Overlap()[2], Overlap()[3], Overlap()[4], Overlap()[5];
    assert Goes(s, t, 2, s.rows, ReadRequest(APPROVER, Approve, s.rows.request));
    assert FindStep(Before().steps, APPROVER, true) == Some(0);
    assert MayDecide<int>(Asked(), Before().steps, APPROVER, Approve, []) == Ok(0);
    assert Goes(t, u, 2, t.rows, Allowed(APPROVER, Approve, 1));
    assert Before().steps[0].approver == APPROVER && SignWins(Before(), APPROVER);
    assert Sign(Before(), APPROVER, Approve) == Signed();
    assert Goes(u, v, 2, Signed(), Written(1));
  }

  lemma {:induction false} WithdrawalEnds()
    ensures Does(Overlap()[5], Overlap()[6], 1) && Does(Overlap()[6], Overlap()[7], 1)
  {
    var s, t, u := Overlap()[5], Overlap()[6], Overlap()[7];
    assert SkipOpen(Signed()) == Signed() by { assert SkipOpen(Signed()).steps == Signed().steps; }
    assert Goes(s, t, 1, SkipOpen(s.rows), Closing);
    assert Close(Signed()) == After();
    assert u == State(Close(t.rows), t.callers[1 := Idle], t.winners[1 := 1]);
  }

  /** A run in which the requester's withdrawal, allowed while nobody had approved, cancels an approved request. */
  lemma {:induction false} WithdrawnAfterApproval()
    ensures Run(Overlap())
    ensures Overlap()[1].callers[1] == CancelRead(Some(REQUESTER), Asked())
    ensures var last := Overlap()[7].rows; last.request.status == Canceled && last.steps[0].status == Approved
  {
    WithdrawalBegins();
    ApprovalPasses();
    WithdrawalEnds();
    hide Does;
    var states := Overlap();
    forall i, j | 0 <= i && j == i + 1 && j < |states|
      ensures Next(states[i], states[j])
    {
      assert Does(states[i], states[j], if i == 2 || i == 3 || i == 4 then 2 else 1);
    }
  }

  // ---------------------------------------------------------------- every withdrawal in every run

  ghost predicate SomeApproved(steps: seq<Step>) {
    exists k: nat :: k < |steps| && steps[k].status == Approved
  }

  /** Caller `c` closes the request between `states[e]` and the next state: it had read the request, read the steps and was
      let through after `states[i]`, and skipped the open steps after `states[s]`. `who` is None for the system. */
  ghost predicate Closes(states: seq<State>, c: Caller, who: Option<int>, i: nat, s: nat, e: nat) {
    && i < s < e && e + 1 < |states|
    && PlaceOf(states[i], c).CancelRead? && PlaceOf(states[i], c).who == who
    && (forall k :: i < k <= s ==> PlaceOf(states[k], c) == Canceling)
    && (forall k :: s < k <= e ==> PlaceOf(states[k], c) == Closing)
    && PlaceOf(states[e + 1], c) == Idle
    && states[e].rows.request.status == Open && states[e + 1].rows.request.status == Canceled
  }

  /** Somebody approves a step between these states. */
  ghost predicate Approves(a: State, b: State) {
    exists d, actor, seen :: PlaceOf(a, d) == Allowed(actor, Approve, seen) && SignWins(a.rows, actor) && Does(a, b, d)
  }

  /** Between the withdrawal's look at the steps and its skipping them, somebody approves. */
  ghost predicate Overtaken(states: seq<State>, i: nat, s: nat)
    requires s < |states|
  {
    exists t :: i < t < s && Approves(states[t], states[t + 1])
  }

  lemma {:induction false} OthersStay(a: State, b: State, c: Caller, d: Caller)
    requires Does(a, b, d) && d != c
    ensures PlaceOf(b, c) == PlaceOf(a, c)
  {
    hide Sign, SkipOpen, Ask, Close, Cancel, MayDecide, Advance, Move, SignWins;
  }

  lemma {:induction false} RunNext(states: seq<State>, t: nat) returns (d: Caller)
    requires Run(states) && t + 1 < |states|
    ensures Does(states[t], states[t + 1], d)
  {
    hide Does, Initial;
    assert Next(states[t], states[t + 1]);
    d :| Does(states[t], states[t + 1], d);
  }

  /** Only an approving signature brings an approval. */
  lemma {:induction false} NewApproval(a: State, b: State, d: Caller, k: nat)
    requires Does(a, b, d) && k < |b.rows.steps| && b.rows.steps[k].status == Approved
    requires k < |a.rows.steps| ==> a.rows.steps[k].status != Approved
    ensures Approves(a, b) && k < |a.rows.steps| && a.rows.steps[k].status == Pending
    ensures PlaceOf(a, d).Allowed? && a.rows.steps[k].approver == PlaceOf(a, d).actor && PlaceOf(a, d).action == Approve
  {
    hide Cancel, MayDecide, Advance;
    if !PlaceOf(a, d).Allowed? {
      NotNewHere(a, b, d, k);
    } else {
      var actor, action := PlaceOf(a, d).actor, PlaceOf(a, d).action;
      assert k < |a.rows.steps| && a.rows.steps[k].status == Pending && a.rows.steps[k].approver == actor;
      assert action == Approve && SignWins(a.rows, actor);
    }
  }

  /** The first one, therefore. */
  lemma {:induction false} FirstApproval(a: State, b: State, d: Caller)
    requires Does(a, b, d) && !SomeApproved(a.rows.steps) && SomeApproved(b.rows.steps)
    ensures Approves(a, b)
    ensures exists j: nat :: j < |a.rows.steps| && a.rows.steps[j].status == Pending
    ensures PlaceOf(a, d).Allowed?
  {
    hide Does, Approves;
    var k: nat :| k < |b.rows.steps| && b.rows.steps[k].status == Approved;
    NewApproval(a, b, d, k);
  }

  lemma {:induction false} NotNewHere(a: State, b: State, d: Caller, k: nat)
    requires Does(a, b, d) && !PlaceOf(a, d).Allowed? && k < |b.rows.steps| && b.rows.steps[k].status == Approved
    ensures k < |a.rows.steps| && a.rows.steps[k].status == Approved
  {
    hide Cancel, MayDecide, Advance, Sign, SignWins;
  }

  /** Whoever approves leaves an approved step. */
  lemma {:induction false} ApprovesOne(a: State, b: State)
    requires Approves(a, b)
    ensures SomeApproved(b.rows.steps)
  {
    var d, actor, seen :| PlaceOf(a, d) == Allowed(actor, Approve, seen) && SignWins(a.rows, actor) && Does(a, b, d);
    var k: nat :| k < |a.rows.steps| && a.rows.steps[k].approver == actor && a.rows.steps[k].status == Pending;
    assert b.rows.steps[k].status == Approved;
  }

  lemma {:induction false} ApprovalLasts(a: Rows, b: Rows)
    requires Lasting(a, b) && SomeApproved(a.steps)
    ensures SomeApproved(b.steps)
  {
    var k: nat :| k < |a.steps| && a.steps[k].status == Approved;
    assert b.steps[k].status == Approved;
  }

  /** The requester is let through only while nobody has approved. */
  lemma {:induction false} NoneApprovedAt(states: seq<State>, c: Caller, i: nat)
    requires Run(states) && i + 1 < |states|
    requires PlaceOf(states[i], c).CancelRead? && PlaceOf(states[i], c).who.Some? && PlaceOf(states[i + 1], c) == Canceling
    ensures !SomeApproved(states[i].rows.steps) && states[i + 1].rows == states[i].rows
  {
    var d := RunNext(states, i);
    hide Run;
    if d != c { OthersStay(states[i], states[i + 1], c, d); }
    var who, request := PlaceOf(states[i], c).who, PlaceOf(states[i], c).request;
    assert Cancel(request, states[i].rows.steps, who.value).Ok?;
  }

  /** Where the first approval happens, if there is none before. */
  lemma {:induction false} FirstApprovalAt(states: seq<State>, i: nat, e: nat) returns (t: nat)
    requires i < e < |states| && !SomeApproved(states[i].rows.steps) && SomeApproved(states[e].rows.steps)
    ensures i <= t < e && !SomeApproved(states[t].rows.steps) && SomeApproved(states[t + 1].rows.steps)
    decreases e - i
  {
    if SomeApproved(states[i + 1].rows.steps) { return i; }
    t := FirstApprovalAt(states, i + 1, e);
  }

  /** While a withdrawal is closing, nobody is to sign any more. */
  lemma {:induction false} NobodyToSign(states: seq<State>, c: Caller, t: nat)
    requires Run(states) && t < |states| && PlaceOf(states[t], c) == Closing
    ensures forall k: nat :: k < |states[t].rows.steps| ==> states[t].rows.steps[k].status != Pending
  {
    RunInv(states, t);
    hide RowsOk, Run;
    OwnPlace(states[t], c);
    assert NoneOpen(states[t].rows.steps);
  }

  /** In every run: a request its requester withdrew has an approved step exactly if somebody approved between the moment
      the withdrawal looked at the steps and the moment it skipped them. */
  lemma {:induction false} WithdrawnWithApproval(states: seq<State>, c: Caller, who: Option<int>, i: nat, s: nat, e: nat)
    requires Run(states) && Closes(states, c, who, i, s, e) && who.Some?
    ensures SomeApproved(states[e + 1].rows.steps) <==> Overtaken(states, i, s)
  {
    hide *;
    ClosesParts(states, c, who, i, s, e);
    if SomeApproved(states[e + 1].rows.steps) { ApprovedIsOvertaken(states, c, who, i, s, e); }
    if Overtaken(states, i, s) { OvertakenIsApproved(states, c, who, i, s, e); }
  }

  lemma {:induction false} OvertakenIsApproved(states: seq<State>, c: Caller, who: Option<int>, i: nat, s: nat, e: nat)
    requires Run(states) && Closes(states, c, who, i, s, e) && Overtaken(states, i, s)
    ensures SomeApproved(states[e + 1].rows.steps)
  {
    hide *;
    ClosesParts(states, c, who, i, s, e);
    var t := OvertakenAt(states, i, s);
    ApprovesOne(states[t], states[t + 1]);
    RunsLast(states, t + 1, e + 1);
    ApprovalLasts(states[t + 1].rows, states[e + 1].rows);
  }

  lemma {:induction false} ApprovedIsOvertaken(states: seq<State>, c: Caller, who: Option<int>, i: nat, s: nat, e: nat)
    requires Run(states) && Closes(states, c, who, i, s, e) && who.Some? && SomeApproved(states[e + 1].rows.steps)
    ensures Overtaken(states, i, s)
  {
    hide *;
    ClosesParts(states, c, who, i, s, e);
    NoneApprovedAt(states, c, i);
    var t := FirstApprovalAt(states, i + 1, e + 1);
    var d := RunNext(states, t);
    FirstApproval(states[t], states[t + 1], d);
    if t > s {
      NobodyToSign(states, c, t);
    } else {
      NotItself(states[t], states[t + 1], c, d, t == s);
      IsOvertaken(states, i, s, t);
    }
  }

  /** A caller that is withdrawing moves on only by itself, and does not sign. */
  lemma {:induction false} NotItself(a: State, b: State, c: Caller, d: Caller, moves: bool)
    requires Does(a, b, d) && PlaceOf(a, d).Allowed? && PlaceOf(a, c) == Canceling && (moves <==> PlaceOf(b, c) == Closing)
    ensures !moves
  {
    OthersStay(a, b, c, d);
  }

  lemma {:induction false} ClosesParts(states: seq<State>, c: Caller, who: Option<int>, i: nat, s: nat, e: nat)
    requires Closes(states, c, who, i, s, e)
    ensures i < s < e && e + 1 < |states|
    ensures PlaceOf(states[i], c).CancelRead? && PlaceOf(states[i], c).who == who
    ensures forall k :: i < k <= s ==> PlaceOf(states[k], c) == Canceling
    ensures forall k :: s < k <= e ==> PlaceOf(states[k], c) == Closing
  {
  }

  lemma {:induction false} IsOvertaken(states: seq<State>, i: nat, s: nat, t: nat)
    requires i < t < s < |states| && Approves(states[t], states[t + 1])
    ensures Overtaken(states, i, s)
  {
  }

  lemma {:induction false} OvertakenAt(states: seq<State>, i: nat, s: nat) returns (t: nat)
    requires s < |states| && Overtaken(states, i, s)
    ensures i < t < s && Approves(states[t], states[t + 1])
  {
    hide Approves;
    t :| i < t < s && Approves(states[t], states[t + 1]);
  }

  // ---------------------------------------------------------------- and there is no other way to cancel

  /** Caller `c` came to this place between `states[k]` and the next state and has been there up to `states[e]`. */
  ghost predicate Since(states: seq<State>, c: Caller, k: nat, e: nat) {
    k < e < |states| && PlaceOf(states[k], c) != PlaceOf(states[e], c)
    && forall j :: k < j <= e ==> PlaceOf(states[j], c) == PlaceOf(states[e], c)
  }

  lemma {:induction false} CameFrom(states: seq<State>, c: Caller, e: nat) returns (k: nat)
    requires Run(states) && e < |states| && PlaceOf(states[e], c) != Idle
    ensures Since(states, c, k, e) && Does(states[k], states[k + 1], c)
    decreases e
  {
    hide Does, Goes, Inv;
    NotFirst(states, c, e);
    var d := RunNext(states, e - 1);
    if PlaceOf(states[e - 1], c) == PlaceOf(states[e], c) {
      k := CameFrom(states, c, e - 1);
    } else {
      k := e - 1;
      if d != c { OthersStay(states[k], states[e], c, d); }
    }
  }

  lemma {:induction false} NotFirst(states: seq<State>, c: Caller, e: nat)
    requires Run(states) && e < |states| && PlaceOf(states[e], c) != Idle
    ensures e > 0
  {
    hide Next;
  }

  /** Closing follows skipping, and skipping follows being let through. */
  lemma {:induction false} ComesFrom(a: State, b: State, c: Caller)
    requires Does(a, b, c) && PlaceOf(a, c) != PlaceOf(b, c)
    ensures PlaceOf(b, c) == Closing ==> PlaceOf(a, c) == Canceling
    ensures PlaceOf(b, c) == Canceling ==> PlaceOf(a, c).CancelRead?
  {
    hide Sign, SkipOpen, Ask, Close, Cancel, MayDecide, Advance, Move, SignWins;
  }

  /** Only closing cancels. */
  lemma {:induction false} OnlyClosingCancels(a: State, b: State, c: Caller)
    requires Inv(a) && Does(a, b, c) && a.rows.request.status == Open && b.rows.request.status == Canceled
    ensures PlaceOf(a, c) == Closing && PlaceOf(b, c) == Idle
  {
    hide Sign, SkipOpen, Ask, Cancel, MayDecide, Advance, SignWins, RowsOk;
    OwnPlace(a, c);
    RequestKept(a, b, c);
  }

  lemma {:induction false} RequestKept(a: State, b: State, c: Caller)
    requires Does(a, b, c)
    ensures PlaceOf(a, c) != Closing && !PlaceOf(a, c).Reread? ==> b.rows.request == a.rows.request
  {
    hide Cancel, MayDecide, Advance, SignWins;
  }

  /** In every run, whenever a request is canceled, one caller has been let through, has skipped the open steps and closes. */
  lemma {:induction false} CanceledByClosing(states: seq<State>, e: nat) returns (c: Caller, who: Option<int>, i: nat, s: nat)
    requires Run(states) && e + 1 < |states|
    requires states[e].rows.request.status == Open && states[e + 1].rows.request.status == Canceled
    ensures Closes(states, c, who, i, s, e)
  {
    hide Run, Does, Inv;
    RunInv(states, e);
    c := RunNext(states, e);
    OnlyClosingCancels(states[e], states[e + 1], c);
    s := CameFrom(states, c, e);
    assert PlaceOf(states[s + 1], c) == Closing;
    ComesFrom(states[s], states[s + 1], c);
    i := CameFrom(states, c, s);
    assert PlaceOf(states[i + 1], c) == Canceling;
    ComesFrom(states[i], states[i + 1], c);
    who := PlaceOf(states[i], c).who;
  }
}
