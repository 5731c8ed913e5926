/** Forms attached to an approval (approval/store.py `submit`, `fill_block`, `decide`): what an approver has seen stays. */
module ApprovalEvidence {
  import opened Base
  import opened ApprovalEngine
  import opened ApprovalStore

  /** One request with the fields copied from its form. */
  datatype Case<!Data> = Case(rows: Rows, blocks: seq<Block<Data>>)

  /** A form: how many approvers its steps need, and its fields. A field belongs to one of the steps. */
  datatype Form<!Data> = Form(need: nat, blocks: seq<Block<Data>>)

  ghost predicate Shaped<Data>(form: Form<Data>) {
    forall k :: 0 <= k < |form.blocks| && !form.blocks[k].kind.Retired? ==> form.blocks[k].step <= form.need
  }

  datatype Refusal =
    | SelfApproval | NoLine | LineTooShort(need: nat)
    | NoSuchField | FieldRetired | RequestOver | NotRequester | DraftFrozen | NotOfThisStep | NotTheTurn | BadValue

  // ---------------------------------------------------------------- operations, each run alone

  /** `snapshot_form_blocks`: fields are copied empty; retired ones are left behind. */
  function Snapshot<Data>(blocks: seq<Block<Data>>): seq<Block<Data>> {
    if blocks == [] then []
    else (if blocks[0].kind.Retired? then [] else [blocks[0].(data := None)]) + Snapshot(blocks[1..])
  }

  /** `submit`, with `_guard_steps_cover_form`: the line must be long enough for the form. */
  function Submit<Data>(requester: int, planned: seq<Step>, form: Option<Form<Data>>): Result<Case<Data>, Refusal> {
    if exists i :: 0 <= i < |planned| && planned[i].approver == requester then Err(SelfApproval)
    else if form.Some? && |planned| < form.value.need then Err(LineTooShort(form.value.need))
    else match OpenSteps(planned)
      case Err(_) => Err(NoLine)
      case Ok(steps) =>
        Ok(Case(Rows(Request(requester, Open, FirstOrder(planned)), steps),
                if form.Some? then Snapshot(form.value.blocks) else []))
  }

  /** May this actor write field `at`? A draft field is the requester's until somebody approved; any other belongs to
      the approver of its step while it is their turn. */
  function MayFill<Data>(c: Case<Data>, at: nat, actor: int, valid: bool): Option<Refusal> {
    if at >= |c.blocks| then Some(NoSuchField)
    else
      var b := c.blocks[at];
      if b.kind.Retired? then Some(FieldRetired)
      else if c.rows.request.status != Open then Some(RequestOver)
      else if b.step == 0 then
        if c.rows.request.requester != actor then Some(NotRequester)
        else if exists i :: 0 <= i < |c.rows.steps| && c.rows.steps[i].status == Approved then Some(DraftFrozen)
        else if valid then None else Some(BadValue)
      else if !exists i :: 0 <= i < |c.rows.steps| && c.rows.steps[i].order == b.step && c.rows.steps[i].approver == actor then
        Some(NotOfThisStep)
      else if exists i :: 0 <= i < |c.rows.steps| && c.rows.steps[i].order == b.step && c.rows.steps[i].approver == actor
                          && c.rows.steps[i].status != Pending then Some(NotTheTurn)
      else if valid then None else Some(BadValue)
  }

  /** `fill_block`; `valid` is what `validate_data` says of the value. */
  function Fill<Data>(c: Case<Data>, at: nat, actor: int, data: Option<Data>, valid: bool): Result<Case<Data>, Refusal> {
    match MayFill(c, at, actor, valid)
    case Some(why) => Err(why)
    case None => if at < |c.blocks| then Ok(c.(blocks := c.blocks[at := c.blocks[at].(data := data)])) else Err(NoSuchField)
  }

  /** A request is made exactly of a line of others than the requester that is long enough for the form. */
  lemma {:induction false} SubmitExactly<Data>(requester: int, planned: seq<Step>, form: Option<Form<Data>>)
    ensures Submit(requester, planned, form).Ok? <==>
            && planned != [] && (form.Some? ==> form.value.need <= |planned|)
            && forall i :: 0 <= i < |planned| ==> planned[i].approver != requester
    ensures Submit(requester, planned, form).Ok? ==>
              var c := Submit(requester, planned, form).value;
              c.rows.request.requester == requester && c.blocks == (if form.Some? then Snapshot(form.value.blocks) else [])
  {
  }

  /** The fields of the form that are not retired, in their order, all of them empty. */
  lemma {:induction false} SnapshotSays<Data>(blocks: seq<Block<Data>>, k: nat)
    requires k <= |blocks|
    ensures |Snapshot(blocks[..k])| <= |Snapshot(blocks)| <= |blocks|
    ensures k == |blocks| ==> |Snapshot(blocks[..k])| == |Snapshot(blocks)|
    ensures k < |blocks| && blocks[k].kind.Retired? ==> |Snapshot(blocks[..k + 1])| == |Snapshot(blocks[..k])|
    ensures k < |blocks| && !blocks[k].kind.Retired? ==>
              && |Snapshot(blocks[..k + 1])| == |Snapshot(blocks[..k])| + 1 <= |Snapshot(blocks)|
              && Snapshot(blocks)[|Snapshot(blocks[..k])|]
                   == Block(blocks[k].step, blocks[k].kind, blocks[k].required, None)
  {
    if k > 0 {
      SnapshotSays(blocks[1..], k - 1);
      assert blocks[..k][1..] == blocks[1..][..k - 1];
      if k < |blocks| { assert blocks[..k + 1][1..] == blocks[1..][..k]; }
    } else if blocks != [] {
      assert blocks[..1] == [blocks[0]];
      assert Snapshot(blocks[..1][1..]) == [];
      SnapshotSays(blocks[1..], 0);
    }
  }

  /** In a running line a valid value may be written into a field of the draft by the requester until somebody has approved, into
      one of the step whose turn it is by the person asked, and otherwise by nobody; nothing but that value changes. */
  lemma {:induction false} FillExactly<Data>(c: Case<Data>, at: nat, actor: int, data: Option<Data>, valid: bool)
    requires Running(c.rows.request, c.rows.steps)
    ensures Fill(c, at, actor, data, valid).Ok? <==>
            && at < |c.blocks| && !c.blocks[at].kind.Retired? && valid
            && if c.blocks[at].step == 0 then actor == c.rows.request.requester && c.rows.request.current == 1
               else c.blocks[at].step == c.rows.request.current && c.rows.steps[c.rows.request.current - 1].approver == actor
    ensures Fill(c, at, actor, data, valid).Ok? ==>
              var d := Fill(c, at, actor, data, valid).value;
              && d.rows == c.rows && |d.blocks| == |c.blocks|
              && d.blocks[at] == Block(c.blocks[at].step, c.blocks[at].kind, c.blocks[at].required, data)
              && forall k :: 0 <= k < |c.blocks| && k != at ==> d.blocks[k] == c.blocks[k]
  {
    var r, steps := c.rows.request, c.rows.steps;
    if r.current > 1 { assert steps[0].status == Approved; }
    assert forall i :: 0 <= i < |steps| && i != r.current - 1 ==> steps[i].status != Pending;
    if at < |c.blocks| && c.blocks[at].step == r.current { assert steps[r.current - 1].order == c.blocks[at].step; }
  }

  /** One operation on a submitted request; a refused one changes nothing. */
  ghost predicate Operates<Data(!new)>(c: Case<Data>, d: Case<Data>) {
    || d == c
    || (exists actor, action :: Decided(c, d, actor, action))
    || (exists actor :: Withdrawn(c, d, actor))
    || (c.rows.request.status == Open && d == c.(rows := Close(SkipOpen(c.rows))))
    || (exists at, actor, data :: FilledIn(c, d, at, actor, data))
  }

  ghost predicate Decided<Data>(c: Case<Data>, d: Case<Data>, actor: int, action: Action) {
    var r := Decide(c.rows.request, c.rows.steps, actor, action, c.blocks);
    r.Ok? && d == c.(rows := Rows(r.value.0, r.value.1))
  }

  ghost predicate Withdrawn<Data>(c: Case<Data>, d: Case<Data>, actor: int) {
    var r := Cancel(c.rows.request, c.rows.steps, actor);
    r.Ok? && d == c.(rows := Rows(r.value.0, r.value.1))
  }

  ghost predicate FilledIn<Data>(c: Case<Data>, d: Case<Data>, at: nat, actor: int, data: Option<Data>) {
    Fill(c, at, actor, data, true) == Ok(d)
  }

  // ---------------------------------------------------------------- the invariant

  /** The steps up to `order` have approved. */
  ghost predicate ApprovedAt(steps: seq<Step>, order: nat) {
    1 <= order <= |steps| && steps[order - 1].status == Approved
  }

  ghost predicate Evidence<Data>(c: Case<Data>) {
    && Reachable(c.rows)
    && forall order: nat, k: nat :: ApprovedAt(c.rows.steps, order) && k < |c.blocks| ==>
         c.blocks[k].step <= order && c.blocks[k].required ==> IsFilled(c.blocks[k])
  }

  /** Same fields; those of an approved step or an earlier one keep their value. */
  ghost predicate Frozen<Data>(c: Case<Data>, d: Case<Data>) {
    && |c.blocks| == |d.blocks| && |c.rows.steps| == |d.rows.steps|
    && (forall k: nat :: k < |c.blocks| ==> d.blocks[k] == c.blocks[k].(data := d.blocks[k].data))
    && (forall order: nat :: ApprovedAt(c.rows.steps, order) ==> ApprovedAt(d.rows.steps, order))
    && forall order: nat, k: nat :: ApprovedAt(c.rows.steps, order) && k < |c.blocks| && c.blocks[k].step <= order ==>
         d.blocks[k] == c.blocks[k]
  }

  lemma {:induction false} FrozenTwice<Data>(a: Case<Data>, b: Case<Data>, c: Case<Data>)
    requires Frozen(a, b) && Frozen(b, c)
    ensures Frozen(a, c)
  {
    forall order: nat, k: nat | ApprovedAt(a.rows.steps, order) && k < |a.blocks| && a.blocks[k].step <= order
      ensures c.blocks[k] == a.blocks[k]
    {
      assert ApprovedAt(b.rows.steps, order) && b.blocks[k] == a.blocks[k];
    }
  }

  /** Approved steps lie before the turn of a running line. */
  lemma {:induction false} ApprovedIsBehind(r: Request, steps: seq<Step>, order: nat)
    requires Running(r, steps)
    ensures ApprovedAt(steps, order) <==> 1 <= order < r.current
  {
  }

  lemma {:induction false} DecideKeepsEvidence<Data>(c: Case<Data>, d: Case<Data>, actor: int, action: Action)
    requires Evidence(c) && Decided(c, d, actor, action)
    ensures Evidence(d) && Frozen(c, d)
  {
    hide UnfilledUpto, IsFilled, Decide, MayDecide;
    var r, steps := c.rows.request, c.rows.steps;
    DecideAsks(r, steps, actor, action, c.blocks);
    assert Running(r, steps) by { OnlyRunning(c, actor, action); }
    OnlyTheTurn(r, steps, actor, action, c.blocks);
    DecideKeepsShape(r, steps, actor, action, c.blocks);
    hide Running, Ended;
    DecideApproves(c, d, actor, action);
    if action == Approve { NothingMissing(c.blocks, r.current); }
  }

  lemma {:induction false} OnlyRunning<Data>(c: Case<Data>, actor: int, action: Action)
    requires Reachable(c.rows) && MayDecide(c.rows.request, c.rows.steps, actor, action, c.blocks).Ok?
    ensures Running(c.rows.request, c.rows.steps)
  {
    hide UnfilledUpto, StepOf;
  }

  /** A decision approves at most the step whose turn it is. */
  lemma {:induction false} DecideApproves<Data>(c: Case<Data>, d: Case<Data>, actor: int, action: Action)
    requires Running(c.rows.request, c.rows.steps) && Decided(c, d, actor, action)
    ensures |d.rows.steps| == |c.rows.steps|
    ensures forall order: nat :: ApprovedAt(d.rows.steps, order) <==>
              ApprovedAt(c.rows.steps, order) || (action == Approve && order == c.rows.request.current)
  {
    hide UnfilledUpto, Decide, MayDecide;
    var r, steps := c.rows.request, c.rows.steps;
    DecideAsks(r, steps, actor, action, c.blocks);
    OnlyTheTurn(r, steps, actor, action, c.blocks);
    DecideKeepsShape(r, steps, actor, action, c.blocks);
    forall order: nat
      ensures ApprovedAt(d.rows.steps, order) <==>
              ApprovedAt(steps, order) || (action == Approve && order == r.current)
    {
      ApprovedIsBehind(r, steps, order);
      if d.rows.request.status == Open { ApprovedIsBehind(d.rows.request, d.rows.steps, order); }
    }
  }

  lemma {:induction false} SkipKeepsEvidence<Data>(c: Case<Data>, d: Case<Data>)
    requires Evidence(c) && c.rows.request.status == Open
    requires d == c.(rows := Rows(c.rows.request.(status := Canceled), Map(c.rows.steps, SkipRest)))
    ensures Evidence(d) && Frozen(c, d)
  {
    hide IsFilled;
    assert Ended(d.rows.request, d.rows.steps);
    forall order: nat
      ensures ApprovedAt(d.rows.steps, order) <==> ApprovedAt(c.rows.steps, order)
    {
    }
  }

  /** Only the draft before the first approval, or the fields of the turn, can be written. */
  lemma {:induction false} FillKeepsEvidence<Data>(c: Case<Data>, d: Case<Data>, at: nat, actor: int, data: Option<Data>)
    requires Evidence(c) && FilledIn(c, d, at, actor, data)
    ensures Evidence(d) && Frozen(c, d)
  {
    hide IsFilled;
    var r, steps, b := c.rows.request, c.rows.steps, c.blocks[at];
    assert Running(r, steps);
    assert b.step == 0 ==> forall i :: 0 <= i < |steps| ==> steps[i].status != Approved;
    forall order: nat | ApprovedAt(steps, order)
      ensures b.step > order
    {
      ApprovedIsBehind(r, steps, order);
      if b.step != 0 {
        var i :| 0 <= i < |steps| && steps[i].order == b.step && steps[i].approver == actor;
        assert steps[i].status == Pending && i == b.step - 1;
        assert i == r.current - 1;
      }
    }
  }

  lemma {:induction false} OperationKeeps<Data(!new)>(c: Case<Data>, d: Case<Data>)
    requires Evidence(c) && Operates(c, d)
    ensures Evidence(d) && Frozen(c, d)
  {
    hide Evidence, Frozen, Decided, Withdrawn, FilledIn;
    if d == c {
      NoOperation(c);
    } else if exists actor, action :: Decided(c, d, actor, action) {
      var actor, action :| Decided(c, d, actor, action);
      DecideKeepsEvidence(c, d, actor, action);
    } else if exists actor :: Withdrawn(c, d, actor) {
      var actor :| Withdrawn(c, d, actor);
      WithdrawSkips(c, d, actor);
      SkipKeepsEvidence(c, d);
    } else if c.rows.request.status == Open && d == c.(rows := Close(SkipOpen(c.rows))) {
      SkipKeepsEvidence(c, d);
    } else {
      var at, actor, data :| FilledIn(c, d, at, actor, data);
      FillKeepsEvidence(c, d, at, actor, data);
    }
  }

  lemma {:induction false} NoOperation<Data>(c: Case<Data>)
    requires Evidence(c)
    ensures Frozen(c, c)
  {
  }

  lemma {:induction false} WithdrawSkips<Data>(c: Case<Data>, d: Case<Data>, actor: int)
    requires Withdrawn(c, d, actor)
    ensures c.rows.request.status == Open
    ensures d == c.(rows := Rows(c.rows.request.(status := Canceled), Map(c.rows.steps, SkipRest)))
  {
  }

  // ---------------------------------------------------------------- runs

  ghost predicate Submitted<Data>(requester: int, planned: seq<Step>, form: Option<Form<Data>>, c: Case<Data>) {
    Line(planned) && (form.Some? ==> Shaped(form.value)) && Submit(requester, planned, form) == Ok(c)
  }

  ghost predicate Run<Data(!new)>(cases: seq<Case<Data>>) {
    forall i, j :: 0 <= i && j == i + 1 && j < |cases| ==> Operates(cases[i], cases[j])
  }

  lemma {:induction false} SnapshotFits<Data>(blocks: seq<Block<Data>>, need: nat)
    requires forall k :: 0 <= k < |blocks| && !blocks[k].kind.Retired? ==> blocks[k].step <= need
    ensures forall k :: 0 <= k < |Snapshot(blocks)| ==> Snapshot(blocks)[k].step <= need
  {
    if blocks != [] {
      assert forall k :: 0 <= k < |blocks[1..]| ==> blocks[1..][k] == blocks[k + 1];
      SnapshotFits(blocks[1..], need);
    }
  }

  /** A submitted request runs, nobody has approved it, and no field lies beyond the last approver. */
  lemma {:induction false} SubmittedFits<Data>(requester: int, planned: seq<Step>, form: Option<Form<Data>>, c: Case<Data>)
    requires Submitted(requester, planned, form, c)
    ensures Evidence(c) && c.rows.request.current == 1 && |c.rows.steps| == |planned|
    ensures forall k :: 0 <= k < |c.blocks| ==> c.blocks[k].step <= |c.rows.steps|
  {
    hide IsFilled;
    OpeningRuns(requester, planned);
    if form.Some? { SnapshotFits(form.value.blocks, form.value.need); }
    forall order: nat
      ensures !ApprovedAt(c.rows.steps, order)
    {
      ApprovedIsBehind(c.rows.request, c.rows.steps, order);
    }
  }

  lemma {:induction false} RunKeeps<Data(!new)>(cases: seq<Case<Data>>, i: nat, j: nat)
    requires Run(cases) && i <= j < |cases| && Evidence(cases[i])
    ensures Evidence(cases[j]) && Frozen(cases[i], cases[j])
    decreases j
  {
    hide Evidence, Frozen, Operates;
    if i == j {
      NoOperation(cases[i]);
    } else {
      RunKeeps(cases, i, j - 1);
      OperationKeeps(cases[j - 1], cases[j]);
      FrozenTwice(cases[i], cases[j - 1], cases[j]);
    }
  }

  /** In every run of operations: once a step has approved, every required field up to it is filled, and none of these
      fields ever changes again. */
  lemma {:induction false} EvidenceIsFrozen<Data(!new)>(requester: int, planned: seq<Step>, form: Option<Form<Data>>,
                                                      cases: seq<Case<Data>>, i: nat, j: nat)
    requires cases != [] && Submitted(requester, planned, form, cases[0]) && Run(cases) && i <= j < |cases|
    ensures |cases[j].blocks| == |cases[i].blocks|
    ensures var now := cases[i].blocks;
            forall order: nat, k: nat :: ApprovedAt(cases[i].rows.steps, order) && k < |now| && now[k].step <= order ==>
              (now[k].required ==> IsFilled(now[k])) && cases[j].blocks[k] == now[k]
  {
    hide Operates, Submit, Reachable, IsFilled;
    SubmittedFits(requester, planned, form, cases[0]);
    RunKeeps(cases, 0, i);
    RunKeeps(cases, i, j);
  }

  /** A request that was finally approved has no empty required field at all. */
  lemma {:induction false} GrantedIsComplete<Data(!new)>(requester: int, planned: seq<Step>, form: Option<Form<Data>>,
                                                       cases: seq<Case<Data>>, i: nat)
    requires cases != [] && Submitted(requester, planned, form, cases[0]) && Run(cases) && i < |cases|
    requires cases[i].rows.request.status == Granted
    ensures forall k: nat :: k < |cases[i].blocks| && cases[i].blocks[k].required ==> IsFilled(cases[i].blocks[k])
  {
    hide Operates, Submit, IsFilled;
    SubmittedFits(requester, planned, form, cases[0]);
    RunKeeps(cases, 0, i);
    var n := |cases[i].rows.steps|;
    assert ApprovedAt(cases[i].rows.steps, n);
    forall k: nat | k < |cases[i].blocks|
      ensures cases[i].blocks[k].step <= n
    {
      assert cases[i].blocks[k] == cases[0].blocks[k].(data := cases[i].blocks[k].data);
    }
  }
}
