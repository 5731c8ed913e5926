/** Filling fields while others decide (approval/store.py `fill_block`, `decide`): between its look at the steps and its write
    a filling can be overtaken by an approval. Exactly when evidence that was already approved is written or left empty. */
module ApprovalFills {
  import opened Base
  import opened ApprovalEngine
  import opened ApprovalStore
  import opened ApprovalRuns
  import opened ApprovalRace
  import opened ApprovalEvidence

  /** Where a caller of `fill_block` is between two statements. */
  datatype Filling<!Data> =
    | Away
    /** It has read the field and the request row. */
    | Begun(at: nat, actor: int, data: Option<Data>)
    /** It has read the steps, and they let it write. */
    | Checked(at: nat, actor: int, data: Option<Data>)

  /** Everything about decisions, the fields, and those who fill them. */
  datatype Desk<!Data> = Desk(base: State, blocks: seq<Block<Data>>, fillings: map<Caller, Filling<Data>>)

  function FillingOf<Data>(s: Desk<Data>, f: Caller): Filling<Data> {
    if f in s.fillings then s.fillings[f] else Away
  }

  // ---------------------------------------------------------------- one statement of one caller

  /** The field is there and the request still open; a draft field is the requester's. */
  predicate MayBegin<Data>(s: Desk<Data>, at: nat, actor: int) {
    && at < |s.blocks| && !s.blocks[at].kind.Retired? && s.base.rows.request.status == Open
    && (s.blocks[at].step == 0 ==> s.base.rows.request.requester == actor)
  }

  /** Nobody has approved yet, for a draft field; otherwise it is the turn of the field's step, and the actor's. */
  ghost predicate StepsAllow(steps: seq<Step>, step: nat, actor: int) {
    if step == 0 then !SomeApproved(steps)
    else exists i :: 0 <= i < |steps| && steps[i].order == step && steps[i].approver == actor && steps[i].status == Pending
  }

  /** With nobody in between, the two looks let through exactly what the rules of filling let through. */
  lemma {:induction false} LooksAreMayFill<Data>(s: Desk<Data>, at: nat, actor: int)
    requires Line(s.base.rows.steps)
    ensures MayBegin(s, at, actor) && StepsAllow(s.base.rows.steps, s.blocks[at].step, actor) <==>
            MayFill(Case(s.base.rows, s.blocks), at, actor, true) == None
  {
  }

  ghost predicate Enters<Data>(s: Desk<Data>, s': Desk<Data>, f: Caller, filling: Filling<Data>) {
    s' == s.(fillings := s.fillings[f := filling])
  }

  /** The update of one field. */
  ghost predicate Puts<Data>(s: Desk<Data>, s': Desk<Data>, f: Caller, at: nat) {
    && at < |s.blocks| && FillingOf(s, f).Checked? && FillingOf(s, f).at == at
    && s' == s.(blocks := s.blocks[at := s.blocks[at].(data := FillingOf(s, f).data)], fillings := s.fillings[f := Away])
  }

  /** The next statement of a filling, or giving up. */
  ghost predicate Fills<Data(!new)>(s: Desk<Data>, s': Desk<Data>, f: Caller) {
    match FillingOf(s, f)
    case Away => exists at, actor, data :: MayBegin(s, at, actor) && Enters(s, s', f, Begun(at, actor, data))
    case Begun(at, actor, data) =>
      || Enters(s, s', f, Away)
      || (at < |s.blocks| && StepsAllow(s.base.rows.steps, s.blocks[at].step, actor) && Enters(s, s', f, Checked(at, actor, data)))
    case Checked(at, actor, data) => Enters(s, s', f, Away) || Puts(s, s', f, at)
  }

  /** The next statement of a decision or withdrawal. Whoever is let through to sign has seen the fields; the steps and the
      fields are read in one look, since a signature that wins found its step pending all the time. */
  ghost predicate Decides<Data>(s: Desk<Data>, s': Desk<Data>, c: Caller) {
    && Does(s.base, s'.base, c) && s' == s.(base := s'.base)
    && match PlaceOf(s.base, c)
       case ReadRequest(actor, action, request) =>
         PlaceOf(s'.base, c).Allowed? ==> MayDecide(request, s.base.rows.steps, actor, action, s.blocks).Ok?
       case _ => true
  }

  ghost predicate Moves<Data(!new)>(s: Desk<Data>, s': Desk<Data>) {
    (exists c :: Decides(s, s', c)) || (exists f :: Fills(s, s', f))
  }

  ghost predicate Course<Data(!new)>(desks: seq<Desk<Data>>) {
    && desks != [] && Initial(desks[0].base) && desks[0].fillings == map[]
    && forall i, j :: 0 <= i && j == i + 1 && j < |desks| ==> Moves(desks[i], desks[j])
  }

  // ---------------------------------------------------------------- what every statement keeps

  /** Fields keep everything but their value. */
  ghost predicate SameFields<Data>(a: seq<Block<Data>>, b: seq<Block<Data>>) {
    |a| == |b| && forall k :: 0 <= k < |a| ==> b[k].step == a[k].step && b[k].required == a[k].required
  }

  lemma {:induction false} MoveKeeps<Data(!new)>(s: Desk<Data>, s': Desk<Data>)
    requires ApprovalRuns.Inv(s.base) && Moves(s, s')
    ensures ApprovalRuns.Inv(s'.base) && Lasting(s.base.rows, s'.base.rows) && SameFields(s.blocks, s'.blocks)
  {
    hide Inv, Does, Lasting;
    if exists c :: Decides(s, s', c) {
      var c :| Decides(s, s', c);
      StepKeeps(s.base, s'.base, c);
    } else {
      LastingSelf(s.base.rows);
    }
  }

  lemma {:induction false} CourseInv<Data(!new)>(desks: seq<Desk<Data>>, i: nat)
    requires Course(desks) && i < |desks|
    ensures ApprovalRuns.Inv(desks[i].base)
    decreases i
  {
    hide Inv, Initial, Moves;
    if i == 0 {
      InitialInv(desks[0].base);
    } else {
      CourseInv(desks, i - 1);
      MoveKeeps(desks[i - 1], desks[i]);
    }
  }

  lemma {:induction false} CourseLasts<Data(!new)>(desks: seq<Desk<Data>>, i: nat, j: nat)
    requires Course(desks) && i <= j < |desks|
    ensures Lasting(desks[i].base.rows, desks[j].base.rows) && SameFields(desks[i].blocks, desks[j].blocks)
    decreases j
  {
    hide Lasting, Inv, Moves;
    if i == j {
      LastingSelf(desks[i].base.rows);
    } else {
      CourseLasts(desks, i, j - 1);
      CourseInv(desks, j - 1);
      MoveKeeps(desks[j - 1], desks[j]);
      LastingTwice(desks[i].base.rows, desks[j - 1].base.rows, desks[j].base.rows);
    }
  }

  /** Only the caller itself moves a filling, and only a put changes fields. */
  lemma {:induction false} WhoMoves<Data(!new)>(s: Desk<Data>, s': Desk<Data>, f: Caller)
    requires Moves(s, s')
    ensures FillingOf(s', f) != FillingOf(s, f) ==> Fills(s, s', f)
    ensures s'.blocks != s.blocks ==> exists g, k :: Puts(s, s', g, k)
  {
    if exists c :: Decides(s, s', c) {
      var c :| Decides(s, s', c);
    } else {
      var g :| Fills(s, s', g);
      hide StepsAllow, MayBegin;
      if s'.blocks != s.blocks { assert Puts(s, s', g, FillingOf(s, g).at); }
    }
  }

  // ---------------------------------------------------------------- a write and its check

  /** Filling `f` looked at the steps between `desks[u]` and the next moment, and puts field `k` between `desks[t]` and the
      next. */
  ghost predicate Filled<Data>(desks: seq<Desk<Data>>, f: Caller, u: nat, t: nat, k: nat) {
    && u < t && t + 1 < |desks| && FillingOf(desks[u], f).Begun?
    && (forall v :: u < v <= t ==> FillingOf(desks[v], f) == FillingOf(desks[t], f))
    && Puts(desks[t], desks[t + 1], f, k)
  }

  /** Every write was checked before. */
  lemma {:induction false} EveryWriteIsChecked<Data(!new)>(desks: seq<Desk<Data>>, f: Caller, t: nat, k: nat) returns (u: nat)
    requires Course(desks) && t + 1 < |desks| && Puts(desks[t], desks[t + 1], f, k)
    ensures Filled(desks, f, u, t, k)
  {
    hide Moves, Initial;
    u := t;
    assert FillingOf(desks[t], f).Checked?;
    while u > 0 && FillingOf(desks[u - 1], f) == FillingOf(desks[t], f)
      invariant 0 <= u <= t && forall v :: u <= v <= t ==> FillingOf(desks[v], f) == FillingOf(desks[t], f)
    {
      u := u - 1;
    }
    assert u > 0;
    u := u - 1;
    assert Moves(desks[u], desks[u + 1]);
    WhoMoves(desks[u], desks[u + 1], f);
    CheckedComesFrom(desks[u], desks[u + 1], f);
  }

  lemma {:induction false} CheckedComesFrom<Data(!new)>(s: Desk<Data>, s': Desk<Data>, f: Caller)
    requires Fills(s, s', f) && FillingOf(s', f).Checked?
    ensures FillingOf(s, f).Begun?
  {
  }

  /** The check itself: the steps let this actor write this field, and nothing changed. */
  lemma {:induction false} CheckSays<Data(!new)>(desks: seq<Desk<Data>>, f: Caller, u: nat, t: nat, k: nat)
    requires Course(desks) && Filled(desks, f, u, t, k)
    ensures k < |desks[u].blocks| && desks[u + 1].base == desks[u].base
    ensures StepsAllow(desks[u].base.rows.steps, desks[u].blocks[k].step, FillingOf(desks[t], f).actor)
  {
    hide StepsAllow, Initial;
    assert Moves(desks[u], desks[u + 1]);
    WhoMoves(desks[u], desks[u + 1], f);
    assert FillingOf(desks[u + 1], f) == FillingOf(desks[t], f);
  }

  // ---------------------------------------------------------------- when evidence is written

  /** An approved step has seen the field. */
  ghost predicate Seen<Data>(s: Desk<Data>, k: nat)
    requires k < |s.blocks|
  {
    exists order: nat :: ApprovedAt(s.base.rows.steps, order) && s.blocks[k].step <= order
  }

  /** Somebody approves after the check and before the write. */
  ghost predicate PassedBy<Data>(desks: seq<Desk<Data>>, u: nat, t: nat)
    requires t < |desks|
  {
    exists v :: u < v < t && ApprovesAt(desks, v)
  }

  ghost predicate ApprovesAt<Data>(desks: seq<Desk<Data>>, v: nat)
    requires v + 1 < |desks|
  {
    Approves(desks[v].base, desks[v + 1].base)
  }

  /** Where the check lets somebody write, no approved step has seen the field. */
  lemma {:induction false} NotSeenAtCheck(rows: Rows, step: nat, actor: int, order: nat)
    requires RowsOk(rows) && StepsAllow(rows.steps, step, actor) && step <= order
    ensures !ApprovedAt(rows.steps, order)
  {
    assert ApprovedAt(rows.steps, order) ==> ApprovedBefore(rows.steps, order - 1) && SomeApproved(rows.steps);
    if step > 0 {
      var i :| 0 <= i < |rows.steps| && rows.steps[i].order == step && rows.steps[i].status == Pending;
      assert i == step - 1;
    }
  }

  /** The moment at which a step becomes approved. */
  lemma {:induction false} ApprovedSince<Data(!new)>(desks: seq<Desk<Data>>, order: nat, from: nat, t: nat) returns (v: nat, d: Caller)
    requires Course(desks) && from <= t < |desks|
    requires !ApprovedAt(desks[from].base.rows.steps, order) && ApprovedAt(desks[t].base.rows.steps, order)
    ensures from <= v < t && !ApprovedAt(desks[v].base.rows.steps, order) && ApprovedAt(desks[v + 1].base.rows.steps, order)
    ensures Decides(desks[v], desks[v + 1], d)
  {
    hide Moves, Initial, ApprovedAt;
    v := from;
    while !ApprovedAt(desks[v + 1].base.rows.steps, order)
      invariant from <= v < t && !ApprovedAt(desks[v].base.rows.steps, order)
      decreases t - v
    {
      v := v + 1;
    }
    assert Moves(desks[v], desks[v + 1]);
    d := DecidesHere(desks[v], desks[v + 1]);
  }

  lemma {:induction false} DecidesHere<Data(!new)>(s: Desk<Data>, s': Desk<Data>) returns (d: Caller)
    requires Moves(s, s') && s'.base.rows.steps != s.base.rows.steps
    ensures Decides(s, s', d)
  {
    hide Does, StepsAllow, MayBegin;
    d :| Decides(s, s', d);
  }

  lemma {:induction false} BecomesApproved<Data>(s: Desk<Data>, s': Desk<Data>, d: Caller, order: nat)
    requires Decides(s, s', d) && !ApprovedAt(s.base.rows.steps, order) && ApprovedAt(s'.base.rows.steps, order)
    ensures Approves(s.base, s'.base) && order <= |s.base.rows.steps|
    ensures PlaceOf(s.base, d).Allowed? && PlaceOf(s.base, d).action == Approve
    ensures s.base.rows.steps[order - 1].approver == PlaceOf(s.base, d).actor && s.base.rows.steps[order - 1].status == Pending
  {
    hide Does, Approves;
    NewApproval(s.base, s'.base, d, order - 1);
  }

  /** Which step an approving signature approves. */
  lemma {:induction false} ApprovesPending(a: State, b: State) returns (p: nat)
    requires Approves(a, b)
    ensures p < |a.rows.steps| && a.rows.steps[p].status == Pending && ApprovedAt(b.rows.steps, p + 1)
  {
    var d, actor, seen :| PlaceOf(a, d) == Allowed(actor, Approve, seen) && SignWins(a.rows, actor) && Does(a, b, d);
    p :| p < |a.rows.steps| && a.rows.steps[p].approver == actor && a.rows.steps[p].status == Pending;
  }

  /** Whoever approves after a check has seen the field. */
  lemma {:induction false} LaterStepsSee(at: Rows, later: Rows, step: nat, actor: int, p: nat)
    requires RowsOk(at) && StepsAllow(at.steps, step, actor) && Lasting(at, later)
    requires p < |later.steps| && later.steps[p].status == Pending
    ensures step <= p + 1
  {
    if step > 0 {
      var i :| 0 <= i < |at.steps| && at.steps[i].order == step && at.steps[i].status == Pending;
      assert i == step - 1 && ApprovedBefore(at.steps, i);
    }
  }

  lemma {:induction false} ApprovedLasts(a: Rows, b: Rows, order: nat)
    requires Lasting(a, b) && ApprovedAt(a.steps, order)
    ensures ApprovedAt(b.steps, order)
  {
  }

  /** In every course of events: a write hits a field that an approved step has already seen exactly if somebody approved
      between the write's check and the write. */
  lemma {:induction false} EvidenceIsWritten<Data(!new)>(desks: seq<Desk<Data>>, f: Caller, u: nat, t: nat, k: nat)
    requires Course(desks) && Filled(desks, f, u, t, k)
    ensures k < |desks[t].blocks| && (Seen(desks[t], k) <==> PassedBy(desks, u, t))
  {
    hide *;
    FilledParts(desks, f, u, t, k);
    CheckSays(desks, f, u, t, k);
    CourseLasts(desks, u, t);
    FieldsAgree(desks[u].blocks, desks[t].blocks, k);
    if Seen(desks[t], k) { SeenIsPassed(desks, f, u, t, k); }
    if PassedBy(desks, u, t) { PassedIsSeen(desks, f, u, t, k); }
  }

  lemma {:induction false} FilledParts<Data>(desks: seq<Desk<Data>>, f: Caller, u: nat, t: nat, k: nat)
    requires Filled(desks, f, u, t, k)
    ensures u < t && t + 1 < |desks| && FillingOf(desks[t], f).Checked?
  {
  }

  lemma {:induction false} FieldsAgree<Data>(a: seq<Block<Data>>, b: seq<Block<Data>>, k: nat)
    requires SameFields(a, b) && k < |a|
    ensures k < |b| && b[k].step == a[k].step && b[k].required == a[k].required
  {
  }

  lemma {:induction false} InvRows(s: State)
    requires ApprovalRuns.Inv(s)
    ensures RowsOk(s.rows)
  {
  }

  lemma {:induction false} SeenBy<Data>(s: Desk<Data>, k: nat) returns (order: nat)
    requires k < |s.blocks| && Seen(s, k)
    ensures ApprovedAt(s.base.rows.steps, order) && s.blocks[k].step <= order
  {
    order :| ApprovedAt(s.base.rows.steps, order) && s.blocks[k].step <= order;
  }

  lemma {:induction false} SeenIsPassed<Data(!new)>(desks: seq<Desk<Data>>, f: Caller, u: nat, t: nat, k: nat)
    requires Course(desks) && Filled(desks, f, u, t, k) && k < |desks[t].blocks| && Seen(desks[t], k)
    ensures u < t < |desks| && PassedBy(desks, u, t)
  {
    hide *;
    FilledParts(desks, f, u, t, k);
    CheckSays(desks, f, u, t, k);
    CourseLasts(desks, u, t);
    FieldsAgree(desks[u].blocks, desks[t].blocks, k);
    CourseInv(desks, u);
    InvRows(desks[u].base);
    var order := SeenBy(desks[t], k);
    NotSeenAtCheck(desks[u].base.rows, desks[u].blocks[k].step, FillingOf(desks[t], f).actor, order);
    var v, d := ApprovedSince(desks, order, u + 1, t);
    BecomesApproved(desks[v], desks[v + 1], d, order);
    IsPassed(desks, u, t, v);
  }

  lemma {:induction false} IsPassed<Data>(desks: seq<Desk<Data>>, u: nat, t: nat, v: nat)
    requires u < v < t < |desks| && Approves(desks[v].base, desks[v + 1].base)
    ensures PassedBy(desks, u, t)
  {
    hide Approves;
    assert ApprovesAt(desks, v);
  }

  lemma {:induction false} PassedAt<Data>(desks: seq<Desk<Data>>, u: nat, t: nat) returns (v: nat)
    requires t < |desks| && PassedBy(desks, u, t)
    ensures u < v < t && Approves(desks[v].base, desks[v + 1].base)
  {
    hide Approves;
    v :| u < v < t && ApprovesAt(desks, v);
  }

  lemma {:induction false} IsSeen<Data>(s: Desk<Data>, k: nat, order: nat)
    requires k < |s.blocks| && ApprovedAt(s.base.rows.steps, order) && s.blocks[k].step <= order
    ensures Seen(s, k)
  {
  }

  lemma {:induction false} PassedIsSeen<Data(!new)>(desks: seq<Desk<Data>>, f: Caller, u: nat, t: nat, k: nat)
    requires Course(desks) && Filled(desks, f, u, t, k) && k < |desks[t].blocks| && t < |desks| && PassedBy(desks, u, t)
    ensures Seen(desks[t], k)
  {
    hide *;
    FilledParts(desks, f, u, t, k);
    CheckSays(desks, f, u, t, k);
    CourseInv(desks, u);
    InvRows(desks[u].base);
    var v := PassedAt(desks, u, t);
    var p := ApprovesPending(desks[v].base, desks[v + 1].base);
    CourseLasts(desks, u, v);
    LaterStepsSee(desks[u].base.rows, desks[v].base.rows, desks[u].blocks[k].step, FillingOf(desks[t], f).actor, p);
    CourseLasts(desks, v + 1, t);
    ApprovedLasts(desks[v + 1].base.rows, desks[t].base.rows, p + 1);
    CourseLasts(desks, u, t);
    FieldsAgree(desks[u].blocks, desks[t].blocks, k);
    IsSeen(desks[t], k, p + 1);
  }

  // ---------------------------------------------------------------- evidence stays unless a write is passed by

  /** Some write to the field between `i` and `j` was passed by an approval. */
  ghost predicate LateWrite<Data>(desks: seq<Desk<Data>>, i: nat, j: nat, k: nat) {
    exists f, u, t :: i <= t < j && Filled(desks, f, u, t, k) && PassedBy(desks, u, t)
  }

  /** What an approved step has seen changes only by a write that an approval passed by. */
  lemma {:induction false} EvidenceStays<Data(!new)>(desks: seq<Desk<Data>>, i: nat, j: nat, k: nat)
    requires Course(desks) && i <= j < |desks| && k < |desks[i].blocks| && Seen(desks[i], k) && !LateWrite(desks, i, j, k)
    ensures k < |desks[j].blocks| && desks[j].blocks[k] == desks[i].blocks[k]
    decreases j
  {
    hide *;
    CourseLasts(desks, i, j);
    FieldsAgree(desks[i].blocks, desks[j].blocks, k);
    if i < j {
      NoneLater(desks, i, j, k);
      EvidenceStays(desks, i, j - 1, k);
      if desks[j].blocks[k] != desks[j - 1].blocks[k] {
        var f := WhoPut(desks, j - 1, k);
        var u := EveryWriteIsChecked(desks, f, j - 1, k);
        CourseLasts(desks, i, j - 1);
        SeenLasts(desks[i], desks[j - 1], k);
        EvidenceIsWritten(desks, f, u, j - 1, k);
        IsLate(desks, i, j, k, f, u, j - 1);
      }
    }
  }

  lemma {:induction false} NoneLater<Data>(desks: seq<Desk<Data>>, i: nat, j: nat, k: nat)
    requires i < j && !LateWrite(desks, i, j, k)
    ensures !LateWrite(desks, i, j - 1, k)
  {
    hide Filled, PassedBy;
  }

  lemma {:induction false} IsLate<Data>(desks: seq<Desk<Data>>, i: nat, j: nat, k: nat, f: Caller, u: nat, t: nat)
    requires i <= t < j && t < |desks| && Filled(desks, f, u, t, k) && PassedBy(desks, u, t)
    ensures LateWrite(desks, i, j, k)
  {
    hide Filled, PassedBy;
  }

  lemma {:induction false} WhoPut<Data(!new)>(desks: seq<Desk<Data>>, t: nat, k: nat) returns (f: Caller)
    requires Course(desks) && t + 1 < |desks| && k < |desks[t].blocks| && k < |desks[t + 1].blocks|
    requires desks[t + 1].blocks[k] != desks[t].blocks[k]
    ensures Puts(desks[t], desks[t + 1], f, k)
  {
    hide Moves, Initial;
    assert Moves(desks[t], desks[t + 1]);
    WhoMoves(desks[t], desks[t + 1], 0);
    var at: nat;
    f, at :| Puts(desks[t], desks[t + 1], f, at);
  }

  lemma {:induction false} SeenLasts<Data>(s: Desk<Data>, s': Desk<Data>, k: nat)
    requires Lasting(s.base.rows, s'.base.rows) && SameFields(s.blocks, s'.blocks) && k < |s.blocks| && Seen(s, k)
    ensures k < |s'.blocks| && Seen(s', k)
  {
    var order := SeenBy(s, k);
    ApprovedLasts(s.base.rows, s'.base.rows, order);
  }

  // ---------------------------------------------------------------- when evidence is incomplete

  /** Caller `d` looked at the fields between `desks[w]` and the next moment, was let through to approve, and approved step
      `order` between `desks[v]` and the next. */
  ghost predicate ApprovedAfterLook<Data>(desks: seq<Desk<Data>>, d: Caller, w: nat, v: nat, order: nat) {
    && w < v && v + 1 < |desks| && PlaceOf(desks[w].base, d).ReadRequest?
    && PlaceOf(desks[v].base, d).Allowed? && PlaceOf(desks[v].base, d).action == Approve
    && (forall x :: w < x <= v ==> PlaceOf(desks[x].base, d) == PlaceOf(desks[v].base, d))
    && Decides(desks[w], desks[w + 1], d) && Decides(desks[v], desks[v + 1], d)
    && !ApprovedAt(desks[v].base.rows.steps, order) && ApprovedAt(desks[v + 1].base.rows.steps, order)
  }

  lemma {:induction false} NobodyAtFirst<Data(!new)>(desks: seq<Desk<Data>>, order: nat, d: Caller)
    requires Course(desks)
    ensures !ApprovedAt(desks[0].base.rows.steps, order) && PlaceOf(desks[0].base, d) == Idle
  {
    hide Moves;
    ApprovedIsBehind(desks[0].base.rows.request, desks[0].base.rows.steps, order);
  }

  /** Only the caller itself moves a decision. */
  lemma {:induction false} WhoDecides<Data(!new)>(s: Desk<Data>, s': Desk<Data>, d: Caller)
    requires Moves(s, s') && PlaceOf(s'.base, d) != PlaceOf(s.base, d)
    ensures Decides(s, s', d)
  {
    hide Does, StepsAllow, MayBegin;
    var c :| Decides(s, s', c);
    if c != d { OthersStay(s.base, s'.base, d, c); }
  }

  /** Being let through follows reading the request. */
  lemma {:induction false} AllowedComesFrom(a: State, b: State, d: Caller)
    requires Does(a, b, d) && PlaceOf(b, d).Allowed? && PlaceOf(a, d) != PlaceOf(b, d)
    ensures PlaceOf(a, d).ReadRequest? && PlaceOf(a, d).actor == PlaceOf(b, d).actor && PlaceOf(a, d).action == PlaceOf(b, d).action
  {
    hide Sign, SkipOpen, Ask, Close, Cancel, MayDecide, Advance, Move, SignWins;
  }

  /** Every approval was preceded by its look at the fields. */
  lemma {:induction false} EveryApprovalLooked<Data(!new)>(desks: seq<Desk<Data>>, i: nat, order: nat)
      returns (d: Caller, w: nat, v: nat)
    requires Course(desks) && i < |desks| && ApprovedAt(desks[i].base.rows.steps, order)
    ensures ApprovedAfterLook(desks, d, w, v, order) && v < i
  {
    hide Moves, Initial, ApprovedAt, Decides;
    NobodyAtFirst(desks, order, 0);
    v, d := ApprovedSince(desks, order, 0, i);
    NobodyAtFirst(desks, order, d);
    BecomesApproved(desks[v], desks[v + 1], d, order);
    w := v;
    while w > 0 && PlaceOf(desks[w - 1].base, d) == PlaceOf(desks[v].base, d)
      invariant 0 <= w <= v && forall x :: w <= x <= v ==> PlaceOf(desks[x].base, d) == PlaceOf(desks[v].base, d)
    {
      w := w - 1;
    }
    assert w > 0;
    w := w - 1;
    assert Moves(desks[w], desks[w + 1]);
    WhoDecides(desks[w], desks[w + 1], d);
    DecidesDoes(desks[w], desks[w + 1], d);
    AllowedComesFrom(desks[w].base, desks[w + 1].base, d);
  }

  lemma {:induction false} DecidesDoes<Data>(s: Desk<Data>, s': Desk<Data>, d: Caller)
    requires Decides(s, s', d)
    ensures Does(s.base, s'.base, d) && s'.blocks == s.blocks
  {
    hide Does;
  }

  /** At that look every required field up to the step was filled. */
  lemma {:induction false} LookSays<Data(!new)>(desks: seq<Desk<Data>>, d: Caller, w: nat, v: nat, order: nat, k: nat)
    requires Course(desks) && ApprovedAfterLook(desks, d, w, v, order)
    requires k < |desks[w].blocks| && desks[w].blocks[k].step <= order && desks[w].blocks[k].required
    ensures IsFilled(desks[w].blocks[k])
  {
    hide Moves, Initial, Does, IsFilled, Lasting;
    var a, b := desks[w], desks[v];
    var actor := PlaceOf(b.base, d).actor;
    assert PlaceOf(desks[w + 1].base, d) == PlaceOf(b.base, d) && PlaceOf(desks[w + 1].base, d) != PlaceOf(a.base, d);
    AllowedComesFrom(a.base, desks[w + 1].base, d);
    BecomesApproved(b, desks[v + 1], d, order);
    CourseInv(desks, w);
    InvRows(a.base);
    CourseLasts(desks, w, v);
    var may := MayDecide(PlaceOf(a.base, d).request, a.base.rows.steps, actor, Approve, a.blocks);
    SamePerson(a.base.rows, b.base.rows, may.value, order - 1);
    NothingMissing(a.blocks, order);
  }

  /** A person stands once on a line, and always at the same place. */
  lemma {:induction false} SamePerson(a: Rows, b: Rows, p: nat, q: nat)
    requires RowsOk(a) && Lasting(a, b) && p < |a.steps| && q < |b.steps| && a.steps[p].approver == b.steps[q].approver
    ensures p == q && a.steps[p].order == p + 1
  {
  }

  /** The last write since the look left the field empty. */
  ghost predicate LeftEmpty<Data>(desks: seq<Desk<Data>>, w: nat, i: nat, k: nat) {
    exists t, f :: w <= t < i && PutsLast(desks, t, f, i, k) && !IsFilled(desks[t + 1].blocks[k])
  }

  ghost predicate PutsLast<Data>(desks: seq<Desk<Data>>, t: nat, f: Caller, i: nat, k: nat) {
    && t < i < |desks| && Puts(desks[t], desks[t + 1], f, k) && k < |desks[t + 1].blocks|
    && forall x :: t < x <= i ==> k < |desks[x].blocks| && desks[x].blocks[k] == desks[t + 1].blocks[k]
  }

  lemma {:induction false} LastPut<Data(!new)>(desks: seq<Desk<Data>>, w: nat, i: nat, k: nat) returns (t: nat, f: Caller)
    requires Course(desks) && w <= i < |desks| && k < |desks[w].blocks| && k < |desks[i].blocks|
    requires desks[i].blocks[k] != desks[w].blocks[k]
    ensures w <= t && PutsLast(desks, t, f, i, k)
    decreases i
  {
    hide Moves, Initial, Puts;
    CourseLasts(desks, w, i - 1);
    FieldsAgree(desks[w].blocks, desks[i - 1].blocks, k);
    if desks[i].blocks[k] != desks[i - 1].blocks[k] {
      t := i - 1;
      f := WhoPut(desks, t, k);
    } else {
      t, f := LastPut(desks, w, i - 1, k);
    }
  }

  /** In every course of events: a required field that an approved step has seen is empty exactly if, since the approver's
      look at the fields, the last write to it left it empty. */
  lemma {:induction false} EmptyExactly<Data(!new)>(desks: seq<Desk<Data>>, d: Caller, w: nat, v: nat, order: nat, i: nat, k: nat)
    requires Course(desks) && ApprovedAfterLook(desks, d, w, v, order) && v < i < |desks| && k < |desks[i].blocks|
    requires desks[i].blocks[k].step <= order && desks[i].blocks[k].required
    ensures !IsFilled(desks[i].blocks[k]) <==> LeftEmpty(desks, w, i, k)
  {
    LookIsBefore(desks, d, w, v, order);
    hide *;
    CourseLasts(desks, w, i);
    FieldsBack(desks[w].blocks, desks[i].blocks, k);
    LookSays(desks, d, w, v, order, k);
    if !IsFilled(desks[i].blocks[k]) {
      var t, f := LastPut(desks, w, i, k);
      LastSays(desks, t, f, i, k);
      IsLeftEmpty(desks, w, t, f, i, k);
    }
    if LeftEmpty(desks, w, i, k) { LeftEmptySays(desks, w, i, k); }
  }

  lemma {:induction false} LookIsBefore<Data>(desks: seq<Desk<Data>>, d: Caller, w: nat, v: nat, order: nat)
    requires ApprovedAfterLook(desks, d, w, v, order)
    ensures w < v
  {
  }

  lemma {:induction false} FieldsBack<Data>(a: seq<Block<Data>>, b: seq<Block<Data>>, k: nat)
    requires SameFields(a, b) && k < |b|
    ensures k < |a| && b[k].step == a[k].step && b[k].required == a[k].required
  {
  }

  lemma {:induction false} LastSays<Data>(desks: seq<Desk<Data>>, t: nat, f: Caller, i: nat, k: nat)
    requires PutsLast(desks, t, f, i, k)
    ensures t < i < |desks| && k < |desks[t + 1].blocks| && k < |desks[i].blocks| && desks[i].blocks[k] == desks[t + 1].blocks[k]
  {
    hide Puts;
  }

  lemma {:induction false} IsLeftEmpty<Data>(desks: seq<Desk<Data>>, w: nat, t: nat, f: Caller, i: nat, k: nat)
    requires w <= t < i && PutsLast(desks, t, f, i, k) && t + 1 < |desks| && k < |desks[t + 1].blocks|
    requires !IsFilled(desks[t + 1].blocks[k])
    ensures LeftEmpty(desks, w, i, k)
  {
    hide PutsLast, IsFilled;
  }

  lemma {:induction false} LeftEmptySays<Data>(desks: seq<Desk<Data>>, w: nat, i: nat, k: nat)
    requires LeftEmpty(desks, w, i, k) && i < |desks| && k < |desks[i].blocks|
    ensures !IsFilled(desks[i].blocks[k])
  {
    hide IsFilled, Puts;
    var t, f :| w <= t < i && PutsLast(desks, t, f, i, k) && !IsFilled(desks[t + 1].blocks[k]);
  }

  // ---------------------------------------------------------------- a course in which it happens

  const SOMETHING: Option<int> -> bool := (data: Option<int>) => data.Some?

  /** The one draft field: required, and filled by anything. */
  ghost function Draft(data: Option<int>): seq<Block<int>> { [Block(0, Known(SOMETHING), true, data)] }

  ghost function Granted1(): Rows { Rows(Request(REQUESTER, Granted, 1), [Step(1, APPROVER, Approved)]) }

  ghost function At(rows: Rows, p: ApprovalRuns.Place, winners: map<nat, Caller>): State { State(rows, map[2 := p], winners) }

  /** Caller 1 fills the draft field, and begins to empty it; caller 2 approves; caller 1 writes; the request is granted. */
  ghost function Emptying(): seq<Desk<int>> {
    var start := State(ApprovalRace.Before(), map[], map[]);
    [Desk(start, Draft(None), map[]),
     Desk(start, Draft(None), map[1 := Begun(0, REQUESTER, Some(1))]),
     Desk(start, Draft(None), map[1 := Checked(0, REQUESTER, Some(1))]),
     Desk(start, Draft(Some(1)), map[1 := Away]),
     Desk(start, Draft(Some(1)), map[1 := Begun(0, REQUESTER, None)]),
     Desk(start, Draft(Some(1)), map[1 := Checked(0, REQUESTER, None)]),
     Desk(At(ApprovalRace.Before(), ReadRequest(APPROVER, Approve, Asked()), map[]), Draft(Some(1)), map[1 := Checked(0, REQUESTER, None)]),
     Desk(At(ApprovalRace.Before(), Allowed(APPROVER, Approve, 1), map[]), Draft(Some(1)), map[1 := Checked(0, REQUESTER, None)]),
     Desk(At(ApprovalRace.Signed(), Written(1), map[]), Draft(Some(1)), map[1 := Checked(0, REQUESTER, None)]),
     Desk(At(ApprovalRace.Signed(), Written(1), map[]), Draft(None), map[1 := Away]),
     Desk(At(ApprovalRace.Signed(), Reread(1, Granted, 1), map[]), Draft(None), map[1 := Away]),
     Desk(At(Granted1(), Won(Granted, 1), map[1 := 2]), Draft(None), map[1 := Away])]
  }

  lemma {:induction false} FillsOnce()
    ensures Fills(Emptying()[0], Emptying()[1], 1) && Fills(Emptying()[1], Emptying()[2], 1)
    ensures Fills(Emptying()[2], Emptying()[3], 1)
  {
    var s, t, u, v := Emptying()[0], Emptying()[1], Emptying()[2], Emptying()[3];
    assert MayBegin(s, 0, REQUESTER) && Enters(s, t, 1, Begun(0, REQUESTER, Some(1)));
    assert StepsAllow(ApprovalRace.Before().steps, 0, REQUESTER) && Enters(t, u, 1, Checked(0, REQUESTER, Some(1)));
    assert Draft(None)[0 := Draft(None)[0].(data := Some(1))] == Draft(Some(1));
    assert Puts(u, v, 1, 0);
  }

  lemma {:induction false} FillsTwice()
    ensures Fills(Emptying()[3], Emptying()[4], 1) && Fills(Emptying()[4], Emptying()[5], 1)
    ensures Fills(Emptying()[8], Emptying()[9], 1)
  {
    var s, t, u, v, w := Emptying()[3], Emptying()[4], Emptying()[5], Emptying()[8], Emptying()[9];
    assert MayBegin(s, 0, REQUESTER) && Enters(s, t, 1, Begun(0, REQUESTER, None));
    assert StepsAllow(ApprovalRace.Before().steps, 0, REQUESTER) && Enters(t, u, 1, Checked(0, REQUESTER, None));
    assert Draft(Some(1))[0 := Draft(Some(1))[0].(data := None)] == Draft(None);
    assert Puts(v, w, 1, 0);
  }

  lemma {:induction false} ApproverLooks()
    ensures Decides(Emptying()[5], Emptying()[6], 2) && Decides(Emptying()[6], Emptying()[7], 2)
  {
    var s, t, u := Emptying()[5].base, Emptying()[6].base, Emptying()[7].base;
    assert Goes(s, t, 2, s.rows, ReadRequest(APPROVER, Approve, s.rows.request));
    assert FindStep(ApprovalRace.Before().steps, APPROVER, true) == Some(0);
    assert MayDecide<int>(Asked(), ApprovalRace.Before().steps, APPROVER, Approve, []) == Ok(0);
    assert UnfilledUpto(Draft(Some(1)), 1) == [] by { assert Draft(Some(1))[1..] == []; }
    assert MayDecide(Asked(), ApprovalRace.Before().steps, APPROVER, Approve, Draft(Some(1))) == Ok(0);
    assert Goes(t, u, 2, t.rows, Allowed(APPROVER, Approve, 1));
  }

  lemma {:induction false} ApproverSigns()
    ensures Decides(Emptying()[7], Emptying()[8], 2)
  {
    var s, t := Emptying()[7].base, Emptying()[8].base;
    assert ApprovalRace.Before().steps[0].approver == APPROVER && SignWins(ApprovalRace.Before(), APPROVER);
    assert Sign(ApprovalRace.Before(), APPROVER, Approve) == ApprovalRace.Signed();
    assert Goes(s, t, 2, ApprovalRace.Signed(), Written(1));
  }

  lemma {:induction false} ApproverGrants()
    ensures Decides(Emptying()[9], Emptying()[10], 2) && Decides(Emptying()[10], Emptying()[11], 2)
  {
    var s, t, u := Emptying()[9].base, Emptying()[10].base, Emptying()[11].base;
    var steps := ApprovalRace.Signed().steps;
    assert Line(steps);
    NextIsOneMore(steps, 1);
    AdvanceIs(steps, 1);
    assert !SomeRejected(steps);
    assert Advance(steps, 1) == (Granted, 1);
    assert Goes(s, t, 2, s.rows, Reread(1, Granted, 1));
    assert MoveWins(t.rows, 1) && Move(t.rows, 1, Granted, 1) == Granted1();
    assert u == State(Granted1(), t.callers[2 := Won(Granted, 1)], t.winners[1 := 2]);
  }

  /** The value an approver has seen is gone, and the request is granted with its required field empty. */
  lemma {:induction false} ApprovedThenEmptied()
    ensures Course(Emptying())
    ensures var seen, last := Emptying()[8], Emptying()[11];
            && ApprovedAt(seen.base.rows.steps, 1) && IsFilled(seen.blocks[0]) && seen.blocks[0].required
            && last.base.rows.request.status == Granted && last.blocks[0] != seen.blocks[0] && !IsFilled(last.blocks[0])
  {
    EmptyingEnds();
    EmptyingMoves();
    EmptyingBegins();
    hide Moves, Initial, Emptying;
    FromMoves(Emptying());
  }

  lemma {:induction false} EmptyingEnds()
    ensures |Emptying()| == 12
    ensures var seen, last := Emptying()[8], Emptying()[11];
            && |seen.blocks| == 1 == |last.blocks|
            && ApprovedAt(seen.base.rows.steps, 1) && IsFilled(seen.blocks[0]) && seen.blocks[0].required
            && last.base.rows.request.status == Granted && last.blocks[0] != seen.blocks[0] && !IsFilled(last.blocks[0])
  {
  }

  lemma {:induction false} EmptyingBegins()
    ensures |Emptying()| == 12 && Initial(Emptying()[0].base) && Emptying()[0].fillings == map[]
  {
  }

  lemma {:induction false} EmptyingMoves()
    ensures forall i: nat :: i < 11 ==> Moves(Emptying()[i], Emptying()[i + 1])
  {
    FillsOnce();
    FillsTwice();
    ApproverLooks();
    ApproverSigns();
    ApproverGrants();
    EmptyingBegins();
    var desks := Emptying();
    hide Fills, Decides, Emptying, Initial;
    forall i: nat | i < 11
      ensures Moves(desks[i], desks[i + 1])
    {
      if i < 5 || i == 8 { FillMoves(desks[i], desks[i + 1], 1); } else { DecisionMoves(desks[i], desks[i + 1], 2); }
    }
  }

  lemma {:induction false} FillMoves(s: Desk<int>, s': Desk<int>, f: Caller)
    requires Fills(s, s', f)
    ensures Moves(s, s')
  {
    hide Fills, Decides;
  }

  lemma {:induction false} DecisionMoves(s: Desk<int>, s': Desk<int>, c: Caller)
    requires Decides(s, s', c)
    ensures Moves(s, s')
  {
    hide Fills, Decides;
  }

  lemma {:induction false} FromMoves(desks: seq<Desk<int>>)
    requires |desks| == 12 && Initial(desks[0].base) && desks[0].fillings == map[]
    requires forall i: nat :: i < 11 ==> Moves(desks[i], desks[i + 1])
    ensures Course(desks)
  {
    hide Moves, Initial;
    forall i, j | 0 <= i && j == i + 1 && j < |desks|
      ensures Moves(desks[i], desks[j])
    {
      assert Moves(desks[i], desks[i + 1]);
    }
  }
}
