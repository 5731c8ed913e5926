/** The rules of an approval, without a database (approval/engine.py; approval/blocks.py for what a form demands). */
module ApprovalEngine {
  import opened Base

  datatype StepStatus = Waiting | Pending | Approved | Rejected | Skipped
  datatype Outcome = Open | Granted | Refused | Canceled

  /** One signature line: its place, who signs, and where it stands. */
  datatype Step = Step(order: nat, approver: int, status: StepStatus)

  /** `current` is the order whose turn it is. */
  datatype Request = Request(requester: int, status: Outcome, current: nat)

  datatype Action = Approve | Reject

  datatype Reason =
    | EmptyLine | BadApprover | TwiceInLine
    | Finished | NotAnApprover | AlreadySigned | NotYourTurn | BlocksMissing
    | OnlyRequester | AlreadyApprovedBySomeone

  function Signed(action: Action): StepStatus {
    match action case Approve => Approved case Reject => Rejected
  }

  // ---------------------------------------------------------------- what a form demands

  /** A kind of form field and its own rule for being filled. Retired and unknown kinds never hold anything up. */
  datatype Kind<!Data> = Retired | Unknown | Known(rule: Option<Data> -> bool)

  datatype Block<!Data> = Block(step: nat, kind: Kind<Data>, required: bool, data: Option<Data>)

  predicate IsFilled<Data>(b: Block<Data>) {
    match b.kind
    case Retired => true
    case Unknown => true
    case Known(rule) => rule(b.data)
  }

  /** `unfilled_upto`: the required fields of steps `0..=order` that are still empty. */
  function UnfilledUpto<Data>(blocks: seq<Block<Data>>, order: nat): seq<Block<Data>> {
    if blocks == [] then []
    else
      (if blocks[0].step <= order && blocks[0].required && !IsFilled(blocks[0]) then [blocks[0]] else [])
      + UnfilledUpto(blocks[1..], order)
  }

  /** The loop of `_unfilled`. */
  method CollectUnfilled<Data>(blocks: seq<Block<Data>>, order: nat) returns (out: seq<Block<Data>>)
    ensures out == UnfilledUpto(blocks, order)
  {
    out := [];
    assert blocks[0..] == blocks && [] + UnfilledUpto(blocks, order) == UnfilledUpto(blocks, order);
    for k := 0 to |blocks|
      invariant out + UnfilledUpto(blocks[k..], order) == UnfilledUpto(blocks, order)
    {
      var b := blocks[k];
      assert blocks[k..][1..] == blocks[k + 1..];
      var more: seq<Block<Data>> := if b.step <= order && b.required && !IsFilled(b) then [b] else [];
      Assoc(out, more, UnfilledUpto(blocks[k + 1..], order));
      out := out + more;
    }
    assert blocks[|blocks|..] == [] && out + [] == out;
  }

  /** Nothing is missing exactly if every required field up to that step is filled. */
  lemma {:induction false} NothingMissing<Data>(blocks: seq<Block<Data>>, order: nat)
    ensures UnfilledUpto(blocks, order) == [] <==>
            forall k :: 0 <= k < |blocks| && blocks[k].step <= order && blocks[k].required ==> IsFilled(blocks[k])
    ensures UnfilledUpto(blocks, order) == [] <==>
            forall k :: 0 <= k < |blocks| && blocks[k].step <= order && blocks[k].required && blocks[k].kind.Known? ==>
              blocks[k].kind.rule(blocks[k].data)
  {
    if blocks != [] {
      NothingMissing(blocks[1..], order);
      assert forall k :: 0 < k < |blocks| ==> blocks[k] == blocks[1..][k - 1];
    }
  }

  // ---------------------------------------------------------------- planning a line

  /** What a caller asks for; None where the value is not a number. */
  datatype Wish = Wish(approver: Option<int>, order: Option<int>)

  /** A wished place: the given number (at least 1), then the order of arrival. */
  datatype Place = Place(given: int, arrival: nat, approver: int)

  predicate Before(a: Place, b: Place) {
    a.given < b.given || (a.given == b.given && a.arrival < b.arrival)
  }

  function InsertPlace(places: seq<Place>, p: Place): (out: seq<Place>)
    ensures |out| == |places| + 1 && forall q :: q in out <==> q in places || q == p
  {
    if places == [] then [p]
    else
      var n := |places| - 1;
      assert places == places[..n] + [places[n]];
      if Before(places[n], p) then places + [p] else InsertPlace(places[..n], p) + [places[n]]
  }

  ghost predicate InLine(places: seq<Place>) {
    forall i, j :: 0 <= i < j < |places| ==> Before(places[i], places[j])
  }

  lemma {:induction false} InsertInLine(places: seq<Place>, p: Place)
    requires InLine(places) && forall q :: q in places ==> Before(q, p) || Before(p, q)
    ensures InLine(InsertPlace(places, p))
  {
    if places != [] && !Before(places[|places| - 1], p) {
      var n := |places| - 1;
      InsertInLine(places[..n], p);
      var out := InsertPlace(places[..n], p);
      assert forall i :: 0 <= i < |out| ==> out[i] in places[..n] || out[i] == p;
      assert places[n] in places;
    } else if places != [] {
      var n := |places| - 1;
      assert forall i :: 0 <= i < n ==> Before(places[i], places[n]);
    }
  }

  /** Every wish got its place, nobody stands twice, and the wished order is kept. */
  ghost predicate PlannedFrom(wishes: seq<Wish>, places: seq<Place>) {
    && |places| == |wishes| && InLine(places)
    && (forall i, j :: 0 <= i < j < |places| ==> places[i].approver != places[j].approver)
    && forall p :: p in places ==>
         && p.arrival < |wishes| && wishes[p.arrival].approver == Some(p.approver)
         && p.given == GivenOf(wishes[p.arrival], p.arrival)
  }

  /** The first `k` wishes name a person each, and nobody twice. */
  ghost predicate Sound(wishes: seq<Wish>, k: nat)
    requires k <= |wishes|
  {
    && (forall i :: 0 <= i < k ==> wishes[i].approver.Some?)
    && forall i, j :: 0 <= i < j < k ==> wishes[i].approver != wishes[j].approver
  }

  /** Who wished for a smaller number signs earlier; numbers below 1 count as 1, a missing one as the place of arrival; and
      between equal ones the first to arrive signs first. */
  lemma {:induction false} WishesKept(wishes: seq<Wish>, places: seq<Place>, i: nat, j: nat)
    requires PlannedFrom(wishes, places) && i < j < |places|
    ensures var a, b := places[i].arrival, places[j].arrival;
            && a < |wishes| && b < |wishes| && wishes[a].approver == Some(places[i].approver)
            && match (wishes[a].order, wishes[b].order)
               case (None, None) => a < b
               case (Some(m), Some(n)) => m < n || (m <= 1 && n <= 1 && a < b) || (m == n && a < b)
               case (Some(m), None) => m < b + 1 || (m == b + 1 && a < b)
               case (None, Some(n)) => a + 1 < n || (a + 1 == n && a < b) || (a == 0 && n <= 1)
  {
    assert places[i] in places && places[j] in places && Before(places[i], places[j]);
  }

  function GivenOf(w: Wish, arrival: nat): int {
    var given := match w.order case Some(n) => n case None => arrival + 1;
    if given < 1 then 1 else given
  }

  /** `plan_steps`: one person after the other, numbered from 1 without gaps. */
  method PlanSteps(wishes: seq<Wish>) returns (r: Result<seq<Step>, Reason>, ghost places: seq<Place>)
    ensures r.Ok? ==>
              && |r.value| == |wishes| > 0 && Sound(wishes, |wishes|) && PlannedFrom(wishes, places)
              && forall k :: 0 <= k < |r.value| ==> r.value[k] == Step(k + 1, places[k].approver, Waiting)
    ensures r.Err? ==>
              || (r.error == EmptyLine && wishes == [])
              || (r.error == BadApprover && exists k :: 0 <= k < |wishes| && Sound(wishes, k) && wishes[k].approver == None)
              || (r.error == TwiceInLine && exists j, k :: 0 <= j < k < |wishes| && Sound(wishes, k)
                                                           && wishes[j].approver == wishes[k].approver)
  {
    places := [];
    if wishes == [] { return Err(EmptyLine), []; }
    var ordered: seq<Place> := [];
    var seen: set<int> := {};
    for k := 0 to |wishes|
      invariant |ordered| == k && InLine(ordered)
      invariant forall p :: p in ordered ==>
                  && p.arrival < k && wishes[p.arrival].approver == Some(p.approver)
                  && p.given == GivenOf(wishes[p.arrival], p.arrival)
      invariant forall a :: a in seen <==> exists j :: 0 <= j < k && wishes[j].approver == Some(a)
      invariant Sound(wishes, k)
    {
      var w := wishes[k];
      assert Sound(wishes, k);
      if w.approver.None? { return Err(BadApprover), []; }
      if w.approver.value in seen {
        ghost var a := w.approver.value;
        ghost var j :| 0 <= j < k && wishes[j].approver == Some(a);
        assert wishes[j].approver == wishes[k].approver;
        return Err(TwiceInLine), [];
      }
      seen := seen + {w.approver.value};
      var p := Place(GivenOf(w, k), k, w.approver.value);
      InsertInLine(ordered, p);
      ordered := InsertPlace(ordered, p);
    }
    places := ordered;
    ApproversDiffer(wishes, ordered);
    r := Ok(seq(|ordered|, k requires 0 <= k < |ordered| => Step(k + 1, ordered[k].approver, Waiting)));
  }

  lemma {:induction false} ApproversDiffer(wishes: seq<Wish>, places: seq<Place>)
    requires InLine(places) && forall i, j :: 0 <= i < j < |wishes| ==> wishes[i].approver != wishes[j].approver
    requires forall p :: p in places ==>
               && p.arrival < |wishes| && wishes[p.arrival].approver == Some(p.approver)
               && p.given == GivenOf(wishes[p.arrival], p.arrival)
    ensures forall i, j :: 0 <= i < j < |places| ==> places[i].approver != places[j].approver
  {
    forall i, j | 0 <= i < j < |places|
      ensures places[i].approver != places[j].approver
    {
      var a, b := places[i], places[j];
      assert a in places && b in places && Before(a, b);
      assert a.arrival != b.arrival;
      assert wishes[a.arrival].approver == Some(a.approver) && wishes[b.arrival].approver == Some(b.approver);
    }
  }

  // ---------------------------------------------------------------- the shape of a line

  /** Numbered from 1 without gaps, everybody once. */
  ghost predicate Line(steps: seq<Step>) {
    && steps != []
    && (forall i :: 0 <= i < |steps| ==> steps[i].order == i + 1)
    && forall i, j :: 0 <= i < j < |steps| ==> steps[i].approver != steps[j].approver
  }

  ghost predicate All(steps: seq<Step>, lo: nat, hi: nat, status: StepStatus) {
    forall i :: lo <= i < hi && i < |steps| ==> steps[i].status == status
  }

  /** In progress: approved so far, one pending whose turn it is, the rest waiting. */
  ghost predicate Running(r: Request, steps: seq<Step>) {
    && Line(steps) && r.status == Open && 1 <= r.current <= |steps|
    && All(steps, 0, r.current - 1, Approved) && steps[r.current - 1].status == Pending
    && All(steps, r.current, |steps|, Waiting)
  }

  /** Over: all approved; or approved so far, one rejection, the rest skipped; or approved so far and the rest skipped. */
  ghost predicate Ended(r: Request, steps: seq<Step>) {
    && Line(steps) && 1 <= r.current <= |steps|
    && match r.status
       case Open => false
       case Granted => All(steps, 0, |steps|, Approved)
       case Refused => All(steps, 0, r.current - 1, Approved) && steps[r.current - 1].status == Rejected
                       && All(steps, r.current, |steps|, Skipped)
       case Canceled => All(steps, 0, r.current - 1, Approved) && All(steps, r.current - 1, |steps|, Skipped)
  }

  // ---------------------------------------------------------------- decisions

  function Map(steps: seq<Step>, f: Step -> StepStatus): (out: seq<Step>)
    ensures |out| == |steps|
    ensures forall i :: 0 <= i < |steps| ==> out[i] == steps[i].(status := f(steps[i]))
  {
    seq(|steps|, i requires 0 <= i < |steps| => steps[i].(status := f(steps[i])))
  }

  /** The smallest order of all steps. */
  function FirstOrder(steps: seq<Step>): (first: nat)
    requires steps != []
    ensures exists i :: 0 <= i < |steps| && steps[i].order == first
    ensures forall i :: 0 <= i < |steps| ==> first <= steps[i].order
  {
    if |steps| == 1 then steps[0].order
    else
      var rest := FirstOrder(steps[1..]);
      assert forall i :: 0 < i < |steps| ==> steps[i] == steps[1..][i - 1];
      if steps[0].order < rest then steps[0].order else rest
  }

  /** `open_steps`: only the first person is asked. */
  function OpenSteps(steps: seq<Step>): (r: Result<seq<Step>, Reason>)
    ensures steps == [] <==> r.Err?
  {
    if steps == [] then Err(EmptyLine)
    else Ok(Map(steps, (s: Step) => if s.order == FirstOrder(steps) then Pending else Waiting))
  }

  lemma {:induction false} OpeningRuns(requester: int, steps: seq<Step>)
    requires Line(steps)
    ensures OpenSteps(steps).Ok? && FirstOrder(steps) == 1
    ensures Running(Request(requester, Open, FirstOrder(steps)), OpenSteps(steps).value)
  {
  }

  function FindStep(steps: seq<Step>, actor: int, onlyPending: bool): (at: Option<nat>)
    ensures at.Some? ==> at.value < |steps| && steps[at.value].approver == actor
                         && (onlyPending ==> steps[at.value].status == Pending)
    ensures at.None? ==> forall i :: 0 <= i < |steps| && steps[i].approver == actor ==>
                           onlyPending && steps[i].status != Pending
  {
    if steps == [] then None
    else if steps[0].approver == actor && (onlyPending ==> steps[0].status == Pending) then Some(0)
    else match FindStep(steps[1..], actor, onlyPending)
      case None => assert forall i :: 0 < i < |steps| ==> steps[i] == steps[1..][i - 1]; None
      case Some(k) => Some(k + 1)
  }

  /** `_step_of`: the pending step of the actor, otherwise any of theirs. */
  function StepOf(steps: seq<Step>, actor: int): (at: Option<nat>)
    ensures at.Some? ==> at.value < |steps| && steps[at.value].approver == actor
  {
    match FindStep(steps, actor, true)
    case Some(k) => Some(k)
    case None => FindStep(steps, actor, false)
  }

  /** Whoever stands on the line more than once acts on the step that is pending. */
  lemma {:induction false} StepOfSays(steps: seq<Step>, actor: int)
    ensures StepOf(steps, actor).None? <==> forall i :: 0 <= i < |steps| ==> steps[i].approver != actor
    ensures StepOf(steps, actor).Some? ==>
              (steps[StepOf(steps, actor).value].status == Pending
               <==> exists i :: 0 <= i < |steps| && steps[i].approver == actor && steps[i].status == Pending)
  {
  }

  /** The smallest order above `current`, if there is one. */
  function NextOrder(steps: seq<Step>, current: nat): (next: Option<nat>)
    ensures next.Some? ==> current < next.value && exists i :: 0 <= i < |steps| && steps[i].order == next.value
    ensures next.Some? ==> forall i :: 0 <= i < |steps| && steps[i].order > current ==> next.value <= steps[i].order
    ensures next.None? ==> forall i :: 0 <= i < |steps| ==> steps[i].order <= current
  {
    if steps == [] then None
    else
      var rest := NextOrder(steps[1..], current);
      assert forall i :: 0 < i < |steps| ==> steps[i] == steps[1..][i - 1];
      if steps[0].order <= current then rest
      else match rest
        case None => Some(steps[0].order)
        case Some(n) => Some(if steps[0].order < n then steps[0].order else n)
  }

  function SkipRest(s: Step): StepStatus {
    if s.status == Waiting || s.status == Pending then Skipped else s.status
  }

  /** May the actor act? The index of their step, or the reason why not. */
  function MayDecide<Data>(r: Request, steps: seq<Step>, actor: int, action: Action, blocks: seq<Block<Data>>):
      (at: Result<nat, Reason>)
    ensures at.Ok? ==> r.status == Open && at.value < |steps| && steps[at.value].approver == actor
                       && steps[at.value].status == Pending
                       && (action == Approve ==> UnfilledUpto(blocks, steps[at.value].order) == [])
  {
    if r.status != Open then Err(Finished)
    else match StepOf(steps, actor)
      case None => Err(NotAnApprover)
      case Some(k) =>
        if steps[k].status == Approved || steps[k].status == Rejected then Err(AlreadySigned)
        else if steps[k].status != Pending then Err(NotYourTurn)
        else if action == Approve && UnfilledUpto(blocks, steps[k].order) != [] then Err(BlocksMissing)
        else Ok(k)
  }

  /** `decide`. */
  function Decide<Data>(r: Request, steps: seq<Step>, actor: int, action: Action, blocks: seq<Block<Data>>):
      Result<(Request, seq<Step>), Reason>
  {
    match MayDecide(r, steps, actor, action, blocks)
    case Err(reason) => Err(reason)
    case Ok(k) =>
      var signed := steps[k := steps[k].(status := Signed(action))];
      if action == Reject then Ok((r.(status := Refused), Map(signed, SkipRest)))
      else match NextOrder(signed, r.current)
        case None => Ok((r.(status := Granted), signed))
        case Some(next) =>
          Ok((r.(current := next), Map(signed, (s: Step) => if s.order == next then Pending else s.status)))
  }

  /** `advance`: what the written steps say about the request, whoever wrote them. */
  function Advance(steps: seq<Step>, current: nat): (Outcome, nat) {
    if exists i :: 0 <= i < |steps| && steps[i].status == Rejected then (Refused, current)
    else if !(exists i :: 0 <= i < |steps| && steps[i].order == current)
            || exists i :: 0 <= i < |steps| && steps[i].order == current && steps[i].status != Approved then (Open, current)
    else match NextOrder(steps, current)
      case None => (Granted, current)
      case Some(next) => (Open, next)
  }

  /** `cancel`: only the requester, and only while nobody has approved. */
  function Cancel(r: Request, steps: seq<Step>, actor: int): Result<(Request, seq<Step>), Reason> {
    if r.requester != actor then Err(OnlyRequester)
    else if r.status != Open then Err(Finished)
    else if exists i :: 0 <= i < |steps| && steps[i].status == Approved then Err(AlreadyApprovedBySomeone)
    else Ok((r.(status := Canceled), Map(steps, SkipRest)))
  }

  // ---------------------------------------------------------------- what decisions keep

  /** In a running line the next order is simply one more. */
  lemma {:induction false} NextIsOneMore(steps: seq<Step>, current: nat)
    requires Line(steps) && 1 <= current <= |steps|
    ensures NextOrder(steps, current) == if current < |steps| then Some(current + 1) else None
  {
    if current < |steps| { assert steps[current].order == current + 1; }
  }

  /** The pending step is the only one that may be decided, and it is the one whose turn it is. */
  lemma {:induction false} OnlyTheTurn<Data>(r: Request, steps: seq<Step>, actor: int, action: Action, blocks: seq<Block<Data>>)
    requires Running(r, steps)
    ensures MayDecide(r, steps, actor, action, blocks).Ok? <==>
            steps[r.current - 1].approver == actor && (action == Approve ==> UnfilledUpto(blocks, r.current) == [])
    ensures MayDecide(r, steps, actor, action, blocks).Ok? ==> MayDecide(r, steps, actor, action, blocks).value == r.current - 1
  {
    hide UnfilledUpto;
    var k := r.current - 1;
    assert steps[k].order == r.current;
    assert forall i :: 0 <= i < |steps| && i != k ==> steps[i].status != Pending;
  }

  /** Who is refused, and why: a stranger, somebody whose turn is over, somebody whose turn is still to come, or the one whose
      turn it is with a form that is not filled. */
  lemma {:induction false} RefusedBecause<Data>(r: Request, steps: seq<Step>, actor: int, action: Action, blocks: seq<Block<Data>>)
    requires Line(steps) && (r.status == Open ==> Running(r, steps))
    ensures r.status != Open <==> MayDecide(r, steps, actor, action, blocks) == Err(Finished)
    ensures r.status == Open && (forall i :: 0 <= i < |steps| ==> steps[i].approver != actor) <==>
            MayDecide(r, steps, actor, action, blocks) == Err(NotAnApprover)
    ensures r.status == Open && (exists i :: 0 <= i < r.current - 1 && i < |steps| && steps[i].approver == actor) <==>
            MayDecide(r, steps, actor, action, blocks) == Err(AlreadySigned)
    ensures r.status == Open && (exists i :: r.current <= i < |steps| && steps[i].approver == actor) <==>
            MayDecide(r, steps, actor, action, blocks) == Err(NotYourTurn)
    ensures (r.status == Open && steps[r.current - 1].approver == actor && action == Approve
             && UnfilledUpto(blocks, r.current) != []) <==> MayDecide(r, steps, actor, action, blocks) == Err(BlocksMissing)
  {
    hide UnfilledUpto;
    if r.status == Open {
      assert steps[r.current - 1].order == r.current;
      var at := StepOf(steps, actor);
      assert at.None? ==> forall i :: 0 <= i < |steps| ==> steps[i].approver != actor;
      assert at.Some? ==> forall i :: 0 <= i < |steps| && steps[i].approver == actor ==> i == at.value;
    }
  }

  /** Every decision leads from a running line to a running one, one person further, or to an end. */
  lemma {:induction false} DecideKeepsShape<Data>(r: Request, steps: seq<Step>, actor: int, action: Action, blocks: seq<Block<Data>>)
    requires Running(r, steps) && Decide(r, steps, actor, action, blocks).Ok?
    ensures var (r', steps') := Decide(r, steps, actor, action, blocks).value;
            && r'.requester == r.requester && |steps'| == |steps|
            && (action == Reject ==> r'.status == Refused && r'.current == r.current && Ended(r', steps'))
            && (action == Approve && r.current < |steps| ==> r'.current == r.current + 1 && Running(r', steps'))
            && (action == Approve && r.current == |steps| ==> r'.status == Granted && Ended(r', steps'))
  {
    hide UnfilledUpto, MayDecide;
    OnlyTheTurn(r, steps, actor, action, blocks);
    var k := r.current - 1;
    var signed := steps[k := steps[k].(status := Signed(action))];
    assert Line(signed);
    if action == Reject {
      RejectEnds(r, steps);
    } else {
      NextIsOneMore(signed, r.current);
      ApproveAdvances(r, steps);
    }
  }

  lemma {:induction false} RejectEnds(r: Request, steps: seq<Step>)
    requires Running(r, steps)
    ensures var k := r.current - 1;
            Ended(r.(status := Refused), Map(steps[k := steps[k].(status := Rejected)], SkipRest))
  {
  }

  lemma {:induction false} ApproveAdvances(r: Request, steps: seq<Step>)
    requires Running(r, steps)
    ensures var k := r.current - 1; var signed := steps[k := steps[k].(status := Approved)];
            && (r.current == |steps| ==> Ended(r.(status := Granted), signed))
            && (r.current < |steps| ==>
                  Running(r.(current := r.current + 1),
                          Map(signed, (s: Step) => if s.order == r.current + 1 then Pending else s.status)))
  {
  }

  /** Nothing but the requester's own withdrawal ends a line nobody has approved, and it leaves no one asked. */
  lemma {:induction false} CancelKeepsShape(r: Request, steps: seq<Step>, actor: int)
    requires Running(r, steps)
    ensures Cancel(r, steps, actor).Ok? <==> actor == r.requester && r.current == 1
    ensures Cancel(r, steps, actor).Ok? ==>
              var (r', steps') := Cancel(r, steps, actor).value;
              r'.status == Canceled && Ended(r', steps') && All(steps', 0, |steps'|, Skipped)
  {
    if r.current > 1 { assert steps[0].status == Approved; }
    assert Cancel(r, steps, actor).Ok? ==> forall i :: 0 <= i < |steps| ==> steps[i].status != Approved;
  }

  /** Who may not withdraw, and why. */
  lemma {:induction false} WithdrawalRefused(r: Request, steps: seq<Step>, actor: int)
    requires Line(steps) && (r.status == Open ==> Running(r, steps))
    ensures actor != r.requester <==> Cancel(r, steps, actor) == Err(OnlyRequester)
    ensures actor == r.requester && r.status != Open <==> Cancel(r, steps, actor) == Err(Finished)
    ensures actor == r.requester && r.status == Open && r.current > 1 <==> Cancel(r, steps, actor) == Err(AlreadyApprovedBySomeone)
  {
    if r.status == Open { assert steps[0].status == if r.current > 1 then Approved else Pending; }
  }
}
