/** Settling a decided request once (approval/store.py `_claim_apply`, `finish`): workers claim it for a time before they
    run the hooks. Times are numbers; `lease` is how long a claim is respected. */
module ApprovalSettlement {
  import opened Base

  type Worker = nat

  /** A worker between its statements: it has taken a time stamp, or it runs the hooks under a claim. */
  datatype Doing = Nothing | Stamped(at: int) | Running(claim: int)

  /** The request row, the shared clock, the workers, and the stamps of all successful claims so far. */
  datatype State = State(claimed: Option<int>, applied: bool, now: int, workers: map<Worker, Doing>, claims: seq<int>)

  function DoingOf(s: State, w: Worker): Doing {
    if w in s.workers then s.workers[w] else Nothing
  }

  /** `UPDATE … SET apply_claimed_at = stamp WHERE applied_at IS NULL AND (apply_claimed_at IS NULL OR
      apply_claimed_at < stamp - lease)`. */
  predicate ClaimWins(s: State, stamp: int, lease: nat) {
    !s.applied && (s.claimed.None? || s.claimed.value < stamp - lease)
  }

  /** The clock goes on; a worker takes its stamp, claims, finishes, or dies. */
  ghost predicate Next(s: State, s': State, lease: nat) {
    || (s.now <= s'.now && s' == s.(now := s'.now))
    || exists w :: Works(s, s', w, lease)
  }

  ghost predicate Works(s: State, s': State, w: Worker, lease: nat) {
    || s' == s.(workers := s.workers[w := Nothing])
    || (match DoingOf(s, w)
        case Nothing => s' == s.(workers := s.workers[w := Stamped(s.now)])
        case Stamped(at) =>
          if ClaimWins(s, at, lease) then
            s' == s.(claimed := Some(at), workers := s.workers[w := Running(at)], claims := s.claims + [at])
          else s' == s.(workers := s.workers[w := Nothing])
        case Running(_) => s' == s.(applied := true, workers := s.workers[w := Nothing]))
  }

  ghost predicate Initial(s: State) {
    s.claimed == None && !s.applied && s.workers == map[] && s.claims == []
  }

  ghost predicate Run(states: seq<State>, lease: nat) {
    states != [] && Initial(states[0])
    && forall i, j :: 0 <= i && j == i + 1 && j < |states| ==> Next(states[i], states[j], lease)
  }

  // ---------------------------------------------------------------- claims keep their distance

  /** Stamps never lie in the future; the row holds the last claim; claims are more than the lease apart. */
  ghost predicate Inv(s: State, lease: nat) {
    && (s.claimed == if s.claims == [] then None else Some(s.claims[|s.claims| - 1]))
    && (forall i, j :: 0 <= i < j < |s.claims| ==> s.claims[i] + lease < s.claims[j])
    && (forall k :: 0 <= k < |s.claims| ==> s.claims[k] <= s.now)
    && (forall w :: w in s.workers && s.workers[w].Stamped? ==> s.workers[w].at <= s.now)
    && (forall w :: w in s.workers && s.workers[w].Running? ==> s.workers[w].claim in s.claims)
  }

  lemma {:induction false} ClaimInv(s: State, s': State, w: Worker, at: int, lease: nat)
    requires Inv(s, lease) && DoingOf(s, w) == Stamped(at) && ClaimWins(s, at, lease)
    requires s' == s.(claimed := Some(at), workers := s.workers[w := Running(at)], claims := s.claims + [at])
    ensures Inv(s', lease)
  {
    var n := |s.claims|;
    forall i | 0 <= i < n
      ensures s.claims[i] + lease < at
    {
      assert s.claims[n - 1] + lease < at;
      assert i < n - 1 ==> s.claims[i] + lease < s.claims[n - 1];
    }
    assert at in s'.claims && forall c :: c in s.claims ==> c in s'.claims;
  }

  /** Every other step of a worker changes only what that worker is doing, or settles the request. */
  lemma {:induction false} OtherInv(s: State, s': State, w: Worker, doing: Doing, lease: nat)
    requires Inv(s, lease) && (doing == Nothing || doing == Stamped(s.now))
    requires s' == s.(applied := s'.applied, workers := s.workers[w := doing])
    ensures Inv(s', lease)
  {
  }

  lemma {:induction false} ClockInv(s: State, s': State, lease: nat)
    requires Inv(s, lease) && s.now <= s'.now && s' == s.(now := s'.now)
    ensures Inv(s', lease)
  {
  }

  lemma {:induction false} NextInv(s: State, s': State, lease: nat)
    requires Inv(s, lease) && Next(s, s', lease)
    ensures Inv(s', lease)
    ensures s.claims <= s'.claims && (s.applied ==> s'.applied && s'.claims == s.claims)
  {
    hide Inv;
    if s.now <= s'.now && s' == s.(now := s'.now) {
      ClockInv(s, s', lease);
    } else {
      var w :| Works(s, s', w, lease);
      if DoingOf(s, w).Stamped? && s'.claims != s.claims {
        ClaimInv(s, s', w, DoingOf(s, w).at, lease);
      } else {
        OtherInv(s, s', w, if s'.workers[w] == Stamped(s.now) then Stamped(s.now) else Nothing, lease);
      }
    }
  }

  lemma {:induction false} RunInv(states: seq<State>, lease: nat, i: nat)
    requires Run(states, lease) && i < |states|
    ensures Inv(states[i], lease)
    decreases i
  {
    hide Inv, Next;
    if i == 0 {
      InitialInv(states[0], lease);
    } else {
      RunInv(states, lease, i - 1);
      NextInv(states[i - 1], states[i], lease);
    }
  }

  lemma {:induction false} InitialInv(s: State, lease: nat)
    requires Initial(s)
    ensures Inv(s, lease)
  {
  }

  /** With any number of workers: successful claims on one request are more than the lease apart. */
  lemma {:induction false} ClaimsAreApart(states: seq<State>, lease: nat, i: nat, j: nat, k: nat)
    requires Run(states, lease) && i < |states| && j < k < |states[i].claims|
    ensures states[i].claims[j] + lease < states[i].claims[k]
  {
    RunInv(states, lease, i);
    hide Run;
  }

  /** None succeeds once the request is settled. */
  lemma {:induction false} NoneAfterSettling(states: seq<State>, lease: nat, i: nat, j: nat)
    requires Run(states, lease) && i <= j < |states| && states[i].applied
    ensures states[j].applied && states[j].claims == states[i].claims
    decreases j
  {
    hide Inv, Next;
    if i < j {
      NoneAfterSettling(states, lease, i, j - 1);
      RunInv(states, lease, j - 1);
      NextInv(states[j - 1], states[j], lease);
    }
  }

  // ---------------------------------------------------------------- hooks run once

  /** Nobody dies under a claim, and whoever runs the hooks settles within the lease. */
  ghost predicate Prompt(s: State, s': State, lease: nat) {
    && (forall w :: w in s.workers && s.workers[w].Running? && !s'.applied ==> w in s'.workers && s'.workers[w] == s.workers[w])
    && (forall w :: w in s'.workers && s'.workers[w].Running? ==> s'.now <= s'.workers[w].claim + lease)
  }

  ghost predicate Timely(states: seq<State>, lease: nat) {
    forall i, j :: 0 <= i && j == i + 1 && j < |states| ==> Prompt(states[i], states[j], lease)
  }

  /** Until the request is settled there is at most one claim, and its worker is still at it. */
  ghost predicate Single(s: State) {
    |s.claims| <= 1 && (|s.claims| == 1 && !s.applied ==> exists w :: w in s.workers && s.workers[w] == Running(s.claims[0]))
  }

  lemma {:induction false} PromptSingle(s: State, s': State, lease: nat)
    requires Inv(s, lease) && Single(s) && Next(s, s', lease) && Prompt(s, s', lease)
    ensures Single(s')
  {
    if |s.claims| == 1 && !s.applied {
      var w :| w in s.workers && s.workers[w] == Running(s.claims[0]);
      if !s'.applied {
        assert s'.workers[w] == s.workers[w] && s'.now <= s.claims[0] + lease;
        NoClaimWins(s, s', lease);
      } else {
        SettledClaims(s, s', lease);
      }
    } else if s.claims == [] {
      FirstClaim(s, s', lease);
    } else {
      NextInv(s, s', lease);
    }
  }

  /** While the lease of the last claim lasts, no claim succeeds. */
  lemma {:induction false} NoClaimWins(s: State, s': State, lease: nat)
    requires Inv(s, lease) && Next(s, s', lease) && |s.claims| == 1 && s'.now <= s.claims[0] + lease
    ensures s'.claims == s.claims
  {
  }

  lemma {:induction false} SettledClaims(s: State, s': State, lease: nat)
    requires Next(s, s', lease) && !s.applied && s'.applied
    ensures s'.claims == s.claims
  {
  }

  lemma {:induction false} FirstClaim(s: State, s': State, lease: nat)
    requires Next(s, s', lease) && s.claims == []
    ensures Single(s')
  {
    if s'.claims != [] {
      var w :| Works(s, s', w, lease);
      assert s'.workers[w] == Running(s'.claims[0]);
    }
  }

  /** If every run of the hooks settles within the lease, the hooks of a request run at most once. */
  lemma {:induction false} HooksRunOnce(states: seq<State>, lease: nat, i: nat)
    requires Run(states, lease) && Timely(states, lease) && i < |states|
    ensures |states[i].claims| <= 1
  {
    StaysSingle(states, lease, i);
  }

  lemma {:induction false} StaysSingle(states: seq<State>, lease: nat, i: nat)
    requires Run(states, lease) && Timely(states, lease) && i < |states|
    ensures Single(states[i])
    decreases i
  {
    hide Inv, Next, Prompt;
    if i > 0 {
      StaysSingle(states, lease, i - 1);
      RunInv(states, lease, i - 1);
      PromptSingle(states[i - 1], states[i], lease);
    }
  }
}
