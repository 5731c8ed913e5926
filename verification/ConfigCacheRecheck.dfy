/** When a pod sees the writes of others (config/redis_config.py `_known_version`): a call that finds the interval over asks for
    the version, and is answered no older than that unless another thread brings back an older version. */
module ConfigCacheRecheck {
  import opened Base
  import opened ConfigCache
  import opened ConfigCacheOwn

  /** The version has to be asked for: nobody is asking, and the last time is an interval ago, or forgotten after a reconnect. */
  ghost predicate Due<Value>(c: Cache<Value>, now: int, epoch: int, limits: Limits) {
    && !c.refreshing
    && if epoch != c.epoch then now >= limits.recheck else now - c.checkedAt >= limits.recheck
  }

  /** A call asks exactly if it has to; and no entry outlives a reconnect. */
  lemma {:induction false} BeginsExactly<Value(!new)>(s: State<Value>, s': State<Value>, pod: Id, thread: Id, now: int,
                                                      limits: Limits, key: Key, epoch: int)
    requires Begins(s, s', pod, thread, now, limits, key, epoch)
    ensures var c, d := PodOf(s, pod), PodOf(s', pod);
            && PlaceOf(s', pod, thread) == (if Due(c, now, epoch, limits) then Asks(Some(key)) else Knows(key, c.version))
            && d.refreshing == (c.refreshing || Due(c, now, epoch, limits)) && d.version == c.version && d.epoch == epoch
            && d.values == (if epoch != c.epoch then map[] else c.values)
  {
  }

  // ---------------------------------------------------------------- versions come and go

  /** No version is known, or one of at least `n`. */
  ghost predicate AtLeast(version: Option<nat>, n: nat) { version.Some? ==> version.value >= n }

  /** The thread has been told a version older than `n` and has not noted it yet. */
  ghost predicate Carries<Value>(p: Place<Value>, n: nat) { p.Asked? && !AtLeast(p.found, n) }

  ghost predicate NoneCarries<Value>(s: State<Value>, pod: Id, n: nat) {
    forall t: Id :: !Carries(PlaceOf(s, pod, t), n)
  }

  /** No section changes the version but noting what was asked, and what is asked is the version of that moment. */
  ghost predicate Versions<Value>(s: State<Value>, was: Place<Value>, before: Cache<Value>, c: Cache<Value>, p: Place<Value>) {
    && (c.version == before.version || (was.Asked? && c.version == was.found))
    && (p.Asked? ==> p.found == VersionOf(s.shared))
  }

  lemma {:induction false} SectionsKeep<Value>(c: Cache<Value>, now: int, epoch: int, k: Key, version: nat, found: Option<nat>,
                                               r: Reading<Value>, limits: Limits)
    ensures Known(c, now, epoch, limits).0.version == c.version && Note(c, found, now).version == found
    ensures Refreshed(c, now).version == c.version && Forget(c).version == c.version
    ensures Lookup(c, k, version, now, limits).0.version == c.version && Remember(c, k, version, r, now, limits).version == c.version
  {
  }

  lemma {:induction false} ReadsVersions<Value(!new)>(s: State<Value>, s': State<Value>, pod: Id, thread: Id, now: int,
                                                      limits: Limits, c: Cache<Value>, p: Place<Value>)
    requires Reads(s, s', pod, thread, now, limits) && OnlyMove(s, s', pod, thread, c, p)
    ensures Versions(s, PlaceOf(s, pod, thread), PodOf(s, pod), c, p)
  {
    hide Known, Note, Refreshed, Forget, Lookup, Remember, Latest, Moves, VersionOf, PodOf;
    var was, place := PodOf(s, pod), PlaceOf(s, pod, thread);
    match place {
      case Idle =>
        BeginVersions(s, s', pod, thread, now, limits, c, p);
      case Knows(k, version) =>
        if version.Some? { SectionsKeep(was, now, 0, k, version.value, None, Reading(None, 0), limits); }
      case Has(k, version, r) =>
        if version.Some? { SectionsKeep(was, now, 0, k, version.value, None, r, limits); }
      case Asked(_, found) =>
        SectionsKeep(was, now, 0, "", 0, found, Reading(None, 0), limits);
      case _ =>
        SectionsKeep(was, now, 0, "", 0, None, Reading(None, 0), limits);
    }
  }

  lemma {:induction false} BeginVersions<Value(!new)>(s: State<Value>, s': State<Value>, pod: Id, thread: Id, now: int,
                                                      limits: Limits, c: Cache<Value>, p: Place<Value>)
    requires Reads(s, s', pod, thread, now, limits) && PlaceOf(s, pod, thread) == Idle && OnlyMove(s, s', pod, thread, c, p)
    ensures c.version == PodOf(s, pod).version && !p.Asked?
  {
    hide Known, Forget, Moves;
    var was := PodOf(s, pod);
    SectionsKeep(was, now, 0, "", 0, None, Reading(None, 0), limits);
    if !Moves(s, s', pod, thread, was, Asks(None)) && !Moves(s, s', pod, thread, Forget(was), Idle) {
      var k, epoch :| Begins(s, s', pod, thread, now, limits, k, epoch);
      SectionsKeep(was, now, epoch, k, 0, None, Reading(None, 0), limits);
    }
  }

  // ---------------------------------------------------------------- a call that has asked

  /** A call that was told a version of at least `n`, up to its answer, which reflects every write numbered up to `n`. */
  ghost predicate Informed<Value>(shared: Shared<Value>, version: Option<nat>, p: Place<Value>, key: Key, n: nat) {
    n <= |shared.numbered|
    && match p
       case Asked(wanted, found) => wanted == Some(key) && AtLeast(found, n)
       case Ends(k) => k == key && AtLeast(version, n)
       case Returns(k) => k == key && AtLeast(version, n)
       case Knows(k, v) => k == key && AtLeast(v, n)
       case Misses(k, v) => k == key && AtLeast(v, n)
       case Has(k, _, r) => k == key && Reflects(shared, key, n, r)
       case Answered(k, _, r) => k == key && Reflects(shared, key, n, r)
       case _ => false
  }

  lemma {:induction false} ReflectsLess<Value>(s: Shared<Value>, key: Key, version: nat, n: nat, r: Reading<Value>)
    requires Reflects(s, key, version, r) && n <= version
    ensures Reflects(s, key, n, r)
  {
  }

  /** The call itself goes on. */
  lemma {:induction false} OwnSection<Value(!new)>(s: State<Value>, s': State<Value>, pod: Id, thread: Id, now: int, limits: Limits,
                                                   c: Cache<Value>, p: Place<Value>, key: Key, n: nat)
    requires Inv(s) && Reads(s, s', pod, thread, now, limits) && OnlyMove(s, s', pod, thread, c, p) && p != Idle
    requires Informed(s.shared, PodOf(s, pod).version, PlaceOf(s, pod, thread), key, n)
    ensures Informed(s.shared, c.version, p, key, n)
  {
    hide Inv, CacheOk, SharedOk, Known, Note, Refreshed, Forget, Lookup, Remember, Latest, Moves, Reflects, PodOf;
    var was, place := PodOf(s, pod), PlaceOf(s, pod, thread);
    PodIsOk(s, pod, thread);
    match place {
      case Asked(_, found) =>
        SectionsKeep(was, now, 0, "", 0, found, Reading(None, 0), limits);
      case Knows(k, v) =>
        if v.Some? {
          LookupOk(s.shared, was, k, v.value, now, limits);
          var hit := Lookup(was, k, v.value, now, limits).1;
          if hit.Some? { ReflectsLess(s.shared, key, v.value, n, hit.value); }
        }
      case Misses(k, v) =>
        ReadNow(s.shared, s.writers, key, n);
      case Ends(_) =>
        SectionsKeep(was, now, 0, "", 0, None, Reading(None, 0), limits);
      case _ =>
    }
  }

  /** Others go on: the store grows, and the version of the pod does not fall below. */
  lemma {:induction false} OthersKeep<Value>(a: Shared<Value>, b: Shared<Value>, v: Option<nat>, w: Option<nat>, p: Place<Value>,
                                             key: Key, n: nat)
    requires Informed(a, v, p, key, n) && Grows(a, b) && (AtLeast(v, n) ==> AtLeast(w, n))
    ensures Informed(b, w, p, key, n)
  {
    hide Reflects;
    match p {
      case Has(_, _, r) => ReflectsLasts(a, b, key, n, r);
      case Answered(_, _, r) => ReflectsLasts(a, b, key, n, r);
      case _ =>
    }
  }

  ghost predicate Called<Value>(s: State<Value>, pod: Id, thread: Id, key: Key, n: nat) {
    NoneCarries(s, pod, n) && Informed(s.shared, PodOf(s, pod).version, PlaceOf(s, pod, thread), key, n)
  }

  lemma {:induction false} MoveKeepsCalled<Value>(s: State<Value>, s': State<Value>, pod: Id, x: Id, c: Cache<Value>, p: Place<Value>,
                                                  n: nat)
    requires NoneCarries(s, pod, n) && n <= |s.shared.numbered| && Moves(s, s', pod, x, c, p)
    requires Versions(s, PlaceOf(s, pod, x), PodOf(s, pod), c, p)
    ensures NoneCarries(s', pod, n) && (AtLeast(PodOf(s, pod).version, n) ==> AtLeast(c.version, n))
  {
    assert !Carries(PlaceOf(s, pod, x), n);
    forall t: Id
      ensures !Carries(PlaceOf(s', pod, t), n)
    {
      if t != x { assert PlaceOf(s', pod, t) == PlaceOf(s, pod, t) && !Carries(PlaceOf(s, pod, t), n); }
    }
  }

  lemma {:induction false} MovedIs<Value>(s: State<Value>, s': State<Value>, pod: Id, x: Id, c: Cache<Value>, p: Place<Value>, t: Id)
    requires Moves(s, s', pod, x, c, p)
    ensures s'.shared == s.shared && PodOf(s', pod) == c && PlaceOf(s', pod, t) == if t == x then p else PlaceOf(s, pod, t)
  {
  }

  lemma {:induction false} CalledParts<Value>(s: State<Value>, pod: Id, thread: Id, key: Key, n: nat)
    ensures Called(s, pod, thread, key, n) <==>
            NoneCarries(s, pod, n) && Informed(s.shared, PodOf(s, pod).version, PlaceOf(s, pod, thread), key, n)
    ensures Called(s, pod, thread, key, n) ==> n <= |s.shared.numbered|
  {
  }

  lemma {:induction false} UntouchedKeepsCalled<Value>(s: State<Value>, s': State<Value>, pod: Id, thread: Id, key: Key, n: nat)
    requires Called(s, pod, thread, key, n) && PodUntouched(s, s', pod)
    ensures Called(s', pod, thread, key, n)
  {
    hide Informed;
    OthersKeep(s.shared, s'.shared, PodOf(s, pod).version, PodOf(s', pod).version, PlaceOf(s, pod, thread), key, n);
    forall t: Id
      ensures !Carries(PlaceOf(s', pod, t), n)
    {
      assert PlaceOf(s', pod, t) == PlaceOf(s, pod, t) && !Carries(PlaceOf(s, pod, t), n);
    }
  }

  lemma {:induction false} NextKeepsCalled<Value(!new)>(s: State<Value>, s': State<Value>, limits: Limits, pod: Id, thread: Id,
                                                        key: Key, n: nat)
    requires Inv(s) && Next(s, s', limits) && Called(s, pod, thread, key, n) && PlaceOf(s', pod, thread) != Idle
    ensures Called(s', pod, thread, key, n)
  {
    hide *;
    var w, other, x, now := WhoseStep(s, s', limits);
    CalledParts(s, pod, thread, key, n);
    CalledParts(s', pod, thread, key, n);
    if w.Some? {
      OthersLeaveIt(s, s', w.value, pod);
      UntouchedKeepsCalled(s, s', pod, thread, key, n);
    } else {
      var c, p := AnyMove(s, s', other, x, now, limits);
      if other != pod {
        OtherPodsLeaveIt(s, s', other, x, c, p, pod);
        UntouchedKeepsCalled(s, s', pod, thread, key, n);
      } else {
        SameMove(s, s', pod, x, c, p);
        ReadsVersions(s, s', pod, x, now, limits, c, p);
        MoveKeepsCalled(s, s', pod, x, c, p, n);
        MovedIs(s, s', pod, x, c, p, thread);
        if x == thread {
          OwnSection(s, s', pod, thread, now, limits, c, p, key, n);
        } else {
          SameStore(s.shared);
          OthersKeep(s.shared, s.shared, PodOf(s, pod).version, c.version, PlaceOf(s, pod, thread), key, n);
        }
      }
    }
  }

  lemma {:induction false} SameStore<Value>(a: Shared<Value>)
    ensures Grows(a, a)
  {
  }

  lemma {:induction false} WhoseStep<Value(!new)>(s: State<Value>, s': State<Value>, limits: Limits)
    returns (w: Option<Id>, pod: Id, thread: Id, now: int)
    requires Next(s, s', limits)
    ensures if w.Some? then Writes(s, s', w.value) else Reads(s, s', pod, thread, now, limits)
  {
    hide Reads, Writes;
    w, pod, thread, now := None, 0, 0, 0;
    if exists w :: Writes(s, s', w) {
      var v :| Writes(s, s', v);
      w := Some(v);
    } else {
      pod, thread, now :| Reads(s, s', pod, thread, now, limits);
    }
  }

  /** The call lasts: the thread is at no time idle. */
  ghost predicate Busy<Value>(states: seq<State<Value>>, pod: Id, thread: Id, i: nat, j: nat)
    requires i <= j < |states|
  {
    forall k :: i <= k <= j ==> PlaceOf(states[k], pod, thread) != Idle
  }

  lemma {:induction false} CalledForGood<Value(!new)>(states: seq<State<Value>>, limits: Limits, pod: Id, thread: Id, key: Key, n: nat,
                                                      i: nat, j: nat)
    requires Run(states, limits) && i <= j < |states| && Busy(states, pod, thread, i, j)
    requires Called(states[i], pod, thread, key, n)
    ensures Called(states[j], pod, thread, key, n)
    decreases j
  {
    hide Called, Next, Inv;
    if i < j {
      CalledForGood(states, limits, pod, thread, key, n, i, j - 1);
      RunInv(states, limits, j - 1);
      NextKeepsCalled(states[j - 1], states[j], limits, pod, thread, key, n);
    }
  }

  // ---------------------------------------------------------------- from the beginning of a call

  /** What asking the store leads to: its version of that moment, or no answer. */
  ghost predicate WasAsked<Value>(s: State<Value>, s': State<Value>, pod: Id, thread: Id, key: Key) {
    && PlaceOf(s, pod, thread) == Asks(Some(key)) && s'.shared == s.shared
    && (PlaceOf(s', pod, thread) == Asked(Some(key), VersionOf(s.shared)) || PlaceOf(s', pod, thread) == Ends(key))
  }

  lemma {:induction false} AsksUntil<Value(!new)>(s: State<Value>, s': State<Value>, limits: Limits, pod: Id, thread: Id, key: Key)
    requires Next(s, s', limits) && PlaceOf(s, pod, thread) == Asks(Some(key))
    ensures PlaceOf(s', pod, thread) == PlaceOf(s, pod, thread) || WasAsked(s, s', pod, thread, key)
  {
    hide Known, Note, Refreshed, Forget, Lookup, Remember, Latest, VersionOf;
    var w, other, x, now := WhoseStep(s, s', limits);
    if w.Some? {
      WriteGrowsOnly(s, s', w.value);
    } else {
      var c, p := AnyMove(s, s', other, x, now, limits);
      assert (other, x) != (pod, thread) ==> PlaceOf(s', pod, thread) == PlaceOf(s, pod, thread);
    }
  }

  lemma {:induction false} WriteGrowsOnly<Value(!new)>(s: State<Value>, s': State<Value>, w: Id)
    requires Writes(s, s', w)
    ensures s'.pods == s.pods && s'.threads == s.threads
  {
  }

  lemma {:induction false} AsksBefore<Value(!new)>(states: seq<State<Value>>, limits: Limits, pod: Id, thread: Id, key: Key, i: nat,
                                                   j: nat) returns (m: nat)
    requires Run(states, limits) && i < j < |states|
    requires PlaceOf(states[i], pod, thread) == Asks(Some(key)) && PlaceOf(states[j], pod, thread) != Asks(Some(key))
    ensures i <= m < j && WasAsked(states[m], states[m + 1], pod, thread, key)
    decreases j - i
  {
    hide Next, WasAsked;
    AsksUntil(states[i], states[i + 1], limits, pod, thread, key);
    if PlaceOf(states[i + 1], pod, thread) == Asks(Some(key)) {
      m := AsksBefore(states, limits, pod, thread, key, i + 1, j);
    } else {
      m := i;
    }
  }

  /** What the call has been answered, by the cache or by the store. */
  ghost function AnswerOf<Value>(p: Place<Value>): Option<Reading<Value>> {
    match p
    case Answered(_, _, r) => Some(r)
    case Has(_, _, r) => Some(r)
    case _ => None
  }

  /** A call that finds the interval over asks the store before it is answered; and if the store says its version and no other
      thread of the pod is about to note an older one, the answer reflects every write numbered by then. */
  lemma {:induction false} DueIsFresh<Value(!new)>(states: seq<State<Value>>, limits: Limits, pod: Id, thread: Id, now: int, key: Key,
                                                   epoch: int, i: nat, j: nat) returns (m: nat)
    requires Run(states, limits) && i < j < |states|
    requires Begins(states[i], states[i + 1], pod, thread, now, limits, key, epoch) && Due(PodOf(states[i], pod), now, epoch, limits)
    requires Busy(states, pod, thread, i + 1, j) && AnswerOf(PlaceOf(states[j], pod, thread)).Some?
    ensures i < m < j && WasAsked(states[m], states[m + 1], pod, thread, key)
    ensures var n := |states[m].shared.numbered|;
            PlaceOf(states[m + 1], pod, thread).Asked? && NoneCarries(states[m + 1], pod, n) ==>
              Reflects(states[j].shared, key, n, AnswerOf(PlaceOf(states[j], pod, thread)).value)
  {
    hide *;
    BeginsExactly(states[i], states[i + 1], pod, thread, now, limits, key, epoch);
    NotAnswered<Value>(key);
    m := AsksBefore(states, limits, pod, thread, key, i + 1, j);
    var n := |states[m].shared.numbered|;
    AskedIs(states[m], states[m + 1], pod, thread, key);
    if PlaceOf(states[m + 1], pod, thread).Asked? && NoneCarries(states[m + 1], pod, n) {
      CalledParts(states[m + 1], pod, thread, key, n);
      BusyPart(states, pod, thread, i + 1, j, m + 1);
      CalledForGood(states, limits, pod, thread, key, n, m + 1, j);
      CalledAnswers(states[j], pod, thread, key, n);
    }
  }

  lemma {:induction false} NotAnswered<Value>(key: Key)
    ensures AnswerOf<Value>(Asks(Some(key))) == None
  {
  }

  lemma {:induction false} AskedIs<Value>(s: State<Value>, s': State<Value>, pod: Id, thread: Id, key: Key)
    requires WasAsked(s, s', pod, thread, key)
    ensures PlaceOf(s', pod, thread).Asked? ==>
              Informed(s'.shared, PodOf(s', pod).version, PlaceOf(s', pod, thread), key, |s.shared.numbered|)
  {
  }

  lemma {:induction false} BusyPart<Value>(states: seq<State<Value>>, pod: Id, thread: Id, i: nat, j: nat, m: nat)
    requires i <= m <= j < |states| && Busy(states, pod, thread, i, j)
    ensures Busy(states, pod, thread, m, j)
  {
  }

  lemma {:induction false} CalledAnswers<Value>(s: State<Value>, pod: Id, thread: Id, key: Key, n: nat)
    requires Called(s, pod, thread, key, n) && AnswerOf(PlaceOf(s, pod, thread)).Some?
    ensures Reflects(s.shared, key, n, AnswerOf(PlaceOf(s, pod, thread)).value)
  {
    hide Reflects;
  }

  // ---------------------------------------------------------------- exactly when

  /** Some continuation brings the call back with a version older than `n`. */
  ghost predicate MayComeBackOlder<Value(!new)>(states: seq<State<Value>>, limits: Limits, pod: Id, thread: Id, key: Key, n: nat) {
    exists more: seq<State<Value>> :: ComesBackOlder(states, more, limits, pod, thread, key, n)
  }

  ghost predicate ComesBackOlder<Value(!new)>(states: seq<State<Value>>, more: seq<State<Value>>, limits: Limits, pod: Id, thread: Id,
                                              key: Key, n: nat)
  {
    && states != [] && Run(states + more, limits) && Busy(states + more, pod, thread, |states| - 1, |states + more| - 1)
    && var p := PlaceOf((states + more)[|states + more| - 1], pod, thread);
    p.Knows? && !AtLeast(p.version, n)
  }

  /** A call that has just been told the version can be answered under an older one exactly if another thread of the pod is
      about to note an older one. */
  lemma {:induction false} OlderExactly<Value(!new)>(states: seq<State<Value>>, limits: Limits, pod: Id, thread: Id, key: Key)
    requires Run(states, limits)
    requires var s := states[|states| - 1]; PlaceOf(s, pod, thread) == Asked(Some(key), VersionOf(s.shared))
    ensures var s := states[|states| - 1];
            MayComeBackOlder(states, limits, pod, thread, key, |s.shared.numbered|) <==> !NoneCarries(s, pod, |s.shared.numbered|)
  {
    hide *;
    NonEmpty(states, limits);
    var s := states[|states| - 1];
    var n := |s.shared.numbered|;
    JustTold(s, pod, thread, key);
    if NoneCarries(s, pod, n) {
      CalledParts(s, pod, thread, key, n);
      NeverOlder(states, limits, pod, thread, key, n);
    } else {
      var a, wanted, f := Carrier(s, pod, n);
      var more := NotedBetween(s, limits, pod, thread, a, key, VersionOf(s.shared), wanted, f, 0);
      BackAfter(states, more, limits, pod, thread, key, n, 0);
    }
  }

  lemma {:induction false} JustTold<Value>(s: State<Value>, pod: Id, thread: Id, key: Key)
    requires PlaceOf(s, pod, thread) == Asked(Some(key), VersionOf(s.shared))
    ensures var n := |s.shared.numbered|;
            && Informed(s.shared, PodOf(s, pod).version, PlaceOf(s, pod, thread), key, n) && !Carries(PlaceOf(s, pod, thread), n)
  {
  }

  lemma {:induction false} Carrier<Value>(s: State<Value>, pod: Id, n: nat) returns (a: Id, wanted: Option<Key>, f: nat)
    requires !NoneCarries(s, pod, n)
    ensures PlaceOf(s, pod, a) == Asked(wanted, Some(f)) && f < n && Carries(PlaceOf(s, pod, a), n)
  {
    a :| Carries(PlaceOf(s, pod, a), n);
    wanted, f := PlaceOf(s, pod, a).wanted, PlaceOf(s, pod, a).found.value;
  }

  lemma {:induction false} NeverOlder<Value(!new)>(states: seq<State<Value>>, limits: Limits, pod: Id, thread: Id, key: Key, n: nat)
    requires states != [] && Called(states[|states| - 1], pod, thread, key, n)
    ensures !MayComeBackOlder(states, limits, pod, thread, key, n)
  {
    hide Run, Called, Busy, PlaceOf;
    forall more: seq<State<Value>>
      ensures !ComesBackOlder(states, more, limits, pod, thread, key, n)
    {
      var all := states + more;
      if Run(all, limits) && Busy(all, pod, thread, |states| - 1, |all| - 1) {
        assert all[|states| - 1] == states[|states| - 1];
        CalledForGood(all, limits, pod, thread, key, n, |states| - 1, |all| - 1);
        CalledKnows(all[|all| - 1], pod, thread, key, n);
      }
    }
  }

  lemma {:induction false} CalledKnows<Value>(s: State<Value>, pod: Id, thread: Id, key: Key, n: nat)
    requires Called(s, pod, thread, key, n)
    ensures PlaceOf(s, pod, thread).Knows? ==> AtLeast(PlaceOf(s, pod, thread).version, n)
  {
  }

  /** The thread is in its call all along. */
  ghost predicate AllBusy<Value>(states: seq<State<Value>>, pod: Id, thread: Id) {
    forall k :: 0 <= k < |states| ==> PlaceOf(states[k], pod, thread) != Idle
  }

  lemma {:induction false} StepEnds<Value(!new)>(s: State<Value>, s': State<Value>, pod: Id, thread: Id, now: int, limits: Limits,
                                                 key: Key)
    requires PlaceOf(s, pod, thread) == Ends(key) && Moves(s, s', pod, thread, Refreshed(PodOf(s, pod), now), Returns(key))
    ensures SomeReads(s, s', pod, now, limits)
  {
    hide Refreshed, Moves;
    assert Reads(s, s', pod, thread, now, limits);
  }

  lemma {:induction false} StepReturns<Value(!new)>(s: State<Value>, s': State<Value>, pod: Id, thread: Id, now: int, limits: Limits,
                                                    key: Key)
    requires PlaceOf(s, pod, thread) == Returns(key)
    requires Moves(s, s', pod, thread, PodOf(s, pod), Knows(key, PodOf(s, pod).version))
    ensures SomeReads(s, s', pod, now, limits)
  {
    hide Moves;
    assert Reads(s, s', pod, thread, now, limits);
  }

  /** Both threads note what they were told, the other one last. */
  lemma {:induction false} BothNote<Value(!new)>(s: State<Value>, limits: Limits, pod: Id, thread: Id, a: Id, key: Key,
                                                 found: Option<nat>, wanted: Option<Key>, f: nat, now: int)
    returns (t: State<Value>, u: State<Value>)
    requires PlaceOf(s, pod, thread) == Asked(Some(key), found) && PlaceOf(s, pod, a) == Asked(wanted, Some(f)) && a != thread
    ensures SomeReads(s, t, pod, now, limits) && SomeReads(t, u, pod, now, limits)
    ensures PlaceOf(t, pod, thread) == Ends(key) == PlaceOf(u, pod, thread) && PodOf(u, pod).version == Some(f)
    ensures u.shared == s.shared && forall x: Id :: x != thread && x != a ==> PlaceOf(u, pod, x) == PlaceOf(s, pod, x)
  {
    hide *;
    var c := Note(PodOf(s, pod), found, now);
    t := After(s, pod, thread, c, Ends(key));
    AfterIs(s, pod, thread, c, Ends(key));
    StepNotes(s, t, pod, thread, now, limits, Some(key), found);
    var p: Place<Value> := if wanted.Some? then Ends(wanted.value) else Idle;
    var d := Note(c, Some(f), now);
    u := After(t, pod, a, d, p);
    AfterIs(t, pod, a, d, p);
    StepNotes(t, u, pod, a, now, limits, wanted, Some(f));
    NoteIs(c, Some(f), now);
    SharedAfter(s, pod, thread, c, Ends(key));
    SharedAfter(t, pod, a, d, p);
  }

  lemma {:induction false} SharedAfter<Value>(s: State<Value>, pod: Id, thread: Id, c: Cache<Value>, p: Place<Value>)
    ensures After(s, pod, thread, c, p).shared == s.shared
  {
  }

  /** The call comes back with what the pod is at. */
  lemma {:induction false} ComesBack<Value(!new)>(s: State<Value>, limits: Limits, pod: Id, thread: Id, key: Key, f: nat, now: int)
    returns (t: State<Value>, u: State<Value>)
    requires PlaceOf(s, pod, thread) == Ends(key) && PodOf(s, pod).version == Some(f)
    ensures SomeReads(s, t, pod, now, limits) && SomeReads(t, u, pod, now, limits)
    ensures PlaceOf(t, pod, thread) == Returns(key) && PlaceOf(u, pod, thread) == Knows(key, Some(f))
    ensures PodOf(u, pod) == Refreshed(PodOf(s, pod), now) && u.shared == s.shared
  {
    hide *;
    var c := Refreshed(PodOf(s, pod), now);
    SectionsKeep(PodOf(s, pod), now, 0, "", 0, None, Reading(None, 0), limits);
    t := After(s, pod, thread, c, Returns(key));
    AfterIs(s, pod, thread, c, Returns(key));
    StepEnds(s, t, pod, thread, now, limits, key);
    u := After(t, pod, thread, c, Knows(key, Some(f)));
    AfterIs(t, pod, thread, c, Knows(key, Some(f)));
    StepReturns(t, u, pod, thread, now, limits, key);
    SharedAfter(s, pod, thread, c, Returns(key));
    SharedAfter(t, pod, thread, c, Knows(key, Some(f)));
  }

  lemma {:induction false} NotedBetween<Value(!new)>(s: State<Value>, limits: Limits, pod: Id, thread: Id, a: Id, key: Key,
                                                     found: Option<nat>, wanted: Option<Key>, f: nat, now: int)
    returns (more: seq<State<Value>>)
    requires PlaceOf(s, pod, thread) == Asked(Some(key), found) && PlaceOf(s, pod, a) == Asked(wanted, Some(f)) && a != thread
    ensures more != [] && more[0] == s && InOnePod(more, pod, now, limits) && AllBusy(more, pod, thread)
    ensures PlaceOf(more[|more| - 1], pod, thread) == Knows(key, Some(f))
  {
    hide SomeReads, PlaceOf, PodOf;
    var t, u := BothNote(s, limits, pod, thread, a, key, found, wanted, f, now);
    var v, w := ComesBack(u, limits, pod, thread, key, f, now);
    more := [s, t, u, v, w];
    FourSteps(s, t, u, v, w, pod, now, limits);
  }

  lemma {:induction false} RunAfter<Value(!new)>(states: seq<State<Value>>, more: seq<State<Value>>, limits: Limits, pod: Id, now: int)
    requires Run(states, limits) && more != [] && more[0] == states[|states| - 1] && InOnePod(more, pod, now, limits)
    ensures Run(states + more[1..], limits)
  {
    hide Next, Initial, SomeReads;
    var all := states + more[1..];
    forall i, j | 0 <= i && j == i + 1 && j < |all|
      ensures Next(all[i], all[j], limits)
    {
      if j < |states| {
        assert all[i] == states[i] && all[j] == states[j];
      } else {
        var k := i - |states| + 1;
        assert all[i] == more[k] && all[j] == more[k + 1];
        assert SomeReads(more[k], more[k + 1], pod, now, limits);
        SomeReadsIsNext(more[k], more[k + 1], pod, now, limits);
      }
    }
  }

  lemma {:induction false} BackAfter<Value(!new)>(states: seq<State<Value>>, more: seq<State<Value>>, limits: Limits, pod: Id,
                                                  thread: Id, key: Key, n: nat, now: int)
    requires Run(states, limits) && more != [] && more[0] == states[|states| - 1] && InOnePod(more, pod, now, limits)
    requires AllBusy(more, pod, thread)
    requires var p := PlaceOf(more[|more| - 1], pod, thread); p.Knows? && !AtLeast(p.version, n)
    ensures MayComeBackOlder(states, limits, pod, thread, key, n)
  {
    NonEmpty(states, limits);
    hide Run, InOnePod, PlaceOf, AtLeast;
    RunAfter(states, more, limits, pod, now);
    var rest := more[1..];
    var all := states + rest;
    assert all[|all| - 1] == more[|more| - 1];
    forall k | |states| - 1 <= k <= |all| - 1
      ensures PlaceOf(all[k], pod, thread) != Idle
    {
      assert all[k] == more[k - (|states| - 1)];
    }
    assert ComesBackOlder(states, rest, limits, pod, thread, key, n);
  }

  // ---------------------------------------------------------------- an older answer

  /** If a further thread still holds a reading of that older version, it can become the answer. */
  lemma {:induction false} AnsweredBetween<Value(!new)>(s: State<Value>, limits: Limits, pod: Id, thread: Id, a: Id, h: Id, key: Key,
                                                        found: Option<nat>, wanted: Option<Key>, f: nat, r: Reading<Value>, now: int)
    returns (more: seq<State<Value>>)
    requires PlaceOf(s, pod, thread) == Asked(Some(key), found) && PlaceOf(s, pod, a) == Asked(wanted, Some(f)) && a != thread
    requires PlaceOf(s, pod, h) == Has(key, Some(f), r) && limits.maxAge > 0
    ensures more != [] && more[0] == s && InOnePod(more, pod, now, limits) && AllBusy(more, pod, thread)
    ensures PlaceOf(more[|more| - 1], pod, thread) == Answered(key, f, r) && more[|more| - 1].shared == s.shared
  {
    hide *;
    var t, u := BothNote(s, limits, pod, thread, a, key, found, wanted, f, now);
    var c := Remember(PodOf(u, pod), key, f, r, now, limits);
    SectionsKeep(PodOf(u, pod), now, 0, key, f, None, r, limits);
    var v := After(u, pod, h, c, Idle);
    AfterIs(u, pod, h, c, Idle);
    SharedAfter(u, pod, h, c, Idle);
    StepRemembers(u, v, pod, h, now, limits, key, f, r);
    var w, x := ComesBack(v, limits, pod, thread, key, f, now);
    RememberedIsFound(PodOf(u, pod), key, f, r, now, limits);
    var y := After(x, pod, thread, PodOf(x, pod), Answered(key, f, r));
    AfterIs(x, pod, thread, PodOf(x, pod), Answered(key, f, r));
    SharedAfter(x, pod, thread, PodOf(x, pod), Answered(key, f, r));
    StepAnswers(x, y, pod, thread, now, limits, key, f, r);
    more := [s, t, u, v, w, x, y];
    SixSteps(s, t, u, v, w, x, y, pod, thread, now, limits);
  }

  lemma {:induction false} RememberedIsFound<Value>(c: Cache<Value>, key: Key, f: nat, r: Reading<Value>, now: int, limits: Limits)
    requires c.version == Some(f) && limits.maxAge > 0
    ensures var d := Refreshed(Remember(c, key, f, r, now, limits), now); Lookup(d, key, f, now, limits) == (d, Some(r))
  {
  }

  lemma {:induction false} SixSteps<Value(!new)>(s: State<Value>, t: State<Value>, u: State<Value>, v: State<Value>, w: State<Value>,
                                                 x: State<Value>, y: State<Value>, pod: Id, thread: Id, now: int, limits: Limits)
    requires SomeReads(s, t, pod, now, limits) && SomeReads(t, u, pod, now, limits) && SomeReads(u, v, pod, now, limits)
    requires SomeReads(v, w, pod, now, limits) && SomeReads(w, x, pod, now, limits) && SomeReads(x, y, pod, now, limits)
    requires PlaceOf(s, pod, thread) != Idle && PlaceOf(t, pod, thread) != Idle && PlaceOf(u, pod, thread) != Idle
    requires PlaceOf(v, pod, thread) != Idle && PlaceOf(w, pod, thread) != Idle && PlaceOf(x, pod, thread) != Idle
    requires PlaceOf(y, pod, thread) != Idle
    ensures InOnePod([s, t, u, v, w, x, y], pod, now, limits) && AllBusy([s, t, u, v, w, x, y], pod, thread)
  {
    hide SomeReads, PlaceOf;
  }

  // ---------------------------------------------------------------- such a run

  ghost function Three(p: Place<int>, q: Place<int>): Threads { map[(0, 0) := OldHeld(), (0, 3) := p, (0, 1) := q] }

  ghost function Asking(): Cache<int> { Cache(map[], Some(1), 1, true, 0) }

  /** Thread 0 holds a reading of version 1. Thread 3 is told version 1; the second write completes; thread 1 finds the interval
      over, asks, and is told version 2. */
  ghost function Overtaken(): seq<State<int>> {
    [At(First(), Quiet, Fresh(), map[(0, 0) := OldHeld(), (0, 3) := Asks(None)]),
     At(First(), Quiet, Fresh(), map[(0, 0) := OldHeld(), (0, 3) := Asked(None, Some(1))]),
     At(Shared(Second().log, [1]), Wrote(1), Fresh(), map[(0, 0) := OldHeld(), (0, 3) := Asked(None, Some(1))]),
     At(Second(), Quiet, Fresh(), map[(0, 0) := OldHeld(), (0, 3) := Asked(None, Some(1))]),
     At(Second(), Quiet, Asking(), Three(Asked(None, Some(1)), Asks(Some(KEY)))),
     At(Second(), Quiet, Asking(), Three(Asked(None, Some(1)), Asked(Some(KEY), Some(2))))]
  }

  lemma {:induction false} ThreadThreeAsks()
    ensures ByThread(Warming()[9], Overtaken()[0], 3, 2) && ByThread(Overtaken()[0], Overtaken()[1], 3, 2)
  {
    var s, t, u := Warming()[9], Overtaken()[0], Overtaken()[1];
    assert Moves(s, t, 0, 3, PodOf(s, 0), Asks(None));
    assert Moves(t, u, 0, 3, PodOf(t, 0), Asked(None, VersionOf(t.shared)));
  }

  lemma {:induction false} WriteOvertakes()
    ensures Writes(Overtaken()[1], Overtaken()[2], 0) && Writes(Overtaken()[2], Overtaken()[3], 0)
  {
    var s, t, u := Overtaken()[1], Overtaken()[2], Overtaken()[3];
    var write := Write(KEY, Some(2));
    assert t == s.(shared := s.shared.(log := s.shared.log + [write]), writers := s.writers[0 := Wrote(|s.shared.log|)]);
    assert u == t.(shared := t.shared.(numbered := t.shared.numbered + [2]), writers := t.writers[0 := Quiet]);
  }

  lemma {:induction false} DueThreadAsks()
    ensures Begins(Overtaken()[3], Overtaken()[4], 0, 1, 100, LIMITS, KEY, 0) && Due(PodOf(Overtaken()[3], 0), 100, 0, LIMITS)
    ensures ByThread(Overtaken()[3], Overtaken()[4], 1, 100) && ByThread(Overtaken()[4], Overtaken()[5], 1, 100)
  {
    var t, u := Overtaken()[4], Overtaken()[5];
    assert Begins(Overtaken()[3], t, 0, 1, 100, LIMITS, KEY, 0);
    assert Moves(t, u, 0, 1, PodOf(t, 0), Asked(Some(KEY), VersionOf(t.shared)));
  }

  lemma {:induction false} OvertakenRuns()
    ensures Run(Warming() + Overtaken(), LIMITS)
  {
    WarmingRuns();
    ThreadThreeAsks();
    WriteOvertakes();
    DueThreadAsks();
    var states := Overtaken();
    hide Next, Writes, ByThread, Run;
    ThreadSteps(Warming()[9], states[0], 3, 2);
    ThreadSteps(states[0], states[1], 3, 2);
    WriterSteps(states[1], states[2]);
    WriterSteps(states[2], states[3]);
    ThreadSteps(states[3], states[4], 1, 100);
    ThreadSteps(states[4], states[5], 1, 100);
    JoinedRuns(Warming(), states);
  }

  /** A run in which a call that found the interval over asks the store, is told version 2, and is answered from the cache with
      the value from before the write of that number. */
  lemma {:induction false} OlderIsAnswered() returns (states: seq<State<int>>)
    ensures |states| > 16 && states[..16] == Warming() + Overtaken() && Run(states, LIMITS)
    ensures Begins(states[13], states[14], 0, 1, 100, LIMITS, KEY, 0) && Due(PodOf(states[13], 0), 100, 0, LIMITS)
    ensures PlaceOf(states[15], 0, 1) == Asked(Some(KEY), Some(2)) && Busy(states, 0, 1, 14, |states| - 1)
    ensures var last := states[|states| - 1];
            && PlaceOf(last, 0, 1) == Answered(KEY, 1, OldReading()) && OldReading().value == Some(1)
            && Latest(last.shared.log, KEY) == Some(2) && last.shared.numbered == [1, 2]
  {
    hide *;
    OvertakenRuns();
    DueThreadAsks();
    OvertakenEnds();
    var front := Warming() + Overtaken();
    var more := AnsweredBetween(front[15], LIMITS, 0, 1, 3, 0, KEY, Some(2), None, 1, OldReading(), 100);
    RunAfter(front, more, LIMITS, 0, 100);
    states := front + more[1..];
    BusyBehind(front, more, 0, 1);
  }

  lemma {:induction false} OvertakenEnds()
    ensures |Overtaken()| == 6 && LIMITS.maxAge > 0 && OldReading().value == Some(1)
    ensures var front := Warming() + Overtaken();
            && |front| == 16 && front[13] == Overtaken()[3] && front[14] == Overtaken()[4] && front[15] == Overtaken()[5]
    ensures PlaceOf(Overtaken()[4], 0, 1) == Asks(Some(KEY))
    ensures var s := Overtaken()[5];
            && PlaceOf(s, 0, 1) == Asked(Some(KEY), Some(2)) && PlaceOf(s, 0, 3) == Asked(None, Some(1))
            && PlaceOf(s, 0, 0) == Has(KEY, Some(1), OldReading())
            && Latest(s.shared.log, KEY) == Some(2) && s.shared.numbered == [1, 2]
  {
  }

  lemma {:induction false} BusyBehind(front: seq<State<int>>, more: seq<State<int>>, pod: Id, thread: Id)
    requires |front| == 16 && |more| > 1 && more[0] == front[15] && AllBusy(more, pod, thread)
    requires PlaceOf(front[14], pod, thread) != Idle
    ensures Busy(front + more[1..], pod, thread, 14, |front + more[1..]| - 1)
  {
    hide PlaceOf;
    var all := front + more[1..];
    forall k | 14 <= k <= |all| - 1
      ensures PlaceOf(all[k], pod, thread) != Idle
    {
      if k >= 15 { assert all[k] == more[k - 15]; }
    }
  }
}
