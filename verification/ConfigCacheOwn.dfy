/** When a pod sees its own write (config/redis_config.py `set_config`, `forget_cached_values`): after forgetting, at once and
    for good exactly if no thread of the pod holds an older reading that it may still remember. */
module ConfigCacheOwn {
  import opened Base
  import opened ConfigCache

  /** What the pod remembers under the name, and what it is answering, is newer than the write at `position`. */
  ghost predicate NothingOld<Value>(s: State<Value>, pod: Id, key: Key, position: nat) {
    && position < |s.shared.log|
    && Newer(PodOf(s, pod), key, position)
    && forall thread: Id :: !StaleAnswer(PlaceOf(s, pod, thread), key, position)
  }

  ghost predicate Newer<Value>(c: Cache<Value>, key: Key, position: nat) {
    key in c.values ==> position < c.values[key].reading.readAt
  }

  /** An answer from the cache that is older than the write. */
  ghost predicate StaleAnswer<Value>(p: Place<Value>, key: Key, position: nat) {
    p.Answered? && p.key == key && p.reading.readAt <= position
  }

  /** A reading older than the write, to be remembered under version `v`. */
  ghost predicate HoldsOld<Value>(p: Place<Value>, key: Key, position: nat, v: nat) {
    p.Has? && p.key == key && p.version == Some(v) && p.reading.readAt <= position
  }

  /** The pod is at version `v`, or some thread of it has just been told so. */
  ghost predicate MayBeAt<Value>(s: State<Value>, pod: Id, v: nat) {
    PodOf(s, pod).version == Some(v) || exists thread: Id :: Told(PlaceOf(s, pod, thread), v)
  }

  ghost predicate Told<Value>(p: Place<Value>, v: nat) {
    p.Asked? && p.found == Some(v)
  }

  /** Some thread can still remember an older reading. */
  ghost predicate Threatened<Value>(s: State<Value>, pod: Id, key: Key, position: nat) {
    exists thread: Id, v: nat :: HoldsOld(PlaceOf(s, pod, thread), key, position, v) && MayBeAt(s, pod, v)
  }

  /** The write is numbered, nothing old is to be had from the pod, and nothing old can come in. */
  ghost predicate Secure<Value>(s: State<Value>, pod: Id, key: Key, position: nat) {
    Numbered(s.shared, position) && NothingOld(s, pod, key, position) && !Threatened(s, pod, key, position)
  }

  // ---------------------------------------------------------------- forgetting

  /** `forget_cached_values` leaves nothing old in the pod, but for answers that are already on their way. */
  lemma {:induction false} ForgettingClears<Value>(s: State<Value>, s': State<Value>, pod: Id, thread: Id, key: Key, position: nat)
    requires position < |s.shared.log| && forall t: Id :: !StaleAnswer(PlaceOf(s, pod, t), key, position)
    requires Moves(s, s', pod, thread, Forget(PodOf(s, pod)), Idle)
    ensures NothingOld(s', pod, key, position)
  {
    forall t: Id
      ensures !StaleAnswer(PlaceOf(s', pod, t), key, position)
    {
      assert t != thread ==> PlaceOf(s', pod, t) == PlaceOf(s, pod, t);
    }
  }

  // ---------------------------------------------------------------- nothing old comes in

  /** No section but the last puts anything into a cache, and only noting changes its version. */
  lemma {:induction false} SectionsNewer<Value>(c: Cache<Value>, now: int, epoch: int, k: Key, version: nat, found: Option<nat>,
                                                limits: Limits, key: Key, position: nat)
    requires Newer(c, key, position)
    ensures Newer(Known(c, now, epoch, limits).0, key, position) && Known(c, now, epoch, limits).0.version == c.version
    ensures Newer(Note(c, found, now), key, position) && Note(c, found, now).version == found
    ensures Newer(Refreshed(c, now), key, position) && Refreshed(c, now).version == c.version
    ensures Newer(Forget(c), key, position) && Forget(c).version == c.version
    ensures Newer(Lookup(c, k, version, now, limits).0, key, position) && Lookup(c, k, version, now, limits).0.version == c.version
    ensures var hit := Lookup(c, k, version, now, limits).1; hit.Some? && k == key ==> position < hit.value.readAt
  {
  }

  lemma {:induction false} RememberNewer<Value>(c: Cache<Value>, k: Key, version: nat, reading: Reading<Value>, now: int,
                                                limits: Limits, key: Key, position: nat)
    requires Newer(c, key, position) && (k == key && c.version == Some(version) ==> position < reading.readAt)
    ensures var d := Remember(c, k, version, reading, now, limits); Newer(d, key, position) && d.version == c.version
  {
  }

  /** What one section of a thread may do to its pod and to itself. */
  ghost predicate Harmless<Value>(s: State<Value>, was: Place<Value>, before: Cache<Value>, c: Cache<Value>, p: Place<Value>,
                                  key: Key, position: nat)
  {
    && Newer(c, key, position) && !StaleAnswer(p, key, position)
    && (p.Has? ==> position < p.reading.readAt)
    && (c.version == before.version || (was.Asked? && c.version == was.found))
    && (p.Asked? ==> p.found == VersionOf(s.shared))
  }

  /** A thread may remember what it holds. */
  ghost predicate MayRemember<Value>(c: Cache<Value>, p: Place<Value>, key: Key, position: nat) {
    p.Has? && p.key == key && p.version.Some? && p.version == c.version ==> position < p.reading.readAt
  }

  lemma {:induction false} SectionIsHarmless<Value(!new)>(s: State<Value>, s': State<Value>, pod: Id, thread: Id, now: int,
                                                          limits: Limits, key: Key, position: nat, c: Cache<Value>, p: Place<Value>)
    requires Reads(s, s', pod, thread, now, limits) && Moves(s, s', pod, thread, c, p)
    requires position < |s.shared.log| && Newer(PodOf(s, pod), key, position)
    requires MayRemember(PodOf(s, pod), PlaceOf(s, pod, thread), key, position)
    ensures Harmless(s, PlaceOf(s, pod, thread), PodOf(s, pod), c, p, key, position)
  {
    hide *;
    SameMove(s, s', pod, thread, c, p);
    match PlaceOf(s, pod, thread) {
      case Idle => IdleIsHarmless(s, s', pod, thread, now, limits, key, position, c, p);
      case Knows(k, version) => LookingIsHarmless(s, s', pod, thread, now, limits, key, position, c, p);
      case Misses(k, version) => LookingIsHarmless(s, s', pod, thread, now, limits, key, position, c, p);
      case Has(k, version, reading) => KeepingIsHarmless(s, s', pod, thread, now, limits, key, position, c, p);
      case _ => AskingIsHarmless(s, s', pod, thread, now, limits, key, position, c, p);
    }
  }

  lemma {:induction false} LookingIsHarmless<Value(!new)>(s: State<Value>, s': State<Value>, pod: Id, thread: Id, now: int,
                                                          limits: Limits, key: Key, position: nat, c: Cache<Value>, p: Place<Value>)
    requires Reads(s, s', pod, thread, now, limits) && (PlaceOf(s, pod, thread).Knows? || PlaceOf(s, pod, thread).Misses?)
    requires OnlyMove(s, s', pod, thread, c, p)
    requires position < |s.shared.log| && Newer(PodOf(s, pod), key, position)
    ensures Harmless(s, PlaceOf(s, pod, thread), PodOf(s, pod), c, p, key, position)
  {
    var was, place := PodOf(s, pod), PlaceOf(s, pod, thread);
    hide Latest, Lookup, Newer, Moves;
    if place.Knows? && place.version.Some? {
      SectionsNewer(was, now, 0, place.key, place.version.value, None, limits, key, position);
    }
  }

  lemma {:induction false} KeepingIsHarmless<Value(!new)>(s: State<Value>, s': State<Value>, pod: Id, thread: Id, now: int,
                                                          limits: Limits, key: Key, position: nat, c: Cache<Value>, p: Place<Value>)
    requires Reads(s, s', pod, thread, now, limits) && PlaceOf(s, pod, thread).Has?
    requires OnlyMove(s, s', pod, thread, c, p)
    requires Newer(PodOf(s, pod), key, position) && MayRemember(PodOf(s, pod), PlaceOf(s, pod, thread), key, position)
    ensures Harmless(s, PlaceOf(s, pod, thread), PodOf(s, pod), c, p, key, position)
  {
    var was, place := PodOf(s, pod), PlaceOf(s, pod, thread);
    hide Remember, Newer, Moves;
    if place.version.Some? { RememberNewer(was, place.key, place.version.value, place.reading, now, limits, key, position); }
  }

  lemma {:induction false} AskingIsHarmless<Value(!new)>(s: State<Value>, s': State<Value>, pod: Id, thread: Id, now: int,
                                                         limits: Limits, key: Key, position: nat, c: Cache<Value>, p: Place<Value>)
    requires Reads(s, s', pod, thread, now, limits)
    requires var q := PlaceOf(s, pod, thread); q.Asks? || q.Asked? || q.Ends? || q.Returns? || q.Answered?
    requires OnlyMove(s, s', pod, thread, c, p)
    requires Newer(PodOf(s, pod), key, position)
    ensures Harmless(s, PlaceOf(s, pod, thread), PodOf(s, pod), c, p, key, position)
  {
    var was, place := PodOf(s, pod), PlaceOf(s, pod, thread);
    hide Note, Refreshed, Newer, Moves;
    SectionsNewer(was, now, 0, "", 0, if place.Asked? then place.found else None, limits, key, position);
  }

  ghost predicate OnlyMove<Value(!new)>(s: State<Value>, s': State<Value>, pod: Id, thread: Id, c: Cache<Value>, p: Place<Value>) {
    forall d: Cache<Value>, q: Place<Value> :: Moves(s, s', pod, thread, d, q) ==> d == c && q == p
  }

  /** A move determines its pod and its place. */
  lemma {:induction false} SameMove<Value(!new)>(s: State<Value>, s': State<Value>, pod: Id, thread: Id, c: Cache<Value>, p: Place<Value>)
    requires Moves(s, s', pod, thread, c, p)
    ensures OnlyMove(s, s', pod, thread, c, p)
  {
    assert s'.pods[pod] == c && s'.threads[(pod, thread)] == p;
  }

  lemma {:induction false} IdleIsHarmless<Value(!new)>(s: State<Value>, s': State<Value>, pod: Id, thread: Id, now: int,
                                                       limits: Limits, key: Key, position: nat, c: Cache<Value>, p: Place<Value>)
    requires Reads(s, s', pod, thread, now, limits) && PlaceOf(s, pod, thread) == Idle
    requires OnlyMove(s, s', pod, thread, c, p)
    requires Newer(PodOf(s, pod), key, position)
    ensures Harmless(s, Idle, PodOf(s, pod), c, p, key, position)
  {
    var was := PodOf(s, pod);
    hide Known, Forget, Newer, Moves;
    SectionsNewer(was, now, 0, "", 0, None, limits, key, position);
    if !Moves(s, s', pod, thread, was, Asks(None)) && !Moves(s, s', pod, thread, Forget(was), Idle) {
      var k, epoch :| Begins(s, s', pod, thread, now, limits, k, epoch);
      SectionsNewer(was, now, epoch, k, 0, None, limits, key, position);
    }
  }

  lemma {:induction false} AnyMove<Value(!new)>(s: State<Value>, s': State<Value>, pod: Id, thread: Id, now: int, limits: Limits)
      returns (c: Cache<Value>, p: Place<Value>)
    requires Reads(s, s', pod, thread, now, limits)
    ensures Moves(s, s', pod, thread, c, p)
  {
    hide Latest, Known, Note, Refreshed, Forget, Lookup, Remember;
    c, p := MovedTo(s, s', pod, thread, now, limits);
  }

  lemma {:induction false} MovedTo<Value(!new)>(s: State<Value>, s': State<Value>, pod: Id, thread: Id, now: int, limits: Limits)
      returns (c: Cache<Value>, p: Place<Value>)
    requires Reads(s, s', pod, thread, now, limits)
    ensures Moves(s, s', pod, thread, c, p)
  {
    hide Latest, Known, Note, Refreshed, Forget, Lookup, Remember;
    assert pod in s'.pods && (pod, thread) in s'.threads;
    c, p := s'.pods[pod], s'.threads[(pod, thread)];
  }

  /** A reading older than a numbered write is held under an older version than that number. */
  lemma {:induction false} OldVersionIsPast<Value>(s: State<Value>, pod: Id, thread: Id, key: Key, position: nat, v: nat)
    requires Inv(s) && Numbered(s.shared, position) && HoldsOld(PlaceOf(s, pod, thread), key, position, v)
    ensures v < |s.shared.numbered|
  {
    hide CacheOk;
    PodIsOk(s, pod, thread);
    var n :| 0 <= n < |s.shared.numbered| && s.shared.numbered[n] == position + 1;
  }

  lemma {:induction false} MoveStaysSecure<Value>(s: State<Value>, s': State<Value>, pod: Id, thread: Id, c: Cache<Value>,
                                                  p: Place<Value>, key: Key, position: nat)
    requires Inv(s) && Secure(s, pod, key, position) && Moves(s, s', pod, thread, c, p)
    requires Harmless(s, PlaceOf(s, pod, thread), PodOf(s, pod), c, p, key, position)
    ensures Secure(s', pod, key, position)
  {
    hide Inv;
    forall t: Id
      ensures !StaleAnswer(PlaceOf(s', pod, t), key, position)
    {
      assert t != thread ==> PlaceOf(s', pod, t) == PlaceOf(s, pod, t);
    }
    forall t: Id, v: nat | HoldsOld(PlaceOf(s', pod, t), key, position, v)
      ensures !MayBeAt(s', pod, v)
    {
      assert t != thread && PlaceOf(s', pod, t) == PlaceOf(s, pod, t);
      OldVersionIsPast(s, pod, t, key, position, v);
      assert !MayBeAt(s, pod, v);
      forall a: Id
        ensures !Told(PlaceOf(s', pod, a), v)
      {
        assert a != thread ==> PlaceOf(s', pod, a) == PlaceOf(s, pod, a);
        assert !Told(PlaceOf(s, pod, a), v);
      }
      assert !Told(PlaceOf(s, pod, thread), v);
    }
  }

  /** The pod and its threads are as they were, and the store has only grown. */
  ghost predicate PodUntouched<Value>(s: State<Value>, s': State<Value>, pod: Id) {
    && PodOf(s', pod) == PodOf(s, pod) && (forall t: Id :: PlaceOf(s', pod, t) == PlaceOf(s, pod, t))
    && Grows(s.shared, s'.shared)
  }

  lemma {:induction false} UntouchedStaysSecure<Value>(s: State<Value>, s': State<Value>, pod: Id, key: Key, position: nat)
    requires Secure(s, pod, key, position) && PodUntouched(s, s', pod)
    ensures Secure(s', pod, key, position)
  {
    var n :| 0 <= n < |s.shared.numbered| && s.shared.numbered[n] == position + 1;
    assert s'.shared.numbered[n] == position + 1;
    forall t: Id, v: nat | HoldsOld(PlaceOf(s', pod, t), key, position, v)
      ensures !MayBeAt(s', pod, v)
    {
      assert HoldsOld(PlaceOf(s, pod, t), key, position, v);
      assert !MayBeAt(s, pod, v);
      assert forall a: Id :: !Told(PlaceOf(s, pod, a), v);
    }
  }

  lemma {:induction false} OthersLeaveIt<Value(!new)>(s: State<Value>, s': State<Value>, w: Id, pod: Id)
    requires Writes(s, s', w)
    ensures PodUntouched(s, s', pod)
  {
    assert PodOf(s', pod) == PodOf(s, pod);
    assert forall t: Id :: PlaceOf(s', pod, t) == PlaceOf(s, pod, t);
  }

  lemma {:induction false} OtherPodsLeaveIt<Value>(s: State<Value>, s': State<Value>, other: Id, thread: Id, c: Cache<Value>,
                                                   p: Place<Value>, pod: Id)
    requires Moves(s, s', other, thread, c, p) && other != pod
    ensures PodUntouched(s, s', pod)
  {
    assert PodOf(s', pod) == PodOf(s, pod);
    forall t: Id
      ensures PlaceOf(s', pod, t) == PlaceOf(s, pod, t)
    {
    }
  }

  lemma {:induction false} NotThreatenedMeans<Value>(s: State<Value>, pod: Id, thread: Id, key: Key, position: nat)
    requires Secure(s, pod, key, position)
    ensures position < |s.shared.log| && Newer(PodOf(s, pod), key, position)
    ensures MayRemember(PodOf(s, pod), PlaceOf(s, pod, thread), key, position)
  {
    var p := PlaceOf(s, pod, thread);
    if p.Has? && p.key == key && p.version.Some? && p.version == PodOf(s, pod).version && p.reading.readAt <= position {
      assert HoldsOld(p, key, position, p.version.value) && MayBeAt(s, pod, p.version.value);
    }
  }

  lemma {:induction false} NextStaysSecure<Value(!new)>(s: State<Value>, s': State<Value>, limits: Limits, pod: Id, key: Key,
                                                        position: nat)
    requires Inv(s) && Secure(s, pod, key, position) && Next(s, s', limits)
    ensures Secure(s', pod, key, position)
  {
    hide Reads, Writes, Inv, Secure, Moves;
    if exists w :: Writes(s, s', w) {
      var w :| Writes(s, s', w);
      OthersLeaveIt(s, s', w, pod);
      UntouchedStaysSecure(s, s', pod, key, position);
    } else {
      var other, thread, now :| Reads(s, s', other, thread, now, limits);
      var c, p := AnyMove(s, s', other, thread, now, limits);
      if other == pod {
        NotThreatenedMeans(s, pod, thread, key, position);
        SectionIsHarmless(s, s', pod, thread, now, limits, key, position, c, p);
        MoveStaysSecure(s, s', pod, thread, c, p, key, position);
      } else {
        OtherPodsLeaveIt(s, s', other, thread, c, p, pod);
        UntouchedStaysSecure(s, s', pod, key, position);
      }
    }
  }

  lemma {:induction false} SecureForGood<Value(!new)>(states: seq<State<Value>>, limits: Limits, pod: Id, key: Key, position: nat,
                                                      i: nat, j: nat)
    requires Run(states, limits) && i <= j < |states| && Secure(states[i], pod, key, position)
    ensures Secure(states[j], pod, key, position)
    decreases j
  {
    hide Secure, Next, Inv;
    if i < j {
      SecureForGood(states, limits, pod, key, position, i, j - 1);
      RunInv(states, limits, j - 1);
      NextStaysSecure(states[j - 1], states[j], limits, pod, key, position);
    }
  }

  /** From then on every answer of this pod under the name is the value of its own write, or of a later one. */
  lemma {:induction false} OwnWriteIsSeen<Value(!new)>(states: seq<State<Value>>, limits: Limits, pod: Id, key: Key, position: nat,
                                                       i: nat, j: nat, thread: Id)
    requires Run(states, limits) && i <= j < |states| && Secure(states[i], pod, key, position)
    requires states[i].shared.log[position].key == key
    requires PlaceOf(states[j], pod, thread).Answered? && PlaceOf(states[j], pod, thread).key == key
    ensures var log := states[j].shared.log;
            exists p :: position <= p < |log| && log[p].key == key && PlaceOf(states[j], pod, thread).reading.value == log[p].value
  {
    SecureForGood(states, limits, pod, key, position, i, j);
    LogGrows(states, limits, i, j);
    RunInv(states, limits, j);
    PodIsOk(states[j], pod, thread);
    AnswerIsLate(states[j], pod, thread, key, position);
  }

  lemma {:induction false} AnswerIsLate<Value>(s: State<Value>, pod: Id, thread: Id, key: Key, position: nat)
    requires PlaceOf(s, pod, thread).Answered? && PlaceOf(s, pod, thread).key == key && PlaceOk(s.shared, PlaceOf(s, pod, thread))
    requires NothingOld(s, pod, key, position) && s.shared.log[position].key == key
    ensures var log := s.shared.log;
            exists p :: position <= p < |log| && log[p].key == key && PlaceOf(s, pod, thread).reading.value == log[p].value
  {
    var r := PlaceOf(s, pod, thread).reading;
    assert !StaleAnswer(PlaceOf(s, pod, thread), key, position);
    LatestUpto(s.shared.log, r.readAt, key, position);
  }

  lemma {:induction false} LogGrows<Value(!new)>(states: seq<State<Value>>, limits: Limits, i: nat, j: nat)
    requires Run(states, limits) && i <= j < |states|
    ensures Grows(states[i].shared, states[j].shared)
    decreases j
  {
    hide Next;
    if i < j {
      LogGrows(states, limits, i, j - 1);
      NextGrows(states[j - 1], states[j], limits);
    }
  }

  lemma {:induction false} NextGrows<Value(!new)>(s: State<Value>, s': State<Value>, limits: Limits)
    requires Next(s, s', limits)
    ensures Grows(s.shared, s'.shared)
  {
    hide Reads;
    if exists w :: Writes(s, s', w) {
      var w :| Writes(s, s', w);
    } else {
      var pod, thread, now :| Reads(s, s', pod, thread, now, limits);
      var c, p := AnyMove(s, s', pod, thread, now, limits);
    }
  }

  // ---------------------------------------------------------------- a threat comes true

  function After<Value>(s: State<Value>, pod: Id, thread: Id, c: Cache<Value>, p: Place<Value>): State<Value> {
    s.(pods := s.pods[pod := c], threads := s.threads[(pod, thread) := p])
  }

  lemma {:induction false} AfterIs<Value>(s: State<Value>, pod: Id, thread: Id, c: Cache<Value>, p: Place<Value>)
    ensures var s' := After(s, pod, thread, c, p);
            && Moves(s, s', pod, thread, c, p) && PodOf(s', pod) == c && PlaceOf(s', pod, thread) == p
            && forall t: Id :: t != thread ==> PlaceOf(s', pod, t) == PlaceOf(s, pod, t)
  {
  }

  lemma {:induction false} Beyond(ids: set<nat>) returns (n: nat)
    ensures forall x :: x in ids ==> x < n
  {
    if ids == {} { return 0; }
    var x :| x in ids;
    var m := Beyond(ids - {x});
    assert forall y :: y in ids ==> y == x || y in ids - {x};
    n := Max(m, x + 1);
  }

  lemma {:induction false} NewThread<Value>(s: State<Value>, pod: Id, other: Id) returns (u: Id)
    ensures u != other && PlaceOf(s, pod, u) == Idle
  {
    var ids := set t | t in s.threads :: t.1;
    u := Beyond(ids + {other});
    assert forall t :: t in s.threads ==> t.1 in ids;
    assert u !in ids + {other};
  }

  /** Every step is one of a thread of this pod, and all happen at the same time. */
  ghost predicate InOnePod<Value(!new)>(states: seq<State<Value>>, pod: Id, now: int, limits: Limits) {
    forall i, j :: 0 <= i && j == i + 1 && j < |states| ==> SomeReads(states[i], states[j], pod, now, limits)
  }

  ghost predicate SomeReads<Value(!new)>(s: State<Value>, s': State<Value>, pod: Id, now: int, limits: Limits) {
    exists thread :: Reads(s, s', pod, thread, now, limits)
  }

  /** The second thread to begin at some time does not ask for the version: the first one does, or it was asked for lately. */
  lemma {:induction false} SecondTrusts<Value>(c: Cache<Value>, now: int, limits: Limits, values: map<Key, Entry<Value>>)
    ensures var d := Known(c, now, c.epoch, limits).0.(values := values);
            && d.version == c.version && Known(d, now, d.epoch, limits) == (d, false)
  {
  }

  lemma {:induction false} FoundAtOnce<Value>(c: Cache<Value>, key: Key, v: nat, r: Reading<Value>, now: int, limits: Limits)
    requires c.version == Some(v) && limits.maxAge > 0
    ensures var d := Remember(c, key, v, r, now, limits);
            && d == c.(values := d.values) && Lookup(d, key, v, now, limits) == (d, Some(r))
  {
  }

  /** From a pod at version `v`: another thread begins, the holder remembers, begins, and is answered. */
  lemma {:induction false} HolderIsAnswered<Value(!new)>(s: State<Value>, limits: Limits, pod: Id, w: Id, key: Key, v: nat,
                                                         r: Reading<Value>, now: int) returns (more: seq<State<Value>>)
    requires PlaceOf(s, pod, w) == Has(key, Some(v), r) && PodOf(s, pod).version == Some(v) && limits.maxAge > 0
    ensures more != [] && more[0] == s && InOnePod(more, pod, now, limits)
    ensures PlaceOf(more[|more| - 1], pod, w) == Answered(key, v, r)
  {
    hide *;
    var u := NewThread(s, pod, w);
    var c := PodOf(s, pod);
    var (d, refresh) := Known(c, now, c.epoch, limits);
    var a := After(s, pod, u, d, if refresh then Asks(Some(key)) else Knows(key, d.version));
    AfterIs(s, pod, u, d, if refresh then Asks(Some(key)) else Knows(key, d.version));
    StepBegins(s, a, pod, u, now, limits, key);
    var e := Remember(d, key, v, r, now, limits);
    SecondTrusts(c, now, limits, d.values);
    KnownKeepsVersion(c, now, limits);
    FoundAtOnce(d, key, v, r, now, limits);
    SecondTrusts(c, now, limits, e.values);
    var b := After(a, pod, w, e, Idle);
    AfterIs(a, pod, w, e, Idle);
    StepRemembers(a, b, pod, w, now, limits, key, v, r);
    var f := After(b, pod, w, e, Knows(key, Some(v)));
    AfterIs(b, pod, w, e, Knows(key, Some(v)));
    StepBegins(b, f, pod, w, now, limits, key);
    var g := After(f, pod, w, e, Answered(key, v, r));
    AfterIs(f, pod, w, e, Answered(key, v, r));
    StepAnswers(f, g, pod, w, now, limits, key, v, r);
    more := [s, a, b, f, g];
    FourSteps(s, a, b, f, g, pod, now, limits);
  }

  lemma {:induction false} KnownKeepsVersion<Value>(c: Cache<Value>, now: int, limits: Limits)
    ensures var d := Known(c, now, c.epoch, limits).0; d.version == c.version && d == d.(values := d.values)
  {
  }

  lemma {:induction false} FourSteps<Value(!new)>(s: State<Value>, a: State<Value>, b: State<Value>, f: State<Value>, g: State<Value>,
                                                  pod: Id, now: int, limits: Limits)
    requires SomeReads(s, a, pod, now, limits) && SomeReads(a, b, pod, now, limits)
    requires SomeReads(b, f, pod, now, limits) && SomeReads(f, g, pod, now, limits)
    ensures InOnePod([s, a, b, f, g], pod, now, limits)
  {
    hide SomeReads;
  }

  lemma {:induction false} StepBegins<Value(!new)>(s: State<Value>, s': State<Value>, pod: Id, thread: Id, now: int, limits: Limits,
                                                   key: Key)
    requires PlaceOf(s, pod, thread) == Idle
    requires var (d, refresh) := Known(PodOf(s, pod), now, PodOf(s, pod).epoch, limits);
             Moves(s, s', pod, thread, d, if refresh then Asks(Some(key)) else Knows(key, d.version))
    ensures SomeReads(s, s', pod, now, limits)
  {
    hide Known, Moves;
    assert Begins(s, s', pod, thread, now, limits, key, PodOf(s, pod).epoch);
    assert Reads(s, s', pod, thread, now, limits);
  }

  lemma {:induction false} StepRemembers<Value(!new)>(s: State<Value>, s': State<Value>, pod: Id, thread: Id, now: int,
                                                      limits: Limits, key: Key, v: nat, r: Reading<Value>)
    requires PlaceOf(s, pod, thread) == Has(key, Some(v), r)
    requires Moves(s, s', pod, thread, Remember(PodOf(s, pod), key, v, r, now, limits), Idle)
    ensures SomeReads(s, s', pod, now, limits)
  {
    hide Remember, Moves;
    assert Reads(s, s', pod, thread, now, limits);
  }

  lemma {:induction false} StepAnswers<Value(!new)>(s: State<Value>, s': State<Value>, pod: Id, thread: Id, now: int, limits: Limits,
                                                    key: Key, v: nat, r: Reading<Value>)
    requires PlaceOf(s, pod, thread) == Knows(key, Some(v))
    requires Lookup(PodOf(s, pod), key, v, now, limits) == (PodOf(s, pod), Some(r))
    requires Moves(s, s', pod, thread, PodOf(s, pod), Answered(key, v, r))
    ensures SomeReads(s, s', pod, now, limits)
  {
    hide Lookup, Moves;
    assert Reads(s, s', pod, thread, now, limits);
  }

  lemma {:induction false} StepNotes<Value(!new)>(s: State<Value>, s': State<Value>, pod: Id, thread: Id, now: int, limits: Limits,
                                                  wanted: Option<Key>, found: Option<nat>)
    requires PlaceOf(s, pod, thread) == Asked(wanted, found)
    requires Moves(s, s', pod, thread, Note(PodOf(s, pod), found, now), if wanted.Some? then Ends(wanted.value) else Idle)
    ensures SomeReads(s, s', pod, now, limits)
  {
    hide Note, Moves;
    assert Reads(s, s', pod, thread, now, limits);
  }

  lemma {:induction false} OneMoreStep<Value(!new)>(s: State<Value>, more: seq<State<Value>>, pod: Id, now: int, limits: Limits)
    requires more != [] && InOnePod(more, pod, now, limits) && SomeReads(s, more[0], pod, now, limits)
    ensures InOnePod([s] + more, pod, now, limits)
  {
    hide SomeReads;
    var all := [s] + more;
    forall i, j | 0 <= i && j == i + 1 && j < |all|
      ensures SomeReads(all[i], all[j], pod, now, limits)
    {
      if i > 0 { assert all[i] == more[i - 1] && all[j] == more[i]; }
    }
  }

  /** Whenever an older reading can still be remembered, the pod can go on, at any time, to answer with it. */
  lemma {:induction false} ThreatComesTrue<Value(!new)>(s: State<Value>, limits: Limits, pod: Id, key: Key, position: nat, now: int)
      returns (more: seq<State<Value>>, thread: Id)
    requires Threatened(s, pod, key, position) && limits.maxAge > 0
    ensures more != [] && more[0] == s && InOnePod(more, pod, now, limits)
    ensures StaleAnswer(PlaceOf(more[|more| - 1], pod, thread), key, position)
  {
    var w: Id, v: nat :| HoldsOld(PlaceOf(s, pod, w), key, position, v) && MayBeAt(s, pod, v);
    var r := PlaceOf(s, pod, w).reading;
    thread := w;
    if PodOf(s, pod).version == Some(v) {
      hide *;
      HoldsIs(PlaceOf(s, pod, w), key, position, v);
      more := HolderIsAnswered(s, limits, pod, w, key, v, r, now);
      StaleIs(key, position, v, r, PlaceOf(s, pod, w));
    } else {
      var a: Id :| Told(PlaceOf(s, pod, a), v);
      hide *;
      HoldsIs(PlaceOf(s, pod, w), key, position, v);
      ToldIs(PlaceOf(s, pod, a), v);
      var wanted := PlaceOf(s, pod, a).wanted;
      var c, p := Note(PodOf(s, pod), Some(v), now), if wanted.Some? then Ends(wanted.value) else Idle;
      NoteIs(PodOf(s, pod), Some(v), now);
      AfterIs(s, pod, a, c, p);
      var s' := After(s, pod, a, c, p);
      StepNotes(s, s', pod, a, now, limits, wanted, Some(v));
      more := HolderIsAnswered(s', limits, pod, w, key, v, r, now);
      OneMoreStep(s, more, pod, now, limits);
      more := [s] + more;
      StaleIs(key, position, v, r, PlaceOf(s, pod, w));
    }
  }

  lemma {:induction false} NoteIs<Value>(c: Cache<Value>, found: Option<nat>, now: int)
    ensures Note(c, found, now).version == found
  {
  }

  lemma {:induction false} HoldsIs<Value>(p: Place<Value>, key: Key, position: nat, v: nat)
    requires HoldsOld(p, key, position, v)
    ensures p.Has? && p == Has(key, Some(v), p.reading) && p.reading.readAt <= position
  {
  }

  lemma {:induction false} ToldIs<Value>(p: Place<Value>, v: nat)
    requires Told(p, v)
    ensures p.Asked? && p == Asked(p.wanted, Some(v))
  {
  }

  lemma {:induction false} StaleIs<Value>(key: Key, position: nat, v: nat, r: Reading<Value>, p: Place<Value>)
    requires HoldsOld(p, key, position, v) && p.Has? && p.reading == r
    ensures StaleAnswer(Answered(key, v, r), key, position)
  {
  }

  // ---------------------------------------------------------------- exactly when

  /** Some continuation of the run ends with the pod answering under the name with something older than the write. */
  ghost predicate MayAnswerStale<Value(!new)>(states: seq<State<Value>>, limits: Limits, pod: Id, key: Key, position: nat) {
    exists more: seq<State<Value>>, thread: Id :: LeadsToStale(states, more, limits, pod, thread, key, position)
  }

  ghost predicate LeadsToStale<Value(!new)>(states: seq<State<Value>>, more: seq<State<Value>>, limits: Limits, pod: Id, thread: Id,
                                            key: Key, position: nat)
  {
    && Run(states + more, limits)
    && StaleAnswer(PlaceOf((states + more)[|states + more| - 1], pod, thread), key, position)
  }

  /** After the pod has forgotten, in every run: its own numbered write can be missed exactly if, at that moment, a thread
      holds an older reading of a version that the pod is at or has just been told. */
  lemma {:induction false} OwnWriteExactly<Value(!new)>(states: seq<State<Value>>, limits: Limits, pod: Id, key: Key, position: nat)
    requires Run(states, limits) && limits.maxAge > 0
    requires var s := states[|states| - 1]; Numbered(s.shared, position) && NothingOld(s, pod, key, position)
    ensures MayAnswerStale(states, limits, pod, key, position) <==> Threatened(states[|states| - 1], pod, key, position)
  {
    hide *;
    NonEmpty(states, limits);
    var s := states[|states| - 1];
    if Threatened(s, pod, key, position) {
      var more, thread := ThreatComesTrue(s, limits, pod, key, position, 0);
      StaleAfter(states, more, limits, pod, thread, key, position, 0);
    } else {
      SecureIs(s, pod, key, position);
      if MayAnswerStale(states, limits, pod, key, position) { NeverStale(states, limits, pod, key, position); }
    }
  }

  lemma {:induction false} NonEmpty<Value(!new)>(states: seq<State<Value>>, limits: Limits)
    requires Run(states, limits)
    ensures states != []
  {
  }

  lemma {:induction false} SecureIs<Value>(s: State<Value>, pod: Id, key: Key, position: nat)
    requires Numbered(s.shared, position) && NothingOld(s, pod, key, position) && !Threatened(s, pod, key, position)
    ensures Secure(s, pod, key, position)
  {
  }

  lemma {:induction false} NeverStale<Value(!new)>(states: seq<State<Value>>, limits: Limits, pod: Id, key: Key, position: nat)
    requires states != [] && Secure(states[|states| - 1], pod, key, position)
    ensures !MayAnswerStale(states, limits, pod, key, position)
  {
    hide Run, Secure, PlaceOf, StaleAnswer;
    forall more: seq<State<Value>>, thread: Id
      ensures !LeadsToStale(states, more, limits, pod, thread, key, position)
    {
      var all := states + more;
      if Run(all, limits) {
        assert all[|states| - 1] == states[|states| - 1];
        SecureForGood(all, limits, pod, key, position, |states| - 1, |all| - 1);
        SecureAnswers(all[|all| - 1], pod, thread, key, position);
      }
    }
  }

  lemma {:induction false} SecureAnswers<Value>(s: State<Value>, pod: Id, thread: Id, key: Key, position: nat)
    requires Secure(s, pod, key, position)
    ensures !StaleAnswer(PlaceOf(s, pod, thread), key, position)
  {
  }

  lemma {:induction false} StaleAfter<Value(!new)>(states: seq<State<Value>>, more: seq<State<Value>>, limits: Limits, pod: Id,
                                                   thread: Id, key: Key, position: nat, now: int)
    requires Run(states, limits) && more != [] && more[0] == states[|states| - 1] && InOnePod(more, pod, now, limits)
    requires StaleAnswer(PlaceOf(more[|more| - 1], pod, thread), key, position)
    ensures MayAnswerStale(states, limits, pod, key, position)
  {
    hide Next, Initial, SomeReads, PlaceOf, StaleAnswer;
    var rest := more[1..];
    var all := states + rest;
    forall i, j | 0 <= i && j == i + 1 && j < |all|
      ensures Next(all[i], all[j], limits)
    {
      if j < |states| {
        assert all[i] == states[i] && all[j] == states[j];
      } else {
        var k := i - |states| + 1;
        assert all[i] == more[k] && all[j] == more[k + 1];
        assert SomeReads(more[k], more[k + 1], pod, now, limits);
        SomeReadsIsNext(more[k], more[k + 1], pod, now, limits);
      }
    }
    assert Run(all, limits);
    assert all[|all| - 1] == more[|more| - 1];
    assert LeadsToStale(states, rest, limits, pod, thread, key, position);
  }

  lemma {:induction false} SomeReadsIsNext<Value(!new)>(s: State<Value>, s': State<Value>, pod: Id, now: int, limits: Limits)
    requires SomeReads(s, s', pod, now, limits)
    ensures Next(s, s', limits)
  {
    hide Reads, Writes;
    var thread :| Reads(s, s', pod, thread, now, limits);
  }

  // ---------------------------------------------------------------- a run in which it is missed

  const LIMITS: Limits := Limits(1, 300, 2048)
  const KEY: Key := "K"

  type Threads = map<(Id, Id), Place<int>>

  ghost function First(): Shared<int> { Shared([Write(KEY, Some(1))], [1]) }
  ghost function Second(): Shared<int> { Shared([Write(KEY, Some(1)), Write(KEY, Some(2))], [1, 2]) }
  ghost function OldReading(): Reading<int> { Reading(Some(1), 1) }
  ghost function OldHeld(): Place<int> { Has(KEY, Some(1), OldReading()) }

  ghost function Fresh(): Cache<int> { Cache(map[], Some(1), 1, false, 0) }
  ghost function Emptied(refreshing: bool): Cache<int> { Cache(map[], Some(1), 0, refreshing, 0) }
  ghost function Stale(): Cache<int> { Cache(map[KEY := Entry(OldReading(), 1, 101)], Some(1), 0, true, 0) }

  /** One pod and one writer. */
  ghost function At(shared: Shared<int>, w: Writing, c: Cache<int>, threads: Threads): State<int> {
    State(shared, map[0 := c], threads, map[0 := w])
  }

  ghost function Alone(p: Place<int>): Threads { map[(0, 0) := p] }

  ghost function Later(p: Place<int>, q: Place<int>): Threads { map[(0, 0) := p, (0, 2) := Idle, (0, 1) := q] }

  /** The first write, and thread 0 reading it for the first time. */
  ghost function Warming(): seq<State<int>> {
    [State(Shared([], []), map[], map[], map[]),
     State(Shared([Write(KEY, Some(1))], []), map[], map[], map[0 := Wrote(0)]),
     State(First(), map[], map[], map[0 := Quiet]),
     At(First(), Quiet, Cache(map[], None, 0, true, 0), Alone(Asks(Some(KEY)))),
     At(First(), Quiet, Cache(map[], None, 0, true, 0), Alone(Asked(Some(KEY), Some(1)))),
     At(First(), Quiet, Cache(map[], Some(1), 1, true, 0), Alone(Ends(KEY))),
     At(First(), Quiet, Fresh(), Alone(Returns(KEY))),
     At(First(), Quiet, Fresh(), Alone(Knows(KEY, Some(1)))),
     At(First(), Quiet, Fresh(), Alone(Misses(KEY, Some(1)))),
     At(First(), Quiet, Fresh(), Alone(OldHeld()))]
  }

  /** The second write completes and its pod empties the cache while thread 0 still holds the older reading; thread 1 asks
      for the version; thread 0 remembers, looks again, and trusts what it remembered. */
  ghost function Missing(): seq<State<int>> {
    [At(Shared(Second().log, [1]), Wrote(1), Fresh(), Alone(OldHeld())),
     At(Second(), Quiet, Fresh(), Alone(OldHeld())),
     At(Second(), Quiet, Emptied(false), map[(0, 0) := OldHeld(), (0, 2) := Idle]),
     At(Second(), Quiet, Emptied(true), Later(OldHeld(), Asks(Some(KEY)))),
     At(Second(), Quiet, Stale(), Later(Idle, Asks(Some(KEY)))),
     At(Second(), Quiet, Stale(), Later(Knows(KEY, Some(1)), Asks(Some(KEY)))),
     At(Second(), Quiet, Stale(), Later(Answered(KEY, 1, OldReading()), Asks(Some(KEY))))]
  }

  /** The step is one of thread `thread` of the pod. */
  ghost predicate ByThread(s: State<int>, s': State<int>, thread: Id, now: int) {
    Reads(s, s', 0, thread, now, LIMITS)
  }

  lemma {:induction false} FirstWrite()
    ensures Initial(Warming()[0]) && Writes(Warming()[0], Warming()[1], 0) && Writes(Warming()[1], Warming()[2], 0)
  {
    var s, t, u := Warming()[0], Warming()[1], Warming()[2];
    var write := Write(KEY, Some(1));
    assert t == s.(shared := s.shared.(log := s.shared.log + [write]), writers := s.writers[0 := Wrote(|s.shared.log|)]);
    assert u == t.(shared := t.shared.(numbered := t.shared.numbered + [1]), writers := t.writers[0 := Quiet]);
  }

  lemma {:induction false} AskingBegins()
    ensures ByThread(Warming()[2], Warming()[3], 0, 1) && ByThread(Warming()[3], Warming()[4], 0, 1)
  {
    var s, t, u := Warming()[2], Warming()[3], Warming()[4];
    assert Begins(s, t, 0, 0, 1, LIMITS, KEY, 0);
    assert Moves(t, u, 0, 0, PodOf(t, 0), Asked(Some(KEY), VersionOf(t.shared)));
  }

  lemma {:induction false} AskingEnds()
    ensures ByThread(Warming()[4], Warming()[5], 0, 1) && ByThread(Warming()[5], Warming()[6], 0, 1)
    ensures ByThread(Warming()[6], Warming()[7], 0, 1)
  {
    var s, t, u, v := Warming()[4], Warming()[5], Warming()[6], Warming()[7];
    assert Moves(s, t, 0, 0, Note(PodOf(s, 0), Some(1), 1), Ends(KEY));
    assert Moves(t, u, 0, 0, Refreshed(PodOf(t, 0), 1), Returns(KEY));
    assert Moves(u, v, 0, 0, PodOf(u, 0), Knows(KEY, Some(1)));
  }

  lemma {:induction false} FirstReading()
    ensures ByThread(Warming()[7], Warming()[8], 0, 1) && ByThread(Warming()[8], Warming()[9], 0, 1)
  {
    var s, t, u := Warming()[7], Warming()[8], Warming()[9];
    assert Lookup(Fresh(), KEY, 1, 1, LIMITS) == (Fresh(), None);
    assert Moves(s, t, 0, 0, Fresh(), Misses(KEY, Some(1)));
    assert Latest(First().log, KEY) == Some(1);
    assert Moves(t, u, 0, 0, Fresh(), OldHeld());
  }

  lemma {:induction false} SecondWrite()
    ensures Writes(Warming()[9], Missing()[0], 0) && Writes(Missing()[0], Missing()[1], 0)
    ensures ByThread(Missing()[1], Missing()[2], 2, 100)
  {
    var s, t, u, v := Warming()[9], Missing()[0], Missing()[1], Missing()[2];
    var write := Write(KEY, Some(2));
    assert t == s.(shared := s.shared.(log := s.shared.log + [write]), writers := s.writers[0 := Wrote(|s.shared.log|)]);
    assert u == t.(shared := t.shared.(numbered := t.shared.numbered + [2]), writers := t.writers[0 := Quiet]);
    assert Moves(u, v, 0, 2, Forget(PodOf(u, 0)), Idle);
  }

  lemma {:induction false} ThreadOneAsks()
    ensures ByThread(Missing()[2], Missing()[3], 1, 101)
  {
    assert Begins(Missing()[2], Missing()[3], 0, 1, 101, LIMITS, KEY, 0);
  }

  lemma {:induction false} ThreadZeroRemembers()
    ensures ByThread(Missing()[3], Missing()[4], 0, 101)
  {
    var s, t := Missing()[3], Missing()[4];
    assert Remember(Emptied(true), KEY, 1, OldReading(), 101, LIMITS) == Stale();
    assert Moves(s, t, 0, 0, Stale(), Idle);
  }

  lemma {:induction false} ThreadZeroLooks()
    ensures ByThread(Missing()[4], Missing()[5], 0, 101)
  {
    assert Begins(Missing()[4], Missing()[5], 0, 0, 101, LIMITS, KEY, 0);
  }

  lemma {:induction false} ThreadZeroIsAnswered()
    ensures ByThread(Missing()[5], Missing()[6], 0, 101)
  {
    var t, u := Missing()[5], Missing()[6];
    assert Lookup(Stale(), KEY, 1, 101, LIMITS) == (Stale(), Some(OldReading()));
    assert Moves(t, u, 0, 0, Stale(), Answered(KEY, 1, OldReading()));
  }

  lemma {:induction false} ThreadSteps(s: State<int>, s': State<int>, thread: Id, now: int)
    requires ByThread(s, s', thread, now)
    ensures Next(s, s', LIMITS)
  {
    hide Reads, Writes;
    assert Reads(s, s', 0, thread, now, LIMITS);
  }

  lemma {:induction false} WriterSteps(s: State<int>, s': State<int>)
    requires Writes(s, s', 0)
    ensures Next(s, s', LIMITS)
  {
    hide Reads, Writes;
  }

  lemma {:induction false} WarmingRuns()
    ensures Run(Warming(), LIMITS)
  {
    FirstWrite();
    AskingBegins();
    AskingEnds();
    FirstReading();
    var states := Warming();
    hide Next, Writes, Initial, ByThread;
    WriterSteps(states[0], states[1]);
    WriterSteps(states[1], states[2]);
    ThreadSteps(states[2], states[3], 0, 1);
    ThreadSteps(states[3], states[4], 0, 1);
    ThreadSteps(states[4], states[5], 0, 1);
    ThreadSteps(states[5], states[6], 0, 1);
    ThreadSteps(states[6], states[7], 0, 1);
    ThreadSteps(states[7], states[8], 0, 1);
    ThreadSteps(states[8], states[9], 0, 1);
  }

  lemma {:induction false} MissingRuns()
    ensures Next(Warming()[9], Missing()[0], LIMITS)
    ensures forall i, j :: 0 <= i && j == i + 1 && j < |Missing()| ==> Next(Missing()[i], Missing()[j], LIMITS)
  {
    SecondWrite();
    ThreadOneAsks();
    ThreadZeroRemembers();
    ThreadZeroLooks();
    ThreadZeroIsAnswered();
    var states := Missing();
    hide Next, Writes, ByThread;
    WriterSteps(Warming()[9], states[0]);
    WriterSteps(states[0], states[1]);
    ThreadSteps(states[1], states[2], 2, 100);
    ThreadSteps(states[2], states[3], 1, 101);
    ThreadSteps(states[3], states[4], 0, 101);
    ThreadSteps(states[4], states[5], 0, 101);
    ThreadSteps(states[5], states[6], 0, 101);
  }

  /** A run in which a pod, its own write complete and its cache emptied after it, answers with the value from before. */
  lemma {:induction false} OwnWriteIsMissed()
    ensures Run(Warming() + Missing(), LIMITS)
    ensures var last := Missing()[6];
            && PlaceOf(last, 0, 0) == Answered(KEY, 1, OldReading()) && OldReading().value == Some(1)
            && Latest(last.shared.log, KEY) == Some(2) && last.writers[0] == Quiet
  {
    WarmingRuns();
    MissingRuns();
    JoinedRuns(Warming(), Missing());
  }

  lemma {:induction false} JoinedRuns(a: seq<State<int>>, b: seq<State<int>>)
    requires Run(a, LIMITS) && b != [] && Next(a[|a| - 1], b[0], LIMITS)
    requires forall i, j :: 0 <= i && j == i + 1 && j < |b| ==> Next(b[i], b[j], LIMITS)
    ensures Run(a + b, LIMITS)
  {
    hide Next, Initial;
    var all := a + b;
    forall i, j | 0 <= i && j == i + 1 && j < |all|
      ensures Next(all[i], all[j], LIMITS)
    {
      if j < |a| {
        assert all[i] == a[i] && all[j] == a[j];
      } else if i >= |a| {
        assert all[i] == b[i - |a|] && all[j] == b[j - |a|];
      }
    }
  }
}
