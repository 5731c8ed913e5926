/** The value cache that every pod keeps beside the shared store (config/redis_config.py). */
module ConfigCache {
  import opened Base

  type Key = string

  /** What was read for a name; None where the store has none. `readAt` counts the writes the store had seen by then; it
      is carried along to state what an entry reflects, no operation looks at it. */
  datatype Reading<Value> = Reading(value: Option<Value>, readAt: nat)

  /** A remembered reading, the version known before it was read, and when it was remembered. */
  datatype Entry<Value> = Entry(reading: Reading<Value>, tag: nat, at: int)

  /** `_vc`. */
  datatype Cache<Value> = Cache(values: map<Key, Entry<Value>>, version: Option<nat>, checkedAt: int, refreshing: bool, epoch: int)

  /** `VERSION_RECHECK_S`, `VALUE_CACHE_MAX_AGE_S` and the number of entries kept. */
  datatype Limits = Limits(recheck: int, maxAge: int, size: nat)

  // ---------------------------------------------------------------- what each locked section does

  /** `_note_version`; None means that there is no version key. */
  function Note<Value>(c: Cache<Value>, version: Option<nat>, now: int): Cache<Value> {
    Cache(if version == None || version != c.version then map[] else c.values, version, now, c.refreshing, c.epoch)
  }

  /** The first section of `_known_version`: a reconnect empties the cache; the version is asked for anew unless another
      thread already does so or it was asked for lately. */
  function Known<Value>(c: Cache<Value>, now: int, epoch: int, limits: Limits): (r: (Cache<Value>, bool))
  {
    var d := if epoch != c.epoch then c.(values := map[], epoch := epoch, checkedAt := 0) else c;
    if d.refreshing || now - d.checkedAt < limits.recheck then (d, false) else (d.(refreshing := true), true)
  }

  /** Its last section. */
  function Refreshed<Value>(c: Cache<Value>, now: int): Cache<Value> {
    c.(refreshing := false, checkedAt := if c.checkedAt < now then now else c.checkedAt)
  }

  /** `forget_cached_values`. */
  function Forget<Value>(c: Cache<Value>): Cache<Value> {
    c.(values := map[], checkedAt := 0)
  }

  /** The first section of `probe_value`: an entry of this version that is young enough is the answer; any other entry
      under the name is dropped. */
  function Lookup<Value>(c: Cache<Value>, key: Key, version: nat, now: int, limits: Limits):
      (r: (Cache<Value>, Option<Reading<Value>>))
    ensures r.1.Some? ==> key in c.values && c.values[key].tag == version && r.1.value == c.values[key].reading && r.0 == c
  {
    if key !in c.values then (c, None)
    else if c.values[key].tag == version && now - c.values[key].at < limits.maxAge then (c, Some(c.values[key].reading))
    else (c.(values := c.values - {key}), None)
  }

  /** Its last section: remembered under the version known before the reading, if that is still the version. */
  function Remember<Value>(c: Cache<Value>, key: Key, version: nat, reading: Reading<Value>, now: int, limits: Limits): Cache<Value> {
    if c.version != Some(version) then c
    else c.(values := (if |c.values| > limits.size then map[] else c.values)[key := Entry(reading, version, now)])
  }

  // ---------------------------------------------------------------- the object

  class ValueCache<Value> {
    const limits: Limits
    var values: map<Key, Entry<Value>>
    var version: Option<nat>
    var checkedAt: int
    var refreshing: bool
    var epoch: int

    function Now(): Cache<Value>
      reads this
    {
      Cache(values, version, checkedAt, refreshing, epoch)
    }

    constructor (limits: Limits)
      ensures Now() == Cache(map[], None, 0, false, 0) && this.limits == limits
    {
      this.limits := limits;
      values, version, checkedAt, refreshing, epoch := map[], None, 0, false, 0;
    }

    method NoteVersion(found: Option<nat>, now: int)
      modifies this
      ensures Now() == Note(old(Now()), found, now)
      ensures version == found && checkedAt == now && refreshing == old(refreshing) && epoch == old(epoch)
      ensures values == if found.Some? && found == old(version) then old(values) else map[]
    {
      if found == None || found != version { values := map[]; }
      version := found;
      checkedAt := now;
    }

    method BeginKnown(now: int, recovered: int) returns (refresh: bool)
      modifies this
      ensures (Now(), refresh) == Known(old(Now()), now, recovered, limits)
      ensures refresh <==>
                && !old(refreshing)
                && if recovered != old(epoch) then now >= limits.recheck else now - old(checkedAt) >= limits.recheck
      ensures refreshing == (old(refreshing) || refresh) && version == old(version) && epoch == recovered
      ensures values == (if recovered != old(epoch) then map[] else old(values))
      ensures checkedAt == if recovered != old(epoch) then 0 else old(checkedAt)
    {
      if recovered != epoch {
        values := map[];
        epoch := recovered;
        checkedAt := 0;
      }
      if refreshing || now - checkedAt < limits.recheck { return false; }
      refreshing := true;
      return true;
    }

    method EndKnown(now: int)
      modifies this
      ensures Now() == Refreshed(old(Now()), now)
      ensures !refreshing && now <= checkedAt && old(checkedAt) <= checkedAt && (checkedAt == now || checkedAt == old(checkedAt))
      ensures values == old(values) && version == old(version) && epoch == old(epoch)
    {
      refreshing := false;
      if checkedAt < now { checkedAt := now; }
    }

    /** `forget_cached_values`: nothing is found any more, and the next lookup asks for the version unless somebody already
        does. */
    method ForgetValues()
      modifies this
      ensures Now() == Forget(old(Now())) && values == map[]
      ensures checkedAt == 0 && version == old(version) && refreshing == old(refreshing) && epoch == old(epoch)
      ensures forall now: int, recovered: int ::
                now >= limits.recheck && !refreshing ==> Known(Now(), now, recovered, limits).1
    {
      values := map[];
      checkedAt := 0;
    }

    method Find(key: Key, known: nat, now: int) returns (hit: Option<Reading<Value>>)
      modifies this
      ensures (Now(), hit) == Lookup(old(Now()), key, known, now, limits)
      ensures hit.Some? <==> key in old(values) && old(values)[key].tag == known && now - old(values)[key].at < limits.maxAge
      ensures values == if hit.Some? then old(values) else old(values) - {key}
      ensures hit.Some? ==> hit.value == old(values)[key].reading
    {
      if key !in values { return None; }
      var entry := values[key];
      if entry.tag == known && now - entry.at < limits.maxAge { return Some(entry.reading); }
      values := values - {key};
      return None;
    }

    method Store(key: Key, known: nat, reading: Reading<Value>, now: int)
      modifies this
      ensures Now() == Remember(old(Now()), key, known, reading, now, limits)
      ensures old(version) != Some(known) ==> values == old(values)
      ensures old(version) == Some(known) ==>
                values == (if |old(values)| > limits.size then map[] else old(values))[key := Entry(reading, known, now)]
    {
      if version == Some(known) {
        if |values| > limits.size { values := map[]; }
        values := values[key := Entry(reading, known, now)];
      }
    }

    /** `_known_version`, run alone; `asked` is what the store says of the version if it is asked (None: no answer). What is
        answered is the version on record. No entry is new, a reconnect or a changed or missing version leaves none, and a
        right cache stays right. */
    method KnownVersion(now: int, recovered: int, asked: Option<Option<nat>>, ghost shared: Shared<Value>)
      returns (known: Option<nat>, refresh: bool)
      modifies this
      ensures known == version && refreshing == old(refreshing)
      ensures refresh <==>
                && !old(refreshing)
                && if recovered != old(epoch) then now >= limits.recheck else now - old(checkedAt) >= limits.recheck
      ensures refresh && asked.Some? ==> version == asked.value
      ensures !refresh || asked.None? ==> version == old(version)
      ensures refresh ==> now <= checkedAt
      ensures values == if recovered != old(epoch) || version != old(version) || (refresh && asked == Some(None)) then map[]
                        else old(values)
      ensures CacheOk(shared, old(Now())) && (asked.Some? ==> Seen(shared, asked.value)) ==> CacheOk(shared, Now())
    {
      refresh := BeginKnown(now, recovered);
      SectionsStay(shared, old(Now()), now, recovered, limits);
      if refresh {
        if asked.Some? {
          NoteStays(shared, Now(), asked.value, now);
          NoteVersion(asked.value, now);
        }
        SectionsStay(shared, Now(), now, recovered, limits);
        EndKnown(now);
      }
      known := version;
    }

    /** `probe_value`, run alone; `direct` is what reading past the cache gives (None: it fails). A hit is a remembered reading
        of the version asked for and young enough; otherwise the direct reading is answered. Entries that survive were there
        before, except the direct one under its name; and a right cache stays right and answers right. */
    method ProbeValue(key: Key, began: int, looked: int, ended: int, recovered: int, asked: Option<Option<nat>>,
                      direct: Option<Reading<Value>>, ghost shared: Shared<Value>)
      returns (result: Option<Reading<Value>>, hit: bool, under: Option<nat>)
      modifies this
      ensures refreshing == old(refreshing) && (limits.maxAge <= 0 ==> Now() == old(Now()) && !hit)
      ensures recovered == old(epoch) && under.Some? && under == old(version) && limits.maxAge > 0 ==>
                (hit <==> key in old(values) && old(values)[key].tag == under.value && looked - old(values)[key].at < limits.maxAge)
      ensures !hit && under.Some? ==> if direct.None? then key !in values
                else key in values && values[key] == Entry(direct.value, under.value, ended)
      ensures hit ==>
                && under.Some? && under == version && key in old(values) && old(values)[key].tag == under.value
                && looked - old(values)[key].at < limits.maxAge && result == Some(old(values)[key].reading)
      ensures !hit ==> result == direct
      ensures forall k :: k in values ==>
                || (k in old(values) && values[k] == old(values)[k])
                || (k == key && !hit && under.Some? && Some(values[k].reading) == direct && values[k].tag == under.value)
      ensures CacheOk(shared, old(Now())) && (asked.Some? ==> Seen(shared, asked.value))
              && (direct.Some? ==> Reflects(shared, key, |shared.numbered|, direct.value)) ==>
                && CacheOk(shared, Now())
                && (under.Some? && result.Some? ==> Reflects(shared, key, under.value, result.value))
    {
      hide Lookup, Remember, Known, Reflects, CacheOk;
      if limits.maxAge <= 0 { return direct, false, None; }
      var refresh;
      under, refresh := KnownVersion(began, recovered, asked, shared);
      if under.Some? {
        LookupStays(shared, Now(), key, under.value, looked, limits);
        LookupSays(Now(), key, under.value, looked, limits);
        var found := Find(key, under.value, looked);
        if found.Some? { return found, true, under; }
      }
      if under.Some? && direct.Some? {
        FreshStays(shared, Now(), key, under.value, direct.value, ended, limits);
        RememberSays(Now(), key, under.value, direct.value, ended, limits);
        VersionSeen(shared, Now());
        Store(key, under.value, direct.value, ended);
      }
      return direct, false, under;
    }
  }

  // ---------------------------------------------------------------- the shared store

  /** A SET, or a DELETE (None). */
  datatype Write<Value> = Write(key: Key, value: Option<Value>)

  /** All writes in their order, and for each number that INCR handed out (1, 2, …) how far into that order it tells a reader
      to look: just behind the write it was handed out for, or nowhere (0) when the version was only bumped. */
  datatype Shared<Value> = Shared(log: seq<Write<Value>>, numbered: seq<nat>)

  /** The value of a name after these writes. */
  function Latest<Value>(log: seq<Write<Value>>, key: Key): Option<Value> {
    if log == [] then None
    else if log[|log| - 1].key == key then log[|log| - 1].value
    else Latest(log[..|log| - 1], key)
  }

  /** GET of the version key, which exists from the first INCR on. */
  function VersionOf<Value>(s: Shared<Value>): Option<nat> {
    if s.numbered == [] then None else Some(|s.numbered|)
  }

  /** The reading saw every write with a number up to `version`, and gives what the store said then. */
  ghost predicate Reflects<Value>(s: Shared<Value>, key: Key, version: nat, r: Reading<Value>) {
    && version <= |s.numbered| && r.readAt <= |s.log|
    && (forall n :: 0 <= n < version ==> s.numbered[n] <= r.readAt)
    && r.value == Latest(s.log[..r.readAt], key)
  }

  /** The write at `position` has its number. */
  ghost predicate Numbered<Value>(s: Shared<Value>, position: nat) {
    exists n :: 0 <= n < |s.numbered| && s.numbered[n] == position + 1
  }

  /** So no write to that name numbered up to the version is newer than what the reading returns. */
  lemma {:induction false} ReflectsIsFresh<Value>(s: Shared<Value>, key: Key, version: nat, r: Reading<Value>, n: nat)
    requires Reflects(s, key, version, r) && n < version && s.numbered[n] > 0
    requires s.log[s.numbered[n] - 1].key == key
    ensures exists p :: s.numbered[n] - 1 <= p < r.readAt && s.log[p].key == key && r.value == s.log[p].value
  {
    LatestUpto(s.log, r.readAt, key, s.numbered[n] - 1);
  }

  lemma {:induction false} LatestUpto<Value>(log: seq<Write<Value>>, upto: nat, key: Key, q: nat)
    requires q < upto <= |log| && log[q].key == key
    ensures exists p :: q <= p < upto && log[p].key == key && Latest(log[..upto], key) == log[p].value
  {
    LatestIsLate(log[..upto], key, q);
    var p :| q <= p < upto && log[..upto][p].key == key && Latest(log[..upto], key) == log[..upto][p].value;
    assert log[p] == log[..upto][p];
  }

  lemma {:induction false} LatestIsLate<Value>(log: seq<Write<Value>>, key: Key, q: nat)
    requires q < |log| && log[q].key == key
    ensures exists p :: q <= p < |log| && log[p].key == key && Latest(log, key) == log[p].value
  {
    var n := |log| - 1;
    if log[n].key == key {
      assert Latest(log, key) == log[n].value;
    } else {
      LatestIsLate(log[..n], key, q);
      var p :| q <= p < n && log[..n][p].key == key && Latest(log[..n], key) == log[..n][p].value;
      assert log[p] == log[..n][p];
    }
  }

  // ---------------------------------------------------------------- pods, threads and writers

  type Id = nat

  /** A thread of a pod inside `probe_value` or `probe_config_version`. */
  datatype Place<Value> =
    | Idle
    /** It may use the cache of this version (None: it may not). */
    | Knows(key: Key, version: Option<nat>)
    /** It has to ask the store for the version; `wanted` is None when only the version was wanted. */
    | Asks(wanted: Option<Key>)
    | Asked(wanted: Option<Key>, found: Option<nat>)
    | Ends(key: Key)
    | Returns(key: Key)
    /** Nothing usable was remembered. */
    | Misses(key: Key, version: Option<nat>)
    | Has(key: Key, version: Option<nat>, reading: Reading<Value>)
    /** The answer came from the cache. */
    | Answered(key: Key, under: nat, reading: Reading<Value>)

  /** A writer inside `set_config` or `delete_config`: its write is done, its INCR not yet. */
  datatype Writing = Quiet | Wrote(position: nat)

  datatype State<Value> = State(shared: Shared<Value>, pods: map<Id, Cache<Value>>, threads: map<(Id, Id), Place<Value>>,
                                writers: map<Id, Writing>)

  function PodOf<Value>(s: State<Value>, pod: Id): Cache<Value> {
    if pod in s.pods then s.pods[pod] else Cache(map[], None, 0, false, 0)
  }

  function PlaceOf<Value>(s: State<Value>, pod: Id, thread: Id): Place<Value> {
    if (pod, thread) in s.threads then s.threads[(pod, thread)] else Idle
  }

  function WritingOf<Value>(s: State<Value>, w: Id): Writing {
    if w in s.writers then s.writers[w] else Quiet
  }

  /** A writer: SET or DELETE, then INCR, which may fail; or `bump_meta_version`, an INCR alone. */
  ghost predicate Writes<Value(!new)>(s: State<Value>, s': State<Value>, w: Id) {
    match WritingOf(s, w)
    case Quiet =>
      || (exists write ::
            s' == s.(shared := s.shared.(log := s.shared.log + [write]), writers := s.writers[w := Wrote(|s.shared.log|)]))
      || s' == s.(shared := s.shared.(numbered := s.shared.numbered + [0]))
    case Wrote(position) =>
      || s' == s.(shared := s.shared.(numbered := s.shared.numbered + [position + 1]), writers := s.writers[w := Quiet])
      || s' == s.(writers := s.writers[w := Quiet])
  }

  ghost predicate Moves<Value>(s: State<Value>, s': State<Value>, pod: Id, thread: Id, c: Cache<Value>, p: Place<Value>) {
    s' == s.(pods := s.pods[pod := c], threads := s.threads[(pod, thread) := p])
  }

  /** `probe_value` begins: the version is known, or has to be asked for. */
  ghost predicate Begins<Value>(s: State<Value>, s': State<Value>, pod: Id, thread: Id, now: int, limits: Limits, key: Key,
                                epoch: int)
  {
    var (d, refresh) := Known(PodOf(s, pod), now, epoch, limits);
    Moves(s, s', pod, thread, d, if refresh then Asks(Some(key)) else Knows(key, d.version))
  }

  /** One locked section, or one request to the store, of one thread at time `now`. */
  ghost predicate Reads<Value(!new)>(s: State<Value>, s': State<Value>, pod: Id, thread: Id, now: int, limits: Limits) {
    var c := PodOf(s, pod);
    match PlaceOf(s, pod, thread)
    case Idle =>
      || (exists key, epoch :: Begins(s, s', pod, thread, now, limits, key, epoch))
      || Moves(s, s', pod, thread, c, Asks(None))
      || Moves(s, s', pod, thread, Forget(c), Idle)
    case Asks(key) =>
      || Moves(s, s', pod, thread, c, Asked(key, VersionOf(s.shared)))
      || Moves(s, s', pod, thread, c, if key.Some? then Ends(key.value) else Idle)
    case Asked(key, found) => Moves(s, s', pod, thread, Note(c, found, now), if key.Some? then Ends(key.value) else Idle)
    case Ends(key) => Moves(s, s', pod, thread, Refreshed(c, now), Returns(key))
    case Returns(key) => Moves(s, s', pod, thread, c, Knows(key, c.version))
    case Knows(key, version) =>
      if version == None then Moves(s, s', pod, thread, c, Misses(key, None))
      else
        var (d, hit) := Lookup(c, key, version.value, now, limits);
        Moves(s, s', pod, thread, d, if hit.Some? then Answered(key, version.value, hit.value) else Misses(key, version))
    case Misses(key, version) =>
      Moves(s, s', pod, thread, c, Has(key, version, Reading(Latest(s.shared.log, key), |s.shared.log|)))
    case Has(key, version, reading) =>
      Moves(s, s', pod, thread, if version.Some? then Remember(c, key, version.value, reading, now, limits) else c, Idle)
    case Answered(_, _, _) => Moves(s, s', pod, thread, c, Idle)
  }

  ghost predicate Next<Value(!new)>(s: State<Value>, s': State<Value>, limits: Limits) {
    || (exists w :: Writes(s, s', w))
    || (exists pod, thread, now :: Reads(s, s', pod, thread, now, limits))
  }

  ghost predicate Initial<Value>(s: State<Value>) {
    s.shared == Shared([], []) && s.pods == map[] && s.threads == map[] && s.writers == map[]
  }

  ghost predicate Run<Value(!new)>(states: seq<State<Value>>, limits: Limits) {
    states != [] && Initial(states[0])
    && forall i, j :: 0 <= i && j == i + 1 && j < |states| ==> Next(states[i], states[j], limits)
  }

  // ---------------------------------------------------------------- freshness

  ghost predicate Seen<Value>(s: Shared<Value>, version: Option<nat>) {
    version.Some? ==> version.value <= |s.numbered|
  }

  ghost predicate CacheOk<Value>(s: Shared<Value>, c: Cache<Value>) {
    Seen(s, c.version) && forall key :: key in c.values ==> Reflects(s, key, c.values[key].tag, c.values[key].reading)
  }

  ghost predicate PlaceOk<Value>(s: Shared<Value>, p: Place<Value>) {
    match p
    case Idle => true
    case Asks(_) => true
    case Ends(_) => true
    case Returns(_) => true
    case Knows(_, version) => Seen(s, version)
    case Asked(_, found) => Seen(s, found)
    case Misses(_, version) => Seen(s, version)
    case Has(key, version, reading) => version.Some? ==> Reflects(s, key, version.value, reading)
    case Answered(key, version, reading) => Reflects(s, key, version, reading)
  }

  /** Every numbered write is among the writes done, and so is every write that waits for its number. */
  ghost predicate SharedOk<Value>(s: Shared<Value>, writers: map<Id, Writing>) {
    && (forall n :: 0 <= n < |s.numbered| ==> s.numbered[n] <= |s.log|)
    && (forall w :: w in writers && writers[w].Wrote? ==> writers[w].position < |s.log|)
  }

  ghost predicate Inv<Value>(s: State<Value>) {
    && SharedOk(s.shared, s.writers)
    && (forall pod :: pod in s.pods ==> CacheOk(s.shared, s.pods[pod]))
    && (forall t :: t in s.threads ==> PlaceOk(s.shared, s.threads[t]))
  }

  /** The store only grows. */
  ghost predicate Grows<Value>(a: Shared<Value>, b: Shared<Value>) {
    a.log <= b.log && a.numbered <= b.numbered
  }

  lemma {:induction false} ReflectsLasts<Value>(a: Shared<Value>, b: Shared<Value>, key: Key, version: nat, r: Reading<Value>)
    requires Grows(a, b) && Reflects(a, key, version, r)
    ensures Reflects(b, key, version, r)
  {
    assert b.log[..r.readAt] == a.log[..r.readAt];
  }

  lemma {:induction false} CacheLasts<Value>(a: Shared<Value>, b: Shared<Value>, c: Cache<Value>)
    requires Grows(a, b) && CacheOk(a, c)
    ensures CacheOk(b, c)
  {
    hide Reflects;
    forall key | key in c.values
      ensures Reflects(b, key, c.values[key].tag, c.values[key].reading)
    {
      ReflectsLasts(a, b, key, c.values[key].tag, c.values[key].reading);
    }
  }

  lemma {:induction false} PlaceLasts<Value>(a: Shared<Value>, b: Shared<Value>, p: Place<Value>)
    requires Grows(a, b) && PlaceOk(a, p)
    ensures PlaceOk(b, p)
  {
    hide Reflects;
    match p {
      case Has(key, version, reading) => if version.Some? { ReflectsLasts(a, b, key, version.value, reading); }
      case Answered(key, version, reading) => ReflectsLasts(a, b, key, version, reading);
      case _ =>
    }
  }

  /** Reading the store now reflects every write numbered so far. */
  lemma {:induction false} ReadNow<Value>(s: Shared<Value>, writers: map<Id, Writing>, key: Key, version: nat)
    requires SharedOk(s, writers) && version <= |s.numbered|
    ensures Reflects(s, key, version, Reading(Latest(s.log, key), |s.log|))
  {
    assert s.log[..|s.log|] == s.log;
  }

  lemma {:induction false} WriteKeeps<Value(!new)>(s: State<Value>, s': State<Value>, w: Id)
    requires Inv(s) && Writes(s, s', w)
    ensures Inv(s')
  {
    hide CacheOk, PlaceOk;
    WriteGrows(s, s', w);
    forall pod | pod in s'.pods
      ensures CacheOk(s'.shared, s'.pods[pod])
    {
      CacheLasts(s.shared, s'.shared, s.pods[pod]);
    }
    forall t | t in s'.threads
      ensures PlaceOk(s'.shared, s'.threads[t])
    {
      PlaceLasts(s.shared, s'.shared, s.threads[t]);
    }
  }

  lemma {:induction false} WriteGrows<Value(!new)>(s: State<Value>, s': State<Value>, w: Id)
    requires SharedOk(s.shared, s.writers) && Writes(s, s', w)
    ensures Grows(s.shared, s'.shared) && SharedOk(s'.shared, s'.writers) && s'.pods == s.pods && s'.threads == s.threads
  {
  }

  /** One thread of one pod moved on; everything else is untouched. */
  lemma {:induction false} MoveKeeps<Value>(s: State<Value>, s': State<Value>, pod: Id, thread: Id, c: Cache<Value>, p: Place<Value>)
    requires Inv(s) && Moves(s, s', pod, thread, c, p) && CacheOk(s.shared, c) && PlaceOk(s.shared, p)
    ensures Inv(s')
  {
    hide CacheOk, PlaceOk, SharedOk;
  }

  lemma {:induction false} PodIsOk<Value>(s: State<Value>, pod: Id, thread: Id)
    requires Inv(s)
    ensures CacheOk(s.shared, PodOf(s, pod)) && PlaceOk(s.shared, PlaceOf(s, pod, thread)) && SharedOk(s.shared, s.writers)
  {
    hide SharedOk, PlaceOk;
    assert PlaceOk<Value>(s.shared, Idle) by { IdleOk<Value>(s.shared); }
  }

  lemma {:induction false} IdleOk<Value>(s: Shared<Value>)
    ensures PlaceOk<Value>(s, Idle)
  {
  }

  lemma {:induction false} NoteOk<Value>(s: Shared<Value>, c: Cache<Value>, found: Option<nat>, now: int)
    requires CacheOk(s, c) && Seen(s, found)
    ensures CacheOk(s, Note(c, found, now))
  {
    hide Reflects;
  }

  lemma {:induction false} SectionsOk<Value>(s: Shared<Value>, c: Cache<Value>, now: int, epoch: int, limits: Limits)
    requires CacheOk(s, c)
    ensures CacheOk(s, Known(c, now, epoch, limits).0) && CacheOk(s, Refreshed(c, now)) && CacheOk(s, Forget(c))
  {
    hide Reflects;
  }

  lemma {:induction false} LookupOk<Value>(s: Shared<Value>, c: Cache<Value>, key: Key, version: nat, now: int, limits: Limits)
    requires CacheOk(s, c)
    ensures CacheOk(s, Lookup(c, key, version, now, limits).0)
    ensures var hit := Lookup(c, key, version, now, limits).1; hit.Some? ==> Reflects(s, key, version, hit.value)
  {
    hide Reflects;
  }

  lemma {:induction false} RememberOk<Value>(s: Shared<Value>, c: Cache<Value>, key: Key, version: nat, reading: Reading<Value>,
                                             now: int, limits: Limits)
    requires CacheOk(s, c) && Reflects(s, key, version, reading)
    ensures CacheOk(s, Remember(c, key, version, reading, now, limits))
  {
    hide Reflects;
  }

  /** The same for a single cache, as implications. */
  lemma {:induction false} SectionsStay<Value>(s: Shared<Value>, c: Cache<Value>, now: int, epoch: int, limits: Limits)
    ensures CacheOk(s, c) ==> CacheOk(s, Known(c, now, epoch, limits).0) && CacheOk(s, Refreshed(c, now))
  {
    if CacheOk(s, c) { SectionsOk(s, c, now, epoch, limits); }
  }

  /** What looking up leaves, and what a hit is. */
  lemma {:induction false} LookupSays<Value>(c: Cache<Value>, key: Key, version: nat, now: int, limits: Limits)
    ensures var (d, hit) := Lookup(c, key, version, now, limits);
            && d.refreshing == c.refreshing && d.version == c.version
            && (forall k :: k in d.values ==> k in c.values && d.values[k] == c.values[k])
            && (hit.Some? <==> key in c.values && c.values[key].tag == version && now - c.values[key].at < limits.maxAge)
            && (hit.Some? ==> hit.value == c.values[key].reading && d == c) && (hit.None? ==> key !in d.values)
  {
  }

  /** What remembering leaves. */
  lemma {:induction false} RememberSays<Value>(c: Cache<Value>, key: Key, version: nat, reading: Reading<Value>, now: int,
                                               limits: Limits)
    ensures var d := Remember(c, key, version, reading, now, limits);
            && d.refreshing == c.refreshing && d.version == c.version
            && (c.version == Some(version) ==> key in d.values && d.values[key] == Entry(reading, version, now))
            && forall k :: k in d.values ==>
                 (k in c.values && d.values[k] == c.values[k]) || (k == key && d.values[k] == Entry(reading, version, now))
  {
  }

  lemma {:induction false} VersionSeen<Value>(s: Shared<Value>, c: Cache<Value>)
    ensures CacheOk(s, c) ==> Seen(s, c.version)
  {
  }

  lemma {:induction false} NoteStays<Value>(s: Shared<Value>, c: Cache<Value>, found: Option<nat>, now: int)
    ensures CacheOk(s, c) && Seen(s, found) ==> CacheOk(s, Note(c, found, now))
  {
    if CacheOk(s, c) && Seen(s, found) { NoteOk(s, c, found, now); }
  }

  lemma {:induction false} LookupStays<Value>(s: Shared<Value>, c: Cache<Value>, key: Key, version: nat, now: int, limits: Limits)
    ensures CacheOk(s, c) ==> CacheOk(s, Lookup(c, key, version, now, limits).0)
    ensures var hit := Lookup(c, key, version, now, limits).1; CacheOk(s, c) && hit.Some? ==> Reflects(s, key, version, hit.value)
  {
    if CacheOk(s, c) { LookupOk(s, c, key, version, now, limits); }
  }

  /** A reading that reflects every number reflects the numbers up to a version in use. */
  lemma {:induction false} FreshStays<Value>(s: Shared<Value>, c: Cache<Value>, key: Key, version: nat, reading: Reading<Value>,
                                             now: int, limits: Limits)
    ensures CacheOk(s, c) && version <= |s.numbered| && Reflects(s, key, |s.numbered|, reading) ==>
              Reflects(s, key, version, reading) && CacheOk(s, Remember(c, key, version, reading, now, limits))
  {
    if CacheOk(s, c) && version <= |s.numbered| && Reflects(s, key, |s.numbered|, reading) {
      RememberOk(s, c, key, version, reading, now, limits);
    }
  }

  lemma {:induction false} ReadKeeps<Value(!new)>(s: State<Value>, s': State<Value>, pod: Id, thread: Id, now: int, limits: Limits)
    requires Inv(s) && Reads(s, s', pod, thread, now, limits)
    ensures Inv(s')
  {
    hide Inv, CacheOk, SharedOk, Reflects, Known, Note, Refreshed, Forget, Lookup, Remember, Moves, Latest;
    var c := PodOf(s, pod);
    PodIsOk(s, pod, thread);
    match PlaceOf(s, pod, thread) {
      case Idle =>
        IdleKeeps(s, s', pod, thread, now, limits);
      case Asks(key) =>
        var p: Place<Value> := if key.Some? then Ends(key.value) else Idle;
        if Moves(s, s', pod, thread, c, p) {
          MoveKeeps(s, s', pod, thread, c, p);
        } else {
          MoveKeeps(s, s', pod, thread, c, Asked(key, VersionOf(s.shared)));
        }
      case Asked(key, found) =>
        NoteOk(s.shared, c, found, now);
        MoveKeeps(s, s', pod, thread, Note(c, found, now), if key.Some? then Ends(key.value) else Idle);
      case Ends(key) =>
        SectionsOk(s.shared, c, now, 0, limits);
        MoveKeeps(s, s', pod, thread, Refreshed(c, now), Returns(key));
      case Returns(key) =>
        SeenVersion(s.shared, c);
        MoveKeeps(s, s', pod, thread, c, Knows(key, c.version));
      case Knows(key, version) =>
        if version == None {
          MoveKeeps(s, s', pod, thread, c, Misses(key, None));
        } else {
          LookupOk(s.shared, c, key, version.value, now, limits);
          var (d, hit) := Lookup(c, key, version.value, now, limits);
          MoveKeeps(s, s', pod, thread, d, if hit.Some? then Answered(key, version.value, hit.value) else Misses(key, version));
        }
      case Misses(key, version) =>
        if version.Some? { ReadNow(s.shared, s.writers, key, version.value); }
        MoveKeeps(s, s', pod, thread, c, Has(key, version, Reading(Latest(s.shared.log, key), |s.shared.log|)));
      case Has(key, version, reading) =>
        if version.Some? { RememberOk(s.shared, c, key, version.value, reading, now, limits); }
        MoveKeeps(s, s', pod, thread, if version.Some? then Remember(c, key, version.value, reading, now, limits) else c, Idle);
      case Answered(_, _, _) =>
        MoveKeeps(s, s', pod, thread, c, Idle);
    }
  }

  lemma {:induction false} SeenVersion<Value>(s: Shared<Value>, c: Cache<Value>)
    requires CacheOk(s, c)
    ensures Seen(s, c.version)
  {
  }

  lemma {:induction false} IdleKeeps<Value(!new)>(s: State<Value>, s': State<Value>, pod: Id, thread: Id, now: int, limits: Limits)
    requires Inv(s) && PlaceOf(s, pod, thread) == Idle && Reads(s, s', pod, thread, now, limits)
    ensures Inv(s')
  {
    hide Inv, CacheOk, SharedOk, Reflects, Known, Note, Refreshed, Forget, Lookup, Remember, Moves, Latest;
    var c := PodOf(s, pod);
    PodIsOk(s, pod, thread);
    SectionsOk(s.shared, c, now, 0, limits);
    if Moves(s, s', pod, thread, c, Asks(None)) {
      MoveKeeps(s, s', pod, thread, c, Asks(None));
    } else if Moves(s, s', pod, thread, Forget(c), Idle) {
      MoveKeeps(s, s', pod, thread, Forget(c), Idle);
    } else {
      var key, epoch :| Begins(s, s', pod, thread, now, limits, key, epoch);
      var (d, refresh) := Known(c, now, epoch, limits);
      SectionsOk(s.shared, c, now, epoch, limits);
      SeenVersion(s.shared, d);
      MoveKeeps(s, s', pod, thread, d, if refresh then Asks(Some(key)) else Knows(key, d.version));
    }
  }

  lemma {:induction false} RunInv<Value(!new)>(states: seq<State<Value>>, limits: Limits, i: nat)
    requires Run(states, limits) && i < |states|
    ensures Inv(states[i])
    decreases i
  {
    hide Inv, Writes, Reads;
    if i == 0 {
      InitialInv(states[0]);
    } else {
      RunInv(states, limits, i - 1);
      var s, s' := states[i - 1], states[i];
      if exists w :: Writes(s, s', w) {
        var w :| Writes(s, s', w);
        WriteKeeps(s, s', w);
      } else {
        var pod, thread, now :| Reads(s, s', pod, thread, now, limits);
        ReadKeeps(s, s', pod, thread, now, limits);
      }
    }
  }

  lemma {:induction false} InitialInv<Value>(s: State<Value>)
    requires Initial(s)
    ensures Inv(s)
  {
  }

  /** In every run of writers and pods: an entry tagged `v`, and an answer given from the cache under version `v`, reflect
      every write numbered up to `v`. */
  lemma {:induction false} CacheIsFresh<Value(!new)>(states: seq<State<Value>>, limits: Limits, i: nat)
    requires Run(states, limits) && i < |states|
    ensures forall pod, key :: pod in states[i].pods && key in states[i].pods[pod].values ==>
              Reflects(states[i].shared, key, states[i].pods[pod].values[key].tag, states[i].pods[pod].values[key].reading)
    ensures forall t :: t in states[i].threads && states[i].threads[t].Answered? ==>
              Reflects(states[i].shared, states[i].threads[t].key, states[i].threads[t].under, states[i].threads[t].reading)
  {
    RunInv(states, limits, i);
    hide Run, Reflects;
  }
}
