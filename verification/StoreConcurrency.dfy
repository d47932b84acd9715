/** Every interleaving of any number of get_or_create callers. Each locked block is one
    atomic step; between its two store-lock sections a caller touches its session under
    the session's own lock. */
module StoreConcurrency {
  import opened Prelude
  import opened SessionStore

  type Handle = int

  /** A session object: the id it was created for and its last access. */
  datatype Object = Object(key: string, lastAccessedAt: int)

  /** Where a caller is inside get_or_create. */
  datatype Caller =
    | Looked(id: string, now: int, seen: Option<Handle>)
    | Missed(id: string, now: int, seen: Option<Handle>)
    | Returned(id: string, handle: Handle)

  /** The store, the session objects ever created (by handle), the callers, and, as
      history, when each key was last used. */
  datatype System = System(
    entries: Entries<Handle>,
    objects: seq<Object>,
    callers: map<nat, Caller>,
    lastUse: map<string, nat>,
    time: nat)

  datatype Action =
    | Look(caller: nat, id: string, now: int)
    | Touch(caller: nat)
    | Install(caller: nat)

  datatype Config = Config(ttl: int, max: nat)

  const START := System([], [], map[], map[], 0)

  ghost predicate Enabled(s: System, a: Action) {
    match a
    case Look(c, _, _) => c !in s.callers || s.callers[c].Returned?
    case Touch(c) => c in s.callers && s.callers[c].Looked?
                     && (s.callers[c].seen.Some? ==> 0 <= s.callers[c].seen.value < |s.objects|)
    case Install(c) => c in s.callers && s.callers[c].Missed?
  }

  predicate Expired(s: System, h: Handle, now: int, ttl: int)
    requires 0 <= h < |s.objects|
  {
    now - s.objects[h].lastAccessedAt > ttl
  }

  function Next(cfg: Config, s: System, a: Action): System
    requires Enabled(s, a)
  {
    match a
    case Look(c, id, now) =>
      var hit := Find(s.entries, id);
      s.(entries := FirstLock(s.entries, id), callers := s.callers[c := Looked(id, now, hit)],
         lastUse := if hit.Some? then s.lastUse[id := s.time] else s.lastUse, time := s.time + 1)
    case Touch(c) =>
      var Looked(id, now, seen) := s.callers[c];
      if seen.Some? && !Expired(s, seen.value, now, cfg.ttl) then
        s.(objects := s.objects[seen.value := s.objects[seen.value].(lastAccessedAt := now)],
           callers := s.callers[c := Returned(id, seen.value)], time := s.time + 1)
      else
        s.(callers := s.callers[c := Missed(id, now, seen)], time := s.time + 1)
    case Install(c) =>
      var Missed(id, now, seen) := s.callers[c];
      var es := SecondLock(s.entries, id, seen, |s.objects|, cfg.max);
      if Reuses(s.entries, id, seen) then
        s.(entries := es, callers := s.callers[c := Returned(id, Find(s.entries, id).value)],
           lastUse := s.lastUse[id := s.time], time := s.time + 1)
      else
        s.(entries := es, objects := s.objects + [Object(id, now)],
           callers := s.callers[c := Returned(id, |s.objects|)],
           lastUse := s.lastUse[id := s.time], time := s.time + 1)
  }

  /** The handle a caller holds, if any. */
  function Held(c: Caller): Option<Handle> {
    match c
    case Returned(_, h) => Some(h)
    case Looked(_, _, seen) => seen
    case Missed(_, _, seen) => seen
  }

  /** Entries and callers only refer to objects made for their own id. */
  ghost predicate OwnKeys(s: System) {
    (forall e | e in s.entries :: 0 <= e.1 < |s.objects| && s.objects[e.1].key == e.0)
    && forall c | c in s.callers && Held(s.callers[c]).Some? ::
         0 <= Held(s.callers[c]).value < |s.objects| && s.objects[Held(s.callers[c]).value].key == s.callers[c].id
  }

  function UseOf(use: map<string, nat>, id: string): int {
    if id in use then use[id] else -1
  }

  /** Entries stand in the order of their last use, all before the given time. */
  predicate Ordered(es: Entries<Handle>, use: map<string, nat>, time: nat) {
    es == []
    || (UseOf(use, es[0].0) < time && Ordered(es[1..], use, time)
        && forall e | e in es[1..] :: UseOf(use, es[0].0) < UseOf(use, e.0))
  }

  ghost predicate Invariant(cfg: Config, s: System) {
    |s.entries| <= cfg.max && Distinct(s.entries) && OwnKeys(s) && Ordered(s.entries, s.lastUse, s.time)
  }

  /** Where a sequence of actions leads, if each is enabled in its turn. */
  ghost function Reach(cfg: Config, actions: seq<Action>): Option<System> {
    if actions == [] then Some(START)
    else
      var n := |actions| - 1;
      match Reach(cfg, actions[..n])
      case Some(s) => if Enabled(s, actions[n]) then Some(Next(cfg, s, actions[n])) else None
      case None => None
  }

  // ------------------------------------------------------------- preservation

  /** Putting a key last with a use later than all others keeps the order. */
  lemma {:induction false} PutLastOrdered(es: Entries<Handle>, id: string, h: Handle, use: map<string, nat>, time: nat)
    requires Ordered(es, use, time)
    ensures Ordered(PutLast(es, id, h), use[id := time], time + 1)
  {
    var use' := use[id := time];
    if es == [] {
      assert PutLast(es, id, h) == [(id, h)];
      assert [(id, h)][1..] == [];
    } else {
      PutLastOrdered(es[1..], id, h, use, time);
      var r := PutLast(es[1..], id, h);
      if es[0].0 == id {
        assert PutLast(es, id, h) == r;
      } else {
        assert PutLast(es, id, h) == [es[0]] + r;
        assert ([es[0]] + r)[1..] == r;
        OrderedBefore(es[1..], use, time);
        forall e | e in r ensures UseOf(use', es[0].0) < UseOf(use', e.0) {
        }
      }
    }
  }

  lemma {:induction false} OrderedBefore(es: Entries<Handle>, use: map<string, nat>, time: nat)
    requires Ordered(es, use, time)
    ensures forall e | e in es :: UseOf(use, e.0) < time
  {
    if es != [] {
      OrderedBefore(es[1..], use, time);
    }
  }

  lemma {:induction false} OrderedLater(es: Entries<Handle>, use: map<string, nat>, time: nat)
    requires Ordered(es, use, time)
    ensures Ordered(es, use, time + 1)
  {
    if es != [] {
      OrderedLater(es[1..], use, time);
    }
  }

  lemma LookKeeps(cfg: Config, s: System, c: nat, id: string, now: int)
    requires Invariant(cfg, s) && Enabled(s, Look(c, id, now))
    ensures Invariant(cfg, Next(cfg, s, Look(c, id, now)))
  {
    FirstLockEffect(s.entries, id, id);
    FirstLockOrdered(s.entries, id, s.lastUse, s.time);
    hide FirstLock, Ordered, Distinct;
    var hit := Find(s.entries, id);
  }

  lemma FirstLockOrdered(es: Entries<Handle>, id: string, use: map<string, nat>, time: nat)
    requires Ordered(es, use, time)
    ensures Ordered(FirstLock(es, id), if Find(es, id).Some? then use[id := time] else use, time + 1)
  {
    if Find(es, id).Some? {
      PutLastOrdered(es, id, Find(es, id).value, use, time);
    } else {
      OrderedLater(es, use, time);
    }
  }

  lemma TouchKeeps(cfg: Config, s: System, c: nat)
    requires Invariant(cfg, s) && Enabled(s, Touch(c))
    ensures Invariant(cfg, Next(cfg, s, Touch(c)))
  {
    OrderedLater(s.entries, s.lastUse, s.time);
    hide Ordered, Distinct;
  }

  lemma SecondLockOrdered(es: Entries<Handle>, id: string, seen: Option<Handle>, created: Handle, max: nat,
                          use: map<string, nat>, time: nat)
    requires Ordered(es, use, time)
    ensures Ordered(SecondLock(es, id, seen, created, max), use[id := time], time + 1)
  {
    if Reuses(es, id, seen) {
      PutLastOrdered(es, id, Find(es, id).value, use, time);
    } else {
      PutLastOrdered(AfterEviction(es, id, max), id, created, use, time);
    }
  }

  lemma InstallKeeps(cfg: Config, s: System, c: nat)
    requires cfg.max >= 1 && Invariant(cfg, s) && Enabled(s, Install(c))
    ensures Invariant(cfg, Next(cfg, s, Install(c)))
  {
    var m := s.callers[c];
    InstallOwnKeys(cfg, s, c);
    InstallShape(cfg, s, c);
    InstallEntries(cfg, s, m.id, m.seen, |s.objects|);
    hide *;
    InvariantParts(cfg, Next(cfg, s, Install(c)));
  }

  lemma InstallEntries(cfg: Config, s: System, id: string, seen: Option<Handle>, created: Handle)
    requires cfg.max >= 1 && Invariant(cfg, s)
    ensures var es := SecondLock(s.entries, id, seen, created, cfg.max);
      |es| <= cfg.max && Distinct(es) && Ordered(es, s.lastUse[id := s.time], s.time + 1)
  {
    hide SecondLock, Ordered, Distinct, Find, OwnKeys, Reuses, Evicts;
    SecondLockKeeps(s.entries, id, seen, created, cfg.max);
    SecondLockOrdered(s.entries, id, seen, created, cfg.max, s.lastUse, s.time);
  }

  lemma InvariantParts(cfg: Config, s: System)
    requires |s.entries| <= cfg.max && Distinct(s.entries) && OwnKeys(s) && Ordered(s.entries, s.lastUse, s.time)
    ensures Invariant(cfg, s)
  {
  }

  lemma InstallShape(cfg: Config, s: System, c: nat)
    requires Enabled(s, Install(c))
    ensures var s', m := Next(cfg, s, Install(c)), s.callers[c];
      s'.entries == SecondLock(s.entries, m.id, m.seen, |s.objects|, cfg.max)
      && s'.lastUse == s.lastUse[m.id := s.time] && s'.time == s.time + 1
  {
    hide SecondLock;
  }

  lemma InstallOwnKeys(cfg: Config, s: System, c: nat)
    requires cfg.max >= 1 && Invariant(cfg, s) && Enabled(s, Install(c))
    ensures OwnKeys(Next(cfg, s, Install(c)))
  {
    var Missed(id, now, seen) := s.callers[c];
    hide SecondLock, Ordered, Distinct;
    SecondLockKeeps(s.entries, id, seen, |s.objects|, cfg.max);
    var s' := Next(cfg, s, Install(c));
    assert forall h | 0 <= h < |s.objects| :: s'.objects[h] == s.objects[h];
    forall e | e in s'.entries ensures 0 <= e.1 < |s'.objects| && s'.objects[e.1].key == e.0 {
    }
  }

  lemma NextKeeps(cfg: Config, s: System, a: Action)
    requires cfg.max >= 1 && Invariant(cfg, s) && Enabled(s, a)
    ensures Invariant(cfg, Next(cfg, s, a))
  {
    match a
    case Look(c, id, now) => LookKeeps(cfg, s, c, id, now);
    case Touch(c) => TouchKeeps(cfg, s, c);
    case Install(c) => InstallKeeps(cfg, s, c);
  }

  /** In every reachable state the store is within its capacity, its keys are distinct,
      every entry and every caller holds a session of its own id, and the entries are in
      least-recently-used order. */
  lemma {:induction false} ReachableInvariant(cfg: Config, actions: seq<Action>)
    requires cfg.max >= 1 && Reach(cfg, actions).Some?
    ensures Invariant(cfg, Reach(cfg, actions).value)
  {
    hide Invariant, Next, Enabled;
    if actions == [] {
      StartKeeps(cfg);
    } else {
      var n := |actions| - 1;
      ReachableInvariant(cfg, actions[..n]);
      NextKeeps(cfg, Reach(cfg, actions[..n]).value, actions[n]);
    }
  }

  lemma StartKeeps(cfg: Config)
    ensures Invariant(cfg, START)
  {
  }

  // --------------------------------------------- who may change what an id maps to

  /** An id's entry changes from one session to another, or goes, only when a caller
      installs: either for that same id, having found that very session expired, or for a
      new id in a full store, and then the entry that goes is the least recently used. */
  lemma EntryChange(cfg: Config, s: System, a: Action, id: string)
    requires cfg.max >= 1 && Invariant(cfg, s) && Enabled(s, a)
    requires Find(s.entries, id).Some? && Find(Next(cfg, s, a).entries, id) != Find(s.entries, id)
    ensures a.Install?
    ensures var Missed(id', now, seen) := s.callers[a.caller];
      if id' == id then seen == Find(s.entries, id)
      else Find(s.entries, id').None? && |s.entries| == cfg.max && s.entries[0].0 == id
           && forall e | e in s.entries[1..] :: UseOf(s.lastUse, id) < UseOf(s.lastUse, e.0)
  {
    if a.Look? {
      FirstLockEffect(s.entries, a.id, id);
    } else if a.Install? {
      var Missed(id', now, seen) := s.callers[a.caller];
      SecondLockFind(s.entries, id', seen, |s.objects|, cfg.max, id);
      OldestFirst(s.entries, s.lastUse, s.time);
    }
    hide FirstLock, SecondLock, Distinct, Ordered, Find;
  }

  lemma OldestFirst(es: Entries<Handle>, use: map<string, nat>, time: nat)
    requires Ordered(es, use, time)
    ensures forall e | e in es && es != [] && e in es[1..] :: UseOf(use, es[0].0) < UseOf(use, e.0)
  {
  }

  /** A caller misses on a session it found only because that session had expired when the
      caller touched it. */
  lemma MissMeansExpired(cfg: Config, s: System, a: Action, c: nat)
    requires Enabled(s, a)
    requires var s' := Next(cfg, s, a);
      c in s'.callers && s'.callers[c].Missed? && s'.callers[c].seen.Some? && !(c in s.callers && s.callers[c].Missed?)
    ensures a == Touch(c) && Expired(s, s.callers[c].seen.value, s.callers[c].now, cfg.ttl)
  {
  }

  /** Caller c is about to install, having found h. */
  ghost predicate HasMissed(cfg: Config, actions: seq<Action>, c: nat, h: Handle) {
    Reach(cfg, actions).Some?
    && var s := Reach(cfg, actions).value;
       c in s.callers && s.callers[c].Missed? && s.callers[c].seen == Some(h)
  }

  /** At step m of a run, caller c touched session h and found it expired. */
  ghost predicate TouchFails(cfg: Config, actions: seq<Action>, m: nat, c: nat, h: Handle) {
    m < |actions| && actions[m] == Touch(c) && Reach(cfg, actions[..m]).Some?
    && var s := Reach(cfg, actions[..m]).value;
       c in s.callers && s.callers[c].Looked? && s.callers[c].seen == Some(h)
       && 0 <= h < |s.objects| && Expired(s, h, s.callers[c].now, cfg.ttl)
  }

  /** And from that step to the end of the run the same call has been waiting to install. */
  ghost predicate FailedTouch(cfg: Config, actions: seq<Action>, m: nat, c: nat, h: Handle) {
    TouchFails(cfg, actions, m, c, h)
    && forall n: nat | m < n <= |actions| :: HasMissed(cfg, actions[..n], c, h)
  }

  lemma FailedTouchLater(cfg: Config, actions: seq<Action>, m: nat, c: nat, h: Handle)
    requires actions != [] && FailedTouch(cfg, actions[..|actions| - 1], m, c, h) && HasMissed(cfg, actions, c, h)
    ensures FailedTouch(cfg, actions, m, c, h)
  {
    hide HasMissed;
    var k := |actions| - 1;
    assert actions[..k][..m] == actions[..m];
    forall n: nat | m < n <= |actions| ensures HasMissed(cfg, actions[..n], c, h) {
      if n <= k {
        assert actions[..k][..n] == actions[..n];
      } else {
        assert actions[..n] == actions;
      }
    }
  }

  /** Over any run: a caller about to install after having found session h has, in the same
      call and at an earlier step, touched h itself and found it expired. */
  lemma {:induction false} MissedAfterFailedTouch(cfg: Config, actions: seq<Action>, c: nat, h: Handle)
    requires HasMissed(cfg, actions, c, h)
    ensures exists m :: FailedTouch(cfg, actions, m, c, h)
  {
    hide FailedTouch, HasMissed;
    MissedOrNow(cfg, actions, c, h);
    var n := |actions| - 1;
    if HasMissed(cfg, actions[..n], c, h) {
      MissedAfterFailedTouch(cfg, actions[..n], c, h);
      var m :| FailedTouch(cfg, actions[..n], m, c, h);
      FailedTouchLater(cfg, actions, m, c, h);
    } else {
      MissedNow(cfg, actions, c, h);
    }
  }

  lemma MissedOrNow(cfg: Config, actions: seq<Action>, c: nat, h: Handle)
    requires HasMissed(cfg, actions, c, h)
    ensures actions != []
  {
  }

  lemma MissedNow(cfg: Config, actions: seq<Action>, c: nat, h: Handle)
    requires actions != [] && HasMissed(cfg, actions, c, h) && !HasMissed(cfg, actions[..|actions| - 1], c, h)
    ensures FailedTouch(cfg, actions, |actions| - 1, c, h)
  {
    hide FirstLock, SecondLock, Find;
    var n := |actions| - 1;
    var s := Reach(cfg, actions[..n]).value;
    if !(c in s.callers && s.callers[c].Missed?) {
      MissMeansExpired(cfg, s, actions[n], c);
    }
    assert actions[..|actions|] == actions;
  }

  /** Over any run: an id's session is replaced only by a caller of that id that touched
      that very session earlier in the same call and found it expired; or it is pushed
      out of a full store by a new id, being the least recently used. */
  lemma ReplacedAfterFailedTouch(cfg: Config, actions: seq<Action>, a: Action, id: string, h: Handle)
    requires cfg.max >= 1 && Reach(cfg, actions).Some? && Enabled(Reach(cfg, actions).value, a)
    requires var s := Reach(cfg, actions).value;
      Find(s.entries, id) == Some(h) && Find(Next(cfg, s, a).entries, id) != Some(h)
    ensures a.Install?
    ensures var s := Reach(cfg, actions).value;
      if s.callers[a.caller].id == id then exists m :: FailedTouch(cfg, actions, m, a.caller, h)
      else Find(s.entries, s.callers[a.caller].id).None? && |s.entries| == cfg.max && s.entries[0].0 == id
           && forall e | e in s.entries[1..] :: UseOf(s.lastUse, id) < UseOf(s.lastUse, e.0)
  {
    hide Invariant, Find, FailedTouch;
    ReachableInvariant(cfg, actions);
    var s := Reach(cfg, actions).value;
    EntryChange(cfg, s, a, id);
    if s.callers[a.caller].id == id {
      MissedAfterFailedTouch(cfg, actions, a.caller, h);
    }
  }

  // -------------------------------------------------- one object for all callers

  /** A step on which no session is found expired and no entry is pushed out. */
  ghost predicate Quiet(cfg: Config, s: System, a: Action)
    requires Enabled(s, a)
  {
    match a
    case Look(_, _, _) => true
    case Touch(c) => s.callers[c].seen.Some? ==> !Expired(s, s.callers[c].seen.value, s.callers[c].now, cfg.ttl)
    case Install(c) => !Evicts(s.entries, s.callers[c].id, cfg.max)
  }

  ghost predicate QuietRun(cfg: Config, actions: seq<Action>) {
    forall n | 0 <= n < |actions| ::
      Reach(cfg, actions[..n]).Some? && Enabled(Reach(cfg, actions[..n]).value, actions[n])
      && Quiet(cfg, Reach(cfg, actions[..n]).value, actions[n])
  }

  /** Whatever a caller holds for an id is what the store maps the id to. */
  ghost predicate Agreed(s: System) {
    forall c | c in s.callers ::
      (Held(s.callers[c]).Some? ==> Find(s.entries, s.callers[c].id) == Held(s.callers[c]))
      && (s.callers[c].Missed? ==> s.callers[c].seen.None?)
  }

  /** On a quiet step an id keeps its session, and an installing caller gets it. */
  lemma QuietLookup(cfg: Config, s: System, a: Action, id: string)
    requires cfg.max >= 1 && Invariant(cfg, s) && Enabled(s, a) && Quiet(cfg, s, a) && Agreed(s)
    ensures Find(s.entries, id).Some? ==> Find(Next(cfg, s, a).entries, id) == Find(s.entries, id)
    ensures a.Install? && s.callers[a.caller].id == id ==>
      Find(Next(cfg, s, a).entries, id) == Some(Next(cfg, s, a).callers[a.caller].handle)
  {
    if a.Look? {
      FirstLockEffect(s.entries, a.id, id);
    } else if a.Install? {
      var Missed(id', now, seen) := s.callers[a.caller];
      SecondLockFind(s.entries, id', seen, |s.objects|, cfg.max, id);
    }
    hide FirstLock, SecondLock, Distinct, Ordered, Find, OwnKeys;
  }

  /** What the acting caller holds after a quiet step. */
  lemma QuietActor(cfg: Config, s: System, a: Action)
    requires cfg.max >= 1 && Invariant(cfg, s) && Enabled(s, a) && Quiet(cfg, s, a) && Agreed(s)
    ensures var s' := Next(cfg, s, a);
      a.caller in s'.callers
      && (Held(s'.callers[a.caller]).Some? ==>
            Find(s'.entries, s'.callers[a.caller].id) == Held(s'.callers[a.caller]))
      && (s'.callers[a.caller].Missed? ==> s'.callers[a.caller].seen.None?)
  {
    QuietLookup(cfg, s, a, Next(cfg, s, a).callers[a.caller].id);
    hide FirstLock, SecondLock, Find, Invariant, Reuses;
  }

  lemma QuietKeepsAgreed(cfg: Config, s: System, a: Action)
    requires cfg.max >= 1 && Invariant(cfg, s) && Enabled(s, a) && Quiet(cfg, s, a) && Agreed(s)
    ensures Agreed(Next(cfg, s, a))
  {
    var s' := Next(cfg, s, a);
    QuietActor(cfg, s, a);
    forall c | c in s'.callers && c != a.caller
      ensures c in s.callers && s'.callers[c] == s.callers[c]
      ensures Held(s'.callers[c]).Some? ==> Find(s'.entries, s'.callers[c].id) == Held(s'.callers[c])
    {
      assert c in s.callers && s'.callers[c] == s.callers[c];
      QuietLookup(cfg, s, a, s.callers[c].id);
    }
    hide FirstLock, SecondLock, Find, Invariant, Reuses, Next, Quiet, Enabled;
  }

  lemma {:induction false} QuietRunAgreed(cfg: Config, actions: seq<Action>)
    requires cfg.max >= 1 && QuietRun(cfg, actions)
    ensures Reach(cfg, actions).Some? && Agreed(Reach(cfg, actions).value)
  {
    hide Invariant, Next, Enabled, Quiet;
    if actions != [] {
      var n := |actions| - 1;
      assert forall k | 0 <= k < n :: actions[..n][..k] == actions[..k];
      QuietRunAgreed(cfg, actions[..n]);
      ReachableInvariant(cfg, actions[..n]);
      QuietKeepsAgreed(cfg, Reach(cfg, actions[..n]).value, actions[n]);
    }
  }

  /** Without expiry or eviction, all callers of one id are given the same session. */
  lemma OneSessionPerId(cfg: Config, actions: seq<Action>, c: nat, d: nat)
    requires cfg.max >= 1 && QuietRun(cfg, actions) && Reach(cfg, actions).Some?
    requires var s := Reach(cfg, actions).value;
      c in s.callers && d in s.callers && s.callers[c].Returned? && s.callers[d].Returned?
      && s.callers[c].id == s.callers[d].id
    ensures var s := Reach(cfg, actions).value; s.callers[c].handle == s.callers[d].handle
  {
    QuietRunAgreed(cfg, actions);
    var s := Reach(cfg, actions).value;
    assert Held(s.callers[c]).Some? && Held(s.callers[d]).Some?;
  }

  // --------------------------------------------------------- how long a session lives

  /** A step that hands session h to its caller, whose call came at now, by touching or by
      creating it. */
  ghost predicate Hands(s: System, a: Action, s': System, h: Handle, now: int) {
    var c := a.caller;
    c in s.callers && c in s'.callers && !s.callers[c].Returned? && s.callers[c].now == now
    && s'.callers[c] == Returned(s.callers[c].id, h) && (a.Touch? || h == |s.objects|)
  }

  /** Step m of a run is such a step. */
  ghost predicate Renews(cfg: Config, actions: seq<Action>, m: nat, h: Handle, now: int) {
    m < |actions| && Reach(cfg, actions[..m]).Some?
    && var s := Reach(cfg, actions[..m]).value;
       Enabled(s, actions[m]) && Hands(s, actions[m], Next(cfg, s, actions[m]), h, now)
  }

  /** And no later step is. */
  ghost predicate LastRenewed(cfg: Config, actions: seq<Action>, m: nat, h: Handle, now: int) {
    Renews(cfg, actions, m, h, now)
    && forall n: nat, t | m < n < |actions| :: !Renews(cfg, actions, n, h, t)
  }

  lemma HandsIs(cfg: Config, s: System, a: Action, h: Handle)
    requires cfg.max >= 1 && Invariant(cfg, s) && Enabled(s, a)
    ensures |Next(cfg, s, a).objects| >= |s.objects|
    ensures var s' := Next(cfg, s, a);
      0 <= h < |s'.objects| ==>
        if exists t :: Hands(s, a, s', h, t) then Hands(s, a, s', h, s'.objects[h].lastAccessedAt)
        else h < |s.objects| && s'.objects[h] == s.objects[h]
  {
    hide FirstLock, SecondLock, Distinct, Ordered;
    var s' := Next(cfg, s, a);
    if a.Install? {
      var Missed(id, now, seen) := s.callers[a.caller];
      if Reuses(s.entries, id, seen) {
        assert (id, Find(s.entries, id).value) in s.entries;
      } else if h == |s.objects| {
        assert Hands(s, a, s', h, now);
      }
    } else if a.Touch? && s'.callers[a.caller] == Returned(s.callers[a.caller].id, h) {
      assert Hands(s, a, s', h, s.callers[a.caller].now);
    }
  }

  lemma RenewsEarlier(cfg: Config, actions: seq<Action>, m: nat, h: Handle, now: int)
    requires actions != [] && m < |actions| - 1
    ensures Renews(cfg, actions[..|actions| - 1], m, h, now) <==> Renews(cfg, actions, m, h, now)
  {
    assert actions[..|actions| - 1][..m] == actions[..m];
  }

  /** Every session has been handed out, and its last access is the clock of the last call
      it was handed to. */
  lemma {:induction false} LastAccess(cfg: Config, actions: seq<Action>, h: Handle)
    requires cfg.max >= 1 && Reach(cfg, actions).Some? && 0 <= h < |Reach(cfg, actions).value.objects|
    ensures exists m :: LastRenewed(cfg, actions, m, h, Reach(cfg, actions).value.objects[h].lastAccessedAt)
  {
    hide Invariant, Next, Enabled, Hands, Renews;
    if actions != [] {
      var n := |actions| - 1;
      var s, s' := Reach(cfg, actions[..n]).value, Reach(cfg, actions).value;
      ReachableInvariant(cfg, actions[..n]);
      HandsIs(cfg, s, actions[n], h);
      RenewsLast(cfg, actions, n, h);
      if exists t :: Hands(s, actions[n], s', h, t) {
        assert LastRenewed(cfg, actions, n, h, s'.objects[h].lastAccessedAt);
      } else {
        LastAccess(cfg, actions[..n], h);
        var at := s.objects[h].lastAccessedAt;
        var m :| LastRenewed(cfg, actions[..n], m, h, at);
        RenewedStays(cfg, actions, n, m, h, at);
      }
    }
  }

  lemma RenewsLast(cfg: Config, actions: seq<Action>, n: nat, h: Handle)
    requires |actions| == n + 1 && Reach(cfg, actions).Some?
    ensures var s, s' := Reach(cfg, actions[..n]).value, Reach(cfg, actions).value;
      forall t :: Renews(cfg, actions, n, h, t) <==> Hands(s, actions[n], s', h, t)
  {
    hide Next, Enabled, Hands;
  }

  lemma RenewedStays(cfg: Config, actions: seq<Action>, n: nat, m: nat, h: Handle, now: int)
    requires |actions| == n + 1 && LastRenewed(cfg, actions[..n], m, h, now)
    requires forall t :: !Renews(cfg, actions, n, h, t)
    ensures LastRenewed(cfg, actions, m, h, now)
  {
    hide Reach, Enabled, Next, Hands;
    assert m < n by {
      RenewsBefore(cfg, actions[..n], m, h, now);
    }
    hide Renews;
    assert actions[..|actions| - 1] == actions[..n];
    RenewsEarlier(cfg, actions, m, h, now);
    forall k: nat, t | m < k < |actions| ensures !Renews(cfg, actions, k, h, t) {
      if k < n {
        RenewsEarlier(cfg, actions, k, h, t);
      }
    }
  }

  lemma RenewsBefore(cfg: Config, actions: seq<Action>, m: nat, h: Handle, now: int)
    requires Renews(cfg, actions, m, h, now)
    ensures m < |actions|
    ensures forall t | Renews(cfg, actions, m, h, t) :: t == now
  {
  }

  /** In every run: a caller that found session h at time t is given h exactly when t lies
      within one ttl of the last call, by whichever caller, that h was handed to. */
  lemma TouchOutcome(cfg: Config, actions: seq<Action>, d: nat, h: Handle)
    requires cfg.max >= 1 && Reach(cfg, actions).Some?
    requires var s := Reach(cfg, actions).value; d in s.callers && s.callers[d].Looked? && s.callers[d].seen == Some(h)
    ensures Enabled(Reach(cfg, actions).value, Touch(d)) && exists m, now :: LastRenewed(cfg, actions, m, h, now)
    ensures forall m, now | LastRenewed(cfg, actions, m, h, now) ::
      var s := Reach(cfg, actions).value;
      var Looked(id, t, _) := s.callers[d];
      Next(cfg, s, Touch(d)).callers[d] == if t - now <= cfg.ttl then Returned(id, h) else Missed(id, t, Some(h))
  {
    ReachableInvariant(cfg, actions);
    LastAccess(cfg, actions, h);
    var s := Reach(cfg, actions).value;
    var at := s.objects[h].lastAccessedAt;
    var k :| LastRenewed(cfg, actions, k, h, at);
    forall m, now | LastRenewed(cfg, actions, m, h, now) ensures now == at {
      RenewsBefore(cfg, actions, m, h, now);
      RenewsBefore(cfg, actions, k, h, at);
      assert m == k;
    }
  }
}
