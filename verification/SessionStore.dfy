/** The session registry: an ordered dictionary with LRU eviction and lazy expiry, whose
    get_or_create takes its lock twice (src/session/store.py:109-142). */
module SessionStore {
  import opened Prelude
  import opened Session

  /** An OrderedDict: oldest entry first. */
  type Entries<V> = seq<(string, V)>

  predicate Distinct<V>(es: Entries<V>) {
    forall i, j | 0 <= i < j < |es| :: es[i].0 != es[j].0
  }

  function Find<V>(es: Entries<V>, id: string): (r: Option<V>)
    ensures r.None? <==> forall i | 0 <= i < |es| :: es[i].0 != id
    ensures r.Some? ==> (id, r.value) in es
  {
    if es == [] then None
    else if es[0].0 == id then Some(es[0].1)
    else Find(es[1..], id)
  }

  function Without<V>(es: Entries<V>, id: string): (r: Entries<V>)
    ensures forall e | e in r :: e in es && e.0 != id
    ensures forall e | e in es && e.0 != id :: e in r
    ensures |r| <= |es| && (Find(es, id).Some? ==> |r| < |es|)
  {
    if es == [] then []
    else if es[0].0 == id then Without(es[1..], id)
    else [es[0]] + Without(es[1..], id)
  }

  /** Assignment followed by move_to_end. */
  function PutLast<V>(es: Entries<V>, id: string, v: V): Entries<V> {
    Without(es, id) + [(id, v)]
  }

  /** The first critical section: look up, and move a hit to the end. */
  function FirstLock<V>(es: Entries<V>, id: string): Entries<V> {
    match Find(es, id)
    case Some(v) => PutLast(es, id, v)
    case None => es
  }

  /** Whether the second critical section reuses an entry somebody else installed. */
  predicate Reuses<V(==)>(es: Entries<V>, id: string, seen: Option<V>) {
    Find(es, id).Some? && Find(es, id) != seen
  }

  /** Whether installing a new entry pushes the oldest one out. */
  predicate Evicts<V>(es: Entries<V>, id: string, max: nat) {
    Find(es, id).None? && |es| >= max
  }

  /** popitem(last=False) when needed. */
  function AfterEviction<V>(es: Entries<V>, id: string, max: nat): Entries<V> {
    if Evicts(es, id, max) && es != [] then es[1..] else es
  }

  /** The second critical section: reuse, or install the new session, evicting if needed. */
  function SecondLock<V(==)>(es: Entries<V>, id: string, seen: Option<V>, created: V, max: nat): Entries<V> {
    if Reuses(es, id, seen) then PutLast(es, id, Find(es, id).value)
    else PutLast(AfterEviction(es, id, max), id, created)
  }

  lemma {:induction false} WithoutDistinct<V>(es: Entries<V>, id: string)
    requires Distinct(es)
    ensures Distinct(Without(es, id))
  {
    if es != [] {
      WithoutDistinct(es[1..], id);
      assert forall e | e in Without(es[1..], id) :: e in es[1..];
    }
  }

  lemma {:induction false} FindUnique<V>(es: Entries<V>, id: string, v: V)
    requires Distinct(es) && (id, v) in es
    ensures Find(es, id) == Some(v)
  {
    if es[0] != (id, v) {
      assert (id, v) in es[1..];
      var i :| 0 < i < |es| && es[i] == (id, v);
      FindUnique(es[1..], id, v);
    }
  }

  /** Lookups after an update: the key holds the new value, other keys are untouched. */
  lemma PutLastFind<V>(es: Entries<V>, id: string, v: V, other: string)
    requires Distinct(es)
    ensures Distinct(PutLast(es, id, v))
    ensures Find(PutLast(es, id, v), other) == if other == id then Some(v) else Find(es, other)
  {
    WithoutDistinct(es, id);
    var r := PutLast(es, id, v);
    assert Distinct(r);
    if other == id {
      assert (id, v) in r;
      FindUnique(r, id, v);
    } else if Find(es, other).Some? {
      assert (other, Find(es, other).value) in r;
      FindUnique(r, other, Find(es, other).value);
    }
  }

  /** What the first critical section does to the dictionary: only the order changes. */
  lemma FirstLockEffect<V>(es: Entries<V>, id: string, other: string)
    requires Distinct(es)
    ensures var r := FirstLock(es, id);
      Distinct(r) && |r| <= |es| && Find(r, other) == Find(es, other) && forall e | e in r :: e in es
  {
    if Find(es, id).Some? {
      PutLastFind(es, id, Find(es, id).value, other);
    }
  }

  lemma FindTail<V>(es: Entries<V>, id: string)
    requires Distinct(es) && es != []
    ensures Distinct(es[1..]) && (forall e | e in es[1..] :: e in es)
    ensures Find(es[1..], id) == if id == es[0].0 then None else Find(es, id)
  {
    assert forall i | 0 <= i < |es[1..]| :: es[1..][i].0 != es[0].0;
  }

  /** The second critical section keeps keys distinct and the size within the capacity,
      and adds at most the new session. */
  lemma SecondLockKeeps<V>(es: Entries<V>, id: string, seen: Option<V>, created: V, max: nat)
    requires Distinct(es) && |es| <= max && max >= 1
    ensures var r := SecondLock(es, id, seen, created, max);
      Distinct(r) && |r| <= max
      && forall e | e in r :: e in es || (!Reuses(es, id, seen) && e == (id, created))
  {
    if Reuses(es, id, seen) {
      PutLastFind(es, id, Find(es, id).value, id);
    } else {
      if es != [] {
        FindTail(es, id);
      }
      PutLastFind(AfterEviction(es, id, max), id, created, id);
    }
  }

  /** The key maps to the reused or to the new session; another key is lost only by being
      the oldest when a new key needs room. */
  lemma SecondLockFind<V>(es: Entries<V>, id: string, seen: Option<V>, created: V, max: nat, other: string)
    requires Distinct(es) && |es| <= max && max >= 1
    ensures var r := SecondLock(es, id, seen, created, max);
      Find(r, other) ==
        if other == id then (if Reuses(es, id, seen) then Find(es, id) else Some(created))
        else if !Reuses(es, id, seen) && Evicts(es, id, max) && es[0].0 == other then None
        else Find(es, other)
  {
    if Reuses(es, id, seen) {
      PutLastFind(es, id, Find(es, id).value, other);
    } else {
      if es != [] {
        FindTail(es, other);
      }
      PutLastFind(AfterEviction(es, id, max), id, created, other);
    }
  }

  // --------------------------------------------------------- one caller at a time

  /** With no other caller in between, the second section never finds a new entry. */
  lemma SecondLockAlone<V>(es: Entries<V>, id: string, v: V, max: nat)
    requires max >= 1 && |es| <= max
    ensures SecondLock(es, id, Find(es, id), v, max)
         == PutLast(if Find(es, id).None? && |es| >= max then es[1..] else es, id, v)
    ensures !Reuses(es, id, Find(es, id))
  {
    hide Find, PutLast;
  }

  class Store {
    const ttl: int
    const maxSessions: nat
    var sessions: Entries<Session>

    constructor (ttl: int, maxSessions: nat)
      requires maxSessions >= 1
      ensures this.ttl == ttl && this.maxSessions == maxSessions && sessions == [] && Valid()
    {
      this.ttl, this.maxSessions, sessions := ttl, maxSessions, [];
    }

    predicate Valid()
      reads this
    {
      maxSessions >= 1 && |sessions| <= maxSessions && Distinct(sessions)
      && forall e | e in sessions :: e.1.sessionId == e.0
    }

    /** Alive entry: touched and returned; otherwise a fresh session takes the key's place,
        pushing the least recently used entry out only when the key is new and the store full. */
    method GetOrCreate(id: string, now: int) returns (s: Session)
      requires Valid()
      modifies this, if Find(sessions, id).Some? then {Find(sessions, id).value} else {}
      ensures Valid() && Find(sessions, id) == Some(s) && s.lastAccessedAt == now
      ensures var hit := Find(old(sessions), id);
        if hit.Some? && now - old(hit.value.lastAccessedAt) <= ttl
        then s == hit.value && s.Value() == old(hit.value.Value()).(lastAccessedAt := now)
             && sessions == FirstLock(old(sessions), id)
        else fresh(s) && s.Value() == State(now, map[], map[], map[])
             && sessions == SecondLock(FirstLock(old(sessions), id), id, hit, s, maxSessions)
    {
      hide Distinct, Find, PutLast, SecondLock, Reuses;
      FirstLockEffect(sessions, id, id);
      var session := Find(sessions, id);
      if session.Some? {
        sessions := PutLast(sessions, id, session.value);
        var alive := session.value.TouchIfAlive(now, ttl);
        if alive {
          return session.value;
        }
      }
      var es := sessions;
      ghost var touched := es;
      var current := Find(es, id);
      if current.Some? && current != session {
        assert false;
      }
      if current.None? && |es| >= maxSessions {
        es := es[1..];
      }
      s := new Session(id, now);
      sessions := PutLast(es, id, s);
      SecondLockAlone(touched, id, s, maxSessions);
      SecondLockFind(touched, id, session, s, maxSessions, id);
      SecondLockKeeps(touched, id, session, s, maxSessions);
    }

    /** Calls for one id with no other caller in between: each is given the session of the
        call before it when it comes within one ttl of that call, and a new one otherwise. */
    method Calls(id: string, times: seq<int>) returns (got: seq<Session>)
      requires Valid()
      modifies this, if Find(sessions, id).Some? then {Find(sessions, id).value} else {}
      ensures |got| == |times|
      ensures forall i | 0 < i < |times| ::
        if times[i] - times[i - 1] <= ttl then got[i] == got[i - 1] else got[i] !in got[..i]
    {
      hide Distinct, Find, FirstLock, SecondLock, Session.Value;
      got := [];
      for n := 0 to |times|
        invariant |got| == n && Valid()
        invariant forall i | 0 < i < n ::
          if times[i] - times[i - 1] <= ttl then got[i] == got[i - 1] else got[i] !in got[..i]
        invariant if n == 0 then sessions == old(sessions)
                  else Find(sessions, id) == Some(got[n - 1]) && got[n - 1].lastAccessedAt == times[n - 1]
        invariant Find(sessions, id).Some? ==>
                    fresh(Find(sessions, id).value) || Find(sessions, id) == Find(old(sessions), id)
      {
        var s := GetOrCreate(id, times[n]);
        got := got + [s];
      }
    }
  }
}
