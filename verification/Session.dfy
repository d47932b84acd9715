/** Session state and its name map (src/session/session.py). */
module Session {
  import opened Prelude
  import opened Engine

  /** known_surrogate.py: what a session remembers about a surrogate it minted. */
  datatype KnownSurrogate = KnownSurrogate(entityType: EntityType, createdAt: int)

  datatype State = State(
    lastAccessedAt: int,
    known: map<string, KnownSurrogate>,
    nameForward: map<string, string>,
    nameReverse: map<string, string>)

  function New(createdAt: int): State {
    State(createdAt, map[], map[], map[])
  }

  predicate Alive(st: State, now: int, ttl: int) {
    now - st.lastAccessedAt <= ttl
  }

  function Touched(st: State, now: int, ttl: int): State {
    if Alive(st, now, ttl) then st.(lastAccessedAt := now) else st
  }

  function Recorded(st: State, surrogate: string, e: EntityType, now: int): State {
    st.(known := st.known[surrogate := KnownSurrogate(e, now)])
  }

  /** The first candidate, in shuffled order, that no real value holds yet. */
  function FirstFree(shuffled: seq<string>, taken: map<string, string>): (r: Option<string>)
    ensures r.Some? ==> r.value in shuffled && r.value !in taken
    ensures r.None? <==> forall c | c in shuffled :: c in taken
  {
    if shuffled == [] then None
    else if shuffled[0] !in taken then Some(shuffled[0])
    else FirstFree(shuffled[1..], taken)
  }

  function Allocated(st: State, name: string, e: EntityType, shuffled: seq<string>, now: int): Result<(State, string)> {
    if name in st.nameForward then Ok((st, st.nameForward[name]))
    else match FirstFree(shuffled, st.nameReverse)
      case None => Err(NameListExhaustedError)
      case Some(c) =>
        Ok((st.(nameForward := st.nameForward[name := c],
                nameReverse := st.nameReverse[c := name],
                known := st.known[c := KnownSurrogate(e, now)]), c))
  }

  class Session {
    const sessionId: string
    var lastAccessedAt: int
    var known: map<string, KnownSurrogate>
    var nameForward: map<string, string>
    var nameReverse: map<string, string>

    constructor (sessionId: string, createdAt: int)
      ensures this.sessionId == sessionId && Value() == New(createdAt)
      ensures lastAccessedAt == createdAt && known == map[] && nameForward == nameReverse == map[]
    {
      this.sessionId := sessionId;
      lastAccessedAt, known, nameForward, nameReverse := createdAt, map[], map[], map[];
    }

    function Value(): State
      reads this
    {
      State(lastAccessedAt, known, nameForward, nameReverse)
    }

    method TouchIfAlive(now: int, ttl: int) returns (alive: bool)
      modifies this
      ensures alive <==> now - old(lastAccessedAt) <= ttl
      ensures lastAccessedAt == if alive then now else old(lastAccessedAt)
      ensures Value() == Touched(old(Value()), now, ttl)
      ensures known == old(known) && nameForward == old(nameForward) && nameReverse == old(nameReverse)
    {
      if now - lastAccessedAt > ttl {
        return false;
      }
      lastAccessedAt := now;
      return true;
    }

    method RecordSurrogate(surrogate: string, e: EntityType, now: int)
      modifies this
      ensures Value() == Recorded(old(Value()), surrogate, e, now)
      ensures known == old(known)[surrogate := KnownSurrogate(e, now)] && lastAccessedAt == old(lastAccessedAt)
      ensures nameForward == old(nameForward) && nameReverse == old(nameReverse)
    {
      known := known[surrogate := KnownSurrogate(e, now)];
    }

    method AllocateOrLookupName(name: string, e: EntityType, candidates: seq<string>,
                                shuffle: seq<string> -> seq<string>, now: int) returns (r: Result<string>)
      modifies this
      ensures var a := Allocated(old(Value()), name, e, shuffle(candidates), now);
        if a.Ok? then r == Ok(a.value.1) && Value() == a.value.0
        else r == Err(a.error) && Value() == old(Value())
    {
      if name in nameForward {
        return Ok(nameForward[name]);
      }
      var shuffled := shuffle(candidates);
      for i := 0 to |shuffled|
        invariant Value() == old(Value())
        invariant FirstFree(shuffled, nameReverse) == FirstFree(shuffled[i..], nameReverse)
      {
        var candidate := shuffled[i];
        assert shuffled[i..][1..] == shuffled[i + 1..];
        if candidate !in nameReverse {
          nameForward := nameForward[name := candidate];
          nameReverse := nameReverse[candidate := name];
          known := known[candidate := KnownSurrogate(e, now)];
          return Ok(candidate);
        }
      }
      return Err(NameListExhaustedError);
    }
  }

  // ------------------------------------------------------- reachable states

  datatype Op =
    | Touch(now: int, ttl: int)
    | Record(surrogate: string, entityType: EntityType, now: int)
    | Allocate(name: string, entityType: EntityType, shuffled: seq<string>, now: int)

  function Step(st: State, op: Op): State {
    match op
    case Touch(now, ttl) => Touched(st, now, ttl)
    case Record(s, e, now) => Recorded(st, s, e, now)
    case Allocate(name, e, shuffled, now) =>
      var a := Allocated(st, name, e, shuffled, now);
      if a.Ok? then a.value.0 else st
  }

  /** The only discipline callers keep: structured surrogates are the ones recorded. */
  predicate Disciplined(op: Op) {
    op.Record? ==> op.entityType !in NAME_MAP_ENTITY_TYPES
  }

  function Run(st: State, ops: seq<Op>): State {
    if ops == [] then st else Step(Run(st, ops[..|ops| - 1]), ops[|ops| - 1])
  }

  /** The name maps are mutually inverse bijections. */
  ghost predicate Bijective(st: State) {
    (forall r | r in st.nameForward :: st.nameForward[r] in st.nameReverse && st.nameReverse[st.nameForward[r]] == r)
    && forall c | c in st.nameReverse :: st.nameReverse[c] in st.nameForward && st.nameForward[st.nameReverse[c]] == c
  }

  /** Allocated names are registered, and every name-typed entry has a real value. */
  ghost predicate NamesResolve(st: State) {
    (forall c | c in st.nameReverse :: c in st.known)
    && forall s | s in st.known && st.known[s].entityType in NAME_MAP_ENTITY_TYPES :: s in st.nameReverse
  }

  /** Every mapping of a is in b. */
  ghost predicate Extends(a: map<string, string>, b: map<string, string>) {
    forall k | k in a :: k in b && b[k] == a[k]
  }

  lemma StepKeeps(st: State, op: Op)
    requires Bijective(st)
    ensures Bijective(Step(st, op))
    ensures Extends(st.nameForward, Step(st, op).nameForward)
    ensures Extends(st.nameReverse, Step(st, op).nameReverse)
    ensures NamesResolve(st) && Disciplined(op) ==> NamesResolve(Step(st, op))
  {
  }

  /** After any sequence of operations the maps are inverse bijections and only ever grew:
      a surrogate's real value, once set, never changes. With disciplined callers every
      name-typed registry entry has a reverse entry. */
  lemma {:induction false} RunKeeps(st: State, ops: seq<Op>)
    requires Bijective(st)
    ensures Bijective(Run(st, ops))
    ensures Extends(st.nameForward, Run(st, ops).nameForward)
    ensures Extends(st.nameReverse, Run(st, ops).nameReverse)
    ensures NamesResolve(st) && (forall op | op in ops :: Disciplined(op)) ==> NamesResolve(Run(st, ops))
  {
    if ops != [] {
      RunKeeps(st, ops[..|ops| - 1]);
      StepKeeps(Run(st, ops[..|ops| - 1]), ops[|ops| - 1]);
    }
  }

  /** In particular from a fresh session. */
  lemma ReachableInvariant(createdAt: int, ops: seq<Op>)
    ensures Bijective(Run(New(createdAt), ops))
    ensures (forall op | op in ops :: Disciplined(op)) ==> NamesResolve(Run(New(createdAt), ops))
  {
    RunKeeps(New(createdAt), ops);
  }

  /** The discipline is needed: recording a name type for a string never allocated leaves a
      registry entry rehydration cannot resolve, and nothing else does. */
  lemma RecordNeedsDiscipline(st: State, s: string, e: EntityType, now: int)
    requires NamesResolve(st)
    ensures NamesResolve(Recorded(st, s, e, now)) <==> (e !in NAME_MAP_ENTITY_TYPES || s in st.nameReverse)
  {
    var st' := Recorded(st, s, e, now);
    assert st'.known[s].entityType == e;
  }

  /** For a value not yet mapped and any shuffle, allocation fails exactly when every
      candidate is taken; otherwise it takes a free candidate for this value alone. */
  lemma AllocationOutcome(st: State, name: string, e: EntityType, candidates: seq<string>,
                          shuffled: seq<string>, now: int)
    requires Bijective(st) && multiset(shuffled) == multiset(candidates) && name !in st.nameForward
    ensures Allocated(st, name, e, shuffled, now).Err? <==> forall c | c in candidates :: c in st.nameReverse
    ensures var a := Allocated(st, name, e, shuffled, now);
      a.Ok? ==> a.value.1 in candidates && a.value.1 !in st.nameReverse
                && a.value.0.nameForward == st.nameForward[name := a.value.1]
                && forall r | r in a.value.0.nameForward && r != name :: a.value.0.nameForward[r] != a.value.1
  {
    assert forall c :: c in shuffled <==> c in multiset(shuffled);
    assert forall c :: c in candidates <==> c in multiset(candidates);
  }

  /** Asking again for the same value, whatever happened in between, gives the same surrogate. */
  lemma AllocationIdempotent(st: State, name: string, e: EntityType, shuffled: seq<string>, now: int,
                             ops: seq<Op>, e': EntityType, shuffled': seq<string>, now': int)
    requires Bijective(st) && Allocated(st, name, e, shuffled, now).Ok?
    ensures var (st1, c) := Allocated(st, name, e, shuffled, now).value;
      var st2 := Run(st1, ops);
      Allocated(st2, name, e', shuffled', now') == Ok((st2, c))
  {
    StepKeeps(st, Allocate(name, e, shuffled, now));
    RunKeeps(Allocated(st, name, e, shuffled, now).value.0, ops);
  }
}
