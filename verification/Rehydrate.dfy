/** Response-path replacement of a session's surrogates (src/pipeline/rehydrate.py). */
module Rehydration {
  import opened Prelude
  import opened Substitution
  import opened Engine
  import opened Session
  import Ff1

  /** _resolve_real_value for a registered surrogate. */
  function ResolveRealValue(ciph: Ff1.Cipher, st: State, surrogate: string): Result<string>
    requires surrogate in st.known
  {
    if st.known[surrogate].entityType in NAME_MAP_ENTITY_TYPES then
      if surrogate in st.nameReverse then Ok(st.nameReverse[surrogate]) else Err(RehydrationError)
    else Decrypt(ciph, st.known[surrogate].entityType, surrogate)
  }

  /** What each registered surrogate resolves to. */
  function Resolutions(ciph: Ff1.Cipher, st: State): (m: map<string, Result<string>>)
    ensures m.Keys == st.known.Keys
  {
    map s | s in st.known :: ResolveRealValue(ciph, st, s)
  }

  /** The substitution pass; the first match that does not resolve raises. */
  function Scan(m: map<string, Result<string>>, t: string): Result<string>
    decreases |t|
  {
    if t == "" then Ok("")
    else match LongestAt(m, t)
      case Some(s) =>
        var head :- m[s];
        var rest :- Scan(m, t[|s|..]);
        Ok(head + rest)
      case None =>
        var rest :- Scan(m, t[1..]);
        Ok([t[0]] + rest)
  }

  function Rehydrate(ciph: Ff1.Cipher, st: State, text: string): Result<string> {
    if st.known == map[] then Ok(text) else Scan(Resolutions(ciph, st), text)
  }

  ghost predicate AllResolve(ciph: Ff1.Cipher, st: State) {
    forall s | s in st.known :: ResolveRealValue(ciph, st, s).Ok?
  }

  /** Surrogate to real value; a surrogate that does not resolve has none. */
  ghost function TableOf(ciph: Ff1.Cipher, st: State): (m: Table)
    ensures m.Keys == st.known.Keys
    ensures forall s | s in m && ResolveRealValue(ciph, st, s).Ok? :: ResolveRealValue(ciph, st, s) == Ok(m[s])
  {
    map s | s in st.known :: var r := ResolveRealValue(ciph, st, s); if r.Ok? then r.value else ""
  }

  lemma {:induction false} ScanIsSub(r: map<string, Result<string>>, m: Table, t: string)
    requires r.Keys == m.Keys && forall s | s in m :: r[s] == Ok(m[s])
    ensures Scan(r, t) == Ok(Sub(m, t))
    decreases |t|
  {
    if t != "" {
      LongestSameKeys(r, m, t, |t|);
      match LongestAt(m, t)
      case Some(s) => ScanIsSub(r, m, t[|s|..]);
      case None => ScanIsSub(r, m, t[1..]);
    }
  }

  lemma {:induction false} SubNothing(m: Table, t: string)
    requires m == map[]
    ensures Sub(m, t) == t
  {
    if t != "" {
      SubNothing(m, t[1..]);
    }
  }

  /** If every known surrogate resolves, rehydration raises on no text and is the
      leftmost-longest substitution. */
  lemma RehydrateIsSub(ciph: Ff1.Cipher, st: State, text: string)
    requires AllResolve(ciph, st)
    ensures Rehydrate(ciph, st, text) == Ok(Sub(TableOf(ciph, st), text))
  {
    var m := TableOf(ciph, st);
    if st.known == map[] {
      assert m.Keys == {};
      SubNothing(m, text);
    } else {
      ScanIsSub(Resolutions(ciph, st), m, text);
    }
  }

  lemma ScanKey(m: map<string, Result<string>>, s: string)
    requires s in m && s != ""
    ensures Scan(m, s) == m[s]
  {
    assert s <= s;
    var l := LongestAt(m, s).value;
    assert l == s && s[|s|..] == "";
    assert m[s].Ok? ==> m[s].value + "" == m[s].value;
  }

  /** A registered surrogate on its own: a name becomes what the reverse map has for it, or
      raises when that has nothing; anything else is decrypted. */
  lemma RehydrateOne(ciph: Ff1.Cipher, st: State, surrogate: string)
    requires surrogate in st.known && surrogate != ""
    ensures var e := st.known[surrogate].entityType;
      Rehydrate(ciph, st, surrogate) ==
        if e != Person && e != Org && e != Address then Decrypt(ciph, e, surrogate)
        else if surrogate in st.nameReverse then Ok(st.nameReverse[surrogate])
        else Err(RehydrationError)
  {
    hide Scan, Decrypt;
    var r := Resolutions(ciph, st);
    assert surrogate in r.Keys && st.known != map[];
    ScanKey(r, surrogate);
  }

  /** The surrogates matched in a text, from left to right. */
  function Matches(m: Table, t: string): seq<string>
    decreases |t|
  {
    if t == "" then []
    else match LongestAt(m, t)
      case Some(s) => [s] + Matches(m, t[|s|..])
      case None => Matches(m, t[1..])
  }

  /** Surrogate i of the matches is the first that does not resolve, and this is why. */
  ghost predicate FirstFailure(r: map<string, Result<string>>, ms: seq<string>, i: nat, e: Error) {
    i < |ms| && ms[i] in r && r[ms[i]] == Err(e) && forall j | 0 <= j < i :: ms[j] in r && r[ms[j]].Ok?
  }

  lemma FailureLater(r: map<string, Result<string>>, ms: seq<string>, i: nat, e: Error)
    requires ms != [] && ms[0] in r && r[ms[0]].Ok? && FirstFailure(r, ms[1..], i, e)
    ensures FirstFailure(r, ms, i + 1, e)
  {
    forall j | 0 <= j < i + 1 ensures ms[j] in r && r[ms[j]].Ok? {
      assert j > 0 ==> ms[j] == ms[1..][j - 1];
    }
  }

  lemma {:induction false} ScanOutcome(r: map<string, Result<string>>, m: Table, t: string)
    requires r.Keys == m.Keys && forall s | s in m :: r[s].Ok? ==> r[s] == Ok(m[s])
    ensures forall s | s in Matches(m, t) :: s in m
    ensures match Scan(r, t)
      case Ok(text) => text == Sub(m, t) && forall s | s in Matches(m, t) :: r[s].Ok?
      case Err(e) => exists i :: FirstFailure(r, Matches(m, t), i, e)
    decreases |t|
  {
    hide FirstFailure, Scan, Sub, LongestWithin;
    if t == "" {
      ScanEmpty(r, m);
    } else {
      LongestSameKeys(r, m, t, |t|);
      match LongestAt(m, t)
      case Some(s) =>
        ScanTakes(r, m, t, s);
        var rest := t[|s|..];
        ScanOutcome(r, m, rest);
        assert Matches(m, t)[1..] == Matches(m, rest);
        if r[s].Err? {
          FailsNow(r, Matches(m, t), r[s].error);
        } else if Scan(r, rest).Err? {
          var i :| FirstFailure(r, Matches(m, rest), i, Scan(r, rest).error);
          FailureLater(r, Matches(m, t), i, Scan(r, rest).error);
        }
      case None =>
        ScanOutcome(r, m, t[1..]);
        ScanSkips(r, m, t);
    }
  }

  lemma ScanEmpty(r: map<string, Result<string>>, m: Table)
    ensures Scan(r, "") == Ok("") && Sub(m, "") == "" && Matches(m, "") == []
  {
  }

  lemma ScanSkips(r: map<string, Result<string>>, m: Table, t: string)
    requires t != "" && LongestAt(r, t) == None && LongestAt(m, t) == None
    ensures Matches(m, t) == Matches(m, t[1..]) && Sub(m, t) == [t[0]] + Sub(m, t[1..])
    ensures Scan(r, t) == match Scan(r, t[1..]) case Ok(x) => Ok([t[0]] + x) case Err(e) => Err(e)
  {
    hide LongestAt;
  }

  lemma ScanTakes(r: map<string, Result<string>>, m: Table, t: string, s: string)
    requires t != "" && LongestAt(r, t) == Some(s) && LongestAt(m, t) == Some(s)
    ensures s in r && s in m && |s| <= |t| && Matches(m, t) == [s] + Matches(m, t[|s|..])
    ensures Sub(m, t) == m[s] + Sub(m, t[|s|..])
    ensures Scan(r, t) == if r[s].Err? then Err(r[s].error) else
      match Scan(r, t[|s|..]) case Ok(x) => Ok(r[s].value + x) case Err(e) => Err(e)
  {
  }

  lemma FailsNow(r: map<string, Result<string>>, ms: seq<string>, e: Error)
    requires ms != [] && ms[0] in r && r[ms[0]] == Err(e)
    ensures FirstFailure(r, ms, 0, e)
  {
  }

  /** In every session state: rehydration is the substitution when every surrogate matched
      in the text resolves, and else the error of the first one that does not. */
  lemma RehydrateOutcome(ciph: Ff1.Cipher, st: State, text: string)
    ensures var m := TableOf(ciph, st);
      (forall s | s in Matches(m, text) :: s in st.known)
      && match Rehydrate(ciph, st, text)
         case Ok(t) => t == Sub(m, text) && forall s | s in Matches(m, text) :: Resolutions(ciph, st)[s].Ok?
         case Err(e) => exists i :: FirstFailure(Resolutions(ciph, st), Matches(m, text), i, e)
  {
    hide ResolveRealValue, FirstFailure;
    var m, r := TableOf(ciph, st), Resolutions(ciph, st);
    forall s | s in m ensures r[s].Ok? ==> r[s] == Ok(m[s]) {
      assert s in m.Keys && s in st.known;
    }
    ScanOutcome(r, m, text);
    if st.known == map[] {
      assert m.Keys == {};
      SubNothing(m, text);
    }
    forall s | s in Matches(m, text) ensures s in st.known {
      assert s in m.Keys;
    }
  }
}
