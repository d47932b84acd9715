/** Splicing surrogates into a text and substituting them back. */
module RoundTrip {
  import opened Prelude
  import opened Substitution

  /** A text as untouched characters and replaced stretches. */
  datatype Piece = Lit(c: char) | Rep(value: string, surrogate: string)

  function Original(ps: seq<Piece>): string {
    if ps == [] then ""
    else (if ps[0].Lit? then [ps[0].c] else ps[0].value) + Original(ps[1..])
  }

  function Replaced(ps: seq<Piece>): string {
    if ps == [] then ""
    else (if ps[0].Lit? then [ps[0].c] else ps[0].surrogate) + Replaced(ps[1..])
  }

  predicate LitRun(ps: seq<Piece>, n: nat) {
    n <= |ps| && forall i | 0 <= i < n :: ps[i].Lit?
  }

  /** Every surrogate stands for its own value. */
  predicate Mapped(m: Table, ps: seq<Piece>) {
    forall i | 0 <= i < |ps| && ps[i].Rep? :: ps[i].surrogate in m && m[ps[i].surrogate] == ps[i].value
  }

  /** No key occurring in the original text meets a replaced stretch. */
  ghost predicate Clean(m: Table, ps: seq<Piece>) {
    ps == []
    || ((if ps[0].Lit? then forall k | k in m && k <= Original(ps) :: LitRun(ps, |k|)
         else KeyFreeTo(m, Original(ps), |ps[0].value|))
        && Clean(m, ps[1..]))
  }

  /** In the replaced text, the key matched at each replaced stretch is its surrogate, and
      no key that starts in untouched text reaches into one. */
  ghost predicate Exact(m: Table, ps: seq<Piece>) {
    ps == []
    || ((if ps[0].Lit? then forall k | k in m && k <= Replaced(ps) :: LitRun(ps, |k|)
         else LongestAt(m, Replaced(ps)) == Some(ps[0].surrogate))
        && Exact(m, ps[1..]))
  }

  /** A run of untouched characters reads the same before and after. */
  lemma {:induction false} LitPrefix(ps: seq<Piece>, n: nat)
    requires LitRun(ps, n)
    ensures n <= |Original(ps)| && n <= |Replaced(ps)| && Original(ps)[..n] == Replaced(ps)[..n]
    ensures Original(ps)[n..] == Original(ps[n..]) && Replaced(ps)[n..] == Replaced(ps[n..])
  {
    hide Original, Replaced;
    if n == 0 {
      assert ps[0..] == ps;
    } else {
      LitPrefix(ps[1..], n - 1);
      assert ps[1..][n - 1..] == ps[n..];
      var o, r := Original(ps[1..]), Replaced(ps[1..]);
      LitCons(ps);
      ConsCut(ps[0].c, o, n);
      ConsCut(ps[0].c, r, n);
    }
  }

  lemma LitCons(ps: seq<Piece>)
    requires ps != [] && ps[0].Lit?
    ensures Original(ps) == [ps[0].c] + Original(ps[1..]) && Replaced(ps) == [ps[0].c] + Replaced(ps[1..])
  {
  }

  lemma ConsCut(c: char, s: string, n: nat)
    requires 0 < n <= |s| + 1
    ensures ([c] + s)[..n] == [c] + s[..n - 1] && ([c] + s)[n..] == s[n - 1..]
  {
  }

  lemma {:induction false} AllLits(ps: seq<Piece>)
    requires LitRun(ps, |ps|)
    ensures |Replaced(ps)| == |ps|
  {
    if ps != [] {
      AllLits(ps[1..]);
    }
  }

  /** A key at the start of the replaced text, when that starts with an untouched
      character, lies in untouched characters only. */
  lemma {:induction false} KeyInLits(m: Table, ps: seq<Piece>, k: string, n: nat)
    requires KeysApart(m) && Mapped(m, ps) && k in m && k <= Replaced(ps)
    requires 0 < n && LitRun(ps, n)
    ensures LitRun(ps, |k|)
    decreases |ps| - n
  {
    if n < |k| {
      LitPrefix(ps, n);
      if n == |ps| {
        AllLits(ps);
      } else if ps[n].Lit? {
        KeyInLits(m, ps, k, n + 1);
      } else {
        var s := ps[n].surrogate;
        assert ps[n..][0] == ps[n] && s <= Replaced(ps[n..]);
        OverlapAgrees(Replaced(ps), k, s, n);
      }
    }
  }

  /** Surrogates that keep apart from each other are matched exactly in any text. */
  lemma {:induction false} ApartIsExact(m: Table, ps: seq<Piece>)
    requires KeysApart(m) && Mapped(m, ps)
    ensures Exact(m, ps)
    decreases |ps|
  {
    hide KeysApart, LongestAt;
    if ps != [] {
      ApartIsExact(m, ps[1..]);
      if ps[0].Lit? {
        forall k | k in m && k <= Replaced(ps) ensures LitRun(ps, |k|) {
          KeyInLits(m, ps, k, 1);
        }
      } else {
        KeysApartEndsApart(m);
        LongestIsKey(m, ps[0].surrogate, Replaced(ps[1..]));
      }
    }
  }

  lemma {:induction false} CleanTail(m: Table, ps: seq<Piece>, n: nat)
    requires Clean(m, ps) && Exact(m, ps) && n <= |ps|
    ensures Clean(m, ps[n..]) && Exact(m, ps[n..])
  {
    hide LongestAt, LitRun, KeyFreeTo;
    if n == 0 {
      assert ps[0..] == ps;
    } else {
      CleanTail(m, ps[1..], n - 1);
      assert ps[1..][n - 1..] == ps[n..];
    }
  }

  /** Substituting in the replaced text is substituting in the original. */
  lemma {:induction false} SubReplaced(m: Table, ps: seq<Piece>)
    requires Mapped(m, ps) && Clean(m, ps) && Exact(m, ps)
    ensures Sub(m, Replaced(ps)) == Sub(m, Original(ps))
    decreases |ps|
  {
    hide Sub, LongestAt;
    if ps == [] {
    } else if ps[0].Rep? {
      var rest := ps[1..];
      SubReplaced(m, rest);
      FoundKey(m, Replaced(ps));
      assert Replaced(ps)[|ps[0].surrogate|..] == Replaced(rest);
      NoKeyPasses(m, ps[0].value, Original(rest));
    } else if LongestAt(m, Replaced(ps)).Some? {
      SubAtKey(m, ps);
    } else {
      var rest := ps[1..];
      SubReplaced(m, rest);
      SameLongest(m, ps);
      SubChar(m, ps[0].c, Replaced(rest));
      SubChar(m, ps[0].c, Original(rest));
    }
  }

  lemma LitKey(ps: seq<Piece>, k: string)
    requires LitRun(ps, |k|)
    ensures k <= Original(ps) <==> k <= Replaced(ps)
  {
    LitPrefix(ps, |k|);
  }

  /** At an untouched character the same key is matched before and after. */
  lemma SameLongest(m: Table, ps: seq<Piece>)
    requires Clean(m, ps) && Exact(m, ps) && ps != [] && ps[0].Lit?
    ensures LongestAt(m, Original(ps)) == LongestAt(m, Replaced(ps))
  {
    hide LitRun, Original, Replaced, LongestAt;
    forall k | k in m ensures k <= Original(ps) <==> k <= Replaced(ps) {
      if k <= Original(ps) || k <= Replaced(ps) {
        LitKey(ps, k);
      }
    }
    SameKeysMatch(m, Original(ps), Replaced(ps));
  }

  lemma SameKeysMatch(m: Table, t: string, u: string)
    requires forall k | k in m :: k <= t <==> k <= u
    ensures LongestAt(m, t) == LongestAt(m, u)
  {
    var o, r := LongestAt(m, t), LongestAt(m, u);
    if o.Some? && r.Some? {
      assert o.value == u[..|o.value|] && r.value == u[..|r.value|];
    }
  }

  lemma SubAtKey(m: Table, ps: seq<Piece>)
    requires Mapped(m, ps) && Clean(m, ps) && Exact(m, ps)
    requires ps != [] && ps[0].Lit? && LongestAt(m, Replaced(ps)).Some?
    ensures Sub(m, Replaced(ps)) == Sub(m, Original(ps))
    decreases |ps|, 0
  {
    hide Sub, LongestAt;
    FoundKey(m, Replaced(ps));
    SameLongest(m, ps);
    FoundKey(m, Original(ps));
    var k := LongestAt(m, Replaced(ps)).value;
    LitPrefix(ps, |k|);
    CleanTail(m, ps, |k|);
    SubReplaced(m, ps[|k|..]);
  }

  /** With no surrogate in the original text, substituting back restores it. */
  lemma {:induction false} SubClean(m: Table, t: string)
    requires KeyFreeTo(m, t, |t|)
    ensures Sub(m, t) == t
  {
    assert t + "" == t;
    NoKeyPasses(m, t, "");
    SubEmpty(m);
  }
}
