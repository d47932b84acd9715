/** Leftmost-longest replacement of known surrogates by real values: what
    _pattern_for(known).sub(...) computes in src/pipeline/rehydrate.py:131 and 193-205,
    and how it behaves when text arrives in pieces. */
module Substitution {
  import opened Prelude

  /** Surrogate to real value. */
  type Table = map<string, string>

  /** The longest key that is a prefix of t and at most n long. */
  function LongestWithin<V>(m: map<string, V>, t: string, n: nat): (r: Option<string>)
    requires n <= |t|
    ensures r.Some? ==> r.value in m && r.value <= t && 0 < |r.value| <= n
    ensures forall s | s in m && s <= t && 0 < |s| <= n :: r.Some? && |s| <= |r.value|
  {
    assert forall s | s in m && s <= t && |s| == n :: s == t[..n];
    if n == 0 then None
    else if t[..n] in m then Some(t[..n])
    else LongestWithin(m, t, n - 1)
  }

  function LongestAt<V>(m: map<string, V>, t: string): Option<string> {
    LongestWithin(m, t, |t|)
  }

  /** Scan left to right; at each position the longest key wins. */
  function Sub(m: Table, t: string): string
    decreases |t|
  {
    if t == "" then ""
    else match LongestAt(m, t)
      case Some(s) => m[s] + Sub(m, t[|s|..])
      case None => [t[0]] + Sub(m, t[1..])
  }

  lemma {:induction false} LongestSameKeys<V, W>(m: map<string, V>, w: map<string, W>, t: string, n: nat)
    requires m.Keys == w.Keys && n <= |t|
    ensures LongestWithin(m, t, n) == LongestWithin(w, t, n)
  {
    if n > 0 {
      assert t[..n] in m <==> t[..n] in m.Keys;
      assert t[..n] in w <==> t[..n] in w.Keys;
      LongestSameKeys(m, w, t, n - 1);
    }
  }

  /** No key starts at position j of t. */
  ghost predicate KeyFree(m: Table, t: string, j: nat) {
    j <= |t| ==> LongestAt(m, t[j..]) == None
  }

  /** No key starts in the first n positions of t. */
  ghost predicate KeyFreeTo(m: Table, t: string, n: nat) {
    forall j: nat | j < n :: KeyFree(m, t, j)
  }

  lemma KeyFreeTail(m: Table, x: char, t: string, n: nat)
    requires KeyFreeTo(m, [x] + t, n + 1)
    ensures LongestAt(m, [x] + t) == None && KeyFreeTo(m, t, n)
  {
    hide LongestAt;
    assert KeyFree(m, [x] + t, 0) && ([x] + t)[0..] == [x] + t;
    forall j: nat | j < n ensures KeyFree(m, t, j) {
      assert KeyFree(m, [x] + t, j + 1);
      assert j <= |t| ==> ([x] + t)[j + 1..] == t[j..];
    }
  }

  /** Text in which no key starts passes through. */
  lemma {:induction false} NoKeyPasses(m: Table, v: string, rest: string)
    requires KeyFreeTo(m, v + rest, |v|)
    ensures Sub(m, v + rest) == v + Sub(m, rest)
  {
    hide Sub, LongestAt, KeyFreeTo;
    if v == "" {
      assert v + rest == rest;
      assert v + Sub(m, rest) == Sub(m, rest);
    } else {
      assert v + rest == [v[0]] + (v[1..] + rest);
      KeyFreeTail(m, v[0], v[1..] + rest, |v| - 1);
      SubChar(m, v[0], v[1..] + rest);
      NoKeyPasses(m, v[1..], rest);
      assert [v[0]] + (v[1..] + Sub(m, rest)) == v + Sub(m, rest);
    }
  }

  // ----------------------------------------------------- the regex alternation

  /** Sorted longest first, over exactly the keys: sorted(known, key=len, reverse=True). */
  ghost predicate IsPattern(ordered: seq<string>, m: Table) {
    (forall s :: s in ordered <==> s in m)
    && forall i, j | 0 <= i < j < |ordered| :: |ordered[i]| >= |ordered[j]|
  }

  /** Alternation: the first branch, in order, that matches here. */
  function FirstBranch(ordered: seq<string>, t: string): (r: Option<string>)
    ensures r.Some? ==> r.value in ordered && r.value <= t
  {
    if ordered == [] then None
    else if ordered[0] <= t then Some(ordered[0])
    else FirstBranch(ordered[1..], t)
  }

  function RegexSub(ordered: seq<string>, m: Table, t: string): string
    requires IsPattern(ordered, m) && "" !in m
    decreases |t|
  {
    if t == "" then ""
    else match FirstBranch(ordered, t)
      case Some(s) => m[s] + RegexSub(ordered, m, t[|s|..])
      case None => [t[0]] + RegexSub(ordered, m, t[1..])
  }

  lemma {:induction false} FirstBranchIsLongest(ordered: seq<string>, t: string, s: string)
    requires forall i, j | 0 <= i < j < |ordered| :: |ordered[i]| >= |ordered[j]|
    requires s in ordered && s <= t
    ensures FirstBranch(ordered, t).Some? && |FirstBranch(ordered, t).value| >= |s|
  {
    if !(ordered[0] <= t) {
      FirstBranchIsLongest(ordered[1..], t, s);
    }
  }

  /** Trying branches longest first is leftmost-longest matching, whatever the order
      among branches of equal length. */
  lemma {:induction false} RegexSubIsSub(ordered: seq<string>, m: Table, t: string)
    requires IsPattern(ordered, m) && "" !in m
    ensures RegexSub(ordered, m, t) == Sub(m, t)
    decreases |t|
  {
    hide IsPattern, LongestAt, FirstBranch;
    if t != "" {
      BranchIsLongest(ordered, m, t);
      match LongestAt(m, t)
      case Some(l) => RegexSubIsSub(ordered, m, t[|l|..]);
      case None => RegexSubIsSub(ordered, m, t[1..]);
    }
  }

  lemma BranchIsLongest(ordered: seq<string>, m: Table, t: string)
    requires IsPattern(ordered, m) && "" !in m
    ensures FirstBranch(ordered, t) == LongestAt(m, t)
    ensures LongestAt(m, t).Some? ==> 0 < |LongestAt(m, t).value| <= |t|
  {
    hide FirstBranch;
    var b, l := FirstBranch(ordered, t), LongestAt(m, t);
    if l.Some? {
      FirstBranchIsLongest(ordered, t, l.value);
      assert b.value == t[..|b.value|] && l.value == t[..|l.value|];
    }
  }

  // ------------------------------------------------------------- overlap freedom

  /** y, placed k characters into x, agrees with x wherever the two overlap. */
  ghost predicate Agree(x: string, y: string, k: nat) {
    k < |x| && forall j | k <= j < |x| && j - k < |y| :: x[j] == y[j - k]
  }

  /** Two strings found k apart in the same text agree where they overlap. */
  lemma OverlapAgrees(text: string, x: string, y: string, k: nat)
    requires k < |x| && x <= text && y <= text[k..]
    ensures Agree(x, y, k)
  {
    forall j | k <= j < |x| && j - k < |y| ensures x[j] == y[j - k] {
      assert text[k..][j - k] == text[j];
    }
  }

  /** t occurs in s at position k and ends before s does. */
  predicate EndsInside(s: string, t: string, k: nat) {
    k + |t| < |s| && s[k..k + |t|] == t
  }

  /** No surrogate is empty, and none occurs in another one ending before it. Partial
      overlaps, and a surrogate at the very end of another, are allowed. */
  ghost predicate EndsApart(m: Table) {
    "" !in m && forall s, t, k: nat | s in m && t in m :: !EndsInside(s, t, k)
  }

  /** Some text ends in r, or in s reaching beyond it, so that s starts at most n characters
      before the end of r: before r does, or in it. */
  ghost predicate Meets(s: string, r: string, n: nat) {
    (exists k: nat :: Agree(s, r, k) && 0 < k + |r| <= n)
    || exists k: nat :: Agree(r, s, k) && |r| - k <= n
  }

  lemma MeetsBefore(text: string, s: string, r: string, k: nat, n: nat)
    requires k < |s| && s <= text && r <= text[k..] && 0 < k + |r| <= n
    ensures Meets(s, r, n)
  {
    OverlapAgrees(text, s, r, k);
  }

  lemma MeetsAfter(text: string, r: string, s: string, k: nat, n: nat)
    requires k < |r| && r <= text && s <= text[k..] && |r| - k <= n
    ensures Meets(s, r, n)
  {
    OverlapAgrees(text, r, s, k);
  }

  /** No surrogate meets a real value that way. */
  ghost predicate RealsApart(m: Table, n: nat) {
    forall s, t | s in m && t in m :: !Meets(s, m[t], n)
  }

  ghost predicate OverlapFree(m: Table, n: nat) {
    EndsApart(m) && RealsApart(m, n)
  }

  /** The longest key at the start of s + rest is s. */
  lemma LongestIsKey(m: Table, s: string, rest: string)
    requires EndsApart(m) && s in m
    ensures LongestAt(m, s + rest) == Some(s)
  {
    assert s <= s + rest;
    var l := LongestAt(m, s + rest).value;
    if |l| > |s| {
      LongerEndsInside(s + rest, l, s);
    }
    assert l == (s + rest)[..|l|];
  }

  /** Of two prefixes of a text, the shorter occurs in the longer and ends inside it. */
  lemma LongerEndsInside(text: string, s: string, t: string)
    requires s <= text && t <= text && |t| < |s|
    ensures EndsInside(s, t, 0)
  {
    assert s[0..0 + |t|] == text[..|t|] == t;
  }

  /** No key starts at position k of a real value, whatever follows the value. */
  lemma NoKeyInReal(m: Table, n: nat, t: string, k: nat, rest: string)
    requires RealsApart(m, n) && t in m && k < |m[t]| && |m[t]| - k <= n
    ensures LongestAt(m, m[t][k..] + rest) == None
  {
    var r := m[t];
    var l := LongestAt(m, r[k..] + rest);
    if l.Some? {
      assert (r + rest)[k..] == r[k..] + rest;
      MeetsAfter(r + rest, r, l.value, k, n);
    }
  }

  lemma SubKey(m: Table, s: string, rest: string)
    requires EndsApart(m) && s in m
    ensures Sub(m, s + rest) == m[s] + Sub(m, rest)
  {
    LongestIsKey(m, s, rest);
    assert (s + rest)[|s|..] == rest;
  }

  lemma SubChar(m: Table, x: char, rest: string)
    requires LongestAt(m, [x] + rest) == None
    ensures Sub(m, [x] + rest) == [x] + Sub(m, rest)
  {
    assert ([x] + rest)[1..] == rest;
  }

  lemma SubEmpty(m: Table)
    ensures Sub(m, "") == ""
  {
  }

  /** The last n characters of a real value pass through substitution unchanged. */
  lemma {:induction false} RealPasses(m: Table, n: nat, t: string, k: nat, rest: string)
    requires RealsApart(m, n) && t in m && k <= |m[t]| && |m[t]| - k <= n
    ensures Sub(m, m[t][k..] + rest) == m[t][k..] + Sub(m, rest)
    decreases |m[t]| - k
  {
    hide RealsApart, LongestAt, Sub;
    var r := m[t];
    if k < |r| {
      NoKeyInReal(m, n, t, k, rest);
      assert r[k..] + rest == [r[k]] + (r[k + 1..] + rest);
      SubChar(m, r[k], r[k + 1..] + rest);
      RealPasses(m, n, t, k + 1, rest);
      assert r[k..] + Sub(m, rest) == [r[k]] + (r[k + 1..] + Sub(m, rest));
    } else {
      assert r[k..] + rest == rest;
      assert r[k..] + Sub(m, rest) == Sub(m, rest);
    }
  }

  lemma FoundKey(m: Table, t: string)
    requires LongestAt(m, t).Some?
    ensures var s := LongestAt(m, t).value;
      s in m && s != "" && s <= t && t == s + t[|s|..] && |t[|s|..]| < |t|
      && Sub(m, t) == m[s] + Sub(m, t[|s|..])
  {
  }

  /** Substituting in the tail cannot create a key at the start of a nonempty prefix. */
  lemma {:induction false} NoNewKey(m: Table, n: nat, x: string, t: string, c: string, s: string)
    requires RealsApart(m, n) && s in m && x != "" && s <= x + (Sub(m, t) + c) && |x| + |Sub(m, t)| <= n
    ensures s <= x + (t + c)
    decreases |t|
  {
    hide RealsApart, LongestAt, Sub;
    if t == "" {
      SubEmpty(m);
    } else {
      var l := LongestAt(m, t);
      if l.Some? {
        FoundKey(m, t);
        KeyMeetsReal(m, n, x, l.value, Sub(m, t[|l.value|..]) + c, s);
        assert x + (Sub(m, t) + c) == x + (m[l.value] + (Sub(m, t[|l.value|..]) + c));
        assert s <= x;
      } else {
        var x', t' := x + [t[0]], t[1..];
        assert t == [t[0]] + t';
        SubChar(m, t[0], t');
        assert x + (Sub(m, t) + c) == x' + (Sub(m, t') + c);
        NoNewKey(m, n, x', t', c, s);
        assert x' + (t' + c) == x + (t + c);
      }
    }
  }

  /** A key cannot start before a real value and reach into it. */
  lemma KeyMeetsReal(m: Table, n: nat, x: string, l: string, rest: string, s: string)
    requires RealsApart(m, n) && s in m && l in m && x != "" && s <= x + (m[l] + rest) && |x| + |m[l]| <= n
    ensures |s| <= |x| && s <= x
  {
    var r := m[l];
    if |x| < |s| {
      assert (x + (r + rest))[|x|..] == r + rest;
      assert r <= (x + (r + rest))[|x|..];
      MeetsBefore(x + (r + rest), s, r, |x|, n);
    } else {
      assert s == (x + (r + rest))[..|s|] == x[..|s|];
    }
  }

  /** A part of a key that ends before the key does contains no key. */
  lemma {:induction false} PartUnchanged(m: Table, s: string, i: nat, n: nat)
    requires EndsApart(m) && s in m && i <= n < |s|
    ensures Sub(m, s[i..n]) == s[i..n]
    decreases n - i
  {
    hide Sub, LongestAt, EndsApart;
    if i == n {
      SubEmpty(m);
    } else {
      NoKeyInPart(m, s, i, n);
      assert s[i..n] == [s[i]] + s[i + 1..n];
      SubChar(m, s[i], s[i + 1..n]);
      PartUnchanged(m, s, i + 1, n);
    }
  }

  lemma NoKeyInPart(m: Table, s: string, i: nat, n: nat)
    requires EndsApart(m) && s in m && i < n < |s|
    ensures LongestAt(m, s[i..n]) == None
  {
    if LongestAt(m, s[i..n]).Some? {
      PartEndsInside(s, i, n, LongestAt(m, s[i..n]).value);
    }
  }

  lemma PartEndsInside(s: string, i: nat, n: nat, t: string)
    requires i <= n < |s| && t <= s[i..n]
    ensures EndsInside(s, t, i)
  {
    assert s[i..i + |t|] == s[i..n][..|t|] == t;
  }

  /** A key that matches t + c but is no prefix of t extends beyond t, and then the whole
      of t is a part of that key. */
  lemma SpansEnd(m: Table, t: string, c: string)
    requires EndsApart(m) && LongestAt(m, t) == None && LongestAt(m, t + c).Some?
    ensures exists s | s in m :: t < s
    ensures Sub(m, t) == t
  {
    hide EndsApart, LongestAt, Sub;
    FoundKey(m, t + c);
    var s := LongestAt(m, t + c).value;
    if |s| <= |t| {
      assert s == (t + c)[..|s|] == t[..|s|];
      NotFound(m, t, s);
    } else {
      assert s[0..|t|] == (t + c)[..|t|] == t;
      PartUnchanged(m, s, 0, |t|);
    }
  }

  lemma NotFound(m: Table, t: string, s: string)
    requires s in m && s != "" && s <= t
    ensures LongestAt(m, t).Some?
  {
  }

  /** Text already substituted and not longer than n may be substituted again together with
      what follows. */
  lemma {:induction false} Absorb(m: Table, n: nat, t: string, c: string)
    requires OverlapFree(m, n) && |Sub(m, t)| <= n
    ensures Sub(m, Sub(m, t) + c) == Sub(m, t + c)
    decreases |t|
  {
    hide EndsApart, RealsApart, LongestAt, Sub;
    if t == "" {
      SubEmpty(m);
      assert Sub(m, t) + c == c && t + c == c;
    } else if LongestAt(m, t).Some? {
      FoundKey(m, t);
      var s := LongestAt(m, t).value;
      var t' := t[|s|..];
      assert t + c == s + (t' + c);
      SubKey(m, s, t' + c);
      Absorb(m, n, t', c);
      RealPasses(m, n, s, 0, Sub(m, t') + c);
      assert Sub(m, t) + c == m[s][0..] + (Sub(m, t') + c);
    } else if LongestAt(m, t + c).Some? {
      SpansEnd(m, t, c);
    } else {
      var x, t' := t[0], t[1..];
      assert t == [x] + t' && t + c == [x] + (t' + c);
      SubChar(m, x, t');
      SubChar(m, x, t' + c);
      assert Sub(m, t) + c == [x] + (Sub(m, t') + c);
      if LongestAt(m, [x] + (Sub(m, t') + c)).Some? {
        FoundKey(m, [x] + (Sub(m, t') + c));
        var s := LongestAt(m, [x] + (Sub(m, t') + c)).value;
        NoNewKey(m, n, [x], t', c, s);
        NotFound(m, t + c, s);
      }
      SubChar(m, x, Sub(m, t') + c);
      Absorb(m, n, t', c);
    }
  }

  // -------------------------------------------------- text that is still incomplete

  /** From position i on, t is a nonempty proper prefix of a key. */
  ghost predicate Pending(m: Table, t: string, i: nat) {
    i < |t| && exists s | s in m :: t[i..] < s
  }

  /** Every incomplete key at the end of t lies in its last n characters. */
  ghost predicate Retains(m: Table, t: string, n: nat) {
    forall i: nat | Pending(m, t, i) :: |t| - i <= n
  }

  lemma RetainsTail(m: Table, t: string, k: nat, n: nat)
    requires k <= |t| && Retains(m, t, n)
    ensures Retains(m, t[k..], n)
  {
    forall i: nat | Pending(m, t[k..], i) ensures |t[k..]| - i <= n {
      assert t[k..][i..] == t[k + i..];
      assert Pending(m, t, k + i);
    }
  }

  /** Cutting substituted text anywhere that keeps the incomplete keys whole, and
      substituting the kept part with what follows, loses nothing. */
  lemma {:induction false} CutSafe(m: Table, n: nat, t: string, released: string, kept: string, c: string)
    requires OverlapFree(m, n) && Sub(m, t) == released + kept && Retains(m, t, |kept|) && |kept| <= n
    ensures released + Sub(m, kept + c) == Sub(m, t + c)
    decreases |t|
  {
    hide EndsApart, RealsApart, LongestAt, Sub, Retains, Pending;
    if released == "" {
      assert kept == Sub(m, t);
      Absorb(m, n, t, c);
      assert released + Sub(m, kept + c) == Sub(m, kept + c);
    } else if t == "" {
      SubEmpty(m);
    } else if LongestAt(m, t).Some? {
      FoundKey(m, t);
      var s := LongestAt(m, t).value;
      var t' := t[|s|..];
      assert t + c == s + (t' + c);
      SubKey(m, s, t' + c);
      RetainsTail(m, t, |s|, |kept|);
      if |released| >= |m[s]| {
        var released' := released[|m[s]|..];
        Prefixes(m[s], Sub(m, t'), released, kept);
        CutSafe(m, n, t', released', kept, c);
      } else {
        CutInReal(m, n, s, t', released, kept, c);
      }
    } else {
      var x, t', released' := t[0], t[1..], released[1..];
      assert t == [x] + t' && t + c == [x] + (t' + c);
      if LongestAt(m, t + c).Some? {
        SpansEnd(m, t, c);
        NothingReleased(m, t, |kept|);
      }
      SubChar(m, x, t');
      SubChar(m, x, t' + c);
      RetainsTail(m, t, 1, |kept|);
      Prefixes([x], Sub(m, t'), released, kept);
      CutSafe(m, n, t', released', kept, c);
    }
  }

  lemma Prefixes(a: string, b: string, released: string, kept: string)
    requires a + b == released + kept && |a| <= |released|
    ensures released == a + released[|a|..] && b == released[|a|..] + kept
  {
    assert a == (a + b)[..|a|] == released[..|a|];
    assert b == (a + b)[|a|..];
  }

  lemma NothingReleased(m: Table, t: string, n: nat)
    requires t != "" && Retains(m, t, n) && exists s | s in m :: t < s
    ensures |t| <= n
  {
    assert t[0..] == t;
    assert Pending(m, t, 0);
  }

  lemma CutInReal(m: Table, n: nat, s: string, t: string, released: string, kept: string, c: string)
    requires OverlapFree(m, n) && s in m && m[s] + Sub(m, t) == released + kept
    requires |released| < |m[s]| && |kept| <= n
    ensures released + Sub(m, kept + c) == m[s] + Sub(m, t + c)
  {
    hide EndsApart, RealsApart, LongestAt, Sub;
    var r, k := m[s], |released|;
    CutInHead(r, Sub(m, t), released, kept);
    assert kept + c == r[k..] + (Sub(m, t) + c);
    RealPasses(m, n, s, k, Sub(m, t) + c);
    Absorb(m, n, t, c);
    assert released + (r[k..] + Sub(m, t + c)) == r + Sub(m, t + c);
  }

  lemma CutInHead(r: string, rest: string, released: string, kept: string)
    requires r + rest == released + kept && |released| < |r|
    ensures kept == r[|released|..] + rest && released + r[|released|..] == r
  {
    var k := |released|;
    assert released == (r + rest)[..k] == r[..k];
    assert kept == (r + rest)[k..] == r[k..] + rest;
  }

  // ------------------------------------------------------- surrogates that keep apart

  /** No surrogate is empty, occurs in another one, or partially overlaps another one or
      itself shifted. */
  ghost predicate KeysApart(m: Table) {
    "" !in m
    && forall s, t, k: nat | s in m && t in m && Agree(s, t, k) :: k == 0 && s == t
  }


  lemma KeysApartEndsApart(m: Table)
    requires KeysApart(m)
    ensures EndsApart(m)
  {
    forall s, t, k: nat | s in m && t in m && EndsInside(s, t, k) ensures Agree(s, t, k) && s != t {
      forall j | k <= j < |s| && j - k < |t| ensures s[j] == t[j - k] {
        assert s[k..k + |t|][j - k] == s[j];
      }
    }
  }

  /** A surrogate and what it stands for differ at some position they both have. */
  predicate OwnApart(m: Table) {
    forall s | s in m :: !(s <= m[s]) && !(m[s] <= s)
  }

  /** Then only text free of surrogates is unchanged. */
  lemma {:induction false} UnchangedIsFree(m: Table, t: string)
    requires OwnApart(m) && Sub(m, t) == t
    ensures KeyFreeTo(m, t, |t|)
    decreases |t|
  {
    hide Sub, LongestAt, OwnApart;
    if LongestAt(m, t).Some? {
      KeyIsChanged(m, t);
    } else if t != "" {
      var rest := t[1..];
      assert t == [t[0]] + rest;
      SubChar(m, t[0], rest);
      UnchangedIsFree(m, rest);
      forall j: nat | j < |t| ensures KeyFree(m, t, j) {
        assert t[0..] == t;
        if j > 0 {
          assert KeyFree(m, rest, j - 1);
          assert rest[j - 1..] == t[j..];
        }
      }
    }
  }

  lemma KeyIsChanged(m: Table, t: string)
    requires OwnApart(m) && LongestAt(m, t).Some?
    ensures Sub(m, t) != t
  {
    hide LongestAt;
    FoundKey(m, t);
    var s := LongestAt(m, t).value;
    if Sub(m, t) == t {
      PrefixesCompare(t, s, m[s]);
    }
  }

  lemma PrefixesCompare(t: string, a: string, b: string)
    requires a <= t && b <= t
    ensures a <= b || b <= a
  {
    if |a| <= |b| {
      assert a == t[..|a|] == b[..|a|];
    } else {
      assert b == t[..|b|] == a[..|b|];
    }
  }
}
