/** When exactly the window's output is independent of how the text is cut
    (src/pipeline/sliding_window.py:72-123, src/pipeline/rehydrate.py:29-76). */
module ChunkIndependence {
  import opened Prelude
  import opened Substitution
  import opened SlidingWindow

  // ----------------------------------------- one surrogate that never shows up

  /** s occurs nowhere in t. */
  ghost predicate Absent(s: string, t: string) {
    forall j: nat | j <= |t| :: !(s <= t[j..])
  }

  lemma AbsentTail(s: string, t: string, k: nat)
    requires Absent(s, t) && k <= |t|
    ensures Absent(s, t[k..])
  {
    forall j: nat | j <= |t[k..]| ensures !(s <= t[k..][j..]) {
      assert t[k..][j..] == t[k + j..];
    }
  }

  /** Two tables over the same surrogates that differ at most in what s stands for. */
  ghost predicate SameBut(m: Table, w: Table, s: string) {
    m.Keys == w.Keys && forall k | k in m && k != s :: w[k] == m[k]
  }

  lemma {:induction false} AbsentSame(m: Table, w: Table, s: string, t: string)
    requires SameBut(m, w, s) && Absent(s, t)
    ensures Sub(m, t) == Sub(w, t)
    decreases |t|
  {
    if t != "" {
      LongestSameKeys(m, w, t, |t|);
      assert t[0..] == t;
      match LongestAt(m, t)
      case Some(l) =>
        AbsentTail(s, t, |l|);
        AbsentSame(m, w, s, t[|l|..]);
      case None =>
        AbsentTail(s, t, 1);
        AbsentSame(m, w, s, t[1..]);
    }
  }

  /** In the last n characters of substituted text, no surrogate starts that was not there
      before: real values do not meet any. */
  lemma {:induction false} AbsentStays(m: Table, n: nat, s: string, t: string)
    requires RealsApart(m, n) && s in m && s != "" && Absent(s, t)
    ensures AbsentLast(s, Sub(m, t), n)
    decreases |t|
  {
    hide RealsApart, LongestAt, Sub;
    assert t[0..] == t;
    if t == "" {
      SubEmpty(m);
    } else if LongestAt(m, t).Some? {
      FoundKey(m, t);
      var l := LongestAt(m, t).value;
      AbsentTail(s, t, |l|);
      AbsentStays(m, n, s, t[|l|..]);
      AbsentAfterReal(m, n, s, l, Sub(m, t[|l|..]));
    } else {
      assert t == [t[0]] + t[1..];
      SubChar(m, t[0], t[1..]);
      AbsentTail(s, t, 1);
      AbsentStays(m, n, s, t[1..]);
      var u := Sub(m, t[1..]);
      forall j: nat | j <= |[t[0]] + u| && |[t[0]] + u| - j <= n ensures !(s <= ([t[0]] + u)[j..]) {
        if j == 0 {
          assert ([t[0]] + u)[0..] == [t[0]] + (u + "") && [t[0]] + (t[1..] + "") == t;
          if s <= [t[0]] + (u + "") {
            NoNewKey(m, n, [t[0]], t[1..], "", s);
          }
        } else {
          assert ([t[0]] + u)[j..] == u[j - 1..];
        }
      }
    }
  }

  /** s does not start within the last n characters of t. */
  ghost predicate AbsentLast(s: string, t: string, n: nat) {
    forall j: nat | j <= |t| && |t| - j <= n :: !(s <= t[j..])
  }

  lemma AbsentInLast(s: string, t: string, n: nat, k: nat)
    requires AbsentLast(s, t, n) && k <= |t| && |t| - k <= n
    ensures Absent(s, t[k..])
  {
    forall j: nat | j <= |t[k..]| ensures !(s <= t[k..][j..]) {
      assert t[k..][j..] == t[k + j..];
    }
  }

  lemma AbsentAfterReal(m: Table, n: nat, s: string, l: string, u: string)
    requires RealsApart(m, n) && s in m && l in m && AbsentLast(s, u, n)
    ensures AbsentLast(s, m[l] + u, n)
  {
    var r := m[l];
    forall j: nat | j <= |r + u| && |r + u| - j <= n ensures !(s <= (r + u)[j..]) {
      if j >= |r| {
        assert (r + u)[j..] == u[j - |r|..];
      } else if s <= (r + u)[j..] {
        MeetsAfter(r + u, r, s, j, n);
      }
    }
  }

  lemma ShorterAbsent(s: string, t: string)
    requires |t| < |s|
    ensures Absent(s, t)
  {
  }

  // ------------------------------------------------ two tables, one output

  /** If s arrives in two pieces and does not show up in what the window holds with the
      second piece, the output does not depend on what s stands for. */
  lemma OutputIgnores(m: Table, w: Table, lookahead: nat, s: string, a: string, b: string)
    requires SameBut(m, w, s) && RealsApart(m, lookahead) && s in m && s != "" && |a| < |s|
    requires Absent(s, Retained(lookahead, Substitute(m), a) + b)
    ensures Output(lookahead, Substitute(m), [a, b]) == Output(lookahead, Substitute(w), [a, b])
  {
    hide RealsApart, Sub, Absent, AbsentLast;
    ShorterAbsent(s, a);
    AbsentSame(m, w, s, a);
    TwoFeeds(lookahead, Substitute(m), a, b);
    TwoFeeds(lookahead, Substitute(w), a, b);
    var fed := Retained(lookahead, Substitute(m), a) + b;
    AbsentSame(m, w, s, fed);
    AbsentStays(m, lookahead, s, fed);
    var u := Sub(m, fed);
    AbsentInLast(s, u, lookahead, if |u| <= lookahead then 0 else |u| - lookahead);
    assert u[0..] == u;
    AbsentSame(m, w, s, Retained(lookahead, Substitute(m), fed));
  }

  lemma TwoFeeds(lookahead: nat, tf: Transform, a: string, b: string)
    ensures var fed := Retained(lookahead, tf, a) + b;
      Output(lookahead, tf, [a, b])
      == Released(lookahead, tf, a) + Released(lookahead, tf, fed) + tf(Retained(lookahead, tf, fed))
  {
    hide Run, Released, Retained;
    RunNothing(lookahead, tf);
    RunAppend(lookahead, tf, [], a);
    RunAppend(lookahead, tf, [a], b);
    assert [] + [a] == [a] && [a] + [b] == [a, b] && "" + a == a;
    assert "" + Released(lookahead, tf, a) == Released(lookahead, tf, a);
  }

  /** Then at least one of the two tables depends on the cut. */
  lemma OneDepends(m: Table, w: Table, lookahead: nat, s: string, a: string, b: string)
    requires SameBut(m, w, s) && RealsApart(m, lookahead) && s in m && s != "" && m[s] != w[s]
    requires a + b == s && |a| < |s|
    requires Absent(s, Retained(lookahead, Substitute(m), a) + b)
    ensures !ChunkIndependent(m, lookahead) || !ChunkIndependent(w, lookahead)
  {
    hide RealsApart, Sub, Absent, Output, Flatten;
    OutputIgnores(m, w, lookahead, s, a, b);
    TwoChunks(a, b);
    assert s in w.Keys;
    SubOnly(m, s);
    SubOnly(w, s);
    assert Output(lookahead, Substitute(m), [a, b]) != Sub(m, Flatten([a, b]))
        || Output(lookahead, Substitute(w), [a, b]) != Sub(w, Flatten([a, b]));
  }

  // ------------------------------------------------------- tables to tell apart

  /** Every surrogate stands for r. */
  function Flat(m: Table, r: string): (w: Table)
    ensures w.Keys == m.Keys && forall k | k in w :: w[k] == r
  {
    map k | k in m :: r
  }

  /** A real value to give to all of them: the one of s, unless it is empty. */
  function Common(m: Table, s: string): (r: string)
    requires s in m
    ensures r != ""
  {
    if m[s] != "" then m[s] else "x"
  }

  lemma FlatApart(m: Table, n: nat, s: string)
    requires RealsApart(m, n) && s in m && |s| >= 2
    ensures var r := Common(m, s); var w := Flat(m, r);
      RealsApart(w, n) && RealsApart(w[s := r + r], n) && SameBut(w, w[s := r + r], s) && r != r + r
  {
    hide Agree, Meets;
    var r := Common(m, s);
    var w := Flat(m, r);
    if m[s] == "" && n > 0 {
      EmptyMeets(s, n);
    }
    forall k | k in w ensures !Meets(k, r, n) && !Meets(k, r + r, n) {
      assert k in m.Keys;
      NoReach(k, r);
      DoubledApart(r, k, n);
    }
    assert |r + r| > |r|;
  }

  lemma NoReach(s: string, r: string)
    ensures !Meets(s, r, 0)
  {
  }

  lemma EmptyMeets(s: string, n: nat)
    requires |s| >= 2 && n > 0
    ensures Meets(s, "", n)
  {
    assert Agree(s, "", 1);
  }

  lemma DoubledApart(r: string, s: string, n: nat)
    requires r != ""
    ensures Meets(s, r + r, n) ==> Meets(s, r, n)
  {
    if k: nat :| Agree(s, r + r, k) && 0 < k + |r + r| <= n {
      forall i | k <= i < |s| && i - k < |r| ensures s[i] == r[i - k] {
        assert (r + r)[i - k] == r[i - k];
      }
      assert Agree(s, r, k);
    }
    if k: nat :| Agree(r + r, s, k) && |r + r| - k <= n {
      var k' := if k < |r| then k else k - |r|;
      forall i | k' <= i < |r| && i - k' < |s| ensures r[i] == s[i - k'] {
        assert (r + r)[i + (k - k')] == r[i] && i + (k - k') - k == i - k';
      }
      assert Agree(r, s, k');
    }
  }

  // ------------------------------------------------------ both conditions are needed

  lemma LongKeyDepends(m: Table, w: Table, lookahead: nat, s: string)
    requires SameBut(m, w, s) && RealsApart(m, lookahead) && EndsApart(m) && s in m && m[s] != w[s]
    requires |s| >= lookahead + 2
    ensures !ChunkIndependent(m, lookahead) || !ChunkIndependent(w, lookahead)
  {
    hide RealsApart, Sub, ChunkIndependent;
    var n := |s| - 1;
    var a, b := s[..n], s[n..];
    assert a + b == s && s[0..n] == a;
    PartUnchanged(m, s, 0, n);
    assert |Retained(lookahead, Substitute(m), a)| == lookahead;
    ShorterAbsent(s, Retained(lookahead, Substitute(m), a) + b);
    OneDepends(m, w, lookahead, s, a, b);
  }

  /** The first surrogate found in p, and what is before it. */
  lemma {:induction false} FirstFound(m: Table, p: string, t: string, k: nat) returns (pre: string, l: string)
    requires t in m && t != "" && k <= |p| && t <= p[k..]
    ensures pre + l <= p && l in m && l != "" && KeyFreeTo(m, pre + l, |pre|)
    decreases |p|
  {
    hide LongestAt, KeyFree;
    if LongestAt(m, p).Some? {
      FoundKey(m, p);
      pre, l := "", LongestAt(m, p).value;
      assert pre + l == l;
    } else {
      assert p[0..] == p;
      if k == 0 {
        NotFound(m, p, t);
      }
      var rest;
      assert p[1..][k - 1..] == p[k..];
      rest, l := FirstFound(m, p[1..], t, k - 1);
      pre := [p[0]] + rest;
      assert pre + l == [p[0]] + (rest + l) && p == [p[0]] + p[1..];
      KeyFreeCons(m, p, p[0], rest + l, |rest|);
    }
  }

  lemma KeyFreeCons(m: Table, p: string, x: char, u: string, n: nat)
    requires LongestAt(m, p) == None && [x] + u <= p && KeyFreeTo(m, u, n)
    ensures KeyFreeTo(m, [x] + u, n + 1)
  {
    hide LongestAt;
    forall j: nat | j < n + 1 ensures KeyFree(m, [x] + u, j) {
      if j == 0 {
        assert ([x] + u)[0..] == [x] + u;
        if LongestAt(m, [x] + u).Some? {
          FoundKey(m, [x] + u);
          NotFound(m, p, LongestAt(m, [x] + u).value);
        }
      } else {
        assert KeyFree(m, u, j - 1);
        assert j - 1 <= |u| ==> ([x] + u)[j..] == u[j - 1..];
      }
    }
  }

  lemma AbsentAround(m: Table, n: nat, s: string, l: string, pre: string, b: string, cut: nat)
    requires RealsApart(m, n) && s in m && l in m && |pre| < |s| && |b| < |s|
    requires cut <= |pre + m[l]| <= cut + n
    ensures Absent(s, (pre + m[l] + b)[cut..])
  {
    var r := m[l];
    var u := pre + r + b;
    forall i: nat | i <= |u[cut..]| ensures !(s <= u[cut..][i..]) {
      var j := cut + i;
      assert u[cut..][i..] == u[j..];
      if s <= u[j..] && j < |pre| + |r| {
        assert u[|pre|..] == r + b;
        if j < |pre| {
          assert u[j..][|pre| - j..] == r + b;
          MeetsBefore(u[j..], s, r, |pre| - j, n);
        } else {
          assert u[j..] == (r + b)[j - |pre|..];
          MeetsAfter(r + b, r, s, j - |pre|, n);
        }
      }
    }
  }

  lemma InnerKeyDepends(m: Table, w: Table, lookahead: nat, s: string, t: string, k: nat)
    requires SameBut(m, w, s) && RealsApart(m, lookahead) && "" !in m && s in m && t in m && m[s] != w[s]
    requires EndsInside(s, t, k)
    ensures !ChunkIndependent(m, lookahead) || !ChunkIndependent(w, lookahead)
  {
    hide RealsApart, Sub, ChunkIndependent, KeyFreeTo;
    var p := s[..k + |t|];
    assert p[k..] == s[k..k + |t|] == t;
    var pre, l := FirstFound(m, p, t, k);
    var a := pre + l;
    var b := s[|a|..];
    assert a == p[..|a|] == s[..|a|] && a + b == s;
    NoKeyPasses(m, pre, l);
    SubOnly(m, l);
    var text := Sub(m, a);
    var cut := if |text| <= lookahead then 0 else |text| - lookahead;
    AbsentAround(m, lookahead, s, l, pre, b, cut);
    assert Retained(lookahead, Substitute(m), a) + b == (text + b)[cut..];
    OneDepends(m, w, lookahead, s, a, b);
  }

  /** Over all assignments of real values that do not meet the surrogates, the output is
      independent of the cut if and only if no surrogate occurs in another one ending
      before it and none is more than one character longer than the lookahead. */
  lemma ExactlyWhen(m: Table, lookahead: nat)
    requires RealsApart(m, lookahead) && "" !in m
    ensures (forall w: Table | w.Keys == m.Keys && RealsApart(w, lookahead) :: ChunkIndependent(w, lookahead))
            <==> EndsApart(m) && Covers(lookahead, m)
  {
    hide ChunkIndependent, RealsApart;
    if EndsApart(m) && Covers(lookahead, m) {
      forall w: Table | w.Keys == m.Keys && RealsApart(w, lookahead) ensures ChunkIndependent(w, lookahead) {
        KeysOnly(m, w, lookahead);
        Independent(w, lookahead);
      }
    } else {
      SomeDepends(m, lookahead);
    }
  }

  lemma KeysOnly(m: Table, w: Table, lookahead: nat)
    requires w.Keys == m.Keys
    ensures EndsApart(w) <==> EndsApart(m)
    ensures Covers(lookahead, w) <==> Covers(lookahead, m)
  {
    assert forall k :: (k in w <==> k in w.Keys) && (k in m <==> k in m.Keys);
  }

  lemma Independent(m: Table, lookahead: nat)
    requires OverlapFree(m, lookahead) && Covers(lookahead, m)
    ensures ChunkIndependent(m, lookahead)
  {
    hide OverlapFree, Covers, Output, Sub, Flatten;
    forall chunks ensures Output(lookahead, Substitute(m), chunks) == Sub(m, Flatten(chunks)) {
      WindowRefinesSubstitution(m, lookahead, chunks);
    }
  }

  lemma SomeDepends(m: Table, lookahead: nat)
    requires RealsApart(m, lookahead) && "" !in m && !(EndsApart(m) && Covers(lookahead, m))
    ensures exists w: Table :: w.Keys == m.Keys && RealsApart(w, lookahead) && !ChunkIndependent(w, lookahead)
  {
    hide RealsApart, ChunkIndependent;
    if EndsApart(m) {
      var s :| s in m && |s| > lookahead + 1;
      FlatApart(m, lookahead, s);
      var r := Common(m, s);
      var w := Flat(m, r);
      var v := w[s := r + r];
      KeysOnly(m, w, lookahead);
      LongKeyDepends(w, v, lookahead, s);
      assert v.Keys == m.Keys;
    } else {
      var s, t, k: nat :| s in m && t in m && EndsInside(s, t, k);
      FlatApart(m, lookahead, s);
      var r := Common(m, s);
      var w := Flat(m, r);
      var v := w[s := r + r];
      assert t in w.Keys && "" !in w.Keys;
      InnerKeyDepends(w, v, lookahead, s, t, k);
      assert v.Keys == m.Keys;
    }
  }

  // ------------------------------------------------------------- one given table

  /** t occurs in s at position k. */
  predicate OccursAt(s: string, t: string, k: nat) {
    k + |t| <= |s| && s[k..k + |t|] == t
  }

  /** No surrogate occurs in another one at all. */
  ghost predicate NoneWithin(m: Table) {
    forall s, t, k: nat | s in m && t in m && OccursAt(s, t, k) :: s == t
  }

  lemma NoneWithinEndsApart(m: Table)
    requires "" !in m && NoneWithin(m)
    ensures EndsApart(m)
  {
    assert forall s, t, k: nat | EndsInside(s, t, k) :: OccursAt(s, t, k);
  }

  /** Then no proper part of a surrogate contains one. */
  lemma {:induction false} ProperPartUnchanged(m: Table, s: string, i: nat, n: nat)
    requires NoneWithin(m) && s in m && i <= n <= |s| && n - i < |s|
    ensures Sub(m, s[i..n]) == s[i..n]
    decreases n - i
  {
    hide Sub, LongestAt, NoneWithin;
    if i == n {
      SubEmpty(m);
    } else {
      NoKeyInProperPart(m, s, i, n);
      assert s[i..n] == [s[i]] + s[i + 1..n];
      SubChar(m, s[i], s[i + 1..n]);
      ProperPartUnchanged(m, s, i + 1, n);
    }
  }

  lemma NoKeyInProperPart(m: Table, s: string, i: nat, n: nat)
    requires NoneWithin(m) && s in m && i < n <= |s| && n - i < |s|
    ensures LongestAt(m, s[i..n]) == None
  {
    if LongestAt(m, s[i..n]).Some? {
      PartOfItself(m, s, i, n, LongestAt(m, s[i..n]).value);
    }
  }

  lemma PartOfItself(m: Table, s: string, i: nat, n: nat, t: string)
    requires NoneWithin(m) && s in m && t in m && i <= n <= |s| && t <= s[i..n]
    ensures s == t
  {
    assert s[i..i + |t|] == s[i..n][..|t|] == t;
    assert OccursAt(s, t, i);
  }

  /** A surrogate two or more characters longer than the lookahead leaks when its last
      character arrives alone. */
  lemma LongKeyLeaks(m: Table, lookahead: nat, s: string)
    requires NoneWithin(m) && s in m && m[s] != s && |s| >= lookahead + 2
    ensures var chunks := [s[..|s| - 1], s[|s| - 1..]];
      Flatten(chunks) == s && Output(lookahead, Substitute(m), chunks) == s
      && Sub(m, Flatten(chunks)) != s
  {
    hide NoneWithin, Sub, Output, Flatten;
    var n, k := |s| - 1, |s| - 1 - lookahead;
    var a, b := s[..n], s[n..];
    assert a + b == s && s[0..n] == a == s[..k] + s[k..n];
    assert s[k..|s|] == s[k..n] + b && s[k + 1..|s|] == (s[k..n] + b)[1..];
    TwoChunks(a, b);
    ProperPartUnchanged(m, s, 0, n);
    ProperPartUnchanged(m, s, k, |s|);
    ProperPartUnchanged(m, s, k + 1, |s|);
    OutputLeaks(lookahead, Substitute(m), s[..k], s[k..n], b);
    SubOnly(m, s);
  }

  lemma ReleaseSplit(lookahead: nat, tf: Transform, text: string, x: string, y: string)
    requires text == x + y && |y| == lookahead && tf(text) == text
    ensures Released(lookahead, tf, text) == x && Retained(lookahead, tf, text) == y
  {
  }

  lemma OutputLeaks(lookahead: nat, tf: Transform, x: string, y: string, b: string)
    requires |y| == lookahead && |b| == 1 && tf(x + y) == x + y
    requires tf(y + b) == y + b && tf((y + b)[1..]) == (y + b)[1..]
    ensures Output(lookahead, tf, [x + y, b]) == x + y + b
  {
    hide Run, Released, Retained;
    var a, rest := x + y, y + b;
    RunNothing(lookahead, tf);
    RunAppend(lookahead, tf, [], a);
    assert "" + a == a && "" + x == x && [] + [a] == [a] && [a] + [b] == [a, b];
    ReleaseSplit(lookahead, tf, a, x, y);
    RunAppend(lookahead, tf, [a], b);
    ReleaseSplit(lookahead, tf, rest, rest[..1], rest[1..]);
    assert x + rest[..1] + rest[1..] == x + y + b;
  }

  /** For any one table in which no surrogate occurs in another or stands for itself, and
      real values do not meet surrogates, the lookahead bound decides. */
  lemma ChunkIndependenceNeedsLookahead(m: Table, lookahead: nat)
    requires RealsApart(m, lookahead) && NoneWithin(m) && "" !in m && forall s | s in m :: m[s] != s
    ensures ChunkIndependent(m, lookahead) <==> Covers(lookahead, m)
  {
    hide NoneWithin, RealsApart, Output, Sub, Flatten;
    NoneWithinEndsApart(m);
    if Covers(lookahead, m) {
      Independent(m, lookahead);
    } else {
      var s :| s in m && |s| > lookahead + 1;
      LongKeyLeaks(m, lookahead, s);
    }
  }

  lemma KeysApartNoneWithin(m: Table)
    requires KeysApart(m)
    ensures NoneWithin(m)
  {
    forall s, t, k: nat | s in m && t in m && OccursAt(s, t, k) ensures s == t {
      if s != t {
        OccurrenceAgrees(m, s, t, k);
      }
    }
  }

  lemma OccurrenceAgrees(m: Table, s: string, t: string, k: nat)
    requires KeysApart(m) && s in m && t in m && OccursAt(s, t, k)
    ensures k == 0 && s == t
  {
    if k < |s| {
      OverlapAgrees(s, s, t, k);
      assert s[k..k + |t|] == s[k..][..|t|];
    }
  }

  // ------------------------------------------------ which real values are harmless

  /** What independence says of one feed and what follows it. */
  lemma FeedSettles(m: Table, lookahead: nat, z: string, c: string)
    requires ChunkIndependent(m, lookahead)
    ensures Released(lookahead, Substitute(m), z) + Sub(m, Retained(lookahead, Substitute(m), z) + c) == Sub(m, z + c)
  {
    hide Sub, Released, Retained, Output;
    var tf := Substitute(m);
    var fed := Retained(lookahead, tf, z) + c;
    TwoChunks(z, c);
    FlattenOne(fed);
    TwoFeeds(lookahead, tf, z, c);
    OneFeed(lookahead, tf, fed);
    assert Output(lookahead, tf, [z, c]) == Sub(m, z + c) && Output(lookahead, tf, [fed]) == Sub(m, fed);
    assert Released(lookahead, tf, z) + Released(lookahead, tf, fed) + Sub(m, Retained(lookahead, tf, fed))
        == Released(lookahead, tf, z) + (Released(lookahead, tf, fed) + Sub(m, Retained(lookahead, tf, fed)));
  }

  lemma OneFeed(lookahead: nat, tf: Transform, a: string)
    ensures Output(lookahead, tf, [a]) == Released(lookahead, tf, a) + tf(Retained(lookahead, tf, a))
  {
    hide Run, Released, Retained;
    RunNothing(lookahead, tf);
    RunAppend(lookahead, tf, [], a);
    assert [] + [a] == [a] && "" + a == a;
    assert "" + Released(lookahead, tf, a) == Released(lookahead, tf, a);
  }

  /** A text left unchanged by substitution has no surrogate at any place. */
  lemma UnchangedHasNone(m: Table, u: string, s: string, j: nat)
    requires OwnApart(m) && s in m && s != "" && j <= |u| && s <= u[j..]
    ensures Sub(m, u) != u
  {
    hide OwnApart, LongestAt, KeyFreeTo;
    if Sub(m, u) == u {
      UnchangedIsFree(m, u);
      KeyIsThere(m, u, s, j);
    }
  }

  lemma KeyIsThere(m: Table, u: string, s: string, j: nat)
    requires s in m && s != "" && j <= |u| && s <= u[j..]
    ensures !KeyFreeTo(m, u, |u|)
  {
    NotFound(m, u[j..], s);
    assert !KeyFree(m, u, j);
  }

  /** No surrogate starts in a proper beginning of s, even when another surrogate follows. */
  lemma BeginningIsFree(m: Table, s: string, k: nat, t: string, y: string)
    requires KeysApart(m) && s in m && t in m && k < |s|
    ensures KeyFreeTo(m, s[..k] + (t + y), k)
  {
    var u := s[..k] + (t + y);
    forall j: nat | j < k ensures KeyFree(m, u, j) {
      if LongestAt(m, u[j..]).Some? {
        BeginningMeets(s, k, t, y, j, LongestAt(m, u[j..]).value);
      }
    }
  }

  lemma BeginningMeets(s: string, k: nat, t: string, y: string, j: nat, q: string)
    requires j < k < |s| && q <= (s[..k] + (t + y))[j..]
    ensures Agree(q, t, k - j) || (|q| < |s| && Agree(s, q, j))
  {
    var u := s[..k] + (t + y);
    assert u[j..][k - j..] == t + y;
    if |q| > k - j {
      assert t <= u[j..][k - j..];
      OverlapAgrees(u[j..], q, t, k - j);
    } else {
      assert q == u[j..][..|q|] == s[j..][..|q|];
      OverlapAgrees(s, s, q, j);
    }
  }

  /** A real value that contains a surrogate in its last characters, or begins one there. */
  lemma RealThenSurrogate(m: Table, lookahead: nat, s: string, t: string, k: nat)
    requires KeysApart(m) && OwnApart(m) && s in m && t in m
    requires Agree(m[t], s, k) && |m[t]| - k <= lookahead
    ensures !ChunkIndependent(m, lookahead)
  {
    hide KeysApart, OwnApart, Sub, ChunkIndependent;
    var r := m[t];
    var y := if |s| <= |r| - k then "" else s[|r| - k..];
    AgreedText(r, s, k, y);
    KeysApartEndsApart(m);
    LastPartUnchanged(m, s, y);
    SubKey(m, t, y);
    SubKey(m, t, "");
    SubEmpty(m);
    assert t + "" == t && r + "" == r;
    if ChunkIndependent(m, lookahead) {
      var cut := SettledTail(m, lookahead, t, r, y);
      assert (r[cut..] + y)[k - cut..] == (r + y)[k..];
      UnchangedHasNone(m, r[cut..] + y, s, k - cut);
    }
  }

  /** If a text becomes r, and still does with y after it, what the window keeps of r is
      left unchanged with y after it. */
  lemma SettledTail(m: Table, lookahead: nat, z: string, r: string, y: string) returns (cut: nat)
    requires ChunkIndependent(m, lookahead) && Sub(m, z) == r && Sub(m, z + y) == r + y
    ensures cut == if |r| <= lookahead then 0 else |r| - lookahead
    ensures Sub(m, r[cut..] + y) == r[cut..] + y
  {
    hide Sub, ChunkIndependent;
    FeedSettles(m, lookahead, z, y);
    cut := if |r| <= lookahead then 0 else |r| - lookahead;
    var kept := r[cut..];
    assert Retained(lookahead, Substitute(m), z) == kept && Released(lookahead, Substitute(m), z) == r[..cut];
    assert r + y == r[..cut] + (kept + y);
    SamePrefix(r[..cut], Sub(m, kept + y), kept + y);
  }

  lemma SamePrefix(p: string, a: string, b: string)
    requires p + a == p + b
    ensures a == b
  {
    assert (p + a)[|p|..] == a && (p + b)[|p|..] == b;
  }

  lemma AgreedText(r: string, s: string, k: nat, y: string)
    requires Agree(r, s, k) && y == if |s| <= |r| - k then "" else s[|r| - k..]
    ensures s <= (r + y)[k..]
  {
    var u := (r + y)[k..];
    forall i | 0 <= i < |s| ensures s[i] == u[i] {
      if i < |r| - k {
        assert r[k + i] == s[i];
      }
    }
    assert s == u[..|s|];
  }

  lemma LastPartUnchanged(m: Table, s: string, y: string)
    requires KeysApart(m) && s in m && |y| < |s| && s[|s| - |y|..] == y
    ensures Sub(m, y) == y
  {
    hide Sub, KeysApart;
    KeysApartNoneWithin(m);
    assert s[|s| - |y|..|s|] == y;
    ProperPartUnchanged(m, s, |s| - |y|, |s|);
  }

  /** A real value that continues the beginning of a surrogate. */
  lemma SurrogateThenReal(m: Table, lookahead: nat, s: string, t: string, k: nat)
    requires KeysApart(m) && OwnApart(m) && s in m && t in m
    requires Agree(s, m[t], k) && 0 < k + |m[t]| <= lookahead
    ensures !ChunkIndependent(m, lookahead)
  {
    hide KeysApart, OwnApart, Sub, ChunkIndependent, KeyFreeTo;
    var r, x := m[t], s[..k];
    var y := if |s| <= k + |r| then "" else s[k + |r|..];
    KeysApartEndsApart(m);
    LastPartUnchanged(m, s, y);
    BeginningIsFree(m, s, k, t, y);
    BeginningIsFree(m, s, k, t, "");
    NoKeyPasses(m, x, t + y);
    NoKeyPasses(m, x, t + "");
    SubKey(m, t, y);
    SubKey(m, t, "");
    SubEmpty(m);
    assert t + "" == t && r + "" == r && x + t + y == x + (t + y) && x + r + y == x + (r + y);
    if ChunkIndependent(m, lookahead) {
      var cut := SettledTail(m, lookahead, x + t, x + r, y);
      BegunText(s, r, k, y);
      assert (x + r)[0..] == x + r && (x + r + y)[0..] == x + r + y;
      UnchangedHasNone(m, x + r + y, s, 0);
    }
  }

  lemma BegunText(s: string, r: string, k: nat, y: string)
    requires Agree(s, r, k) && y == if |s| <= k + |r| then "" else s[k + |r|..]
    ensures s <= s[..k] + r + y
  {
    var u := s[..k] + r + y;
    forall i | 0 <= i < |s| ensures s[i] == u[i] {
      if k <= i < k + |r| {
        assert s[i] == r[i - k];
      }
    }
    assert s == u[..|s|];
  }

  /** A real value that meets a surrogate within the lookahead of its end makes the output
      depend on the cut. */
  lemma MeetingReal(m: Table, lookahead: nat, s: string, t: string)
    requires KeysApart(m) && OwnApart(m) && s in m && t in m && Meets(s, m[t], lookahead)
    ensures !ChunkIndependent(m, lookahead)
  {
    hide KeysApart, OwnApart, ChunkIndependent, Agree;
    var r := m[t];
    if k: nat :| Agree(s, r, k) && 0 < k + |r| <= lookahead {
      SurrogateThenReal(m, lookahead, s, t, k);
    } else {
      var k: nat :| Agree(r, s, k) && |r| - k <= lookahead;
      RealThenSurrogate(m, lookahead, s, t, k);
    }
  }

  /** Surrogates that keep apart from each other, none comparable with what it stands for:
      the output is independent of the cut if and only if no surrogate is more than one
      character longer than the lookahead and no real value meets one within it. */
  lemma ExactlyWhenApart(m: Table, lookahead: nat)
    requires KeysApart(m) && OwnApart(m)
    ensures ChunkIndependent(m, lookahead) <==> Covers(lookahead, m) && RealsApart(m, lookahead)
  {
    hide KeysApart, ChunkIndependent, Meets;
    KeysApartEndsApart(m);
    KeysApartNoneWithin(m);
    if !Covers(lookahead, m) {
      var s :| s in m && |s| > lookahead + 1;
      LongKeyAlone(m, lookahead, s);
    } else if RealsApart(m, lookahead) {
      Independent(m, lookahead);
    } else {
      var s, t :| s in m && t in m && Meets(s, m[t], lookahead);
      MeetingReal(m, lookahead, s, t);
    }
  }

  lemma LongKeyAlone(m: Table, lookahead: nat, s: string)
    requires NoneWithin(m) && s in m && m[s] != s && |s| >= lookahead + 2
    ensures !ChunkIndependent(m, lookahead)
  {
    hide NoneWithin, Sub, Output, Flatten;
    LongKeyLeaks(m, lookahead, s);
  }

  // --------------------------------------------------------------------- examples

  lemma OutputTwo(lookahead: nat, tf: Transform, a: string, b: string)
    requires |tf(a)| <= lookahead && |tf(tf(a) + b)| <= lookahead
    ensures Output(lookahead, tf, [a, b]) == tf(tf(tf(a) + b))
  {
    hide Run;
    OutputOne(lookahead, tf, a);
    RunAppend(lookahead, tf, [a], b);
    assert [a] + [b] == [a, b] && "" + "" == "";
    assert "" + tf(tf(tf(a) + b)) == tf(tf(tf(a) + b));
  }

  lemma OutputOne(lookahead: nat, tf: Transform, a: string)
    requires |tf(a)| <= lookahead
    ensures Run(lookahead, tf, [a]) == ("", tf(a))
    ensures Output(lookahead, tf, [a]) == tf(tf(a))
  {
    hide Run;
    RunNothing(lookahead, tf);
    RunAppend(lookahead, tf, [], a);
    assert "" + a == a && [] + [a] == [a] && "" + "" == "";
    assert "" + tf(tf(a)) == tf(tf(a));
  }

  const KHAN := "Priya Khan"
  const KHANNA := "Priya Khanna"

  /** Overlapping surrogates: of two keys s and s + x, a cut after s settles on the
      shorter one, while the whole text is the longer one. */
  lemma PrefixPairCut(m: Table, lookahead: nat, s: string, x: string)
    requires s in m && s + x in m && s != ""
    requires Sub(m, m[s] + x) == m[s] + x && |m[s] + x| <= lookahead
    ensures Sub(m, s + x) == m[s + x]
    ensures Output(lookahead, Substitute(m), [s, x]) == m[s] + x
  {
    SubOnly(m, s);
    SubOnly(m, s + x);
    OutputTwo(lookahead, Substitute(m), s, x);
  }

  /** The two names the candidate pool can mint together break chunk independence. */
  lemma KhanKhannaBreaks(lookahead: nat)
    requires lookahead >= 12
    ensures var m := map[KHAN := "X", KHANNA := "Y"];
      Covers(lookahead, m) && !EndsApart(m)
      && Sub(m, KHANNA) == "Y" && Output(lookahead, Substitute(m), [KHAN, "na"]) == "Xna"
  {
    hide Sub, Output;
    var m := map[KHAN := "X", KHANNA := "Y"];
    assert |KHAN| == 10 && |KHANNA| == 12 && KHAN + "na" == KHANNA;
    LongerEndsInside(KHANNA, KHANNA, KHAN);
    assert "X" + "na" == "Xna";
    ShortUnchanged(m, "Xna");
    PrefixPairCut(m, lookahead, KHAN, "na");
  }

  /** Text shorter than every key is left alone. */
  lemma {:induction false} ShortUnchanged(m: Table, t: string)
    requires forall s | s in m :: |s| > |t|
    ensures Sub(m, t) == t
  {
    if t != "" {
      ShortUnchanged(m, t[1..]);
    }
  }
}
