/** What walking a rebuilt body meets (src/pipeline/field_walker.py:70-145). */
module Rewalk {
  import opened Prelude
  import opened Json
  import opened FieldWalker

  /** A leaf after substitution. */
  function Retext(l: Leaf, subs: Substitutions): Leaf {
    if l.value.Str? && l.path in subs then Leaf(l.path, Str(subs[l.path])) else l
  }

  function RetextAll(ls: seq<Leaf>, subs: Substitutions): (r: seq<Leaf>)
    ensures |r| == |ls| && forall i | 0 <= i < |r| :: r[i] == Retext(ls[i], subs)
  {
    seq(|ls|, i requires 0 <= i < |ls| => Retext(ls[i], subs))
  }

  /** No substituted text would be unwrapped where it lands. */
  predicate Opaque(codec: SizedCodec, subs: Substitutions) {
    forall k | k in subs :: Unwrap(codec, k, subs[k]).None?
  }

  lemma OpaqueExpand(codec: SizedCodec, l: Leaf, subs: Substitutions)
    requires Opaque(codec, subs)
    ensures Expand(codec, l, subs) == [Retext(l, subs)]
  {
    if l.value.Str? && l.path in subs {
      assert Leaves(codec, Str(subs[l.path]), l.path) == [Leaf(l.path, Str(subs[l.path]))];
    }
  }

  lemma RetextCons(ls: seq<Leaf>, subs: Substitutions)
    requires ls != []
    ensures RetextAll(ls, subs) == [Retext(ls[0], subs)] + RetextAll(ls[1..], subs)
  {
    hide Retext;
  }

  lemma {:induction false} OpaqueExpands(codec: SizedCodec, ls: seq<Leaf>, subs: Substitutions)
    requires Opaque(codec, subs)
    ensures ExpandAll(codec, ls, subs) == RetextAll(ls, subs)
  {
    if ls != [] {
      hide Expand, Retext, RetextAll, Opaque;
      OpaqueExpands(codec, ls[1..], subs);
      OpaqueExpand(codec, ls[0], subs);
      RetextCons(ls, subs);
    }
  }

  function NewText(r: Region, subs: Substitutions): string {
    if r.path in subs then subs[r.path] else r.text
  }

  function Resubstituted(rs: seq<Region>, subs: Substitutions): (r: seq<Region>)
    ensures |r| == |rs| && forall i | 0 <= i < |r| :: r[i] == Region(rs[i].path, NewText(rs[i], subs))
  {
    seq(|rs|, i requires 0 <= i < |rs| => Region(rs[i].path, NewText(rs[i], subs)))
  }

  lemma {:induction false} TextsFrom(ls: seq<Leaf>, r: Region)
    requires r in Texts(ls)
    ensures Leaf(r.path, Str(r.text)) in ls
  {
    if !(ls[0].value.Str? && r == Region(ls[0].path, ls[0].value.text)) {
      TextsFrom(ls[1..], r);
    }
  }

  lemma {:induction false} TextsRetext(ls: seq<Leaf>, subs: Substitutions)
    ensures Texts(RetextAll(ls, subs)) == Resubstituted(Texts(ls), subs)
  {
    if ls == [] {
      assert RetextAll(ls, subs) == [] && Resubstituted([], subs) == [];
    } else {
      hide TextOf, Retext, RetextAll, Resubstituted;
      TextsRetext(ls[1..], subs);
      RetextCons(ls, subs);
      RetextOne(ls[0], subs);
      ResubstitutedAppend(TextOf(ls[0]), Texts(ls[1..]), subs);
      assert RetextAll(ls, subs)[0] == Retext(ls[0], subs) && RetextAll(ls, subs)[1..] == RetextAll(ls[1..], subs);
    }
  }

  lemma RetextOne(l: Leaf, subs: Substitutions)
    ensures TextOf(Retext(l, subs)) == Resubstituted(TextOf(l), subs)
  {
  }

  lemma ResubstitutedAppend(a: seq<Region>, b: seq<Region>, subs: Substitutions)
    ensures Resubstituted(a + b, subs) == Resubstituted(a, subs) + Resubstituted(b, subs)
  {
  }

  /** A text region is never itself a container that would have been unwrapped. */
  lemma {:induction false} WalkedIsOpaque(codec: SizedCodec, v: Json, path: Path)
    ensures forall r | r in Walk(codec, v, path) :: Unwrap(codec, r.path, r.text).None?
    decreases Weight(v), 0
  {
    if IsContainer(v) {
      WalkedAllOpaque(codec, Children(v), path);
    } else if v.Str? && Unwrap(codec, path, v.text).Some? {
      WalkedIsOpaque(codec, Unwrap(codec, path, v.text).value, path);
    }
  }

  lemma {:induction false} WalkedAllOpaque(codec: SizedCodec, cs: seq<Child>, path: Path)
    ensures forall r | r in WalkAll(codec, cs, path) :: Unwrap(codec, r.path, r.text).None?
    decreases WeightAll(cs), |cs|
  {
    hide Walk, Unwrap;
    if cs != [] {
      WalkedIsOpaque(codec, cs[0].1, path + [cs[0].0]);
      WalkedAllOpaque(codec, cs[1..], path);
    }
  }

  /** Every substitution is for a text region a walk of the body yields. */
  ghost predicate Walked(codec: SizedCodec, body: Json, subs: Substitutions) {
    forall k | k in subs :: exists r :: r in Walk(codec, body, []) && r.path == k
  }

  lemma RebuildExpands(codec: SizedCodec, body: Json, subs: Substitutions)
    requires Reparses(codec) && Proper(body) && Walked(codec, body, subs)
    ensures var after := Rebuild(codec, body, [], subs);
      Proper(after) && Leaves(codec, after, []) == ExpandAll(codec, Leaves(codec, body, []), subs)
      && Applied(codec, body, [], subs) == subs.Keys
  {
    hide Walk, Leaves, Texts, Rebuild, Applied, Reparses, ExpandAll;
    var ls := Leaves(codec, body, []);
    WalkIsTexts(codec, body, []);
    forall k | k in subs ensures HasText(ls, k) {
      var r :| r in Walk(codec, body, []) && r.path == k;
      TextsFrom(ls, r);
    }
    RebuildChangesTexts(codec, body, [], subs);
    assert Under(subs, []) == subs.Keys;
  }

  /** Walking the rebuilt body gives the same paths in the same order, with exactly the
      substituted texts changed, if and only if no new text is a JSON container where
      `arguments` would be unwrapped. */
  lemma RebuildRewalks(codec: SizedCodec, body: Json, subs: Substitutions)
    requires Reparses(codec) && Proper(body) && Walked(codec, body, subs)
    ensures var after := Rebuild(codec, body, [], subs);
      Walk(codec, after, []) == Resubstituted(Walk(codec, body, []), subs) <==> Opaque(codec, subs)
    ensures Opaque(codec, subs) ==>
      Leaves(codec, Rebuild(codec, body, [], subs), []) == RetextAll(Leaves(codec, body, []), subs)
  {
    hide Walk, Leaves, Texts, Rebuild, Reparses, ExpandAll, Unwrap;
    var after, ls := Rebuild(codec, body, [], subs), Leaves(codec, body, []);
    RebuildExpands(codec, body, subs);
    WalkIsTexts(codec, body, []);
    WalkIsTexts(codec, after, []);
    if Opaque(codec, subs) {
      OpaqueExpands(codec, ls, subs);
      TextsRetext(ls, subs);
    }
    if Walk(codec, after, []) == Resubstituted(Walk(codec, body, []), subs) {
      RewalkedOpaque(codec, after, Walk(codec, body, []), subs);
    }
  }

  lemma RewalkedOpaque(codec: SizedCodec, after: Json, rs: seq<Region>, subs: Substitutions)
    requires Walk(codec, after, []) == Resubstituted(rs, subs)
    requires forall k | k in subs :: exists r :: r in rs && r.path == k
    ensures Opaque(codec, subs)
  {
    hide Walk, Unwrap;
    WalkedIsOpaque(codec, after, []);
    forall k | k in subs ensures Unwrap(codec, k, subs[k]).None? {
      var r :| r in rs && r.path == k;
      var i :| 0 <= i < |rs| && rs[i] == r;
      assert Resubstituted(rs, subs)[i] == Region(k, subs[k]);
    }
  }

  // ------------------------------------------------------ what cannot be undone

  /** No leaf lies above another one. */
  lemma {:induction false} LeavesPrefixFree(codec: SizedCodec, v: Json, path: Path)
    requires Proper(v)
    ensures forall a, b | a in Leaves(codec, v, path) && b in Leaves(codec, v, path) && a.path <= b.path :: a == b
    decreases Weight(v), 0
  {
    if IsContainer(v) && Children(v) != [] {
      ProperChildren(v);
      LeavesAllPrefixFree(codec, Children(v), path);
    } else if v.Str? && Unwrap(codec, path, v.text).Some? {
      LeavesPrefixFree(codec, Unwrap(codec, path, v.text).value, path);
    }
  }

  lemma {:induction false} LeavesAllPrefixFree(codec: SizedCodec, cs: seq<Child>, path: Path)
    requires DistinctSegs(cs) && AllProper(cs)
    ensures forall a, b | a in LeavesAll(codec, cs, path) && b in LeavesAll(codec, cs, path) && a.path <= b.path ::
      a == b
    decreases WeightAll(cs), |cs|
  {
    hide Leaves, Proper;
    if cs != [] {
      var head, tail := Leaves(codec, cs[0].1, path + [cs[0].0]), LeavesAll(codec, cs[1..], path);
      LeavesPrefixFree(codec, cs[0].1, path + [cs[0].0]);
      LeavesAllPrefixFree(codec, cs[1..], path);
      forall a, b | a in head && b in tail ensures !(a.path <= b.path) && !(b.path <= a.path) {
        HeadTailApart(codec, cs, path, a, b);
      }
    }
  }

  lemma HeadTailApart(codec: SizedCodec, cs: seq<Child>, path: Path, a: Leaf, b: Leaf)
    requires cs != [] && DistinctSegs(cs)
    requires a in Leaves(codec, cs[0].1, path + [cs[0].0]) && b in LeavesAll(codec, cs[1..], path)
    ensures !(a.path <= b.path) && !(b.path <= a.path)
  {
    hide Leaves;
    LeavesExtend(codec, cs[0].1, path + [cs[0].0]);
    LeavesAllExtend(codec, cs[1..], path);
    var i :| 0 <= i < |cs[1..]| && b in Leaves(codec, cs[1..][i].1, path + [cs[1..][i].0]);
    LeavesExtend(codec, cs[i + 1].1, path + [cs[i + 1].0]);
    SegmentOf(path, cs[0].0, a.path);
    SegmentOf(path, cs[i + 1].0, b.path);
  }

  lemma {:induction false} ExpandedFrom(codec: SizedCodec, ls: seq<Leaf>, subs: Substitutions, x: Leaf)
    requires x in ExpandAll(codec, ls, subs)
    ensures exists l :: l in ls && x in Expand(codec, l, subs)
  {
    hide Expand;
    if x in Expand(codec, ls[0], subs) {
      assert ls[0] in ls;
    } else {
      ExpandedFrom(codec, ls[1..], subs, x);
    }
  }

  lemma ExpandBelow(codec: SizedCodec, l: Leaf, subs: Substitutions)
    ensures forall x | x in Expand(codec, l, subs) :: l.path <= x.path
  {
    hide Leaves;
    if l.value.Str? && l.path in subs {
      LeavesExtend(codec, Str(subs[l.path]), l.path);
    }
  }

  lemma UnwrappedAway(codec: SizedCodec, k: Path, text: string)
    requires Unwrap(codec, k, text).Some?
    ensures forall l | l in Leaves(codec, Str(text), k) && l.value.Str? :: k < l.path
  {
    LeavesOfArguments(codec, text, k);
    LeavesExtend(codec, Unwrap(codec, k, text).value, k);
  }

  /** A text unwrapped after substitution is lost: whatever is substituted for what a walk
      then finds, the string at its path does not come back. */
  lemma UnwrappedIsLost(codec: SizedCodec, body: Json, subs: Substitutions, back: Substitutions, k: Path)
    requires Proper(body) && k in subs && Unwrap(codec, k, subs[k]).Some?
    requires HasText(Leaves(codec, body, []), k)
    ensures ExpandAll(codec, ExpandAll(codec, Leaves(codec, body, []), subs), back) != Leaves(codec, body, [])
  {
    hide Leaves, ExpandAll, Unwrap;
    var ls := Leaves(codec, body, []);
    var mid := ExpandAll(codec, ls, subs);
    var x :| x in ls && x.path == k && x.value.Str?;
    if ExpandAll(codec, mid, back) == ls {
      LostAt(codec, body, subs, back, k, x);
    }
  }

  lemma LostAt(codec: SizedCodec, body: Json, subs: Substitutions, back: Substitutions, k: Path, x: Leaf)
    requires Proper(body) && k in subs && Unwrap(codec, k, subs[k]).Some?
    requires x in Leaves(codec, body, []) && x.path == k && x.value.Str?
    ensures x !in ExpandAll(codec, ExpandAll(codec, Leaves(codec, body, []), subs), back)
  {
    hide Leaves, ExpandAll, Unwrap, Proper;
    var ls := Leaves(codec, body, []);
    var mid := ExpandAll(codec, ls, subs);
    UnwrappedAway(codec, k, subs[k]);
    LeavesPrefixFree(codec, body, []);
    if x in ExpandAll(codec, mid, back) {
      ExpandedFrom(codec, mid, back, x);
      var l1 :| l1 in mid && x in Expand(codec, l1, back);
      ExpandBelow(codec, l1, back);
      ExpandedFrom(codec, ls, subs, l1);
      var l0 :| l0 in ls && l1 in Expand(codec, l0, subs);
      ExpandBelow(codec, l0, subs);
    }
  }

  // ------------------------------------------------------------ a body of one field

  lemma OneField(codec: SizedCodec, v: Json, subs: Substitutions)
    ensures var body := Obj([("arguments", v)]);
      Walk(codec, body, []) == Walk(codec, v, [ARGUMENTS])
      && Rebuild(codec, body, [], subs) == Obj([("arguments", Rebuild(codec, v, [ARGUMENTS], subs))])
      && Applied(codec, body, [], subs) == Applied(codec, v, [ARGUMENTS], subs)
  {
    hide Walk, Rebuild, Applied;
    var body := Obj([("arguments", v)]);
    var cs := Children(body);
    assert cs == [(ARGUMENTS, v)] && cs[1..] == [];
    assert [] + [ARGUMENTS] == [ARGUMENTS];
    RebuildOfContainer(codec, body, [], subs);
    WalkOfContainer(codec, body, []);
  }

  lemma WalkOfContainer(codec: SizedCodec, v: Json, path: Path)
    requires IsContainer(v)
    ensures Walk(codec, v, path) == WalkAll(codec, Children(v), path)
  {
  }
}
