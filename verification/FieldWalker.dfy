/** Enumerating and rebuilding the text fields of a JSON body, through `arguments` strings
    that hold JSON themselves (src/pipeline/field_walker.py). */
module FieldWalker {
  import opened Prelude
  import opened Json

  datatype Seg = Key(name: string) | Idx(index: nat)
  type Path = seq<Seg>

  datatype Region = Region(path: Path, text: string)

  type Child = (Seg, Json)

  // -------------------------------------------------------- values as trees

  /** Nodes plus characters: what unwrapping an `arguments` string always makes smaller. */
  function Weight(v: Json): (n: nat)
    ensures n > 0
  {
    match v
    case Obj(fields) => 1 + WeightFields(fields)
    case Arr(items) => 1 + WeightItems(items)
    case Str(t) => |t| + 1
    case _ => 1
  }

  function WeightFields(fields: seq<(string, Json)>): nat {
    if fields == [] then 0
    else
      assert fields[0].1 < fields[0];
      Weight(fields[0].1) + WeightFields(fields[1..])
  }

  function WeightItems(items: seq<Json>): nat {
    if items == [] then 0 else Weight(items[0]) + WeightItems(items[1..])
  }

  function WeightAll(cs: seq<Child>): nat {
    if cs == [] then 0 else Weight(cs[0].1) + WeightAll(cs[1..])
  }

  function FieldChildren(fields: seq<(string, Json)>): (cs: seq<Child>)
    ensures |cs| == |fields| && WeightAll(cs) == WeightFields(fields)
    ensures forall i | 0 <= i < |cs| :: cs[i] == (Key(fields[i].0), fields[i].1)
  {
    if fields == [] then []
    else
      var r := [(Key(fields[0].0), fields[0].1)] + FieldChildren(fields[1..]);
      assert r[1..] == FieldChildren(fields[1..]);
      r
  }

  function ItemChildren(items: seq<Json>, from: nat): (cs: seq<Child>)
    ensures |cs| == |items| && WeightAll(cs) == WeightItems(items)
    ensures forall i | 0 <= i < |cs| :: cs[i] == (Idx(from + i), items[i])
  {
    if items == [] then []
    else
      var r := [(Idx(from), items[0])] + ItemChildren(items[1..], from + 1);
      assert r[1..] == ItemChildren(items[1..], from + 1);
      r
  }

  predicate IsContainer(v: Json) {
    v.Obj? || v.Arr?
  }

  function Children(v: Json): (cs: seq<Child>)
    ensures IsContainer(v) ==> WeightAll(cs) < Weight(v)
  {
    match v
    case Obj(fields) => FieldChildren(fields)
    case Arr(items) => ItemChildren(items, 0)
    case _ => []
  }

  /** The same kind of container with other values in it. */
  function WithChildren(v: Json, values: seq<Json>): Json
    requires IsContainer(v) && |values| == |Children(v)|
  {
    match v
    case Obj(fields) => Obj(seq(|fields|, i requires 0 <= i < |fields| => (fields[i].0, values[i])))
    case Arr(_) => Arr(values)
  }

  /** A parser whose result is never heavier than its text. */
  ghost predicate Sized(codec: Codec) {
    forall s :: codec.loads(s).Some? ==> Proper(codec.loads(s).value) && Weight(codec.loads(s).value) <= |s|
  }

  type SizedCodec = codec: Codec | Sized(codec) ghost witness Codec(s => None, v => "")

  /** Printing a container and parsing the result gives it back. */
  ghost predicate Reparses(codec: SizedCodec) {
    forall v :: Proper(v) && IsContainer(v) ==> codec.loads(codec.dumps(v)) == Some(v)
  }

  // ------------------------------------------------------------- walk, rebuild

  const ARGUMENTS := Key("arguments")

  function TryParseJsonContainer(codec: SizedCodec, text: string): (r: Option<Json>)
    ensures r.Some? ==> IsContainer(r.value) && Proper(r.value) && Weight(r.value) <= |text|
  {
    match codec.loads(text)
    case Some(v) => if IsContainer(v) then Some(v) else None
    case None => None
  }

  predicate EndsInArguments(path: Path) {
    path != [] && path[|path| - 1] == ARGUMENTS
  }

  /** The container a string stands for at a path, if it does. */
  function Unwrap(codec: SizedCodec, path: Path, text: string): (r: Option<Json>)
    ensures r.Some? ==> IsContainer(r.value) && Proper(r.value) && Weight(r.value) <= |text|
  {
    if EndsInArguments(path) then TryParseJsonContainer(codec, text) else None
  }

  function Walk(codec: SizedCodec, v: Json, path: Path): seq<Region>
    decreases Weight(v), 0
  {
    match v
    case Obj(_) => WalkAll(codec, Children(v), path)
    case Arr(_) => WalkAll(codec, Children(v), path)
    case Str(text) =>
      (match Unwrap(codec, path, text)
       case Some(inner) => Walk(codec, inner, path)
       case None => [Region(path, text)])
    case _ => []
  }

  function WalkAll(codec: SizedCodec, cs: seq<Child>, path: Path): seq<Region>
    decreases WeightAll(cs), |cs|
  {
    if cs == [] then []
    else Walk(codec, cs[0].1, path + [cs[0].0]) + WalkAll(codec, cs[1..], path)
  }

  type Substitutions = map<Path, string>

  predicate HasSubstitutionBeneath(path: Path, subs: Substitutions) {
    exists k | k in subs :: path < k
  }

  function Rebuild(codec: SizedCodec, v: Json, path: Path, subs: Substitutions): Json
    decreases Weight(v), 0
  {
    match v
    case Obj(_) => WithChildren(v, RebuildAll(codec, Children(v), path, subs))
    case Arr(_) => WithChildren(v, RebuildAll(codec, Children(v), path, subs))
    case Str(text) =>
      if path in subs then Str(subs[path])
      else (match Unwrap(codec, path, text)
            case Some(inner) =>
              if HasSubstitutionBeneath(path, subs) then Str(codec.dumps(Rebuild(codec, inner, path, subs))) else v
            case None => v)
    case _ => v
  }

  function RebuildAll(codec: SizedCodec, cs: seq<Child>, path: Path, subs: Substitutions): (vs: seq<Json>)
    ensures |vs| == |cs|
    decreases WeightAll(cs), |cs|
  {
    if cs == [] then []
    else [Rebuild(codec, cs[0].1, path + [cs[0].0], subs)] + RebuildAll(codec, cs[1..], path, subs)
  }

  /** The substitution paths a rebuild reports as applied. */
  function Applied(codec: SizedCodec, v: Json, path: Path, subs: Substitutions): set<Path>
    decreases Weight(v), 0
  {
    match v
    case Obj(_) => AppliedAll(codec, Children(v), path, subs)
    case Arr(_) => AppliedAll(codec, Children(v), path, subs)
    case Str(text) =>
      if path in subs then {path}
      else (match Unwrap(codec, path, text)
            case Some(inner) => if HasSubstitutionBeneath(path, subs) then Applied(codec, inner, path, subs) else {}
            case None => {})
    case _ => {}
  }

  function AppliedAll(codec: SizedCodec, cs: seq<Child>, path: Path, subs: Substitutions): set<Path>
    decreases WeightAll(cs), |cs|
  {
    if cs == [] then {}
    else Applied(codec, cs[0].1, path + [cs[0].0], subs) + AppliedAll(codec, cs[1..], path, subs)
  }

  /** The rebuild itself: one pass, children in order, collecting the applied paths. */
  method RebuildLoop(codec: SizedCodec, v: Json, path: Path, subs: Substitutions, before: set<Path>)
    returns (r: Json, applied: set<Path>)
    ensures r == Rebuild(codec, v, path, subs)
    ensures applied == before + Applied(codec, v, path, subs)
    decreases Weight(v), 0, 0
  {
    applied := before;
    match v
    case Obj(_) => r, applied := RebuildContainer(codec, v, path, subs, applied);
    case Arr(_) => r, applied := RebuildContainer(codec, v, path, subs, applied);
    case Str(text) =>
      if path in subs {
        return Str(subs[path]), applied + {path};
      }
      var inner := Unwrap(codec, path, text);
      if inner.Some? && HasSubstitutionBeneath(path, subs) {
        r, applied := RebuildLoop(codec, inner.value, path, subs, applied);
        r := Str(codec.dumps(r));
      } else {
        r := v;
      }
    case _ => r := v;
  }

  method RebuildContainer(codec: SizedCodec, v: Json, path: Path, subs: Substitutions, before: set<Path>)
    returns (r: Json, applied: set<Path>)
    requires IsContainer(v)
    ensures r == WithChildren(v, RebuildAll(codec, Children(v), path, subs))
    ensures applied == before + AppliedAll(codec, Children(v), path, subs)
    decreases WeightAll(Children(v)), |Children(v)|, 1
  {
    hide Rebuild, Applied, RebuildAll, AppliedAll, Children, WithChildren, WeightAll;
    var cs := Children(v);
    var values: seq<Json> := [];
    applied := before;
    assert cs[0..] == cs;
    for i := 0 to |cs|
      invariant |values| == i
      invariant RebuildAll(codec, cs, path, subs) == values + RebuildAll(codec, cs[i..], path, subs)
      invariant before + AppliedAll(codec, cs, path, subs) == applied + AppliedAll(codec, cs[i..], path, subs)
    {
      ChildWeight(cs, i);
      RebuildStep(codec, cs, i, path, subs);
      var child;
      child, applied := RebuildLoop(codec, cs[i].1, path + [cs[i].0], subs, applied);
      values := values + [child];
    }
    RebuildEnd(codec, path, subs);
    assert cs[|cs|..] == [] && values + [] == values;
    r := WithChildren(v, values);
  }

  lemma RebuildStep(codec: SizedCodec, cs: seq<Child>, i: nat, path: Path, subs: Substitutions)
    requires i < |cs|
    ensures RebuildAll(codec, cs[i..], path, subs)
         == [Rebuild(codec, cs[i].1, path + [cs[i].0], subs)] + RebuildAll(codec, cs[i + 1..], path, subs)
    ensures AppliedAll(codec, cs[i..], path, subs)
         == Applied(codec, cs[i].1, path + [cs[i].0], subs) + AppliedAll(codec, cs[i + 1..], path, subs)
  {
    hide Rebuild, Applied;
    assert cs[i..][1..] == cs[i + 1..];
  }

  lemma RebuildEnd(codec: SizedCodec, path: Path, subs: Substitutions)
    ensures RebuildAll(codec, [], path, subs) == [] && AppliedAll(codec, [], path, subs) == {}
  {
  }

  lemma {:induction false} ChildWeight(cs: seq<Child>, i: nat)
    requires i < |cs|
    ensures Weight(cs[i].1) <= WeightAll(cs)
  {
    if i > 0 {
      ChildWeight(cs[1..], i - 1);
    }
  }

  // ------------------------------------------------------------ distinct paths

  ghost predicate Distinct(rs: seq<Region>) {
    forall i, j | 0 <= i < j < |rs| :: rs[i].path != rs[j].path
  }

  predicate DistinctSegs(cs: seq<Child>) {
    forall i, j | 0 <= i < j < |cs| :: cs[i].0 != cs[j].0
  }

  predicate AllProper(cs: seq<Child>) {
    forall i | 0 <= i < |cs| :: Proper(cs[i].1)
  }

  lemma ProperChildren(v: Json)
    requires Proper(v)
    ensures DistinctSegs(Children(v)) && AllProper(Children(v))
  {
  }

  /** Every path of a walk extends the path it started from, strictly so inside a container. */
  lemma {:induction false} WalkExtends(codec: SizedCodec, v: Json, path: Path)
    ensures forall r | r in Walk(codec, v, path) :: path <= r.path && (IsContainer(v) ==> path < r.path)
    decreases Weight(v), 0
  {
    if IsContainer(v) {
      WalkAllExtends(codec, Children(v), path);
    } else if v.Str? && Unwrap(codec, path, v.text).Some? {
      WalkExtends(codec, Unwrap(codec, path, v.text).value, path);
    }
  }

  /** It goes through one of the children. */
  ghost predicate Through(cs: seq<Child>, path: Path, p: Path) {
    exists i :: 0 <= i < |cs| && path + [cs[i].0] <= p
  }

  lemma {:induction false} WalkAllExtends(codec: SizedCodec, cs: seq<Child>, path: Path)
    ensures forall r | r in WalkAll(codec, cs, path) :: path < r.path && Through(cs, path, r.path)
    decreases WeightAll(cs), |cs|
  {
    if cs != [] {
      WalkExtends(codec, cs[0].1, path + [cs[0].0]);
      WalkAllExtends(codec, cs[1..], path);
      forall r | r in WalkAll(codec, cs, path) ensures path < r.path && Through(cs, path, r.path) {
        if r in Walk(codec, cs[0].1, path + [cs[0].0]) {
          assert path < path + [cs[0].0] <= r.path;
        } else {
          var i :| 0 <= i < |cs[1..]| && path + [cs[1..][i].0] <= r.path;
          assert path + [cs[i + 1].0] <= r.path;
        }
      }
    }
  }

  lemma SegmentOf(path: Path, s: Seg, p: Path)
    requires path + [s] <= p
    ensures |path| < |p| && p[|path|] == s
  {
  }

  /** Walk paths are pairwise distinct, at any nesting of `arguments` strings. */
  lemma {:induction false} WalkDistinct(codec: SizedCodec, v: Json, path: Path)
    requires Proper(v)
    ensures Distinct(Walk(codec, v, path))
    decreases Weight(v), 0
  {
    if IsContainer(v) {
      ProperChildren(v);
      WalkAllDistinct(codec, Children(v), path);
    } else if v.Str? && Unwrap(codec, path, v.text).Some? {
      WalkDistinct(codec, Unwrap(codec, path, v.text).value, path);
    }
  }

  lemma {:induction false} WalkAllDistinct(codec: SizedCodec, cs: seq<Child>, path: Path)
    requires DistinctSegs(cs) && AllProper(cs)
    ensures Distinct(WalkAll(codec, cs, path))
    decreases WeightAll(cs), |cs|
  {
    hide Proper, Walk;
    if cs != [] {
      var head, tail := Walk(codec, cs[0].1, path + [cs[0].0]), WalkAll(codec, cs[1..], path);
      WalkDistinct(codec, cs[0].1, path + [cs[0].0]);
      WalkAllDistinct(codec, cs[1..], path);
      WalkExtends(codec, cs[0].1, path + [cs[0].0]);
      WalkAllExtends(codec, cs[1..], path);
      forall a, b | a in head && b in tail ensures a.path != b.path {
        SegmentOf(path, cs[0].0, a.path);
        var i :| 0 <= i < |cs[1..]| && path + [cs[1..][i].0] <= b.path;
        SegmentOf(path, cs[i + 1].0, b.path);
      }
    }
  }

  // ------------------------------------------------------ what a rebuild changes

  /** Every leaf, not only the text regions: what a walk passes over is kept here too. */
  datatype Leaf = Leaf(path: Path, value: Json)

  function Leaves(codec: SizedCodec, v: Json, path: Path): seq<Leaf>
    decreases Weight(v), 0
  {
    if IsContainer(v) && Children(v) != [] then LeavesAll(codec, Children(v), path)
    else if v.Str? && Unwrap(codec, path, v.text).Some? then Leaves(codec, Unwrap(codec, path, v.text).value, path)
    else [Leaf(path, v)]
  }

  function LeavesAll(codec: SizedCodec, cs: seq<Child>, path: Path): seq<Leaf>
    decreases WeightAll(cs), |cs|
  {
    if cs == [] then []
    else Leaves(codec, cs[0].1, path + [cs[0].0]) + LeavesAll(codec, cs[1..], path)
  }

  /** The text regions among the leaves. */
  function Texts(ls: seq<Leaf>): seq<Region> {
    if ls == [] then [] else TextOf(ls[0]) + Texts(ls[1..])
  }

  function TextOf(l: Leaf): seq<Region> {
    if l.value.Str? then [Region(l.path, l.value.text)] else []
  }

  lemma {:induction false} TextsAppend(a: seq<Leaf>, b: seq<Leaf>)
    ensures Texts(a + b) == Texts(a) + Texts(b)
  {
    hide TextOf;
    if a == [] {
      assert a + b == b;
    } else {
      assert (a + b)[1..] == a[1..] + b;
      TextsAppend(a[1..], b);
      assert TextOf(a[0]) + Texts(a[1..]) + Texts(b) == TextOf(a[0]) + (Texts(a[1..]) + Texts(b));
    }
  }

  lemma {:induction false} WalkIsTexts(codec: SizedCodec, v: Json, path: Path)
    ensures Walk(codec, v, path) == Texts(Leaves(codec, v, path))
    decreases Weight(v), 0
  {
    if IsContainer(v) {
      WalkAllIsTexts(codec, Children(v), path);
    } else if v.Str? && Unwrap(codec, path, v.text).Some? {
      WalkIsTexts(codec, Unwrap(codec, path, v.text).value, path);
    }
  }

  lemma {:induction false} WalkAllIsTexts(codec: SizedCodec, cs: seq<Child>, path: Path)
    ensures WalkAll(codec, cs, path) == Texts(LeavesAll(codec, cs, path))
    decreases WeightAll(cs), |cs|
  {
    hide Walk, Leaves;
    if cs != [] {
      WalkIsTexts(codec, cs[0].1, path + [cs[0].0]);
      WalkAllIsTexts(codec, cs[1..], path);
      TextsAppend(Leaves(codec, cs[0].1, path + [cs[0].0]), LeavesAll(codec, cs[1..], path));
    }
  }

  /** What becomes of a leaf: a new text, or what that unwraps to at its path. */
  function Expand(codec: SizedCodec, l: Leaf, subs: Substitutions): seq<Leaf> {
    if l.value.Str? && l.path in subs then Leaves(codec, Str(subs[l.path]), l.path) else [l]
  }

  function ExpandAll(codec: SizedCodec, ls: seq<Leaf>, subs: Substitutions): seq<Leaf> {
    if ls == [] then [] else Expand(codec, ls[0], subs) + ExpandAll(codec, ls[1..], subs)
  }

  lemma {:induction false} ExpandAppend(codec: SizedCodec, a: seq<Leaf>, b: seq<Leaf>, subs: Substitutions)
    ensures ExpandAll(codec, a + b, subs) == ExpandAll(codec, a, subs) + ExpandAll(codec, b, subs)
  {
    hide Expand;
    if a == [] {
      assert a + b == b;
    } else {
      assert (a + b)[1..] == a[1..] + b;
      ExpandAppend(codec, a[1..], b, subs);
      assert Expand(codec, a[0], subs) + ExpandAll(codec, a[1..], subs) + ExpandAll(codec, b, subs)
          == Expand(codec, a[0], subs) + (ExpandAll(codec, a[1..], subs) + ExpandAll(codec, b, subs));
    }
  }

  lemma ExpandOne(codec: SizedCodec, l: Leaf, subs: Substitutions)
    ensures ExpandAll(codec, [l], subs) == Expand(codec, l, subs)
  {
    hide Expand;
    assert [l][1..] == [] && Expand(codec, l, subs) + [] == Expand(codec, l, subs);
  }

  /** k is the path of a text region among the leaves. */
  ghost predicate HasText(ls: seq<Leaf>, k: Path) {
    exists l :: l in ls && l.path == k && l.value.Str?
  }

  /** Every substitution at or below path is for a text region there. */
  ghost predicate Targets(codec: SizedCodec, v: Json, path: Path, subs: Substitutions) {
    forall k | k in subs && path <= k :: HasText(Leaves(codec, v, path), k)
  }

  ghost predicate TargetsAll(codec: SizedCodec, cs: seq<Child>, path: Path, subs: Substitutions) {
    forall i | 0 <= i < |cs| :: Targets(codec, cs[i].1, path + [cs[i].0], subs)
  }

  lemma {:induction false} LeavesExtend(codec: SizedCodec, v: Json, path: Path)
    ensures forall l | l in Leaves(codec, v, path) ::
      path <= l.path && (IsContainer(v) && l.value.Str? ==> path < l.path)
    decreases Weight(v), 0
  {
    if IsContainer(v) {
      LeavesAllExtend(codec, Children(v), path);
    } else if v.Str? && Unwrap(codec, path, v.text).Some? {
      LeavesExtend(codec, Unwrap(codec, path, v.text).value, path);
    }
  }

  lemma {:induction false} LeavesAllExtend(codec: SizedCodec, cs: seq<Child>, path: Path)
    ensures forall l | l in LeavesAll(codec, cs, path) ::
      path < l.path && exists i :: 0 <= i < |cs| && l in Leaves(codec, cs[i].1, path + [cs[i].0])
    decreases WeightAll(cs), |cs|
  {
    hide Leaves;
    if cs != [] {
      LeavesExtend(codec, cs[0].1, path + [cs[0].0]);
      LeavesAllExtend(codec, cs[1..], path);
      forall l | l in LeavesAll(codec, cs, path)
        ensures path < l.path && exists i :: 0 <= i < |cs| && l in Leaves(codec, cs[i].1, path + [cs[i].0])
      {
        if l in Leaves(codec, cs[0].1, path + [cs[0].0]) {
          assert path < path + [cs[0].0] <= l.path;
        } else {
          var i :| 0 <= i < |cs[1..]| && l in Leaves(codec, cs[1..][i].1, path + [cs[1..][i].0]);
          assert l in Leaves(codec, cs[i + 1].1, path + [cs[i + 1].0]);
        }
      }
    }
  }

  /** k is the path of a text region of child j. */
  ghost predicate InChild(codec: SizedCodec, cs: seq<Child>, j: int, path: Path, k: Path) {
    0 <= j < |cs| && path + [cs[j].0] <= k && HasText(Leaves(codec, cs[j].1, path + [cs[j].0]), k)
  }

  lemma LeavesOfContainer(codec: SizedCodec, v: Json, path: Path)
    requires IsContainer(v)
    ensures Leaves(codec, v, path) == if Children(v) == [] then [Leaf(path, v)] else LeavesAll(codec, Children(v), path)
  {
  }

  lemma TextInChild(codec: SizedCodec, v: Json, path: Path, k: Path)
    requires IsContainer(v) && HasText(Leaves(codec, v, path), k)
    ensures path < k && exists j :: InChild(codec, Children(v), j, path, k)
  {
    hide Leaves, LeavesAll, Children;
    var cs := Children(v);
    LeavesOfContainer(codec, v, path);
    LeavesAllExtend(codec, cs, path);
    var l :| l in Leaves(codec, v, path) && l.path == k && l.value.Str?;
    var j :| 0 <= j < |cs| && l in Leaves(codec, cs[j].1, path + [cs[j].0]);
    LeavesExtend(codec, cs[j].1, path + [cs[j].0]);
    assert InChild(codec, cs, j, path, k);
  }

  /** The substitutions below a container are below its children, each where it belongs. */
  lemma TargetsChildren(codec: SizedCodec, v: Json, path: Path, subs: Substitutions)
    requires IsContainer(v) && Proper(v) && Targets(codec, v, path, subs)
    ensures TargetsAll(codec, Children(v), path, subs) && path !in subs
    ensures UnderAll(subs, Children(v), path) == Under(subs, path)
  {
    hide Proper, Leaves, Children, HasText, Under, UnderAll;
    var cs := Children(v);
    ProperChildren(v);
    forall k | k in subs && path <= k ensures path < k && Through(cs, path, k) {
      TextInChild(codec, v, path, k);
    }
    UnderChildren(subs, cs, path);
    forall i, k | 0 <= i < |cs| && k in subs && path + [cs[i].0] <= k
      ensures HasText(Leaves(codec, cs[i].1, path + [cs[i].0]), k)
    {
      SegmentOf(path, cs[i].0, k);
      assert path <= k;
      TextInChild(codec, v, path, k);
      var j :| InChild(codec, cs, j, path, k);
      SegmentOf(path, cs[j].0, k);
    }
  }

  /** The substitutions at or below a path, and below the children of a node there. */
  function Under(subs: Substitutions, path: Path): set<Path> {
    set k | k in subs && path <= k
  }

  function UnderAll(subs: Substitutions, cs: seq<Child>, path: Path): set<Path> {
    if cs == [] then {} else Under(subs, path + [cs[0].0]) + UnderAll(subs, cs[1..], path)
  }

  lemma {:induction false} UnderAllIsThrough(subs: Substitutions, cs: seq<Child>, path: Path)
    ensures forall k :: k in UnderAll(subs, cs, path) <==> k in subs && Through(cs, path, k)
  {
    if cs != [] {
      hide Through;
      UnderAllIsThrough(subs, cs[1..], path);
      ThroughFirst(cs, path);
    } else {
      assert forall k :: !Through(cs, path, k);
    }
  }

  lemma UnderChildren(subs: Substitutions, cs: seq<Child>, path: Path)
    requires forall k | k in subs && path <= k :: Through(cs, path, k)
    ensures UnderAll(subs, cs, path) == Under(subs, path)
  {
    UnderAllIsThrough(subs, cs, path);
    forall k | k in UnderAll(subs, cs, path) ensures k in Under(subs, path) {
      var i :| 0 <= i < |cs| && path + [cs[i].0] <= k;
      SegmentOf(path, cs[i].0, k);
      assert path <= k;
    }
  }

  /** What is to be shown of one rebuild. */
  ghost predicate Rebuilt(codec: SizedCodec, v: Json, path: Path, subs: Substitutions) {
    var r := Rebuild(codec, v, path, subs);
    Proper(r) && r.Obj? == v.Obj? && r.Arr? == v.Arr?
    && Leaves(codec, r, path) == ExpandAll(codec, Leaves(codec, v, path), subs)
    && Applied(codec, v, path, subs) == Under(subs, path)
  }

  /** For substitutions keyed by walked paths: all are applied, and the leaves of the rebuilt
      body are the old ones in order, with exactly the substituted texts replaced by what a
      walk finds in the new ones. */
  lemma {:induction false} RebuildChangesTexts(codec: SizedCodec, v: Json, path: Path, subs: Substitutions)
    requires Reparses(codec) && Proper(v) && Targets(codec, v, path, subs)
    ensures Rebuilt(codec, v, path, subs)
    decreases Weight(v), 0
  {
    if IsContainer(v) {
      TargetsChildren(codec, v, path, subs);
      ProperChildren(v);
      RebuildChildren(codec, Children(v), path, subs);
      RebuildContainerChanges(codec, v, path, subs);
    } else if v.Str? && Unwrap(codec, path, v.text).Some? {
      var inner := Unwrap(codec, path, v.text).value;
      TargetsChildren(codec, inner, path, subs);
      RebuildChangesTexts(codec, inner, path, subs);
      RebuildArguments(codec, v.text, path, subs);
    } else {
      RebuildLeaf(codec, v, path, subs);
    }
  }

  lemma RebuildLeaf(codec: SizedCodec, v: Json, path: Path, subs: Substitutions)
    requires !IsContainer(v) && (v.Str? ==> Unwrap(codec, path, v.text).None?)
    requires Targets(codec, v, path, subs)
    ensures Rebuilt(codec, v, path, subs)
  {
    assert Leaves(codec, v, path) == [Leaf(path, v)];
    ExpandOne(codec, Leaf(path, v), subs);
    forall k | k in subs && path <= k ensures k == path && v.Str? {
      assert HasText(Leaves(codec, v, path), k);
    }
  }

  lemma RebuildArguments(codec: SizedCodec, text: string, path: Path, subs: Substitutions)
    requires Reparses(codec) && Unwrap(codec, path, text).Some? && path !in subs
    requires Rebuilt(codec, Unwrap(codec, path, text).value, path, subs)
    ensures Rebuilt(codec, Str(text), path, subs)
  {
    var inner := Unwrap(codec, path, text).value;
    if HasSubstitutionBeneath(path, subs) {
      hide Leaves, Rebuild, Applied, Under, ExpandAll;
      RebuildOfArguments(codec, text, path, subs);
      var r := Rebuild(codec, inner, path, subs);
      assert codec.loads(codec.dumps(r)) == Some(r);
      LeavesOfArguments(codec, codec.dumps(r), path);
      LeavesOfArguments(codec, text, path);
    } else {
      UntouchedLeaves(codec, text, path, subs);
    }
  }

  lemma RebuildOfArguments(codec: SizedCodec, text: string, path: Path, subs: Substitutions)
    requires Unwrap(codec, path, text).Some? && path !in subs && HasSubstitutionBeneath(path, subs)
    ensures var inner := Unwrap(codec, path, text).value;
      Rebuild(codec, Str(text), path, subs) == Str(codec.dumps(Rebuild(codec, inner, path, subs)))
      && Applied(codec, Str(text), path, subs) == Applied(codec, inner, path, subs)
  {
  }

  lemma LeavesOfArguments(codec: SizedCodec, text: string, path: Path)
    requires Unwrap(codec, path, text).Some?
    ensures Leaves(codec, Str(text), path) == Leaves(codec, Unwrap(codec, path, text).value, path)
  {
  }

  lemma UntouchedLeaves(codec: SizedCodec, text: string, path: Path, subs: Substitutions)
    requires Unwrap(codec, path, text).Some? && path !in subs && !HasSubstitutionBeneath(path, subs)
    ensures Rebuilt(codec, Str(text), path, subs)
  {
    var inner := Unwrap(codec, path, text).value;
    var ls := Leaves(codec, inner, path);
    LeavesOfArguments(codec, text, path);
    hide Leaves, ExpandAll;
    LeavesExtend(codec, inner, path);
    forall k | k in subs ensures !(path <= k) {
      assert path <= k && |k| == |path| ==> k == path;
    }
    ExpandNothing(codec, ls, path, subs);
    assert Under(subs, path) == {};
  }

  lemma {:induction false} ExpandNothing(codec: SizedCodec, ls: seq<Leaf>, path: Path, subs: Substitutions)
    requires (forall l | l in ls :: path <= l.path) && forall k | k in subs :: !(path <= k)
    ensures ExpandAll(codec, ls, subs) == ls
  {
    hide Leaves;
    if ls != [] {
      assert ls[0] in ls;
      ExpandNothing(codec, ls[1..], path, subs);
      assert [ls[0]] + ls[1..] == ls;
    }
  }

  /** The new children of a container, with the old segments. */
  function Paired(cs: seq<Child>, values: seq<Json>): (r: seq<Child>)
    requires |cs| == |values|
    ensures |r| == |cs| && forall i | 0 <= i < |r| :: r[i] == (cs[i].0, values[i])
  {
    seq(|cs|, i requires 0 <= i < |cs| => (cs[i].0, values[i]))
  }

  /** What is to be shown of the children of one container. */
  ghost predicate ChildrenRebuilt(codec: SizedCodec, cs: seq<Child>, path: Path, subs: Substitutions) {
    var vs := RebuildAll(codec, cs, path, subs);
    (forall i | 0 <= i < |vs| :: Proper(vs[i]))
    && LeavesAll(codec, Paired(cs, vs), path) == ExpandAll(codec, LeavesAll(codec, cs, path), subs)
    && AppliedAll(codec, cs, path, subs) == UnderAll(subs, cs, path)
  }

  lemma {:induction false} RebuildChildren(codec: SizedCodec, cs: seq<Child>, path: Path, subs: Substitutions)
    requires Reparses(codec) && AllProper(cs) && TargetsAll(codec, cs, path, subs)
    ensures ChildrenRebuilt(codec, cs, path, subs)
    decreases WeightAll(cs), |cs|
  {
    hide Rebuild, Reparses, Targets, Proper, Rebuilt, ChildrenRebuilt;
    if cs == [] {
      RebuildNoChildren(codec, path, subs);
    } else {
      RebuildChangesTexts(codec, cs[0].1, path + [cs[0].0], subs);
      TargetsRest(codec, cs, path, subs);
      RebuildChildren(codec, cs[1..], path, subs);
      RebuildOneMore(codec, cs, path, subs);
    }
  }

  lemma RebuildNoChildren(codec: SizedCodec, path: Path, subs: Substitutions)
    ensures ChildrenRebuilt(codec, [], path, subs)
  {
  }

  lemma TargetsRest(codec: SizedCodec, cs: seq<Child>, path: Path, subs: Substitutions)
    requires cs != [] && TargetsAll(codec, cs, path, subs)
    ensures TargetsAll(codec, cs[1..], path, subs)
  {
    hide Targets;
  }

  lemma RebuildOneMore(codec: SizedCodec, cs: seq<Child>, path: Path, subs: Substitutions)
    requires cs != [] && Rebuilt(codec, cs[0].1, path + [cs[0].0], subs) && ChildrenRebuilt(codec, cs[1..], path, subs)
    ensures ChildrenRebuilt(codec, cs, path, subs)
  {
    hide Leaves, Rebuild, Applied, Proper, Under, ExpandAll, LeavesAll, Paired;
    var vs := RebuildAll(codec, cs, path, subs);
    LeavesPaired(codec, cs, vs, path);
    LeavesCons(codec, cs, path);
    ExpandAppend(codec, Leaves(codec, cs[0].1, path + [cs[0].0]), LeavesAll(codec, cs[1..], path), subs);
  }

  lemma LeavesCons(codec: SizedCodec, cs: seq<Child>, path: Path)
    requires cs != []
    ensures LeavesAll(codec, cs, path) == Leaves(codec, cs[0].1, path + [cs[0].0]) + LeavesAll(codec, cs[1..], path)
  {
  }

  lemma LeavesPaired(codec: SizedCodec, cs: seq<Child>, vs: seq<Json>, path: Path)
    requires cs != [] && |vs| == |cs|
    ensures LeavesAll(codec, Paired(cs, vs), path)
         == Leaves(codec, vs[0], path + [cs[0].0]) + LeavesAll(codec, Paired(cs[1..], vs[1..]), path)
  {
    hide LeavesAll;
    LeavesCons(codec, Paired(cs, vs), path);
    assert Paired(cs, vs)[1..] == Paired(cs[1..], vs[1..]);
  }

  lemma ThroughFirst(cs: seq<Child>, path: Path)
    requires cs != []
    ensures forall k :: Through(cs, path, k) <==> path + [cs[0].0] <= k || Through(cs[1..], path, k)
  {
    forall k ensures Through(cs, path, k) <==> path + [cs[0].0] <= k || Through(cs[1..], path, k) {
      if Through(cs, path, k) {
        var i :| 0 <= i < |cs| && path + [cs[i].0] <= k;
        if i > 0 {
          assert cs[1..][i - 1] == cs[i];
        }
      }
      if Through(cs[1..], path, k) {
        var i :| 0 <= i < |cs[1..]| && path + [cs[1..][i].0] <= k;
        assert cs[i + 1] == cs[1..][i];
      }
    }
  }

  lemma WithChildrenPaired(v: Json, values: seq<Json>)
    requires IsContainer(v) && |values| == |Children(v)|
    ensures Children(WithChildren(v, values)) == Paired(Children(v), values)
    ensures Proper(v) && (forall i | 0 <= i < |values| :: Proper(values[i])) ==> Proper(WithChildren(v, values))
  {
  }

  lemma RebuildContainerChanges(codec: SizedCodec, v: Json, path: Path, subs: Substitutions)
    requires IsContainer(v) && Proper(v) && ChildrenRebuilt(codec, Children(v), path, subs)
    requires UnderAll(subs, Children(v), path) == Under(subs, path)
    ensures Rebuilt(codec, v, path, subs)
  {
    hide Proper, LeavesAll, Leaves, Rebuild, Applied, AppliedAll, Children, WithChildren;
    hide Under, UnderAll, RebuildAll, Paired;
    var vs := RebuildAll(codec, Children(v), path, subs);
    WithChildrenPaired(v, vs);
    RebuildOfContainer(codec, v, path, subs);
    LeavesOfContainer(codec, v, path);
    LeavesOfContainer(codec, WithChildren(v, vs), path);
    ExpandOne(codec, Leaf(path, v), subs);
  }

  lemma RebuildOfContainer(codec: SizedCodec, v: Json, path: Path, subs: Substitutions)
    requires IsContainer(v)
    ensures var r := Rebuild(codec, v, path, subs);
      r == WithChildren(v, RebuildAll(codec, Children(v), path, subs))
      && r.Obj? == v.Obj? && r.Arr? == v.Arr? && (Children(v) == [] ==> r == v)
    ensures Applied(codec, v, path, subs) == AppliedAll(codec, Children(v), path, subs)
  {
  }

  /** An `arguments` string, or anything else, with no substitution at or below it is
      returned exactly as it was. */
  lemma {:induction false} UntouchedIsIdentical(codec: SizedCodec, v: Json, path: Path, subs: Substitutions)
    requires forall k | k in subs :: !(path <= k)
    ensures Rebuild(codec, v, path, subs) == v && Applied(codec, v, path, subs) == {}
    decreases Weight(v), 0
  {
    if IsContainer(v) {
      UntouchedChildren(codec, Children(v), path, subs);
      var vs := RebuildAll(codec, Children(v), path, subs);
      assert WithChildren(v, vs) == v by {
        match v
        case Obj(fields) => assert WithChildren(v, vs).fields == fields;
        case Arr(items) => assert vs == items;
      }
    }
  }

  lemma {:induction false} UntouchedChildren(codec: SizedCodec, cs: seq<Child>, path: Path, subs: Substitutions)
    requires forall k | k in subs :: !(path <= k)
    ensures forall i | 0 <= i < |cs| :: RebuildAll(codec, cs, path, subs)[i] == cs[i].1
    ensures AppliedAll(codec, cs, path, subs) == {}
    decreases WeightAll(cs), |cs|
  {
    hide Rebuild, Applied, Unwrap;
    if cs != [] {
      forall k | k in subs ensures !(path + [cs[0].0] <= k) {
        assert path + [cs[0].0] <= k ==> path <= k;
      }
      UntouchedIsIdentical(codec, cs[0].1, path + [cs[0].0], subs);
      UntouchedChildren(codec, cs[1..], path, subs);
    }
  }
}
