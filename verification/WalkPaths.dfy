/** Where the regions of a walk are, by following their paths from the root
    (src/pipeline/field_walker.py:70-93). */
module WalkPaths {
  import opened Prelude
  import opened Json
  import opened FieldWalker

  /** A string whose own key is `arguments` and which parses as an object or an array
      stands for that value. */
  ghost predicate StandsFor(codec: SizedCodec, path: Path, text: string, inner: Json) {
    path != [] && path[|path| - 1] == Key("arguments")
    && codec.loads(text) == Some(inner) && (inner.Obj? || inner.Arr?)
  }

  /** Following the rest of a path from v, which stands at the first part of it, leads to a
      text that stands for itself. */
  ghost predicate Leads(codec: SizedCodec, v: Json, path: Path, rest: Path, text: string)
    decreases |rest|, Weight(v)
  {
    match v
    case Obj(fields) =>
      rest != [] && exists i :: 0 <= i < |fields| && rest[0] == Key(fields[i].0)
                                && Leads(codec, fields[i].1, path + [rest[0]], rest[1..], text)
    case Arr(items) =>
      rest != [] && exists i :: 0 <= i < |items| && rest[0] == Idx(i)
                                && Leads(codec, items[i], path + [rest[0]], rest[1..], text)
    case Str(t) =>
      if exists inner :: StandsFor(codec, path, t, inner)
      then exists inner :: StandsFor(codec, path, t, inner) && Weight(inner) < Weight(v)
                           && Leads(codec, inner, path, rest, text)
      else rest == [] && t == text
    case _ => false
  }

  /** The path goes on into child i. */
  ghost predicate Into(codec: SizedCodec, cs: seq<Child>, i: int, path: Path, rest: Path, text: string) {
    0 <= i < |cs| && rest != [] && rest[0] == cs[i].0 && Leads(codec, cs[i].1, path + [cs[i].0], rest[1..], text)
  }

  lemma LeadsInto(codec: SizedCodec, v: Json, path: Path, rest: Path, text: string)
    requires IsContainer(v)
    ensures Leads(codec, v, path, rest, text) <==> exists i :: Into(codec, Children(v), i, path, rest, text)
  {
    var cs := Children(v);
    if Leads(codec, v, path, rest, text) {
      if v.Obj? {
        var i :| 0 <= i < |v.fields| && rest[0] == Key(v.fields[i].0)
                 && Leads(codec, v.fields[i].1, path + [rest[0]], rest[1..], text);
        assert Into(codec, cs, i, path, rest, text);
      } else {
        var i :| 0 <= i < |v.items| && rest[0] == Idx(i)
                 && Leads(codec, v.items[i], path + [rest[0]], rest[1..], text);
        assert Into(codec, cs, i, path, rest, text);
      }
    }
    if i :| Into(codec, cs, i, path, rest, text) {
      assert v.Obj? ==> rest[0] == Key(v.fields[i].0);
    }
  }

  lemma LeadsString(codec: SizedCodec, t: string, path: Path, rest: Path, text: string)
    ensures var u := Unwrap(codec, path, t);
      Leads(codec, Str(t), path, rest, text) <==>
      if u.Some? then Leads(codec, u.value, path, rest, text) else rest == [] && t == text
  {
    var u := Unwrap(codec, path, t);
    if u.Some? {
      assert StandsFor(codec, path, t, u.value);
    }
  }

  /** A walk yields a text at a path exactly when the path leads to it. */
  lemma {:induction false} WalkFollows(codec: SizedCodec, v: Json, path: Path, rest: Path, text: string)
    ensures Region(path + rest, text) in Walk(codec, v, path) <==> Leads(codec, v, path, rest, text)
    decreases Weight(v), 0, 0
  {
    hide Leads, Unwrap, WalkAll;
    if IsContainer(v) {
      LeadsInto(codec, v, path, rest, text);
      WalkAllFollows(codec, Children(v), path, rest, text);
    } else if v.Str? {
      LeadsString(codec, v.text, path, rest, text);
      if Unwrap(codec, path, v.text).Some? {
        WalkFollows(codec, Unwrap(codec, path, v.text).value, path, rest, text);
      } else {
        assert path + rest == path ==> rest == [] by {
          assert |path + rest| == |path| + |rest|;
        }
        assert rest == [] ==> path + rest == path;
      }
    } else {
      LeadsScalar(codec, v, path, rest, text);
    }
  }

  lemma LeadsScalar(codec: SizedCodec, v: Json, path: Path, rest: Path, text: string)
    requires !IsContainer(v) && !v.Str?
    ensures !Leads(codec, v, path, rest, text)
  {
  }

  lemma {:induction false} WalkAllFollows(codec: SizedCodec, cs: seq<Child>, path: Path, rest: Path, text: string)
    ensures Region(path + rest, text) in WalkAll(codec, cs, path) <==> exists i :: Into(codec, cs, i, path, rest, text)
    decreases WeightAll(cs), |cs|, 0
  {
    hide Leads, Walk;
    if cs != [] {
      WalkAllFollows(codec, cs[1..], path, rest, text);
      FirstFollows(codec, cs, path, rest, text);
      if i :| Into(codec, cs[1..], i, path, rest, text) {
        assert Into(codec, cs, i + 1, path, rest, text);
      }
      if i :| Into(codec, cs, i, path, rest, text) {
        assert i > 0 ==> Into(codec, cs[1..], i - 1, path, rest, text);
      }
    }
  }

  lemma {:induction false} FirstFollows(codec: SizedCodec, cs: seq<Child>, path: Path, rest: Path, text: string)
    requires cs != []
    ensures Region(path + rest, text) in Walk(codec, cs[0].1, path + [cs[0].0])
            <==> Into(codec, cs, 0, path, rest, text)
    decreases WeightAll(cs), 0, 1
  {
    hide Leads, Walk;
    var first := path + [cs[0].0];
    WalkExtends(codec, cs[0].1, first);
    if rest != [] && rest[0] == cs[0].0 {
      WalkFollows(codec, cs[0].1, first, rest[1..], text);
      assert first + rest[1..] == path + rest;
    } else if first <= path + rest {
      SegmentOf(path, cs[0].0, path + rest);
      assert false;
    }
  }

  // ------------------------------------------------------------------ the order

  lemma {:induction false} WalkAllAppend(codec: SizedCodec, a: seq<Child>, b: seq<Child>, path: Path)
    ensures WalkAll(codec, a + b, path) == WalkAll(codec, a, path) + WalkAll(codec, b, path)
    decreases |a|
  {
    hide Walk;
    if a == [] {
      assert a + b == b;
    } else {
      assert (a + b)[1..] == a[1..] + b;
      WalkAllAppend(codec, a[1..], b, path);
      var r := Walk(codec, a[0].1, path + [a[0].0]);
      assert r + WalkAll(codec, a[1..], path) + WalkAll(codec, b, path)
          == r + (WalkAll(codec, a[1..], path) + WalkAll(codec, b, path));
    }
  }

  lemma WalkAllOne(codec: SizedCodec, c: Child, path: Path)
    ensures WalkAll(codec, [c], path) == Walk(codec, c.1, path + [c.0])
  {
    hide Walk;
    assert [c][1..] == [] && WalkAll(codec, [], path) == [];
  }

  lemma ChildrenAppend(fields: seq<(string, Json)>, key: string, items: seq<Json>, w: Json)
    ensures Children(Obj(fields + [(key, w)])) == Children(Obj(fields)) + [(Key(key), w)]
    ensures Children(Arr(items + [w])) == Children(Arr(items)) + [(Idx(|items|), w)]
  {
  }

  lemma WalkContainer(codec: SizedCodec, v: Json, path: Path)
    requires IsContainer(v)
    ensures Walk(codec, v, path) == WalkAll(codec, Children(v), path)
  {
  }

  /** The regions of an object or an array come in the order of its fields or items: those of
      one more come after the others. */
  lemma WalkOrder(codec: SizedCodec, fields: seq<(string, Json)>, key: string, items: seq<Json>, w: Json, path: Path)
    ensures Walk(codec, Obj([]), path) == [] && Walk(codec, Arr([]), path) == []
    ensures Walk(codec, Obj(fields + [(key, w)]), path)
         == Walk(codec, Obj(fields), path) + Walk(codec, w, path + [Key(key)])
    ensures Walk(codec, Arr(items + [w]), path) == Walk(codec, Arr(items), path) + Walk(codec, w, path + [Idx(|items|)])
  {
    assert Walk(codec, Obj([]), path) == [] && Walk(codec, Arr([]), path) == [];
    hide Walk, WalkAll, Children;
    ChildrenAppend(fields, key, items, w);
    WalkContainer(codec, Obj(fields), path);
    WalkContainer(codec, Obj(fields + [(key, w)]), path);
    WalkContainer(codec, Arr(items), path);
    WalkContainer(codec, Arr(items + [w]), path);
    WalkAllAppend(codec, Children(Obj(fields)), [(Key(key), w)], path);
    WalkAllAppend(codec, Children(Arr(items)), [(Idx(|items|), w)], path);
    WalkAllOne(codec, (Key(key), w), path);
    WalkAllOne(codec, (Idx(|items|), w), path);
  }
}
