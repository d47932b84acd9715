/** The builtin stable sort, as an insertion sort, and the facts the model needs of it. */
module StableSort {

  /** A strict weak order: ties are transitive. */
  ghost predicate StrictWeak<T(!new)>(less: (T, T) -> bool) {
    (forall x :: !less(x, x))
    && (forall x, y, z | less(x, y) && !less(z, y) :: less(x, z))
    && forall x, y | less(x, y) :: !less(y, x)
  }

  /** x goes before the first element it is less than. */
  function Insert<T(!new)>(less: (T, T) -> bool, x: T, ys: seq<T>): (r: seq<T>)
    ensures |r| == |ys| + 1 && forall e :: e in r <==> e == x || e in ys
  {
    if ys == [] then [x]
    else if less(x, ys[0]) then [x] + ys
    else
      assert ys == [ys[0]] + ys[1..];
      [ys[0]] + Insert(less, x, ys[1..])
  }

  function Sort<T(!new)>(less: (T, T) -> bool, xs: seq<T>): (r: seq<T>)
    ensures |r| == |xs| && forall e :: e in r <==> e in xs
  {
    if xs == [] then []
    else
      var n := |xs| - 1;
      assert xs == xs[..n] + [xs[n]];
      Insert(less, xs[n], Sort(less, xs[..n]))
  }

  predicate Sorted<T>(less: (T, T) -> bool, xs: seq<T>) {
    forall i, j | 0 <= i < j < |xs| :: !less(xs[j], xs[i])
  }

  lemma {:induction false} InsertSorted<T(!new)>(less: (T, T) -> bool, x: T, ys: seq<T>)
    requires StrictWeak(less) && Sorted(less, ys)
    ensures Sorted(less, Insert(less, x, ys))
  {
    if ys != [] && !less(x, ys[0]) {
      InsertSorted(less, x, ys[1..]);
      var r := Insert(less, x, ys[1..]);
      forall j | 0 <= j < |r| ensures !less(r[j], ys[0]) {
        assert r[j] in r;
      }
    }
  }

  lemma {:induction false} SortSorted<T(!new)>(less: (T, T) -> bool, xs: seq<T>)
    requires StrictWeak(less)
    ensures Sorted(less, Sort(less, xs))
  {
    if xs != [] {
      SortSorted(less, xs[..|xs| - 1]);
      InsertSorted(less, xs[|xs| - 1], Sort(less, xs[..|xs| - 1]));
    }
  }

  function Filter<T(!new)>(p: T -> bool, xs: seq<T>): (r: seq<T>)
    ensures forall e :: e in r <==> e in xs && p(e)
  {
    if xs == [] then []
    else
      assert xs == [xs[0]] + xs[1..];
      (if p(xs[0]) then [xs[0]] else []) + Filter(p, xs[1..])
  }

  lemma {:induction false} FilterAppend<T(!new)>(p: T -> bool, xs: seq<T>, ys: seq<T>)
    ensures Filter(p, xs + ys) == Filter(p, xs) + Filter(p, ys)
  {
    if xs == [] {
      assert xs + ys == ys;
    } else {
      assert (xs + ys)[1..] == xs[1..] + ys;
      FilterAppend(p, xs[1..], ys);
    }
  }

  lemma FilterOne<T(!new)>(p: T -> bool, x: T)
    ensures Filter(p, [x]) == if p(x) then [x] else []
  {
    assert [x][1..] == [];
  }

  lemma {:induction false} InsertBefore<T(!new)>(less: (T, T) -> bool, x: T, ys: seq<T>)
    requires forall e | e in ys :: less(x, e)
    ensures Insert(less, x, ys) == [x] + ys
  {
  }

  lemma FilterCons<T(!new)>(p: T -> bool, x: T, ys: seq<T>)
    ensures Filter(p, [x] + ys) == (if p(x) then [x] else []) + Filter(p, ys)
  {
    assert ([x] + ys)[1..] == ys;
  }

  lemma InsertCons<T(!new)>(less: (T, T) -> bool, x: T, y: T, ys: seq<T>)
    ensures Insert(less, x, [y] + ys) == if less(x, y) then [x] + ([y] + ys) else [y] + Insert(less, x, ys)
  {
    assert ([y] + ys)[1..] == ys;
  }

  /** What is kept of a sorted list with x in front is x in front of what is kept. */
  lemma FilterFront<T(!new)>(less: (T, T) -> bool, p: T -> bool, x: T, ys: seq<T>)
    requires StrictWeak(less) && Sorted(less, ys) && ys != [] && less(x, ys[0])
    ensures Insert(less, x, Filter(p, ys)) == [x] + Filter(p, ys)
  {
    forall e | e in Filter(p, ys) ensures less(x, e) {
      var j :| 0 <= j < |ys| && ys[j] == e;
      assert j == 0 || !less(ys[j], ys[0]);
    }
    InsertBefore(less, x, Filter(p, ys));
  }

  lemma {:induction false} FilterInsert<T(!new)>(less: (T, T) -> bool, p: T -> bool, x: T, ys: seq<T>)
    requires StrictWeak(less) && Sorted(less, ys)
    ensures Filter(p, Insert(less, x, ys)) == if p(x) then Insert(less, x, Filter(p, ys)) else Filter(p, ys)
  {
    hide Filter, Insert, StrictWeak, Sorted;
    if ys == [] {
      FilterInsertNone(less, p, x);
    } else {
      var y, rest := ys[0], ys[1..];
      assert ys == [y] + rest;
      InsertCons(less, x, y, rest);
      FilterCons(p, y, rest);
      if less(x, y) {
        FilterCons(p, x, ys);
        FilterFront(less, p, x, ys);
        assert [] + Filter(p, ys) == Filter(p, ys);
      } else {
        FilterCons(p, y, Insert(less, x, rest));
        SortedTail(less, ys);
        FilterInsert(less, p, x, rest);
        InsertCons(less, x, y, Filter(p, rest));
        assert [] + Filter(p, rest) == Filter(p, rest);
        assert [] + Insert(less, x, Filter(p, rest)) == Insert(less, x, Filter(p, rest));
      }
    }
  }

  lemma SortedTail<T(!new)>(less: (T, T) -> bool, ys: seq<T>)
    requires Sorted(less, ys) && ys != []
    ensures Sorted(less, ys[1..])
  {
  }

  lemma FilterInsertNone<T(!new)>(less: (T, T) -> bool, p: T -> bool, x: T)
    ensures Insert(less, x, []) == [x] && Filter(p, []) == []
    ensures Filter(p, [x]) == if p(x) then [x] else []
  {
    FilterOne(p, x);
  }

  /** Keeping some elements commutes with stable sorting. */
  lemma {:induction false} FilterSort<T(!new)>(less: (T, T) -> bool, p: T -> bool, xs: seq<T>)
    requires StrictWeak(less)
    ensures Filter(p, Sort(less, xs)) == Sort(less, Filter(p, xs))
  {
    if xs != [] {
      var n := |xs| - 1;
      var x, ys := xs[n], xs[..n];
      assert xs == ys + [x];
      FilterAppend(p, ys, [x]);
      FilterOne(p, x);
      FilterSort(less, p, ys);
      SortSorted(less, ys);
      FilterInsert(less, p, x, Sort(less, ys));
      if p(x) {
        assert (Filter(p, ys) + [x])[..|Filter(p, ys)|] == Filter(p, ys);
      } else {
        assert Filter(p, ys) + [] == Filter(p, ys);
      }
    }
  }
}
