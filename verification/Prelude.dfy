/** Result types shared by every module, and a few facts about products. */
module Prelude {

  datatype Option<+T> = None | Some(value: T)

  /** The exceptions the gateway raises, one constructor per class the model needs. */
  datatype Error =
    | SurrogateDomainError
    | ValueError
    | OverflowError
    | WindowClosedError
    | UpstreamError
    | NameListExhaustedError
    | RehydrationError
    | FailClosedError

  datatype Result<+T> = Ok(value: T) | Err(error: Error) {
    predicate IsFailure() { Err? }

    function PropagateFailure<U>(): Result<U>
      requires Err?
    {
      Err(error)
    }

    function Extract(): T
      requires Ok?
    {
      value
    }
  }

  function Pow(base: nat, exp: nat): (p: nat)
    ensures base > 0 ==> p > 0
  {
    if exp == 0 then 1 else Pow(base, exp - 1) * base
  }

  /** Floor of a division undoes a product plus a smaller remainder. */
  lemma DivModUnique(q: int, r: int, m: nat)
    requires 0 <= r < m
    ensures (q * m + r) / m == q
    ensures (q * m + r) % m == r
  {
    var a := q * m + r;
    var d, e := a / m, a % m;
    assert a == d * m + e;
    assert (q - d) * m == e - r by {
      assert (q - d) * m == q * m - d * m;
    }
    if d < q {
      MulMono(1, q - d, m);
    } else if d > q {
      MulMono(q - d, -1, m);
    }
  }

  lemma ModSmall(a: nat, m: nat)
    requires m > 0
    ensures a % m == a <==> a < m
  {
    if a < m {
      DivModUnique(0, a, m);
    }
  }

  lemma MulMono(a: int, b: int, c: nat)
    requires a <= b
    ensures a * c <= b * c
  {
  }

  lemma {:induction false} PowAdd(b: nat, m: nat, n: nat)
    ensures Pow(b, m + n) == Pow(b, m) * Pow(b, n)
  {
    if n > 0 {
      PowAdd(b, m, n - 1);
      MulAssoc(Pow(b, m), Pow(b, n - 1), b);
    }
  }

  lemma MulAssoc(x: int, y: int, z: int)
    ensures x * y * z == x * (y * z)
  {
  }

  lemma {:induction false} PowMono(b: nat, m: nat, n: nat)
    requires b > 0 && m <= n
    ensures Pow(b, m) <= Pow(b, n)
  {
    if m < n {
      PowMono(b, m, n - 1);
      MulMono(1, b, Pow(b, n - 1));
    }
  }

  lemma {:induction false} PowBaseMono(b: nat, c: nat, n: nat)
    requires b <= c
    ensures Pow(b, n) <= Pow(c, n)
  {
    if n > 0 {
      PowBaseMono(b, c, n - 1);
      MulMono(Pow(b, n - 1), Pow(c, n - 1), b);
      MulMono(b, c, Pow(c, n - 1));
    }
  }

  /** (b^m)^n == b^(m*n). */
  lemma {:induction false} PowPow(b: nat, m: nat, n: nat)
    ensures Pow(Pow(b, m), n) == Pow(b, m * n)
  {
    if n > 0 {
      PowPow(b, m, n - 1);
      PowAdd(b, m * (n - 1), m);
      assert m * (n - 1) + m == m * n;
    }
  }

  /** Pieces of text joined in order. */
  function Flatten(chunks: seq<string>): string {
    if chunks == [] then "" else chunks[0] + Flatten(chunks[1..])
  }

  lemma {:induction false} FlattenAppend(a: seq<string>, b: seq<string>)
    ensures Flatten(a + b) == Flatten(a) + Flatten(b)
  {
    if a == [] {
      assert a + b == b;
    } else {
      assert (a + b)[1..] == a[1..] + b;
      FlattenAppend(a[1..], b);
    }
  }

  lemma FlattenOne(a: string)
    ensures Flatten([a]) == a
  {
    assert a + "" == a;
  }

  lemma FlattenLast(chunks: seq<string>)
    requires chunks != []
    ensures var n := |chunks| - 1; Flatten(chunks) == Flatten(chunks[..n]) + chunks[n]
  {
    var n := |chunks| - 1;
    assert chunks == chunks[..n] + [chunks[n]];
    FlattenAppend(chunks[..n], [chunks[n]]);
    FlattenOne(chunks[n]);
  }
}
