/** JSON values as json.loads produces them, with dictionaries in insertion order and
    numbers told apart by an arbitrary identifier. */
module Json {
  import opened Prelude

  datatype Json =
    | Obj(fields: seq<(string, Json)>)
    | Arr(items: seq<Json>)
    | Str(text: string)
    | Number(id: nat)
    | Bool(b: bool)
    | Null

  /** dict.get. */
  function Get(fields: seq<(string, Json)>, key: string): (r: Option<Json>)
    ensures r.Some? <==> exists i :: 0 <= i < |fields| && fields[i].0 == key
  {
    if fields == [] then None
    else if fields[0].0 == key then Some(fields[0].1)
    else Get(fields[1..], key)
  }

  /** Assignment to a key already present. */
  function Put(fields: seq<(string, Json)>, key: string, value: Json): (r: seq<(string, Json)>)
    requires Get(fields, key).Some?
    ensures |r| == |fields| && Get(r, key) == Some(value)
    ensures forall k | k != key :: Get(r, k) == Get(fields, k)
  {
    if fields[0].0 == key then [(key, value)] + fields[1..]
    else
      var r := [fields[0]] + Put(fields[1..], key, value);
      assert r[1..] == Put(fields[1..], key, value);
      r
  }

  /** The keys of an object are distinct, at every level. */
  predicate Proper(v: Json) {
    match v
    case Obj(fields) =>
      (forall i, j | 0 <= i < j < |fields| :: fields[i].0 != fields[j].0)
      && forall i | 0 <= i < |fields| :: Proper(fields[i].1)
    case Arr(items) => forall i | 0 <= i < |items| :: Proper(items[i])
    case _ => true
  }

  lemma {:induction false} GetProper(fields: seq<(string, Json)>, key: string)
    requires Proper(Obj(fields)) && Get(fields, key).Some?
    ensures Proper(Get(fields, key).value)
    decreases |fields|
  {
    if fields[0].0 != key {
      ProperTail(fields);
      GetProper(fields[1..], key);
    }
  }

  lemma ProperTail(fields: seq<(string, Json)>)
    requires Proper(Obj(fields)) && fields != []
    ensures Proper(Obj(fields[1..]))
  {
  }

  /** Overwriting one value keeps the keys, and their order, in place. */
  lemma {:induction false} PutAt(fields: seq<(string, Json)>, key: string, value: Json)
    requires Get(fields, key).Some?
    ensures forall i | 0 <= i < |fields| :: Put(fields, key, value)[i].0 == fields[i].0
    ensures forall i | 0 <= i < |fields| ::
      Put(fields, key, value)[i].1 == fields[i].1 || Put(fields, key, value)[i].1 == value
  {
    if fields[0].0 != key {
      PutAt(fields[1..], key, value);
    }
  }

  lemma PutProper(fields: seq<(string, Json)>, key: string, value: Json)
    requires Proper(Obj(fields)) && Get(fields, key).Some? && Proper(value)
    ensures Proper(Obj(Put(fields, key, value)))
  {
    PutAt(fields, key, value);
  }

  /** Parser and printer: json.loads and json.dumps. */
  datatype Codec = Codec(loads: string -> Option<Json>, dumps: Json -> string)
}
