/** A printer and parser that meet everything assumed of json.dumps and json.loads, in a
    plain prefix notation: the assumptions can be met together. */
module CodecExample {
  import opened Prelude
  import opened Json
  import opened SseFraming
  import opened FieldWalker
  import opened ChatStream
  import opened GenerateSse

  // ------------------------------------------------------------------- printing

  /** Characters one by one, line breaks by letters; closed by a semicolon. */
  function PrintText(t: string): string {
    if t == "" then ";"
    else (if t[0] == '\n' then "N" else if t[0] == '\r' then "R" else "." + [t[0]]) + PrintText(t[1..])
  }

  function PrintNumber(n: nat): string {
    if n == 0 then ";" else "1" + PrintNumber(n - 1)
  }

  function Print(v: Json): string {
    match v
    case Null => "n"
    case Bool(b) => if b then "t" else "f"
    case Number(n) => "d" + PrintNumber(n)
    case Str(t) => "s" + PrintText(t)
    case Arr(items) => "a" + PrintItems(items)
    case Obj(fields) => "o" + PrintFields(fields)
  }

  function PrintItems(items: seq<Json>): string {
    if items == [] then ";" else "," + Print(items[0]) + PrintItems(items[1..])
  }

  function PrintFields(fields: seq<(string, Json)>): string {
    if fields == [] then ";"
    else
      assert fields[0].1 < fields[0];
      "," + PrintText(fields[0].0) + Print(fields[0].1) + PrintFields(fields[1..])
  }

  // -------------------------------------------------------------------- parsing

  function ParseText(s: string): (r: Option<(string, string)>)
    ensures r.Some? ==> |r.value.1| < |s|
  {
    if s == "" then None
    else if s[0] == ';' then Some(("", s[1..]))
    else if s[0] == 'N' then Prefixed('\n', ParseText(s[1..]))
    else if s[0] == 'R' then Prefixed('\r', ParseText(s[1..]))
    else if s[0] == '.' && |s| > 1 then Prefixed(s[1], ParseText(s[2..]))
    else None
  }

  function Prefixed(c: char, r: Option<(string, string)>): Option<(string, string)> {
    match r
    case Some((t, rest)) => Some(([c] + t, rest))
    case None => None
  }

  function ParseNumber(s: string): (r: Option<(nat, string)>)
    ensures r.Some? ==> |r.value.1| < |s|
  {
    if s == "" then None
    else if s[0] == ';' then Some((0, s[1..]))
    else if s[0] == '1' then
      match ParseNumber(s[1..])
      case Some((n, rest)) => Some((n + 1, rest))
      case None => None
    else None
  }

  function Parse(s: string): (r: Option<(Json, string)>)
    ensures r.Some? ==> |r.value.1| < |s|
    decreases |s|, 0
  {
    if s == "" then None
    else if s[0] == 'n' then Some((Null, s[1..]))
    else if s[0] == 't' then Some((Bool(true), s[1..]))
    else if s[0] == 'f' then Some((Bool(false), s[1..]))
    else if s[0] == 'd' then
      (match ParseNumber(s[1..])
       case Some((n, rest)) => Some((Number(n), rest))
       case None => None)
    else if s[0] == 's' then
      (match ParseText(s[1..])
       case Some((t, rest)) => Some((Str(t), rest))
       case None => None)
    else if s[0] == 'a' then
      (match ParseItems(s[1..])
       case Some((items, rest)) => Some((Arr(items), rest))
       case None => None)
    else if s[0] == 'o' then
      (match ParseFields(s[1..])
       case Some((fields, rest)) => Some((Obj(fields), rest))
       case None => None)
    else None
  }

  function ParseItems(s: string): (r: Option<(seq<Json>, string)>)
    ensures r.Some? ==> |r.value.1| < |s|
    decreases |s|, 1
  {
    if s == "" then None
    else if s[0] == ';' then Some(([], s[1..]))
    else if s[0] == ',' then
      match Parse(s[1..])
      case None => None
      case Some((v, rest)) =>
        match ParseItems(rest)
        case None => None
        case Some((items, rest')) => Some(([v] + items, rest'))
    else None
  }

  function ParseFields(s: string): (r: Option<(seq<(string, Json)>, string)>)
    ensures r.Some? ==> |r.value.1| < |s|
    decreases |s|, 1
  {
    if s == "" then None
    else if s[0] == ';' then Some(([], s[1..]))
    else if s[0] == ',' then
      match ParseText(s[1..])
      case None => None
      case Some((k, rest)) =>
        match Parse(rest)
        case None => None
        case Some((v, rest')) =>
          match ParseFields(rest')
          case None => None
          case Some((fields, rest'')) => Some(([(k, v)] + fields, rest''))
    else None
  }

  // ------------------------------------------------------------------ round trip

  lemma {:induction false} TextReparses(t: string, r: string)
    ensures ParseText(PrintText(t) + r) == Some((t, r))
  {
    var s := PrintText(t) + r;
    if t == "" {
      assert s[1..] == r;
    } else {
      TextReparses(t[1..], r);
      var k := if t[0] == '\n' || t[0] == '\r' then 1 else 2;
      assert s[k..] == PrintText(t[1..]) + r;
      assert [t[0]] + t[1..] == t;
    }
  }

  lemma {:induction false} NumberReparses(n: nat, r: string)
    ensures ParseNumber(PrintNumber(n) + r) == Some((n, r))
  {
    var s := PrintNumber(n) + r;
    if n == 0 {
      assert s[1..] == r;
    } else {
      NumberReparses(n - 1, r);
      assert s[1..] == PrintNumber(n - 1) + r;
    }
  }

  lemma {:induction false} ValueReparses(v: Json, r: string)
    ensures Parse(Print(v) + r) == Some((v, r))
    decreases v
  {
    hide ParseText, PrintText, ParseNumber, PrintNumber, ParseItems, PrintItems, ParseFields, PrintFields;
    var s := Print(v) + r;
    match v
    case Null => assert s[1..] == r;
    case Bool(b) => assert s[1..] == r;
    case Number(n) => NumberReparses(n, r); assert s[1..] == PrintNumber(n) + r;
    case Str(t) => TextReparses(t, r); assert s[1..] == PrintText(t) + r;
    case Arr(items) => ItemsReparse(items, r); assert s[1..] == PrintItems(items) + r;
    case Obj(fields) => FieldsReparse(fields, r); assert s[1..] == PrintFields(fields) + r;
  }

  lemma {:induction false} ItemsReparse(items: seq<Json>, r: string)
    ensures ParseItems(PrintItems(items) + r) == Some((items, r))
    decreases items
  {
    hide Parse, Print;
    var s := PrintItems(items) + r;
    if items == [] {
      assert s[1..] == r;
    } else {
      ItemsReparse(items[1..], r);
      ValueReparses(items[0], PrintItems(items[1..]) + r);
      assert s[1..] == Print(items[0]) + (PrintItems(items[1..]) + r);
      assert [items[0]] + items[1..] == items;
    }
  }

  lemma {:induction false} FieldsReparse(fields: seq<(string, Json)>, r: string)
    ensures ParseFields(PrintFields(fields) + r) == Some((fields, r))
    decreases fields
  {
    hide Parse, Print, ParseText, PrintText;
    var s := PrintFields(fields) + r;
    if fields == [] {
      assert s[1..] == r;
    } else {
      assert fields[0].1 < fields[0];
      var (k, v) := fields[0];
      FieldsReparse(fields[1..], r);
      ValueReparses(v, PrintFields(fields[1..]) + r);
      TextReparses(k, Print(v) + (PrintFields(fields[1..]) + r));
      assert s[1..] == PrintText(k) + (Print(v) + (PrintFields(fields[1..]) + r));
      assert [(k, v)] + fields[1..] == fields;
    }
  }

  // ---------------------------------------------------------------------- size

  lemma {:induction false} TextLength(t: string)
    ensures |PrintText(t)| > |t| && NoBreak(PrintText(t))
  {
    if t != "" {
      TextLength(t[1..]);
    }
  }

  lemma {:induction false} NumberNoBreak(n: nat)
    ensures NoBreak(PrintNumber(n))
  {
    if n > 0 {
      NumberNoBreak(n - 1);
    }
  }

  lemma {:induction false} ValueLength(v: Json)
    ensures |Print(v)| >= Weight(v) && NoBreak(Print(v)) && Print(v)[0] != '['
    decreases v
  {
    hide PrintText, PrintNumber, PrintItems, PrintFields;
    match v
    case Null =>
    case Bool(b) =>
    case Number(n) => NumberNoBreak(n);
    case Str(t) => TextLength(t);
    case Arr(items) => ItemsLength(items);
    case Obj(fields) => FieldsLength(fields);
  }

  lemma {:induction false} ItemsLength(items: seq<Json>)
    ensures |PrintItems(items)| >= WeightItems(items) && NoBreak(PrintItems(items))
    decreases items
  {
    hide Print, Weight;
    if items != [] {
      ValueLength(items[0]);
      ItemsLength(items[1..]);
    }
  }

  lemma {:induction false} FieldsLength(fields: seq<(string, Json)>)
    ensures |PrintFields(fields)| >= WeightFields(fields) && NoBreak(PrintFields(fields))
    decreases fields
  {
    hide Print, Weight, PrintText;
    if fields != [] {
      assert fields[0].1 < fields[0];
      TextLength(fields[0].0);
      ValueLength(fields[0].1);
      FieldsLength(fields[1..]);
    }
  }

  // ----------------------------------------------------------------- the codec

  function Loads(s: string): Option<Json> {
    match Parse(s)
    case Some((v, rest)) => if rest == "" && Proper(v) && Weight(v) <= |s| then Some(v) else None
    case None => None
  }

  lemma PrintedLoads(v: Json)
    requires Proper(v)
    ensures Loads(Print(v)) == Some(v)
  {
    hide Parse, Print, Proper;
    ValueReparses(v, "");
    ValueLength(v);
    assert Print(v) + "" == Print(v);
  }

  /** Everything the model assumes of a codec holds of this one. */
  lemma AssumptionsCanBeMet(lookahead: nat, tf: string -> string)
    ensures var codec := Codec(Loads, Print);
      Sized(codec) && Reparses(codec) && Stream(codec, lookahead, tf).FaithfulCodec()
  {
    hide Parse, Print, Proper, Weight;
    var codec := Codec(Loads, Print);
    forall v | Proper(v) ensures Loads(Print(v)) == Some(v) && NoBreak(Print(v)) && Print(v) != DONE_SENTINEL {
      PrintedLoads(v);
      ValueLength(v);
    }
    assert Sized(codec);
  }
}
