/** Where the text of a streamed event is, on JSON values whose keys are distinct
    (src/proxy/chat_stream.py:70-160, src/proxy/routes.py:205-223). */
module ContentSlots {
  import opened Prelude
  import opened Json
  import opened ChatStream

  /** v is an object with this value at this key. */
  ghost predicate Has(v: Json, key: string, w: Json) {
    v.Obj? && (key, w) in v.fields
  }

  ghost predicate HasKey(v: Json, key: string) {
    exists w :: Has(v, key, w)
  }

  /** v.choices[0].delta.content is c. */
  ghost predicate ContentAt(v: Json, c: Json) {
    exists choices, delta :: ContentPath(v, choices, delta, c)
  }

  ghost predicate ContentPath(v: Json, choices: seq<Json>, delta: Json, c: Json) {
    Has(v, "choices", Arr(choices)) && choices != [] && Has(choices[0], "delta", delta) && Has(delta, "content", c)
  }

  lemma {:induction false} GetIs(fields: seq<(string, Json)>, key: string)
    requires Proper(Obj(fields))
    ensures Get(fields, key).None? <==> forall w :: (key, w) !in fields
    ensures forall w :: Get(fields, key) == Some(w) <==> (key, w) in fields
    decreases |fields|
  {
    if fields != [] {
      ProperTail(fields);
      GetIs(fields[1..], key);
      forall w ensures Get(fields, key) == Some(w) <==> (key, w) in fields {
        if (key, w) in fields {
          var i :| 0 <= i < |fields| && fields[i] == (key, w);
          assert i > 0 ==> fields[1..][i - 1] == (key, w);
        }
      }
    }
  }

  lemma ItemProper(items: seq<Json>)
    requires Proper(Arr(items)) && items != []
    ensures Proper(items[0])
  {
  }

  lemma SlotAt(v: Json)
    requires Proper(v)
    ensures InnerDelta(v).Some? && Get(InnerDelta(v).value, "content").Some? ==>
      ContentAt(v, Get(InnerDelta(v).value, "content").value)
    ensures forall c | ContentAt(v, c) :: InnerDelta(v).Some? && Get(InnerDelta(v).value, "content") == Some(c)
  {
    hide Proper;
    if v.Obj? {
      GetIs(v.fields, "choices");
      var found := Get(v.fields, "choices");
      if found.Some? && found.value.Arr? && found.value.items != [] && found.value.items[0].Obj? {
        var items, first := found.value.items, found.value.items[0];
        GetProper(v.fields, "choices");
        ItemProper(items);
        GetIs(first.fields, "delta");
        var inner := Get(first.fields, "delta");
        if inner.Some? && inner.value.Obj? {
          GetProper(first.fields, "delta");
          GetIs(inner.value.fields, "content");
          if c :| Get(inner.value.fields, "content") == Some(c) {
            assert ContentPath(v, items, inner.value, c);
          }
        }
      }
    }
    forall c | ContentAt(v, c) ensures InnerDelta(v).Some? && Get(InnerDelta(v).value, "content") == Some(c) {
      var choices: seq<Json>, delta: Json :| ContentPath(v, choices, delta, c);
      GetProper(v.fields, "choices");
      ItemProper(choices);
      GetIs(choices[0].fields, "delta");
      GetProper(choices[0].fields, "delta");
      GetIs(delta.fields, "content");
    }
  }

  /** A delta has a slot exactly when there is something at choices[0].delta.content, and
      its text is that thing if it is a string, else empty. */
  lemma SlotIs(v: Json)
    requires Proper(v)
    ensures HasContentSlot(v) <==> exists c :: ContentAt(v, c)
    ensures forall c | ContentAt(v, c) :: ExtractContent(v) == if c.Str? then c.text else ""
    ensures !HasContentSlot(v) ==> ExtractContent(v) == ""
  {
    hide Proper, ContentAt, InnerDelta, Get;
    SlotAt(v);
  }

  /** b is object a, with the same keys in the same order, but w at this key. */
  ghost predicate SameBut(a: Json, b: Json, key: string, w: Json) {
    a.Obj? && b.Obj? && |b.fields| == |a.fields|
    && forall i | 0 <= i < |a.fields| ::
         b.fields[i] == if a.fields[i].0 == key then (key, w) else a.fields[i]
  }

  /** b is a, but for text at choices[0].delta.content. */
  ghost predicate Rewritten(a: Json, b: Json, text: string) {
    exists choices, delta, c, delta', first' ::
      ContentPath(a, choices, delta, c) && SameBut(delta, delta', "content", Str(text))
      && SameBut(choices[0], first', "delta", delta') && SameBut(a, b, "choices", Arr([first'] + choices[1..]))
  }

  lemma {:induction false} PutIs(fields: seq<(string, Json)>, key: string, w: Json)
    requires Proper(Obj(fields)) && Get(fields, key).Some?
    ensures SameBut(Obj(fields), Obj(Put(fields, key, w)), key, w)
    decreases |fields|
  {
    if fields[0].0 != key {
      ProperTail(fields);
      PutIs(fields[1..], key, w);
    }
  }

  /** Writing content into a delta with a slot changes that place and no other. */
  lemma WrittenIs(v: Json, text: string)
    requires Proper(v) && HasContentSlot(v)
    ensures Rewritten(v, WithContent(v, text), text)
  {
    hide Proper, Put;
    SlotAt(v);
    var inner := InnerDelta(v).value;
    var c := Get(inner, "content").value;
    var choices: seq<Json>, delta: Json :| ContentPath(v, choices, delta, c);
    GetIs(v.fields, "choices");
    GetProper(v.fields, "choices");
    ItemProper(choices);
    var first := choices[0].fields;
    GetIs(first, "delta");
    GetProper(first, "delta");
    PutIs(inner, "content", Str(text));
    var delta' := Obj(Put(inner, "content", Str(text)));
    PutIs(first, "delta", delta');
    PutIs(v.fields, "choices", Arr([Obj(Put(first, "delta", delta'))] + choices[1..]));
  }

  /** [DONE] ends the stream; an object with a choices key is a delta; anything else is
      malformed. */
  lemma EventIs(codec: Codec, data: string)
    ensures ParseEvent(codec, data) == Ok(DoneMarker) <==> data == "[DONE]"
    ensures forall v :: ParseEvent(codec, data) == Ok(ContentDelta(v)) <==>
      data != "[DONE]" && codec.loads(data) == Some(v) && HasKey(v, "choices")
    ensures ParseEvent(codec, data).Err? ==> ParseEvent(codec, data) == Err(UpstreamError)
  {
    hide Get;
    var parsed := codec.loads(data);
    if parsed.Some? && parsed.value.Obj? {
      KeyIs(parsed.value.fields, "choices");
    }
  }

  lemma KeyIs(fields: seq<(string, Json)>, key: string)
    ensures Get(fields, key).Some? <==> HasKey(Obj(fields), key)
  {
    if Get(fields, key).Some? {
      var i :| 0 <= i < |fields| && fields[i].0 == key;
      assert Has(Obj(fields), key, fields[i].1);
    }
  }
}
