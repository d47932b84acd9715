/** Chat-completion chunks on top of the SSE framing (src/proxy/chat_stream.py), and the
    content-slot rule (src/proxy/routes.py:205-223). */
module ChatStream {
  import opened Prelude
  import opened Json

  const DONE_SENTINEL := "[DONE]"

  datatype Event = DoneMarker | ContentDelta(envelope: Json)

  function ParseEvent(codec: Codec, data: string): Result<Event> {
    if data == DONE_SENTINEL then Ok(DoneMarker)
    else match codec.loads(data)
      case Some(Obj(fields)) =>
        if Get(fields, "choices").Some? then Ok(ContentDelta(Obj(fields))) else Err(UpstreamError)
      case _ => Err(UpstreamError)
  }

  /** choices[0].delta, when every step of that path has the right type. */
  function InnerDelta(envelope: Json): Option<seq<(string, Json)>> {
    if !envelope.Obj? then None
    else match Get(envelope.fields, "choices")
      case Some(Arr(items)) =>
        if items == [] || !items[0].Obj? then None
        else (match Get(items[0].fields, "delta")
              case Some(Obj(inner)) => Some(inner)
              case _ => None)
      case _ => None
  }

  function ExtractContent(envelope: Json): string {
    match InnerDelta(envelope)
    case None => ""
    case Some(inner) =>
      match Get(inner, "content")
      case Some(Str(text)) => text
      case _ => ""
  }

  predicate HasContentSlot(envelope: Json) {
    match InnerDelta(envelope)
    case None => false
    case Some(inner) => Get(inner, "content").Some?
  }

  /** serialize_content_delta's envelope: the content key, if present, is overwritten. */
  function WithContent(envelope: Json, content: string): (r: Json)
    ensures !HasContentSlot(envelope) ==> r == envelope
    ensures HasContentSlot(envelope) ==> HasContentSlot(r) && ExtractContent(r) == content
    ensures envelope.Obj? && Get(envelope.fields, "choices").Some?
            ==> r.Obj? && Get(r.fields, "choices").Some?
  {
    if !HasContentSlot(envelope) then envelope
    else
      var choices := Get(envelope.fields, "choices").value;
      var first := choices.items[0];
      var inner := Put(InnerDelta(envelope).value, "content", Str(content));
      var first' := Obj(Put(first.fields, "delta", Obj(inner)));
      Obj(Put(envelope.fields, "choices", Arr([first'] + choices.items[1..])))
  }

  /** An envelope without a slot carries no text; with one, it carries what is put there. */
  lemma SlotRule(envelope: Json, content: string)
    ensures ExtractContent(WithContent(envelope, content)) == if HasContentSlot(envelope) then content else ""
    ensures HasContentSlot(WithContent(envelope, content)) == HasContentSlot(envelope)
  {
    hide WithContent;
  }

  lemma {:induction false} PutPut(fields: seq<(string, Json)>, key: string, v: Json, w: Json)
    requires Get(fields, key).Some?
    ensures Put(Put(fields, key, v), key, w) == Put(fields, key, w)
  {
    if fields[0].0 != key {
      PutPut(fields[1..], key, v, w);
      assert Put(fields, key, v)[1..] == Put(fields[1..], key, v);
    }
  }

  lemma {:induction false} PutSame(fields: seq<(string, Json)>, key: string)
    requires Get(fields, key).Some?
    ensures Put(fields, key, Get(fields, key).value) == fields
  {
    if fields[0].0 != key {
      PutSame(fields[1..], key);
    }
  }

  /** Re-serialising with the content an envelope already carries changes nothing: no
      other part of the envelope is touched. */
  lemma WithOwnContent(envelope: Json)
    requires HasContentSlot(envelope)
    requires Get(InnerDelta(envelope).value, "content").value.Str?
    ensures WithContent(envelope, ExtractContent(envelope)) == envelope
  {
    var choices := Get(envelope.fields, "choices").value;
    var first := choices.items[0];
    PutSame(InnerDelta(envelope).value, "content");
    PutSame(first.fields, "delta");
    assert [first] + choices.items[1..] == choices.items;
    PutSame(envelope.fields, "choices");
  }

  /** Content put in twice is content put in once. */
  lemma WithContentTwice(envelope: Json, a: string, b: string)
    ensures WithContent(WithContent(envelope, a), b) == WithContent(envelope, b)
  {
    if HasContentSlot(envelope) {
      var choices := Get(envelope.fields, "choices").value;
      var first, inner := choices.items[0], InnerDelta(envelope).value;
      PutPut(inner, "content", Str(a), Str(b));
      var innerA := Put(inner, "content", Str(a));
      var innerB := Put(inner, "content", Str(b));
      PutPut(first.fields, "delta", Obj(innerA), Obj(innerB));
      var itemsA := [Obj(Put(first.fields, "delta", Obj(innerA)))] + choices.items[1..];
      var itemsB := [Obj(Put(first.fields, "delta", Obj(innerB)))] + choices.items[1..];
      assert itemsA[1..] == choices.items[1..];
      PutPut(envelope.fields, "choices", Arr(itemsA), Arr(itemsB));
    }
  }

  lemma WithContentProper(envelope: Json, content: string)
    requires Proper(envelope)
    ensures Proper(WithContent(envelope, content))
  {
    hide Put, Get;
    if HasContentSlot(envelope) {
      var choices := Get(envelope.fields, "choices").value;
      GetProper(envelope.fields, "choices");
      var first, inner := choices.items[0], InnerDelta(envelope).value;
      GetProper(first.fields, "delta");
      PutProper(inner, "content", Str(content));
      var delta := Obj(Put(inner, "content", Str(content)));
      PutProper(first.fields, "delta", delta);
      PutProper(envelope.fields, "choices", Arr([Obj(Put(first.fields, "delta", delta))] + choices.items[1..]));
    }
  }
}
