/** The buffered window of the response path (src/pipeline/sliding_window.py) and its
    refinement of one substitution over the whole text. */
module SlidingWindow {
  import opened Prelude
  import opened Substitution

  type Transform = string -> string

  /** What one feed does to the retained buffer: transform everything, then release all
      but the lookahead. */
  function Released(lookahead: nat, tf: Transform, buffer: string): string {
    var text := tf(buffer);
    if |text| <= lookahead then "" else text[..|text| - lookahead]
  }

  function Retained(lookahead: nat, tf: Transform, buffer: string): string {
    var text := tf(buffer);
    if |text| <= lookahead then text else text[|text| - lookahead..]
  }

  /** A call the window receives, refused ones included. */
  datatype Received = Fed(chunk: string) | Flushed

  class Window {
    const lookahead: nat
    const transform: Option<Transform>
    var buffer: string
    var flushed: bool
    ghost var calls: seq<Received>

    constructor (lookahead: nat, transform: Option<Transform>)
      ensures this.lookahead == lookahead && this.transform == transform
      ensures buffer == "" && !flushed && calls == []
    {
      this.lookahead, this.transform := lookahead, transform;
      buffer, flushed, calls := "", false, [];
    }

    /** The injected transform, or the identity. */
    function Apply(): Transform {
      if transform.Some? then transform.value else x => x
    }

    method Feed(chunk: string) returns (r: Result<string>)
      modifies this
      ensures flushed == old(flushed) && calls == old(calls) + [Fed(chunk)]
      ensures old(flushed) ==> r == Err(WindowClosedError) && buffer == old(buffer)
      ensures !old(flushed) ==>
        r == Ok(Released(lookahead, Apply(), old(buffer) + chunk))
        && buffer == Retained(lookahead, Apply(), old(buffer) + chunk)
    {
      calls := calls + [Fed(chunk)];
      if flushed {
        return Err(WindowClosedError);
      }
      buffer := buffer + chunk;
      if transform.Some? {
        buffer := transform.value(buffer);
      }
      if |buffer| <= lookahead {
        return Ok("");
      }
      var releaseUpto := |buffer| - lookahead;
      r := Ok(buffer[..releaseUpto]);
      buffer := buffer[releaseUpto..];
    }

    method Flush() returns (r: Result<string>)
      modifies this
      ensures flushed && calls == old(calls) + [Flushed]
      ensures old(flushed) ==> r == Err(WindowClosedError) && buffer == old(buffer)
      ensures !old(flushed) ==> r == Ok(Apply()(old(buffer))) && buffer == ""
    {
      calls := calls + [Flushed];
      if flushed {
        return Err(WindowClosedError);
      }
      flushed := true;
      if transform.Some? {
        buffer := transform.value(buffer);
      }
      r, buffer := Ok(buffer), "";
    }
  }

  // ------------------------------------------------------------ whole streams

  /** Everything released by feeding the chunks in order, and the buffer left behind. */
  function Run(lookahead: nat, tf: Transform, chunks: seq<string>): (string, string) {
    if chunks == [] then ("", "")
    else
      var (out, buffer) := Run(lookahead, tf, chunks[..|chunks| - 1]);
      var fed := buffer + chunks[|chunks| - 1];
      (out + Released(lookahead, tf, fed), Retained(lookahead, tf, fed))
  }

  /** Everything released, including by the final flush. */
  function Output(lookahead: nat, tf: Transform, chunks: seq<string>): string {
    var (out, buffer) := Run(lookahead, tf, chunks);
    out + tf(buffer)
  }

  function Substitute(m: Table): Transform {
    t => Sub(m, t)
  }

  /** Every key is at most one character longer than the lookahead. */
  ghost predicate Covers(lookahead: nat, m: Table) {
    forall s | s in m :: |s| <= lookahead + 1
  }

  lemma CoversRetains(m: Table, lookahead: nat, t: string)
    requires Covers(lookahead, m)
    ensures Retains(m, t, lookahead)
  {
    forall i: nat | Pending(m, t, i) ensures |t| - i <= lookahead {
      var s :| s in m && t[i..] < s;
    }
  }

  /** The invariant of a stream: released text plus buffer is the substitution of all
      input so far, and stays so whatever comes next. */
  ghost predicate Refines(m: Table, t: string, released: string, kept: string) {
    Sub(m, t) == released + kept
    && forall c :: released + Sub(m, kept + c) == Sub(m, t + c)
  }

  /** What one feed releases is settled: the rest can be substituted with whatever follows. */
  lemma ReleaseSafe(m: Table, lookahead: nat, fed: string, c: string)
    requires OverlapFree(m, lookahead) && Covers(lookahead, m)
    ensures var released, kept := Released(lookahead, Substitute(m), fed), Retained(lookahead, Substitute(m), fed);
      released + kept == Sub(m, fed) && released + Sub(m, kept + c) == Sub(m, fed + c)
  {
    hide EndsApart, RealsApart, Sub, Covers;
    var text := Sub(m, fed);
    if |text| <= lookahead {
      Absorb(m, lookahead, fed, c);
      assert "" + text == text && "" + Sub(m, text + c) == Sub(m, text + c);
    } else {
      var k := |text| - lookahead;
      assert text[..k] + text[k..] == text;
      CoversRetains(m, lookahead, fed);
      CutSafe(m, lookahead, fed, text[..k], text[k..], c);
    }
  }

  lemma FeedRefines(m: Table, lookahead: nat, t: string, released: string, kept: string, c: string)
    requires OverlapFree(m, lookahead) && Covers(lookahead, m) && Refines(m, t, released, kept)
    ensures Refines(m, t + c, released + Released(lookahead, Substitute(m), kept + c),
                    Retained(lookahead, Substitute(m), kept + c))
  {
    hide OverlapFree, Covers, Sub, Released, Retained;
    var fed := kept + c;
    var r, k := Released(lookahead, Substitute(m), fed), Retained(lookahead, Substitute(m), fed);
    ReleaseSafe(m, lookahead, fed, "");
    assert released + r + k == released + (r + k);
    forall c' ensures released + r + Sub(m, k + c') == Sub(m, t + c + c') {
      ReleaseSafe(m, lookahead, fed, c');
      assert fed + c' == kept + (c + c') && t + c + c' == t + (c + c');
      assert released + r + Sub(m, k + c') == released + (r + Sub(m, k + c'));
    }
  }

  lemma {:induction false} RunRefines(m: Table, lookahead: nat, chunks: seq<string>)
    requires OverlapFree(m, lookahead) && Covers(lookahead, m)
    ensures var (out, buffer) := Run(lookahead, Substitute(m), chunks);
      Refines(m, Flatten(chunks), out, buffer)
  {
    hide OverlapFree, Covers, Released, Retained, Sub, Refines;
    if chunks == [] {
      NothingRefines(m);
    } else {
      var n := |chunks| - 1;
      FlattenLast(chunks);
      RunRefines(m, lookahead, chunks[..n]);
      var (out, buffer) := Run(lookahead, Substitute(m), chunks[..n]);
      FeedRefines(m, lookahead, Flatten(chunks[..n]), out, buffer, chunks[n]);
    }
  }

  lemma NothingRefines(m: Table)
    ensures Refines(m, "", "", "")
  {
    hide Sub;
    SubEmpty(m);
    forall c ensures "" + Sub(m, "" + c) == Sub(m, "" + c) {
    }
  }

  /** Chunk independence: however the text is cut, what the window releases in all is one
      leftmost-longest substitution over the whole text. */
  ghost predicate ChunkIndependent(m: Table, lookahead: nat) {
    forall chunks :: Output(lookahead, Substitute(m), chunks) == Sub(m, Flatten(chunks))
  }

  lemma WindowRefinesSubstitution(m: Table, lookahead: nat, chunks: seq<string>)
    requires OverlapFree(m, lookahead) && Covers(lookahead, m)
    ensures Output(lookahead, Substitute(m), chunks) == Sub(m, Flatten(chunks))
  {
    hide OverlapFree, Covers, Sub, Run;
    RunRefines(m, lookahead, chunks);
    var (out, buffer) := Run(lookahead, Substitute(m), chunks);
    assert buffer + "" == buffer && Flatten(chunks) + "" == Flatten(chunks);
  }

  // --------------------------------------------------------- short streams

  lemma TwoChunks(a: string, b: string)
    ensures Flatten([a, b]) == a + b
  {
    FlattenOne(b);
    assert [a, b][1..] == [b];
  }

  lemma RunAppend(lookahead: nat, tf: Transform, chunks: seq<string>, c: string)
    ensures var (out, buffer) := Run(lookahead, tf, chunks);
      Run(lookahead, tf, chunks + [c])
      == (out + Released(lookahead, tf, buffer + c), Retained(lookahead, tf, buffer + c))
  {
    assert (chunks + [c])[..|chunks|] == chunks;
  }

  lemma RunNothing(lookahead: nat, tf: Transform)
    ensures Run(lookahead, tf, []) == ("", "")
  {
  }

  lemma SubOnly(m: Table, s: string)
    requires s in m && s != ""
    ensures Sub(m, s) == m[s]
  {
    assert s <= s;
    var l := LongestAt(m, s).value;
    assert l == s;
    assert s[|s|..] == "";
    assert m[s] + Sub(m, "") == m[s];
  }

  /** No more than the lookahead is ever held back, and no less once text is released. */
  lemma HoldsBackLookahead(lookahead: nat, tf: Transform, chunks: seq<string>)
    ensures |Run(lookahead, tf, chunks).1| <= lookahead
    ensures chunks != [] && Run(lookahead, tf, chunks).0 != Run(lookahead, tf, chunks[..|chunks| - 1]).0 ==>
      |Run(lookahead, tf, chunks).1| == lookahead
  {
    if chunks != [] {
      var n := |chunks| - 1;
      var (out, buffer) := Run(lookahead, tf, chunks[..n]);
      var text := tf(buffer + chunks[n]);
      assert |text| <= lookahead ==> out + "" == out;
    }
  }
}
