/** The `io.Writer` that a sticky error writer wraps, given as a script of
    per-call outcomes, and the specification of what a sticky writer that
    starts without an error does with a sequence of chunks. Both
    errWriter types (markdown/markdown.go and markdown.go) are proved
    against these functions. */
module Sinks {
  import opened Values

  type Chunk = Bytes

  /** What one call of `Write` on the underlying writer returns. */
  datatype WriteOutcome = WriteOutcome(n: int, err: Option<Error>)

  /** The outcome of call number `k` (counting from 0): the scripted one,
      and a complete successful write once the script is used up. */
  function OutcomeAt(script: seq<WriteOutcome>, k: nat, data: Chunk): WriteOutcome
  {
    if k < |script| then script[k] else WriteOutcome(|data|, None)
  }

  predicate Fails(script: seq<WriteOutcome>, k: nat, data: Chunk)
  {
    OutcomeAt(script, k, data).err.Some?
  }

  /** The underlying writer: it answers each call from its script and
      keeps every chunk it was handed. */
  class Sink {
    const script: seq<WriteOutcome>
    var received: seq<Chunk>

    constructor (script: seq<WriteOutcome>)
      ensures this.script == script && received == []
    {
      this.script := script;
      received := [];
    }

    method Write(data: Chunk) returns (n: int, err: Option<Error>)
      modifies this
      ensures received == old(received) + [data]
      ensures WriteOutcome(n, err) == OutcomeAt(script, |old(received)|, data)
    {
      var o := OutcomeAt(script, |received|, data);
      received := received + [data];
      n, err := o.n, o.err;
    }
  }

  /** What a blackfriday renderer writes for one tree: the writes of
      `RenderHeader`, those of `RenderNode` over the whole walk, and those of
      `RenderFooter`. The renderer never looks at what `Write` returns, so
      these do not depend on the writer. */
  datatype Emission = Emission(header: seq<Chunk>, walk: seq<Chunk>, footer: seq<Chunk>)

  function Chunks(e: Emission): seq<Chunk>
  {
    e.header + e.walk + e.footer
  }

  /** How many of `chunks` a sticky writer without an error passes on to
      a writer that has already answered `start` calls: all of them, or
      up to and including the first whose write fails. */
  function Forwarded(script: seq<WriteOutcome>, start: nat, chunks: seq<Chunk>): (m: nat)
    ensures m <= |chunks|
    ensures chunks != [] ==> m >= 1
    decreases chunks
  {
    if chunks == [] then 0
    else if Fails(script, start, chunks[0]) then 1
    else 1 + Forwarded(script, start + 1, chunks[1..])
  }

  /** The error such a writer holds afterwards. */
  function StickyErr(script: seq<WriteOutcome>, start: nat, chunks: seq<Chunk>): Option<Error>
    decreases chunks
  {
    if chunks == [] then None
    else if Fails(script, start, chunks[0]) then OutcomeAt(script, start, chunks[0]).err
    else StickyErr(script, start + 1, chunks[1..])
  }

  /** The writer passes on exactly the chunks up to and including the
      first failing write; it ends without an error iff no write failed,
      and otherwise holds the error of that first failing write. */
  lemma {:induction false} StickyErrIsFirstFailure(script: seq<WriteOutcome>, start: nat, chunks: seq<Chunk>)
    ensures StickyErr(script, start, chunks).None? <==>
      forall j :: 0 <= j < |chunks| ==> !Fails(script, start + j, chunks[j])
    ensures StickyErr(script, start, chunks).None? ==> Forwarded(script, start, chunks) == |chunks|
    ensures StickyErr(script, start, chunks).Some? ==>
      var m := Forwarded(script, start, chunks);
      && 1 <= m
      && (forall j :: 0 <= j < m - 1 ==> !Fails(script, start + j, chunks[j]))
      && StickyErr(script, start, chunks) == OutcomeAt(script, start + m - 1, chunks[m - 1]).err
    decreases chunks
  {
    if chunks != [] && !Fails(script, start, chunks[0]) {
      var rest := chunks[1..];
      StickyErrIsFirstFailure(script, start + 1, rest);
      if StickyErr(script, start + 1, rest).None? {
        forall j | 0 <= j < |chunks| ensures !Fails(script, start + j, chunks[j]) {
          if j > 0 {
            assert chunks[j] == rest[j - 1];
          }
        }
      } else {
        var m := Forwarded(script, start + 1, rest);
        forall j | 0 <= j < m ensures !Fails(script, start + j, chunks[j]) {
          if j > 0 {
            assert chunks[j] == rest[j - 1];
          }
        }
        assert chunks[m] == rest[m - 1];
      }
    } else if chunks != [] {
      assert !(forall j :: 0 <= j < |chunks| ==> !Fails(script, start + j, chunks[j]));
    }
  }

  /** Writing `a` and then `b` is writing `a + b`: once `a` has left an
      error, nothing of `b` is passed on and the error stays. */
  lemma {:induction false} ForwardedAppend(script: seq<WriteOutcome>, start: nat, a: seq<Chunk>, b: seq<Chunk>)
    ensures StickyErr(script, start, a).Some? ==>
      && Forwarded(script, start, a + b) == Forwarded(script, start, a)
      && StickyErr(script, start, a + b) == StickyErr(script, start, a)
    ensures StickyErr(script, start, a).None? ==>
      && Forwarded(script, start, a + b) == |a| + Forwarded(script, start + |a|, b)
      && StickyErr(script, start, a + b) == StickyErr(script, start + |a|, b)
    decreases a
  {
    if a == [] {
      assert a + b == b;
    } else {
      assert (a + b)[0] == a[0];
      assert (a + b)[1..] == a[1..] + b;
      if !Fails(script, start, a[0]) {
        ForwardedAppend(script, start + 1, a[1..], b);
      }
    }
  }

  /** Running a clean sticky writer over `a` and then over `b` leaves the
      same error and the same chunks at the writer as one run over
      `a + b`. */
  lemma SegmentsCompose(script: seq<WriteOutcome>, start: nat, before: seq<Chunk>,
                        a: seq<Chunk>, b: seq<Chunk>, after: seq<Chunk>, err: Option<Error>)
    requires |before| == start
    requires StickyErr(script, start, a).Some? ==>
      after == before + a[..Forwarded(script, start, a)] && err == StickyErr(script, start, a)
    requires StickyErr(script, start, a).None? ==>
      var mid := before + a[..Forwarded(script, start, a)];
      && after == mid + b[..Forwarded(script, |mid|, b)]
      && err == StickyErr(script, |mid|, b)
    ensures after == before + (a + b)[..Forwarded(script, start, a + b)]
    ensures err == StickyErr(script, start, a + b)
  {
    ForwardedAppend(script, start, a, b);
    if StickyErr(script, start, a).Some? {
      ComposeAfterFailure(script, start, a, b);
    } else {
      StickyErrIsFirstFailure(script, start, a);
      ComposeAfterSuccess(script, start, a, b);
    }
  }

  lemma ComposeAfterFailure(script: seq<WriteOutcome>, start: nat, a: seq<Chunk>, b: seq<Chunk>)
    requires StickyErr(script, start, a).Some?
    ensures (a + b)[..Forwarded(script, start, a)] == a[..Forwarded(script, start, a)]
  {
  }

  lemma ComposeAfterSuccess(script: seq<WriteOutcome>, start: nat, a: seq<Chunk>, b: seq<Chunk>)
    requires Forwarded(script, start, a) == |a|
    ensures a[..Forwarded(script, start, a)] == a
    ensures (a + b)[..|a| + Forwarded(script, start + |a|, b)] == a + b[..Forwarded(script, start + |a|, b)]
  {
    var m := Forwarded(script, start + |a|, b);
    assert a[..|a|] == a;
    assert (a + b)[..|a| + m] == a + b[..m];
  }
}
