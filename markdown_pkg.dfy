/** markdown/markdown.go: the sticky error writer and `Render`, which
    runs a renderer's header, walk and footer through it. */
module Markdown {
  import opened Values
  import opened Sinks

  /** `errWriter`: forwards to `w` until one write fails, then keeps
      answering `(0, err)` with that error without calling `w`. */
  class ErrWriter {
    const w: Sink
    var err: Option<Error>
    /** Every chunk handed to `Write`, forwarded or not. */
    ghost var offered: seq<Chunk>

    constructor (w: Sink)
      ensures this.w == w && err == None && offered == []
    {
      this.w := w;
      err := None;
      offered := [];
    }

    method Write(data: Chunk) returns (n: int, e: Option<Error>)
      modifies this, w
      ensures offered == old(offered) + [data]
      ensures old(err).Some? ==>
        n == 0 && e == old(err) && err == old(err) && w.received == old(w.received)
      ensures old(err).None? ==>
        && w.received == old(w.received) + [data]
        && WriteOutcome(n, e) == OutcomeAt(w.script, |old(w.received)|, data)
        && err == e
    {
      offered := offered + [data];
      if err.Some? {
        return 0, err;
      }
      n, e := w.Write(data);
      err := e;
    }
  }

  /** The renderer's successive writes of `chunks` to `ew`. */
  method Emit(ew: ErrWriter, chunks: seq<Chunk>)
    modifies ew, ew.w
    ensures ew.offered == old(ew.offered) + chunks
    ensures old(ew.err).Some? ==> ew.err == old(ew.err) && ew.w.received == old(ew.w.received)
    ensures old(ew.err).None? ==>
      var start := |old(ew.w.received)|;
      && ew.w.received == old(ew.w.received) + chunks[..Forwarded(ew.w.script, start, chunks)]
      && ew.err == StickyErr(ew.w.script, start, chunks)
  {
    ghost var start := |ew.w.received|;
    var i := 0;
    while i < |chunks|
      invariant 0 <= i <= |chunks|
      invariant ew.offered == old(ew.offered) + chunks[..i]
      invariant old(ew.err).Some? ==> ew.err == old(ew.err) && ew.w.received == old(ew.w.received)
      invariant old(ew.err).None? ==>
        && Forwarded(ew.w.script, start, chunks[..i]) <= i
        && ew.w.received == old(ew.w.received) + chunks[..Forwarded(ew.w.script, start, chunks[..i])]
        && ew.err == StickyErr(ew.w.script, start, chunks[..i])
    {
      ghost var done := chunks[..i];
      StickyErrIsFirstFailure(ew.w.script, start, done);
      ForwardedAppend(ew.w.script, start, done, [chunks[i]]);
      var _, _ := ew.Write(chunks[i]);
      assert chunks[..i + 1] == done + [chunks[i]];
      i := i + 1;
    }
    assert chunks[..i] == chunks;
  }

  /** `Render(w, node, renderer)`: header, walk and footer all run, in that
      order, whatever the writes return; `w` receives exactly the chunks up
      to and including the first failing write, and the result is that
      write's error, or nil when every write succeeded. */
  method Render(w: Sink, e: Emission) returns (err: Option<Error>, ghost offered: seq<Chunk>)
    modifies w
    ensures offered == Chunks(e)
    ensures w.received == old(w.received) + Chunks(e)[..Forwarded(w.script, |old(w.received)|, Chunks(e))]
    ensures err == StickyErr(w.script, |old(w.received)|, Chunks(e))
  {
    ghost var start := |w.received|;
    ghost var before := w.received;
    var ew := new ErrWriter(w);
    Emit(ew, e.header);
    Emit(ew, e.walk);
    SegmentsCompose(w.script, start, before, e.header, e.walk, w.received, ew.err);
    Emit(ew, e.footer);
    SegmentsCompose(w.script, start, before, e.header + e.walk, e.footer, w.received, ew.err);
    err := ew.err;
    offered := ew.offered;
  }
}
