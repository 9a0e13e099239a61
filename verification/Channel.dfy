/** Two ends of a channel: what a writer wrote is what the reader at the other end reads. */
module Channels {
  import opened Framing
  import opened InputBuffer
  import opened OutputQueues
  import opened TcpOutputs

  /**
   At any time of a run, when what the reader has got so far is what the writer's socket has
   acknowledged, or part of it, the symbols handed out are a prefix of the symbols written.
   */
  lemma ReadIsPrefixOfWritten(w: TcpOutput, r: InputBuf)
    requires w.Valid() && r.Valid() && r.wire[..r.got] <= w.queue.acked
    ensures r.delivered <= w.syms
    ensures Invalid !in Decode(Plain, r.wire[..r.got])
  {
    hide Decode, After, Encodes;
    w.AckedIsPrefix();
    var p := r.taken + (r.end - r.cur);
    assert r.wire[..p] <= r.wire[..r.got];
    DecodePrefix(Plain, r.wire[..p], w.queue.acked);
    DecodePrefix(Plain, r.wire[..r.got], w.queue.acked);
  }

  /**
   Once the writer has flushed its last message, and the reader has got all of it and has no window
   open, the reader was handed exactly the symbols written.
   */
  lemma AllReadIsAllWritten(w: TcpOutput, r: InputBuf)
    requires w.Valid() && w.open && w.block.NoBlock? && w.cur == 0 && w.queue.queue == []
    requires r.Valid() && r.wire[..r.got] == w.queue.acked
    requires r.taken == r.got && r.cur == r.end
    ensures r.delivered == w.syms
  {
    w.WrittenDecodes();
    hide Decode, After;
    assert w.buf[..w.cur] == [];
    assert w.queue.acked + Unsent(w.queue.queue) == w.queue.acked;
    assert w.queue.added + [] == w.queue.added == r.wire[..r.got];
    assert r.delivered + DataSyms([]) == r.delivered;
  }
}
