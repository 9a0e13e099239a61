/**
 The life of a channel (channel_tcp.c): the stream lock count keeps the channel alive while anything
 may still come back to it, and the last unlock deletes it.

 A method is one step: a call from a client, an event, or the completion of a request.  What the
 steps need of the buffers is how full they are; the bytes are the concern of the other modules.
 */
module ChannelLife {

  datatype Handling = Idle | Triggered | Running

  /** What is written: a byte, one that needs an escape sequence, or a marker. */
  datatype Symbol = Byte | EscapedByte | Eos | Eom

  function Repeat(n: nat): (syms: seq<Symbol>)
    ensures |syms| == n
  {
    seq(n, _ => Byte)
  }

  class ChannelTcp {
    // The size of an output buffer.
    const bufSize: nat
    var lockCnt: nat
    // The channel has been deleted; its memory is gone.
    var deleted: bool
    // The state is ChannelStateDisconnected.
    var disconnected: bool
    var readPending: bool
    var handlingMsg: Handling
    var messageCount: nat
    // The fill of the output buffer, and the buffers in the output queue.
    var cur: nat
    var queue: nat
    var outErrno: bool
    var outFlushCnt: nat
    var outEomCnt: nat
    // The write side of the socket has been shut down this often.
    var shutdowns: nat

    // Who holds the locks: the chain of reads until it has seen the end of file after the close, the
    // posted flush events together, the write in flight, and clients.
    ghost var readChain: bool
    ghost var flushEvents: nat
    ghost var writePending: bool
    ghost var clientLocks: nat
    ghost var deletes: nat
    // All symbols written.
    ghost var written: seq<Symbol>

    /** The lock count is the number of its holders. */
    ghost predicate Locks()
      reads `lockCnt, `readChain, `flushEvents, `writePending, `clientLocks
    {
      lockCnt ==
      (if readChain then 1 else 0) + (if flushEvents > 0 then 1 else 0) + (if writePending then 1 else 0) + clientLocks
    }

    /** The chain of reads: after the close a read is always pending until the chain ends. */
    ghost predicate Reads()
      reads `disconnected, `readChain, `readPending, `handlingMsg
    {
      && (!disconnected ==> readChain)
      && (disconnected ==> readPending == readChain && handlingMsg != Triggered)
    }

    /** Output: one write is in flight exactly if the queue is not empty. */
    ghost predicate Writes()
      reads `writePending, `queue, `outErrno, `cur, `disconnected, `shutdowns, `outFlushCnt, `flushEvents
    {
      && writePending == (queue > 0) && (outErrno ==> queue == 0)
      && cur <= bufSize && bufSize > 1
      && outFlushCnt == flushEvents <= 2
      && shutdowns == if disconnected && queue == 0 then 1 else 0
    }

    ghost predicate Valid()
      reads this
    {
      && Locks() && Reads() && Writes()
      && deleted == (lockCnt == 0) && deletes == (if deleted then 1 else 0)
      && (deleted ==> disconnected)
      && (disconnected ==> messageCount == 0)
    }

    /**
     In every reachable state the channel has been deleted, once, exactly if it is closed, its reads
     have ended, no write or flush is pending and no client holds a lock.
     */
    lemma DeletedIff()
      requires Valid()
      ensures deleted <==> disconnected && !readPending && !writePending && flushEvents == 0 && clientLocks == 0
      ensures deletes == if deleted then 1 else 0
      ensures deleted ==> handlingMsg != Triggered && outFlushCnt == 0 && queue == 0 && shutdowns == 1
    {
    }

    constructor (bufSize: nat)
      requires bufSize > 1
      ensures Valid() && !disconnected && clientLocks == 0 && !deleted && lockCnt == 1 && written == []
      ensures cur == queue == messageCount == outFlushCnt == outEomCnt == 0
      ensures !outErrno && !readPending && handlingMsg == Idle
    {
      this.bufSize := bufSize;
      lockCnt, deleted, disconnected, readPending, handlingMsg, messageCount := 1, false, false, false, Idle, 0;
      cur, queue, outErrno, outFlushCnt, outEomCnt, shutdowns := 0, 0, false, 0, 0, 0;
      readChain, flushEvents, writePending, clientLocks, deletes, written := true, 0, false, 0, 0, [];
    }

    /** `delete_channel`; what it asserts follows from the lock count. */
    method DeleteChannel()
      requires lockCnt == 0 && !deleted && deletes == 0
      requires outFlushCnt == 0 && !readPending && handlingMsg != Triggered
      modifies `deleted, `deletes
      ensures deleted && deletes == 1
    {
      deleted := true;
      deletes := deletes + 1;
    }

    /** `tcp_lock` by a client. */
    method Lock()
      requires Valid() && !deleted
      modifies `lockCnt, `clientLocks
      ensures Valid() && !deleted && clientLocks == old(clientLocks) + 1
    {
      lockCnt := lockCnt + 1;
      clientLocks := clientLocks + 1;
    }

    /** `tcp_unlock` by a client. */
    method Unlock()
      requires Valid() && clientLocks > 0
      modifies `lockCnt, `clientLocks, `deleted, `deletes
      ensures Valid() && clientLocks == old(clientLocks) - 1
      ensures deleted <==> disconnected && !readPending && !writePending && flushEvents == 0 && clientLocks == 0
    {
      clientLocks := clientLocks - 1;
      DropLock();
    }

    /** `tcp_unlock`, once its holder has been written off. */
    method DropLock()
      requires lockCnt > 0 && !deleted && deletes == 0 && Reads() && Writes() && (disconnected ==> messageCount == 0)
      requires
        lockCnt ==
        1 + (if readChain then 1 else 0) + (if flushEvents > 0 then 1 else 0) +
        (if writePending then 1 else 0) + clientLocks
      modifies `lockCnt, `deleted, `deletes
      ensures Valid()
    {
      lockCnt := lockCnt - 1;
      if lockCnt == 0 {
        assert !readPending;
        DeleteChannel();
      }
    }

    // ---------- Output ----------

    /** `post_write_request`: a request is under way, and holds a lock. */
    method PostWriteRequest()
      requires !writePending
      modifies `lockCnt, `writePending
      ensures writePending && lockCnt == old(lockCnt) + 1
    {
      lockCnt := lockCnt + 1;
      writePending := true;
    }

    /**
     `tcp_flush_with_flags`: the buffer goes to the queue, as a new one or, if it fits, at the end of
     the last one; on a closed or broken channel its contents are dropped.
     */
    method Flush(fits: bool)
      requires Valid() && !deleted
      modifies `cur, `outEomCnt, `queue, `lockCnt, `writePending
      ensures Valid() && !deleted && cur == 0
      ensures queue ==
        if disconnected || outErrno || old(cur) == 0 || (old(queue) >= 2 && fits) then old(queue) else old(queue) + 1
      ensures lockCnt == if old(queue) == 0 && queue == 1 then old(lockCnt) + 1 else old(lockCnt)
      ensures outEomCnt == if old(cur) == 0 then old(outEomCnt) else 0
    {
      if cur == 0 {
        return;
      }
      if !disconnected && !outErrno {
        if !(queue >= 2 && fits) {
          queue := queue + 1;
          if queue == 1 {
            PostWriteRequest();
          }
        }
      }
      cur := 0;
      outEomCnt := 0;
    }

    /** `tcp_write_stream` of one symbol outside a block; escaped bytes and markers take two bytes. */
    method WriteStream(sym: Symbol, fits: bool)
      requires Valid() && !deleted
      modifies `cur, `outEomCnt, `queue, `lockCnt, `writePending, `outFlushCnt, `flushEvents, `written
      ensures Valid() && !deleted && written == old(written) + [sym]
      ensures
        var n := if sym.Byte? then 1 else 2;
        if old(cur) + n <= bufSize then
          && cur == old(cur) + n && queue == old(queue)
          && outEomCnt == if sym.Eom? then old(outEomCnt) + 1 else old(outEomCnt)
        else
          && cur == old(cur) + n - bufSize && queue >= old(queue) && (disconnected || outErrno || queue > 0)
          && outEomCnt == if sym.Eom? then 1 else 0
      ensures outFlushCnt == if sym.Eom? && old(outFlushCnt) < 2 then old(outFlushCnt) + 1 else old(outFlushCnt)
    {
      PutByte(fits);
      if !sym.Byte? {
        PutByte(fits);
        if sym.Eom? {
          outEomCnt := outEomCnt + 1;
          if outFlushCnt < 2 {
            PostFlush();
          }
        }
      }
      written := written + [sym];
    }

    /** One byte, after a flush if the buffer is full. */
    method PutByte(fits: bool)
      requires Valid() && !deleted
      modifies `cur, `outEomCnt, `queue, `lockCnt, `writePending
      ensures Valid() && !deleted && cur == (if old(cur) == bufSize then 0 else old(cur)) + 1
      ensures if old(cur) < bufSize then queue == old(queue) && outEomCnt == old(outEomCnt)
              else outEomCnt == 0 && queue >= old(queue) && (disconnected || outErrno || queue > 0)
    {
      if cur == bufSize {
        Flush(fits);
      }
      cur := cur + 1;
    }

    /** A lazy flush: the first of the posted events takes a lock for all of them. */
    method PostFlush()
      requires Valid() && !deleted && outFlushCnt < 2
      modifies `outFlushCnt, `flushEvents, `lockCnt
      ensures Valid() && !deleted && outFlushCnt == old(outFlushCnt) + 1
    {
      if outFlushCnt == 0 {
        lockCnt := lockCnt + 1;
      }
      outFlushCnt := outFlushCnt + 1;
      flushEvents := flushEvents + 1;
    }

    /** `tcp_flush_event`: the last posted event flushes and unlocks, an earlier one flushes if much is waiting. */
    method FlushEvent(fits: bool)
      requires Valid() && flushEvents > 0
      modifies `cur, `outEomCnt, `queue, `lockCnt, `writePending, `outFlushCnt, `flushEvents, `deleted, `deletes
      ensures Valid() && flushEvents == old(flushEvents) - 1
      ensures flushEvents == 0 || old(outEomCnt) > 3 ==> cur == 0
      ensures flushEvents > 0 && old(outEomCnt) <= 3 ==> cur == old(cur) && queue == old(queue)
      ensures
        (flushEvents == 0 || old(outEomCnt) > 3) && !disconnected && !outErrno && old(cur) > 0 ==>
          queue == if old(queue) >= 2 && fits then old(queue) else old(queue) + 1
    {
      if outFlushCnt == 1 {
        Flush(fits);
        outFlushCnt := 0;
        flushEvents := 0;
        DropLock();
      } else {
        outFlushCnt := outFlushCnt - 1;
        flushEvents := flushEvents - 1;
        if outEomCnt > 3 {
          Flush(fits);
        }
      }
    }

    /**
     `done_write_request`, with an error or with the first buffer written in full or in part: the
     next request is posted before the lock of this one is dropped.
     */
    method DoneWriteRequest(error: bool, whole: bool)
      requires Valid() && writePending
      modifies `queue, `outErrno, `lockCnt, `writePending, `shutdowns, `deleted, `deletes
      ensures Valid()
      ensures queue == if error then 0 else if whole then old(queue) - 1 else old(queue)
      ensures outErrno == (old(outErrno) || error)
      ensures shutdowns == if disconnected && queue == 0 then 1 else 0
    {
      writePending := false;
      if error {
        queue := 0;
        outErrno := true;
      } else if whole {
        queue := queue - 1;
      }
      if queue > 0 {
        PostWriteRequest();
      }
      if queue == 0 && disconnected {
        shutdowns := shutdowns + 1;
      }
      DropLock();
    }

    // ---------- Input ----------

    /** `tcp_post_read`, as when the channel is started. */
    method PostRead()
      requires Valid() && !deleted && readChain
      modifies `readPending
      ensures Valid() && readPending
    {
      if readPending {
        return;
      }
      readPending := true;
    }

    /**
     `tcp_channel_read_done`, with `len` bytes, an error counting as none; `messages` is what the
     input buffer makes of them and `more` whether it asks for another read.  After the close, reads
     go on until one returns nothing, which ends the chain and drops its lock.
     */
    method ReadDone(len: nat, error: bool, messages: nat, more: bool)
      requires Valid() && readPending
      modifies `readPending, `messageCount, `handlingMsg, `lockCnt, `readChain, `deleted, `deletes
      ensures Valid()
      ensures old(disconnected) && (error || len == 0) ==> !readPending && !readChain && lockCnt == old(lockCnt) - 1
      ensures old(disconnected) && !error && len > 0 ==> readPending && readChain && lockCnt == old(lockCnt)
      ensures !old(disconnected) ==>
        && lockCnt == old(lockCnt) && readPending == more && messageCount == old(messageCount) + messages
        && handlingMsg == if messages > 0 && old(handlingMsg).Idle? then Triggered else old(handlingMsg)
    {
      readPending := false;
      var n := if error then 0 else len;
      if !disconnected {
        messageCount := messageCount + messages;
        if messages > 0 {
          TriggerMessage();
        }
        if more {
          readPending := true;
        }
      } else if n > 0 {
        readPending := true;
      } else {
        readChain := false;
        DropLock();
      }
    }

    /** `tcp_trigger_message` and `channel_check_pending`. */
    method TriggerMessage()
      requires messageCount > 0 && !disconnected
      modifies `handlingMsg
      ensures handlingMsg == if old(handlingMsg).Idle? then Triggered else old(handlingMsg)
    {
      if handlingMsg.Idle? {
        handlingMsg := Triggered;
      }
    }

    /** `handle_channel_msg`: the event that was posted with the trigger; the channel is alive. */
    method HandleChannelMsg(eof: bool, throws: bool, errSize: nat, fits: bool)
      requires Valid() && handlingMsg.Triggered?
      modifies this
      ensures Valid() && !deleted
      ensures old(messageCount) == 0 ==> handlingMsg.Idle? && disconnected == old(disconnected)
      ensures old(messageCount) > 0 && (eof || throws) ==>
        && disconnected && written == old(written) + [Eos] + Repeat(errSize) + [Eom]
        && (old(outErrno) || (queue > 0 && writePending && shutdowns == 0))
      ensures old(messageCount) > 0 && !eof && !throws ==>
        handlingMsg.Running? && disconnected == old(disconnected) && messageCount == old(messageCount) &&
          lockCnt == old(lockCnt)
      ensures handlingMsg != Triggered
    {
      if messageCount == 0 {
        handlingMsg := Idle;
        return;
      }
      if eof {
        handlingMsg := Idle;
        SendEofAndClose(errSize, fits);
        return;
      }
      handlingMsg := Running;
      if throws {
        SendEofAndClose(errSize, fits);
      }
    }

    /** The message has been read to its end, and the next one, if any, is triggered. */
    method MessageDone()
      requires Valid() && handlingMsg.Running? && !disconnected && messageCount > 0
      modifies `handlingMsg, `messageCount
      ensures Valid() && messageCount == old(messageCount) - 1
      ensures handlingMsg == if messageCount > 0 then Triggered else Idle
    {
      handlingMsg := Idle;
      messageCount := messageCount - 1;
      if messageCount > 0 {
        TriggerMessage();
      }
    }

    // ---------- Closing ----------

    /**
     `send_eof_and_close` up to the notification of listeners: waiting messages are dropped, the end
     of stream is written, with an error of the given size, and a read is made sure of, whose end of
     file will end the chain.  The socket is shut down only when all has been sent.
     */
    method SendEofAndClose(errSize: nat, fits: bool)
      requires Valid() && !deleted
      modifies this
      ensures Valid() && !deleted && disconnected && clientLocks == old(clientLocks)
      ensures !old(disconnected) ==>
        && readPending && cur == 0 && messageCount == 0
        && written == old(written) + [Eos] + Repeat(errSize) + [Eom]
        && outFlushCnt == (if old(outFlushCnt) < 2 then old(outFlushCnt) + 1 else 2)
        && (if old(outErrno) then queue == 0 && shutdowns == 1 else queue > 0 && writePending && shutdowns == 0)
      ensures old(disconnected) ==>
        lockCnt == old(lockCnt) && written == old(written) && queue == old(queue) && outFlushCnt == old(outFlushCnt)
      ensures handlingMsg == if old(handlingMsg).Triggered? then Idle else old(handlingMsg)
    {
      if disconnected {
        return;
      }
      messageCount := 0;
      if handlingMsg.Triggered? {
        handlingMsg := Idle;
      }
      WriteEof(errSize, fits);
      Disconnect();
    }

    /** The end of stream, the error and an end of message, all flushed. */
    method WriteEof(errSize: nat, fits: bool)
      requires Valid() && !deleted
      modifies `cur, `outEomCnt, `queue, `lockCnt, `writePending, `outFlushCnt, `flushEvents, `written
      ensures Valid() && !deleted && cur == 0
      ensures written == old(written) + [Eos] + Repeat(errSize) + [Eom]
      ensures outFlushCnt == if old(outFlushCnt) < 2 then old(outFlushCnt) + 1 else old(outFlushCnt)
      ensures queue >= old(queue) && (disconnected || outErrno || queue > 0)
    {
      hide Valid;
      WriteStream(Eos, fits);
      for i := 0 to errSize
        invariant Valid() && !deleted && written == old(written) + [Eos] + Repeat(i)
        invariant outFlushCnt == old(outFlushCnt) && queue >= old(queue)
      {
        WriteStream(Byte, fits);
        assert Repeat(i + 1) == Repeat(i) + [Byte];
      }
      FillIsSmall();
      WriteStream(Eom, fits);
      Flush(fits);
    }

    lemma FillIsSmall()
      requires Valid()
      ensures cur <= bufSize && bufSize > 1
    {
    }

    method Disconnect()
      requires Valid() && !deleted && !disconnected && messageCount == 0 && handlingMsg != Triggered
      modifies `shutdowns, `disconnected, `readPending
      ensures Valid() && disconnected && readPending
    {
      if queue == 0 {
        shutdowns := shutdowns + 1;
      }
      disconnected := true;
      if !readPending {
        readPending := true;
      }
    }
  }
}
