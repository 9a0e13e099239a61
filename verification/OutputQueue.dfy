/**
 The output queue of a channel (outputbuf.c): buffers waiting to be written, the first of which
 is in the hands of an asynchronous I/O request.
 */
module OutputQueues {
  import opened Framing

  /** A queued buffer and how much of it was written. */
  datatype OutputBuffer = OutputBuffer(bytes: seq<byte>, pos: nat)

  /** The outstanding I/O request: the bytes the socket was asked to write. */
  datatype IoRequest = NoWrite | Writing(bytes: seq<byte>)

  /** The unwritten bytes of a queue, in order. */
  function Unsent(q: seq<OutputBuffer>): seq<byte>
    requires forall i :: 0 <= i < |q| ==> q[i].pos <= |q[i].bytes|
  {
    if q == [] then [] else q[0].bytes[q[0].pos..] + Unsent(q[1..])
  }

  lemma {:induction false} UnsentSnoc(q: seq<OutputBuffer>, bf: OutputBuffer)
    requires forall i :: 0 <= i < |q| ==> q[i].pos <= |q[i].bytes|
    requires bf.pos <= |bf.bytes|
    ensures Unsent(q + [bf]) == Unsent(q) + bf.bytes[bf.pos..]
  {
    if q == [] {
      assert (q + [bf])[1..] == [];
    } else {
      assert (q + [bf])[1..] == q[1..] + [bf];
      UnsentSnoc(q[1..], bf);
    }
  }

  /** Writing part of the head buffer moves those bytes out of the queue. */
  lemma UnsentWritten(q: seq<OutputBuffer>, written: nat)
    requires q != [] && q[0].pos + written <= |q[0].bytes|
    requires forall i :: 0 <= i < |q| ==> q[i].pos <= |q[i].bytes|
    ensures var bf := q[0].(pos := q[0].pos + written);
      var q' := if bf.pos < |bf.bytes| then [bf] + q[1..] else q[1..];
      Unsent(q) == q[0].bytes[q[0].pos..][..written] + Unsent(q')
  {
    var bf := q[0].(pos := q[0].pos + written);
    var todo := q[0].bytes[q[0].pos..];
    var rest := Unsent(q[1..]);
    assert todo == todo[..written] + bf.bytes[bf.pos..];
    assert ([bf] + q[1..])[1..] == q[1..];
    assert Unsent(q) == todo + rest && Unsent([bf] + q[1..]) == bf.bytes[bf.pos..] + rest;
  }

  /** The queue when part of its first buffer has been written; a buffer written to its end leaves it. */
  function Advanced(q: seq<OutputBuffer>, written: nat): seq<OutputBuffer>
    requires q != []
  {
    var bf := q[0].(pos := q[0].pos + written);
    if bf.pos < |bf.bytes| then [bf] + q[1..] else q[1..]
  }

  /** The queue with bytes appended to its last buffer. */
  function Extended(q: seq<OutputBuffer>, bytes: seq<byte>): seq<OutputBuffer>
    requires q != []
  {
    q[..|q| - 1] + [OutputBuffer(q[|q| - 1].bytes + bytes, q[|q| - 1].pos)]
  }

  class OutputQueue {
    const size: nat
    var queue: seq<OutputBuffer>
    var error: bool
    var request: IoRequest

    // Everything ever added, and everything the socket acknowledged.
    ghost var added: seq<byte>
    ghost var acked: seq<byte>

    ghost predicate Shape()
      reads this
    {
      && (forall i :: 0 <= i < |queue| ==> queue[i].pos < |queue[i].bytes| <= size)
      && (forall i :: 1 <= i < |queue| ==> queue[i].pos == 0)
    }

    /** Exactly one request is outstanding while the queue is not empty: the rest of its head. */
    ghost predicate Valid()
      reads this
    {
      && size > 0
      && Shape()
      && (queue == [] ==> request == NoWrite)
      && (queue != [] ==> request == Writing(queue[0].bytes[queue[0].pos..]))
      && (error ==> queue == [])
      && (if error then acked <= added else acked + Unsent(queue) == added)
    }

    constructor (size: nat)
      requires size > 0
      ensures Valid() && this.size == size && queue == [] && !error && added == [] && acked == []
    {
      this.size := size;
      queue, error, request := [], false, NoWrite;
      added, acked := [], [];
    }

    method PostIoRequest()
      requires queue != [] && queue[0].pos <= |queue[0].bytes| && request.NoWrite?
      modifies this`request
      ensures request == Writing(queue[0].bytes[queue[0].pos..])
    {
      request := Writing(queue[0].bytes[queue[0].pos..]);
    }

    /** Put a new buffer at the end of the queue, and start writing if it is the only one. */
    method AddLast(bytes: seq<byte>)
      requires Valid() && !error && 0 < |bytes| <= size
      modifies this
      ensures Valid() && error == old(error) && acked == old(acked)
      ensures added == old(added) + bytes && queue == old(queue) + [OutputBuffer(bytes, 0)]
      ensures old(queue) != [] ==> request == old(request)
    {
      UnsentSnoc(queue, OutputBuffer(bytes, 0));
      queue := queue + [OutputBuffer(bytes, 0)];
      added := added + bytes;
      if |queue| == 1 {
        PostIoRequest();
      }
    }

    /** Append data to the last buffer; the head, which is being written, is left alone. */
    method AppendToLast(bytes: seq<byte>)
      requires Valid() && !error && |queue| >= 2 && |queue[|queue| - 1].bytes| + |bytes| <= size
      modifies this
      ensures Valid() && error == old(error) && acked == old(acked) && request == old(request)
      ensures added == old(added) + bytes && queue == Extended(old(queue), bytes)
    {
      var last := |queue| - 1;
      var bp := queue[last];
      ghost var front := queue[..last];
      var bp' := OutputBuffer(bp.bytes + bytes, bp.pos);
      assert queue == front + [bp];
      UnsentSnoc(front, bp);
      UnsentSnoc(front, bp');
      assert bp'.bytes[bp'.pos..] == bp.bytes[bp.pos..] + bytes;
      queue := queue[last := bp'];
      assert queue == front + [bp'];
      added := added + bytes;
    }

    /** Queue a filled buffer, merging it into the last pending one if it fits. */
    method AddObuf(bytes: seq<byte>)
      requires Valid() && !error && 0 < |bytes| <= size
      modifies this
      ensures Valid() && !error
      ensures added == old(added) + bytes && acked == old(acked)
      ensures old(queue) != [] ==> request == old(request)
      ensures
        queue ==
        if |old(queue)| >= 2 && |old(queue)[|old(queue)| - 1].bytes| + |bytes| <= size then Extended(old(queue), bytes)
        else old(queue) + [OutputBuffer(bytes, 0)]
    {
      if |queue| >= 2 && size - |queue[|queue| - 1].bytes| >= |bytes| {
        AppendToLast(bytes);
        return;
      }
      AddLast(bytes);
    }

    /** Queue data of any size: fill the last pending buffer, then use new ones. */
    method Add(data: seq<byte>)
      requires Valid()
      modifies this
      ensures Valid() && error == old(error) && acked == old(acked)
      ensures added == if error then old(added) else old(added) + data
      ensures old(queue) != [] ==> request == old(request)
      ensures |queue| >= |old(queue)|
      ensures |old(queue)| == 1 ==> queue[0] == old(queue)[0]
      ensures forall i :: 0 <= i < |old(queue)| - 1 ==> queue[i] == old(queue)[i]
      ensures
        var first := if |old(queue)| >= 2 then |old(queue)| - 1 else |old(queue)|;
        forall i :: first <= i < |queue| - 1 ==> |queue[i].bytes| == size
    {
      if error {
        return;
      }
      var rest := FillLast(data);
      AddRest(rest);
    }

    /** What fits into the last pending buffer goes there. */
    method FillLast(data: seq<byte>) returns (rest: seq<byte>)
      requires Valid() && !error
      modifies this
      ensures Valid() && !error && acked == old(acked) && added + rest == old(added) + data
      ensures old(queue) != [] ==> queue != [] && request == old(request)
      ensures |queue| == |old(queue)| && forall i :: 0 <= i < |queue| - 1 ==> queue[i] == old(queue)[i]
      ensures |queue| < 2 ==> queue == old(queue) && rest == data
      ensures |queue| >= 2 ==> rest == [] || |queue[|queue| - 1].bytes| == size
    {
      rest := data;
      if |queue| >= 2 {
        var gap := size - |queue[|queue| - 1].bytes|;
        if gap > 0 {
          var len := if |rest| > gap then gap else |rest|;
          AppendToLast(rest[..len]);
          rest := rest[len..];
        }
      }
    }

    /** New buffers, all but the last of them full. */
    method AddRest(data: seq<byte>)
      requires Valid() && !error
      modifies this
      ensures Valid() && !error && acked == old(acked) && added == old(added) + data
      ensures old(queue) != [] ==> request == old(request)
      ensures |queue| >= |old(queue)| && queue[..|old(queue)|] == old(queue)
      ensures forall i :: |old(queue)| <= i < |queue| - 1 ==> |queue[i].bytes| == size
      ensures data == [] ==> queue == old(queue)
    {
      hide Unsent, Shape;
      var rest := data;
      while |rest| > 0
        invariant Valid() && !error && acked == old(acked)
        invariant added + rest == old(added) + data
        invariant old(queue) != [] ==> queue != [] && request == old(request)
        invariant |queue| >= |old(queue)| && queue[..|old(queue)|] == old(queue)
        invariant forall i :: |old(queue)| <= i < |queue| - 1 ==> |queue[i].bytes| == size
        invariant rest != [] && |queue| > |old(queue)| ==> |queue[|queue| - 1].bytes| == size
        invariant data == [] ==> queue == old(queue)
        decreases |rest|
      {
        var len := if |rest| > size then size else |rest|;
        assert rest == rest[..len] + rest[len..];
        AddLast(rest[..len]);
        rest := rest[len..];
      }
    }

    /** The request completed: `written` bytes were written, or it failed. */
    method Done(failed: bool, written: nat)
      requires Valid() && request.Writing? && written <= |request.bytes|
      modifies this
      ensures Valid() && added == old(added) && error == failed
      ensures acked == if failed then old(acked) else old(acked) + old(request.bytes)[..written]
      ensures failed ==> queue == []
      ensures !failed ==> queue == Advanced(old(queue), written)
    {
      if failed {
        error := true;
        assert acked <= added;
        Clear();
      } else {
        Acknowledge(written);
      }
    }

    method Acknowledge(written: nat)
      requires Valid() && request.Writing? && written <= |request.bytes|
      modifies this
      ensures Valid() && added == old(added) && !error
      ensures acked == old(acked) + old(request.bytes)[..written] && queue == Advanced(old(queue), written)
    {
      hide Unsent;
      UnsentWritten(queue, written);
      acked := acked + request.bytes[..written];
      request := NoWrite;
      var bf := queue[0];
      bf := bf.(pos := bf.pos + written);
      if bf.pos < |bf.bytes| {
        queue := [bf] + queue[1..];
      } else {
        queue := queue[1..];
      }
      if queue != [] {
        PostIoRequest();
      }
    }

    method Clear()
      modifies this`queue, this`request
      ensures queue == [] && request == NoWrite
    {
      while queue != []
        decreases |queue|
      {
        queue := queue[1..];
      }
      request := NoWrite;
    }
  }
}
