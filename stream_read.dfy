/**
 * The composite reads of `Stream` over a `Read` resource: `read_exact`, which
 * fills a fixed buffer in place, and `read_to_end`, which appends to a growing
 * vector. Each is a method with the source's loop, specified by a function
 * that runs the same loop on values, from the resource's, the context's and
 * the vector's starting state, recording the events it produces. The lemmas
 * state what the source promises about the final state and its events.
 */
module StreamRead {
  import opened IoCore
  import opened IoResources

  // ===========================================================================
  // read_exact
  // ===========================================================================

  /** The state of a `read_exact` loop: what the resource still holds and its
      script, the context's plan, the bytes collected so far, and the events. */
  datatype Fill = Fill(data: seq<Byte>, steps: seq<Step>, cancel: CancelPlan, got: seq<Byte>, events: seq<Event>)

  /** One pass of the `read_exact` loop that found the context not
      interrupted: a read into the unfilled suffix of the buffer. The bytes it
      delivers move from the front of the resource to the end of those
      collected. */
  function ReadExactNext(f: Fill, len: nat): (r: Fill)
    requires |f.got| < len
    ensures r.events == f.events + [Poll(false), ReadCall(len - |f.got|, ReadReply(f.data, f.steps, len - |f.got|))]
    ensures r.got == f.got + Bytes(Last(r.events)) && |r.got| <= len
    ensures r.got + r.data == f.got + f.data
    ensures r.steps == Rest(f.steps) && r.cancel == CancelAfter(f.cancel, 1)
  {
    var room := len - |f.got|;
    var reply := ReadReply(f.data, f.steps, room);
    ReadReplyFacts(f.data, f.steps, room);
    var d := if reply.Ok? then reply.value else [];
    assert f.data == d + f.data[|d|..];
    AppendAssoc(f.got, d, f.data[|d|..]);
    Fill(f.data[|d|..], Rest(f.steps), CancelAfter(f.cancel, 1), f.got + d, f.events + [Poll(false), ReadCall(room, reply)])
  }

  /** The `read_exact` loop into a buffer of `len` bytes, from state `f`:
      while the buffer is not full, poll the context and stop if it is
      interrupted, else read into the unfilled suffix; a read that delivers
      nothing (0 bytes or a failure) also stops the loop. */
  function ReadExactFrom(f: Fill, len: nat): Fill
    decreases len - |f.got|
  {
    if |f.got| >= len then f
    else if Cancelled(f.cancel) then
      f.(cancel := CancelAfter(f.cancel, 1), events := f.events + [Poll(true)])
    else
      var next := ReadExactNext(f, len);
      if |next.got| > |f.got| then ReadExactFrom(next, len) else next
  }

  /** The `read_exact` loop from the start: nothing collected, no events. */
  function ReadExactLoop(data: seq<Byte>, steps: seq<Step>, c: CancelPlan, len: nat): Fill
  {
    ReadExactFrom(Fill(data, steps, c, [], []), len)
  }

  /** The whole of `read_exact` into a buffer of `len` bytes. */
  function ReadExactRun(data: seq<Byte>, steps: seq<Step>, c: CancelPlan, len: nat): Run
  {
    var f := ReadExactLoop(data, steps, c, len);
    Conclude(f.events, |f.got|, f.cancel)
  }

  /** The bytes a `read_exact` loop collects never overfill the buffer. */
  lemma {:induction false} ReadExactFromFits(f: Fill, len: nat)
    requires |f.got| <= len
    ensures |ReadExactFrom(f, len).got| <= len
    decreases len - |f.got|
  {
    if |f.got| < len && !Cancelled(f.cancel) {
      var next := ReadExactNext(f, len);
      if |next.got| > |f.got| {
        ReadExactFromFits(next, len);
      }
    }
  }

  /** The bytes a `read_exact` loop collects are taken from the front of what
      the resource holds, in order: collected and remaining bytes together are
      always what the resource held. */
  lemma {:induction false} ReadExactFromTakes(f: Fill, len: nat)
    ensures var r := ReadExactFrom(f, len); f.got + f.data == r.got + r.data
    decreases len - |f.got|
  {
    if |f.got| < len && !Cancelled(f.cancel) {
      var next := ReadExactNext(f, len);
      if |next.got| > |f.got| {
        ReadExactFromTakes(next, len);
      }
    }
  }

  /** The bytes a `read_exact` loop collects are exactly what its reads
      delivered, concatenated in the order they were read. */
  lemma {:induction false} ReadExactFromReceives(f: Fill, len: nat)
    requires f.got == Received(f.events)
    ensures var r := ReadExactFrom(f, len); r.got == Received(r.events)
    decreases len - |f.got|
  {
    if |f.got| < len {
      if Cancelled(f.cancel) {
        ReceivedOne(Poll(true));
        ReceivedConcat(f.events, [Poll(true)]);
      } else {
        var next := ReadExactNext(f, len);
        var call := next.events[|next.events| - 1];
        assert next.got == Received(next.events) by {
          ReceivedPair(Poll(false), call);
          ReceivedConcat(f.events, [Poll(false), call]);
        }
        if |next.got| > |f.got| {
          ReadExactFromReceives(next, len);
        }
      }
    }
  }

  /** The trace only polls the context and reads. */
  predicate PollsAndReads(ev: seq<Event>) { forall i :: 0 <= i < |ev| ==> ev[i].Poll? || ev[i].ReadCall? }

  /** A `read_exact` loop only polls the context and reads. */
  lemma {:induction false} ReadExactFromKinds(f: Fill, len: nat)
    requires PollsAndReads(f.events)
    ensures PollsAndReads(ReadExactFrom(f, len).events)
    decreases len - |f.got|
  {
    if |f.got| < len {
      if Cancelled(f.cancel) {
        var ev := f.events + [Poll(true)];
        assert forall i :: 0 <= i < |f.events| ==> ev[i] == f.events[i];
      } else {
        var next := ReadExactNext(f, len);
        var ev := next.events;
        assert PollsAndReads(ev) by {
          forall i | 0 <= i < |ev| ensures ev[i].Poll? || ev[i].ReadCall? {
            if i < |f.events| {
              assert ev[i] == f.events[i];
            }
          }
        }
        if |next.got| > |f.got| {
          ReadExactFromKinds(next, len);
        }
      }
    }
  }

  /** In a `read_exact` loop an interrupted poll, a failed read or a read of 0
      bytes can only be the last event, so no read follows it. */
  lemma {:induction false} ReadExactFromEndsLast(f: Fill, len: nat)
    requires NoneEnd(f.events)
    ensures EndsOnlyLast(ReadExactFrom(f, len).events)
    decreases len - |f.got|
  {
    if |f.got| < len {
      if Cancelled(f.cancel) {
        EndsOnlyLastAppend(f.events, [Poll(true)]);
      } else {
        var next := ReadExactNext(f, len);
        var ev := next.events;
        var call := ev[|ev| - 1];
        if |next.got| > |f.got| {
          assert NoneEnd(ev) by {
            FullReadContinues(call);
            forall i | 0 <= i < |ev| ensures !Ends(ev[i]) {
              if i < |f.events| {
                assert ev[i] == f.events[i];
              }
            }
          }
          ReadExactFromEndsLast(next, len);
        } else {
          assert ev == f.events + [Poll(false), call];
          EndsOnlyLastAppend(f.events, [Poll(false), call]);
        }
      }
    }
  }

  /** A `read_exact` loop that stops before the buffer is full stops on an
      interrupted poll, a failed read or a read of 0 bytes. */
  lemma {:induction false} ReadExactFromStopsShort(f: Fill, len: nat)
    requires |f.got| <= len
    ensures var r := ReadExactFrom(f, len);
      |r.got| < len ==> |r.events| > |f.events| && Ends(Last(r.events))
    decreases len - |f.got|
  {
    if |f.got| < len && !Cancelled(f.cancel) {
      var next := ReadExactNext(f, len);
      if |next.got| > |f.got| {
        assert ReadExactFrom(f, len) == ReadExactFrom(next, len);
        ReadExactFromStopsShort(next, len);
      } else {
        assert ReadExactFrom(f, len) == next;
        EmptyReadEnds(Last(next.events));
      }
    }
  }

  /** Every read of a `read_exact` loop is issued right after a poll that
      found the context not interrupted, into a non-empty slice. */
  predicate ReadsPolled(ev: seq<Event>)
  {
    forall i :: 0 <= i < |ev| && ev[i].ReadCall? ==> 0 < i && ev[i - 1] == Poll(false) && ev[i].room > 0
  }

  lemma {:induction false} ReadExactFromPolls(f: Fill, len: nat)
    requires ReadsPolled(f.events)
    ensures ReadsPolled(ReadExactFrom(f, len).events)
    decreases len - |f.got|
  {
    if |f.got| < len {
      if Cancelled(f.cancel) {
        var ev := f.events + [Poll(true)];
        assert forall i :: 0 <= i < |f.events| ==> ev[i] == f.events[i];
      } else {
        var next := ReadExactNext(f, len);
        var ev := next.events;
        assert ReadsPolled(ev) by {
          forall i | 0 <= i < |ev| && ev[i].ReadCall?
            ensures 0 < i && ev[i - 1] == Poll(false) && ev[i].room > 0
          {
            if i < |f.events| {
              assert ev[i] == f.events[i];
              assert ev[i - 1] == f.events[i - 1];
            }
          }
        }
        if |next.got| > |f.got| {
          ReadExactFromPolls(next, len);
        }
      }
    }
  }

  /** What `read_exact` collects: the front of the resource's bytes, in the
      order its reads delivered them, never more than the buffer holds; a
      successful result is their count. */
  lemma ReadExactTransfers(data: seq<Byte>, steps: seq<Step>, c: CancelPlan, len: nat)
    ensures var f := ReadExactLoop(data, steps, c, len); var run := Conclude(f.events, |f.got|, f.cancel);
      && data == f.got + f.data && |f.got| <= len && f.got == Received(f.events)
      && (run.result.Ok? ==> run.result.value == |f.got|)
  {
    var f0 := Fill(data, steps, c, [], []);
    var f := ReadExactFrom(f0, len);
    ReadExactFromFits(f0, len);
    ReadExactFromTakes(f0, len);
    ReadExactFromReceives(f0, len);
    assert f0.got + f0.data == data;
    var run := Conclude(f.events, |f.got|, f.cancel);
    assert run.result.Ok? ==> run.result.value == |f.got|;
  }

  /** The trace of `read_exact` is a loop trace: only its last event may end
      the loop, and it holds no `check_interrupt`. */
  lemma ReadExactLoopShape(data: seq<Byte>, steps: seq<Step>, c: CancelPlan, len: nat)
    ensures var f := ReadExactLoop(data, steps, c, len);
      && EndsOnlyLast(f.events) && NoCheck(f.events) && ReadsPolled(f.events)
      && (|f.got| < len ==> f.events != [] && Ends(Last(f.events)))
  {
    var f0 := Fill(data, steps, c, [], []);
    var f := ReadExactFrom(f0, len);
    ReadExactFromKinds(f0, len);
    ReadExactFromEndsLast(f0, len);
    ReadExactFromPolls(f0, len);
    ReadExactFromStopsShort(f0, len);
    assert NoCheck(f.events) by {
      assert forall i :: 0 <= i < |f.events| ==> f.events[i].Poll? || f.events[i].ReadCall?;
    }
  }

  /** The reads `read_exact` makes, and how it ends:
      - every read is issued right after a poll that found the context not
        interrupted, into a non-empty slice;
      - nothing but `check_interrupt` follows an interrupted poll, a failed
        read or a read of 0 bytes, and the loop stops short of a full buffer
        only on one of those;
      - a hard failure of a read is returned at once, and is the only way to
        fail other than by an interrupt;
      - otherwise the count collected is returned, unless it is 0: then
        `check_interrupt` runs, and fails exactly when the context is
        interrupted at that point. */
  lemma ReadExactOutcome(data: seq<Byte>, steps: seq<Step>, c: CancelPlan, len: nat)
    ensures var f := ReadExactLoop(data, steps, c, len); var run := Conclude(f.events, |f.got|, f.cancel);
      var ev := run.events;
      && ReadsPolled(ev)
      && (forall i, j :: 0 <= i < j < |ev| && Ends(ev[i]) ==> ev[j].Check?)
      && (|f.got| < len ==> exists i :: 0 <= i < |ev| && Ends(ev[i]))
      && (forall i :: 0 <= i < |ev| && HardFailure(ev[i]) ==> i == |ev| - 1 && run.result == Err(Failure(ev[i]).value))
      && (run.result.Err? && run.result.error != Interrupted ==> exists i :: 0 <= i < |ev| && HardFailure(ev[i]))
      && (ev != f.events <==> f.got == [] && forall i :: 0 <= i < |f.events| ==> !HardFailure(f.events[i]))
      && (run.result == Err(Interrupted) <==> ev != [] && ev[|ev| - 1] == Check(true))
  {
    var f := ReadExactLoop(data, steps, c, len);
    ReadExactLoopShape(data, steps, c, len);
    ConcludeOutcome(f.events, |f.got|, f.cancel);
    var run := Conclude(f.events, |f.got|, f.cancel);
    var ev := run.events;
    if ev != f.events {
      assert forall i :: 0 <= i < |f.events| ==> ev[i] == f.events[i];
      assert ev[|ev| - 1].Check?;
    }
    if |f.got| < len {
      assert ev[|f.events| - 1] == f.events[|f.events| - 1];
    }
  }

  /** An interrupt requested before `read_exact` starts surfaces as its
      failure, and no read is issued (whatever the size of the buffer). */
  lemma ReadExactInterruptedFirst(data: seq<Byte>, steps: seq<Step>, len: nat)
    ensures var run := ReadExactRun(data, steps, AfterQueries(0), len);
      && run.result == Err(Interrupted)
      && run.events == (if len == 0 then [] else [Poll(true)]) + [Check(true)]
  {
  }

  /** A read failing with `Interrupted` before any byte arrived does not fail
      `read_exact` on a context that is not interrupted: the loop stops and the
      `check_interrupt` passes, so the result is `Ok(0)`. */
  lemma ReadExactSpuriousInterrupt(data: seq<Byte>, steps: seq<Step>, len: nat)
    requires len > 0 && steps != [] && steps[0] == Fail(Interrupted)
    ensures var run := ReadExactRun(data, steps, Never, len);
      && run.result == Ok(0)
      && run.events == [Poll(false), ReadCall(len, Err(Interrupted)), Check(false)]
  {
  }

  /** The first read of the example below: 3 of the 10 bytes asked for. */
  lemma ReadExactShortFirst(data: seq<Byte>)
    requires |data| >= 7
    ensures ReadExactNext(Fill(data, [Give(3), Give(4), Give(0)], Never, [], []), 10)
         == Fill(data[3..], [Give(4), Give(0)], Never, data[..3], [Poll(false), ReadCall(10, Ok(data[..3]))])
  {
    var s0: seq<Step> := [Give(3), Give(4), Give(0)];
    assert Rest(s0) == [Give(4), Give(0)];
    assert ReadReply(data, s0, 10) == Ok(data[..3]);
    var noBytes: seq<Byte> := [];
    assert noBytes + data[..3] == data[..3];
  }

  /** The second read of the example below: 4 of the 7 bytes asked for. */
  lemma ReadExactShortSecond(data: seq<Byte>, e1: seq<Event>)
    requires |data| >= 7
    ensures ReadExactNext(Fill(data[3..], [Give(4), Give(0)], Never, data[..3], e1), 10)
         == Fill(data[7..], [Give(0)], Never, data[..7], e1 + [Poll(false), ReadCall(7, Ok(data[3..7]))])
  {
    var s1: seq<Step> := [Give(4), Give(0)];
    assert Rest(s1) == [Give(0)];
    assert data[3..][..4] == data[3..7];
    assert ReadReply(data[3..], s1, 7) == Ok(data[3..7]);
    assert data[3..][4..] == data[7..];
    assert data[..3] + data[3..7] == data[..7];
  }

  /** The third read of the example below: 0 of the 3 bytes asked for. */
  lemma ReadExactShortThird(data: seq<Byte>, e2: seq<Event>)
    requires |data| >= 7
    ensures ReadExactNext(Fill(data[7..], [Give(0)], Never, data[..7], e2), 10)
         == Fill(data[7..], [], Never, data[..7], e2 + [Poll(false), ReadCall(3, Ok([]))])
  {
    var s2: seq<Step> := [Give(0)];
    assert Rest(s2) == [];
    assert ReadReply(data[7..], s2, 3) == Ok([]);
    assert data[7..][0..] == data[7..];
    assert data[..7] + [] == data[..7];
  }

  /** The loop of the example below: three passes, the last of which reads
      nothing. */
  lemma ReadExactShortLoop(data: seq<Byte>)
    requires |data| >= 7
    ensures ReadExactLoop(data, [Give(3), Give(4), Give(0)], Never, 10)
         == Fill(data[7..], [], Never, data[..7],
                 [Poll(false), ReadCall(10, Ok(data[..3])), Poll(false), ReadCall(7, Ok(data[3..7])),
                  Poll(false), ReadCall(3, Ok([]))])
  {
    var e1 := [Poll(false), ReadCall(10, Ok(data[..3]))];
    var e2 := e1 + [Poll(false), ReadCall(7, Ok(data[3..7]))];
    var e3 := e2 + [Poll(false), ReadCall(3, Ok([]))];
    var f0 := Fill(data, [Give(3), Give(4), Give(0)], Never, [], []);
    var f1 := Fill(data[3..], [Give(4), Give(0)], Never, data[..3], e1);
    var f2 := Fill(data[7..], [Give(0)], Never, data[..7], e2);
    var f3 := Fill(data[7..], [], Never, data[..7], e3);
    assert ReadExactFrom(f2, 10) == f3 by {
      ReadExactShortThird(data, e2);
    }
    assert ReadExactFrom(f1, 10) == ReadExactFrom(f2, 10) by {
      ReadExactShortSecond(data, e1);
    }
    assert ReadExactFrom(f0, 10) == ReadExactFrom(f1, 10) by {
      ReadExactShortFirst(data);
    }
  }

  /** Reads of 3, then 4, then 0 bytes into a 10-byte buffer give `Ok(7)`:
      the buffer holds the first 7 bytes of the resource, and no
      `check_interrupt` is made. */
  lemma ReadExactShortExample(data: seq<Byte>)
    requires |data| >= 7
    ensures var f := ReadExactLoop(data, [Give(3), Give(4), Give(0)], Never, 10);
      var run := Conclude(f.events, |f.got|, f.cancel);
      && run.result == Ok(7)
      && f.got == data[..7]
      && run.events == [Poll(false), ReadCall(10, Ok(data[..3])), Poll(false), ReadCall(7, Ok(data[3..7])),
                        Poll(false), ReadCall(3, Ok([]))]
  {
    ReadExactShortLoop(data);
    var ev := [Poll(false), ReadCall(10, Ok(data[..3])), Poll(false), ReadCall(7, Ok(data[3..7])),
               Poll(false), ReadCall(3, Ok([]))];
    assert Escape(ev) == None by {
      assert Last(ev) == ReadCall(3, Ok([]));
    }
  }

  /** A full buffer ends the loop of `read_exact`. */
  lemma ReadExactFull(cur: Fill, len: nat)
    requires |cur.got| >= len
    ensures ReadExactFrom(cur, len) == cur
  {
  }

  /** The pass `ReadExactNext` in terms of the read's reply. */
  lemma ReadExactNextIs(cur: Fill, len: nat, reply: Result<seq<Byte>>, rest: seq<Byte>)
    requires |cur.got| < len
    requires reply == ReadReply(cur.data, cur.steps, len - |cur.got|)
    requires cur.data == (if reply.Ok? then reply.value else []) + rest
    ensures ReadExactNext(cur, len)
      == Fill(rest, Rest(cur.steps), CancelAfter(cur.cancel, 1), cur.got + (if reply.Ok? then reply.value else []),
              cur.events + [Poll(false), ReadCall(len - |cur.got|, reply)])
  {
    assert ReadExactNext(cur, len).data == rest;
  }

  /** One pass of the loop of `read_exact`: poll the context, and unless it is
      interrupted, read into `buf[read..]`. `cur` is the state of the loop
      before the pass and `b0` the buffer's contents before the loop; the pass
      is the step `ReadExactFrom` takes from `cur`. */
  method ReadExactPass(inner: Reader, ctx: Context, buf: array<Byte>, read: nat, ghost cur: Fill, ghost b0: seq<Byte>)
    returns (p: Pass, ghost next: Fill)
    requires inner.data == cur.data && inner.steps == cur.steps && ctx.cancel == cur.cancel
    requires read == |cur.got| < buf.Length == |b0|
    requires buf[..] == cur.got + b0[read..]
    modifies inner, ctx, buf
    ensures inner.data == next.data && inner.steps == next.steps && ctx.cancel == next.cancel
    ensures |next.got| <= buf.Length && buf[..] == next.got + b0[|next.got|..]
    ensures Cancelled(cur.cancel) ==> next == cur.(cancel := CancelAfter(cur.cancel, 1), events := cur.events + [Poll(true)])
    ensures !Cancelled(cur.cancel) ==> next == ReadExactNext(cur, buf.Length)
    ensures p.Filled? <==> |next.got| > read
    ensures p.Filled? ==> |next.got| == read + p.n
    ensures Escape(next.events) == if p.Failed? then Some(p.kind) else None
  {
    var interrupted := ctx.IsInterrupted();
    if interrupted {
      next := cur.(cancel := CancelAfter(cur.cancel, 1), events := cur.events + [Poll(true)]);
      EscapeLast(cur.events, Poll(true));
      return Stopped, next;
    }
    var reply := inner.ReadInto(buf, read, cur.got, b0);
    ghost var bytes := if reply.Ok? then reply.value else [];
    next := Fill(inner.data, Rest(cur.steps), CancelAfter(cur.cancel, 1), cur.got + bytes,
                 cur.events + [Poll(false), ReadCall(buf.Length - |cur.got|, reply)]);
    ReadExactNextIs(cur, buf.Length, reply, inner.data);
    EscapeLast(cur.events + [Poll(false)], ReadCall(buf.Length - |cur.got|, reply));
    p := if reply.Err? then (if reply.error == Interrupted then Stopped else Failed(reply.error))
         else if reply.value == [] then Stopped else Filled(|reply.value|);
  }

  /** `Stream::read_exact`: reads into `buf` until it is full, a read returns
      0, a read fails, or the context is interrupted. It returns what
      `ReadExactRun` describes, leaves the resource and the context as
      `ReadExactLoop` and `Conclude` describe, and the buffer holds the bytes
      read, in order, at its front, the rest of it untouched. */
  method ReadExact(inner: Reader, ctx: Context, buf: array<Byte>) returns (r: Result<nat>)
    modifies inner, ctx, buf
    ensures var f := ReadExactLoop(old(inner.data), old(inner.steps), old(ctx.cancel), buf.Length);
      var run := ReadExactRun(old(inner.data), old(inner.steps), old(ctx.cancel), buf.Length);
      && r == run.result
      && inner.data == f.data && inner.steps == f.steps && ctx.cancel == run.cancel
      && |f.got| <= buf.Length
      && buf[..] == f.got + old(buf[..])[|f.got|..]
  {
    ghost var fin := ReadExactFrom(Fill(inner.data, inner.steps, ctx.cancel, [], []), buf.Length);
    ghost var b0 := buf[..];
    ghost var cur := Fill(inner.data, inner.steps, ctx.cancel, [], []);
    var read := 0;
    while read < buf.Length
      invariant inner.data == cur.data && inner.steps == cur.steps && ctx.cancel == cur.cancel
      invariant read == |cur.got| <= buf.Length
      invariant buf[..] == cur.got + b0[read..]
      invariant Escape(cur.events) == None
      invariant ReadExactFrom(cur, buf.Length) == fin
      decreases buf.Length - read
    {
      var p;
      p, cur := ReadExactPass(inner, ctx, buf, read, cur, b0);
      match p {
        case Stopped => break;
        case Failed(k) =>
          assert fin == cur;
          return Err(k);
        case Filled(n) => read := read + n;
      }
    }
    if read == buf.Length {
      ReadExactFull(cur, buf.Length);
    }
    assert fin == cur;
    r := Finish(ctx, cur.events, read);
  }

  // ===========================================================================
  // read_to_end
  // ===========================================================================

  /** The state of a `read_to_end` loop: what the resource still holds and its
      script, the context's plan, the vector's contents, capacity and
      allocator script, and the events. */
  datatype Append = Append(data: seq<Byte>, steps: seq<Step>, cancel: CancelPlan,
                           items: seq<Byte>, capacity: nat, slack: seq<nat>, events: seq<Event>)

  /** The main read of a `read_to_end` pass, into the vector's spare
      capacity; the bytes it delivers are appended to the vector. */
  function ReadToEndMain(a: Append): (r: Append)
    requires |a.items| < a.capacity
    ensures r.events == a.events + [ReadCall(a.capacity - |a.items|, ReadReply(a.data, a.steps, a.capacity - |a.items|))]
    ensures r.items == a.items + Bytes(Last(r.events)) && |r.items| <= r.capacity == a.capacity
    ensures r.items + r.data == a.items + a.data
    ensures r.steps == Rest(a.steps) && r.cancel == a.cancel && r.slack == a.slack
  {
    var room := a.capacity - |a.items|;
    var reply := ReadReply(a.data, a.steps, room);
    ReadReplyFacts(a.data, a.steps, room);
    var d := if reply.Ok? then reply.value else [];
    assert a.data == d + a.data[|d|..];
    AppendAssoc(a.items, d, a.data[|d|..]);
    a.(data := a.data[|d|..], steps := Rest(a.steps), items := a.items + d, events := a.events + [ReadCall(room, reply)])
  }

  /** The probe of a `read_to_end` pass, after a main read that filled the
      capacity exactly: a read into a 32-byte scratch buffer whose bytes, if
      any, are appended with `extend_from_slice`, which grows the (full)
      vector by their count plus the allocator's slack. */
  function ReadToEndProbe(a: Append): (r: Append)
    requires |a.items| == a.capacity
    ensures var reply := ReadReply(a.data, a.steps, ProbeSize);
      var q := if reply.Ok? then reply.value else [];
      && r.events == a.events + [Probe(reply)] + (if q == [] then [] else [Grow(|a.items|, a.capacity, r.capacity)])
      && r.items == a.items + q && r.items + r.data == a.items + a.data
      && r.capacity == (if q == [] then a.capacity else |a.items| + |q| + NextSlack(a.slack))
      && r.slack == (if q == [] then a.slack else Rest(a.slack))
      && r.steps == Rest(a.steps) && r.cancel == a.cancel
  {
    var reply := ReadReply(a.data, a.steps, ProbeSize);
    ReadReplyFacts(a.data, a.steps, ProbeSize);
    if reply.Err? || reply.value == [] then a.(steps := Rest(a.steps), events := a.events + [Probe(reply)])
    else
      var q := reply.value;
      var after := |a.items| + |q| + NextSlack(a.slack);
      Append(a.data[|q|..], Rest(a.steps), a.cancel, a.items + q, after, Rest(a.slack),
             a.events + [Probe(reply), Grow(|a.items|, a.capacity, after)])
  }

  /** The state after the poll and the growth that open a `read_to_end`
      pass which found the context not interrupted: a full vector reserves
      32 more bytes (plus the allocator's slack); one with spare capacity is
      left alone. */
  function ReadToEndOpen(a: Append): (r: Append)
    requires |a.items| <= a.capacity
    ensures |r.items| < r.capacity
  {
    var p := a.(cancel := CancelAfter(a.cancel, 1), events := a.events + [Poll(false)]);
    if |a.items| == a.capacity then
      var after := |a.items| + ProbeSize + NextSlack(a.slack);
      p.(capacity := after, slack := Rest(a.slack), events := p.events + [Grow(|a.items|, a.capacity, after)])
    else p
  }

  /** One pass of the `read_to_end` loop that found the context not
      interrupted: open the pass, read into the spare capacity, and probe if
      that read filled it. The pass ends the loop exactly when its last event
      does, and a pass that does not end the loop consumes bytes. */
  function ReadToEndNext(a: Append): (r: Append)
    requires |a.items| <= a.capacity
    ensures |r.items| <= r.capacity && |a.items| <= |r.items|
    ensures r.items + r.data == a.items + a.data
    ensures |r.events| > |a.events| && r.cancel == CancelAfter(a.cancel, 1)
    ensures !Ends(Last(r.events)) ==> |r.data| < |a.data|
  {
    var m := ReadToEndMain(ReadToEndOpen(a));
    if Ends(Last(m.events)) || |m.items| < m.capacity then m else ReadToEndProbe(m)
  }

  /** A pass whose main read fills the vector without ending the loop goes on
      to the probe. */
  lemma ReadToEndNextProbes(a: Append)
    requires |a.items| <= a.capacity
    requires var m := ReadToEndMain(ReadToEndOpen(a)); !Ends(Last(m.events)) && |m.items| == m.capacity
    ensures ReadToEndNext(a) == ReadToEndProbe(ReadToEndMain(ReadToEndOpen(a)))
  {
  }

  /** The events one pass adds to the trace, recorded on their own. */
  function ReadToEndPassEvents(a: Append): (pass: seq<Event>)
    requires |a.items| <= a.capacity
  {
    ReadToEndNext(a.(events := [])).events
  }

  /** The state `a` with `pre` recorded before its events. */
  function Shifted(a: Append, pre: seq<Event>): Append { a.(events := pre + a.events) }

  /** The opening of a pass does not depend on the events before it. */
  lemma ReadToEndOpenShift(a: Append, pre: seq<Event>)
    requires |a.items| <= a.capacity
    ensures ReadToEndOpen(Shifted(a, pre)) == Shifted(ReadToEndOpen(a), pre)
  {
    var g := ReadToEndOpen(a);
    var e := if |a.items| == a.capacity then [Poll(false), Grow(|a.items|, a.capacity, g.capacity)] else [Poll(false)];
    assert g.events == a.events + e;
    assert (pre + a.events) + e == pre + g.events;
  }

  /** The main read of a pass does not depend on the events before it. */
  lemma ReadToEndMainShift(g: Append, pre: seq<Event>)
    requires |g.items| < g.capacity
    ensures ReadToEndMain(Shifted(g, pre)) == Shifted(ReadToEndMain(g), pre)
  {
    var m := ReadToEndMain(g);
    assert (pre + g.events) + [Last(m.events)] == pre + m.events;
  }

  /** The probe of a pass does not depend on the events before it. */
  lemma ReadToEndProbeShift(m: Append, pre: seq<Event>)
    requires |m.items| == m.capacity
    ensures ReadToEndProbe(Shifted(m, pre)) == Shifted(ReadToEndProbe(m), pre)
  {
    var n := ReadToEndProbe(m);
    var tail := n.events[|m.events|..];
    assert n.events == m.events + tail;
    assert (pre + m.events) + tail == pre + n.events;
  }

  /** A pass does not depend on the events before it: it records its own
      after them. */
  lemma ReadToEndNextShift(a: Append, pre: seq<Event>)
    requires |a.items| <= a.capacity
    ensures ReadToEndNext(Shifted(a, pre)) == Shifted(ReadToEndNext(a), pre)
  {
    var g := ReadToEndOpen(a);
    ReadToEndOpenShift(a, pre);
    var m := ReadToEndMain(g);
    ReadToEndMainShift(g, pre);
    assert Last(Shifted(m, pre).events) == Last(m.events);
    if !Ends(Last(m.events)) && |m.items| == m.capacity {
      ReadToEndProbeShift(m, pre);
    }
  }

  /** A pass records its own events after those already in the trace. */
  lemma ReadToEndNextEvents(a: Append)
    requires |a.items| <= a.capacity
    ensures ReadToEndNext(a) == Shifted(ReadToEndNext(a.(events := [])), a.events)
    ensures ReadToEndNext(a).events == a.events + ReadToEndPassEvents(a)
  {
    var a0 := a.(events := []);
    assert Shifted(a0, a.events) == a by {
      assert [] + a.events == a.events;
    }
    ReadToEndNextShift(a0, a.events);
  }

  /** The `read_to_end` loop from state `a`: poll the context and stop if it
      is interrupted, else make a pass; stop after a pass whose last event
      ends the loop (a failure or a read of 0 bytes). */
  function ReadToEndFrom(a: Append): (r: Append)
    requires |a.items| <= a.capacity
    ensures |r.items| <= r.capacity && |a.items| <= |r.items|
    decreases |a.data|
  {
    if Cancelled(a.cancel) then
      a.(cancel := CancelAfter(a.cancel, 1), events := a.events + [Poll(true)])
    else
      var next := ReadToEndNext(a);
      if Ends(Last(next.events)) then next else ReadToEndFrom(next)
  }

  /** The `read_to_end` loop from the start: the vector as the caller passed
      it, no events. */
  function ReadToEndLoop(data: seq<Byte>, steps: seq<Step>, c: CancelPlan,
                         items: seq<Byte>, capacity: nat, slack: seq<nat>): Append
    requires |items| <= capacity
  {
    ReadToEndFrom(Append(data, steps, c, items, capacity, slack, []))
  }

  /** The whole of `read_to_end`: the count concluded on is the growth of the
      vector. */
  function ReadToEndRun(data: seq<Byte>, steps: seq<Step>, c: CancelPlan,
                        items: seq<Byte>, capacity: nat, slack: seq<nat>): Run
    requires |items| <= capacity
  {
    var f := ReadToEndLoop(data, steps, c, items, capacity, slack);
    Conclude(f.events, |f.items| - |items|, f.cancel)
  }

  /** The rules of a `read_to_end` trace, as what may come right before
      each event:
      - the vector grows only when it is full, and by more than nothing:
        right after a poll, by the 32 bytes reserved before a read (and the
        allocator's slack), or right after a probe that delivered bytes, by
        at least their count;
      - a main read follows a poll that found the context not interrupted, or
        the growth of a full vector, whose new spare capacity it then reads
        into; its slice is never empty;
      - a probe follows a main read that filled its slice exactly. */
  predicate Follows(prev: Event, e: Event)
  {
    && (e.Grow? ==>
          && e.len == e.before
          && ((prev == Poll(false) && e.after >= e.len + ProbeSize)
              || (prev.Probe? && prev.got.Ok? && e.after >= e.len + |prev.got.value| > e.len)))
    && (e.ReadCall? ==>
          e.room > 0 && (prev == Poll(false) || (prev.Grow? && e.room == prev.after - prev.len)))
    && (e.Probe? ==> prev.ReadCall? && prev.got.Ok? && |prev.got.value| == prev.room)
  }

  /** A trace of `read_to_end`: it opens with a poll, and every later event
      may follow the one before it. */
  predicate ReadToEndShape(ev: seq<Event>)
  {
    && (ev != [] ==> ev[0].Poll?)
    && forall i :: 0 < i < |ev| ==> Follows(ev[i - 1], ev[i])
  }

  /** The rules are kept by appending a trace that obeys them. */
  lemma ReadToEndShapeAppend(a: seq<Event>, b: seq<Event>)
    requires ReadToEndShape(a) && ReadToEndShape(b)
    ensures ReadToEndShape(a + b)
  {
    var ev := a + b;
    forall i | 0 < i < |ev| ensures Follows(ev[i - 1], ev[i]) {
      if i < |a| {
        assert ev[i] == a[i] && ev[i - 1] == a[i - 1];
      } else if i == |a| {
        assert ev[i] == b[0];
      } else {
        assert ev[i] == b[i - |a|] && ev[i - 1] == b[i - 1 - |a|];
      }
    }
  }

  /** A pass of `read_to_end` still running: it opened with a poll, holds no
      `check_interrupt`, no event of it ended the loop, and it obeys the
      rules. */
  predicate Opened(ev: seq<Event>)
  {
    ev != [] && ev[0] == Poll(false) && NoCheck(ev) && NoneEnd(ev) && ReadToEndShape(ev)
  }

  /** A running pass extended by an event that may follow its last one. */
  lemma OpenedSnoc(ev: seq<Event>, e: Event)
    requires Opened(ev) && !e.Check? && Follows(Last(ev), e)
    ensures var ev' := ev + [e];
      && ev'[0] == Poll(false) && NoCheck(ev') && EndsOnlyLast(ev') && ReadToEndShape(ev')
      && (!Ends(e) ==> Opened(ev'))
      && Received(ev') == Received(ev) + Bytes(e)
  {
    var ev' := ev + [e];
    assert ev'[0] == ev[0];
    assert ev'[|ev|] == e;
    forall i | 0 <= i < |ev'| ensures !ev'[i].Check? && (i < |ev| ==> !Ends(ev'[i])) {
      if i < |ev| {
        assert ev'[i] == ev[i];
      }
    }
    assert ReadToEndShape(ev') by {
      forall i | 0 < i < |ev'| ensures Follows(ev'[i - 1], ev'[i]) {
        if i < |ev| {
          assert ev'[i] == ev[i] && ev'[i - 1] == ev[i - 1];
        } else {
          assert ev'[i - 1] == Last(ev);
        }
      }
    }
    ReceivedConcat(ev, [e]);
    ReceivedOne(e);
  }

  /** Appending a trace without a `check_interrupt` keeps a trace free of them. */
  lemma NoCheckAppend(a: seq<Event>, b: seq<Event>)
    requires NoCheck(a) && NoCheck(b)
    ensures NoCheck(a + b)
  {
    var ev := a + b;
    forall i | 0 <= i < |ev| ensures !ev[i].Check? {
      if i >= |a| {
        assert ev[i] == b[i - |a|];
      }
    }
  }

  /** The opening of a pass: a poll, then the growth of a full vector, whose
      new spare capacity is what the main read gets. */
  lemma ReadToEndOpenFacts(a: Append)
    requires |a.items| <= a.capacity && a.events == []
    ensures var g := ReadToEndOpen(a);
      && Opened(g.events) && g.items == a.items + Received(g.events)
      && Follows(Last(g.events), ReadCall(g.capacity - |g.items|, ReadReply(g.data, g.steps, g.capacity - |g.items|)))
  {
    var g := ReadToEndOpen(a);
    var poll: seq<Event> := [Poll(false)];
    assert Opened(poll) && Received(poll) == [] by {
      ReceivedOne(Poll(false));
    }
    if |a.items| == a.capacity {
      var grow := Grow(|a.items|, a.capacity, g.capacity);
      assert g.events == poll + [grow];
      OpenedSnoc(poll, grow);
    } else {
      assert g.events == poll;
    }
  }

  /** The main read extends a running pass by one event, whose bytes are
      those appended. */
  lemma ReadToEndMainFacts(g: Append, base: seq<Byte>)
    requires |g.items| < g.capacity && Opened(g.events) && g.items == base + Received(g.events)
    requires Follows(Last(g.events), ReadCall(g.capacity - |g.items|, ReadReply(g.data, g.steps, g.capacity - |g.items|)))
    ensures var m := ReadToEndMain(g);
      && m.events[0] == Poll(false) && NoCheck(m.events) && EndsOnlyLast(m.events) && ReadToEndShape(m.events)
      && (!Ends(Last(m.events)) ==> Opened(m.events))
      && m.items == base + Received(m.events)
  {
    var m := ReadToEndMain(g);
    OpenedSnoc(g.events, Last(m.events));
    AppendAssoc(base, Received(g.events), Bytes(Last(m.events)));
  }

  /** The probe after a main read that filled the vector extends the running
      pass by the probe, and by the growth that appends its bytes if any. */
  lemma ReadToEndProbeFacts(m: Append, base: seq<Byte>)
    requires |m.items| == m.capacity && Opened(m.events) && m.items == base + Received(m.events)
    requires Last(m.events).ReadCall? && Last(m.events).got.Ok? && |Last(m.events).got.value| == Last(m.events).room
    ensures var n := ReadToEndProbe(m);
      && n.events[0] == Poll(false) && NoCheck(n.events) && EndsOnlyLast(n.events) && ReadToEndShape(n.events)
      && n.items == base + Received(n.events)
  {
    var n := ReadToEndProbe(m);
    var probe := Probe(ReadReply(m.data, m.steps, ProbeSize));
    ReadEventFacts(probe);
    OpenedSnoc(m.events, probe);
    if Bytes(probe) != [] {
      OpenedSnoc(m.events + [probe], Grow(|m.items|, m.capacity, n.capacity));
    }
    AppendAssoc(base, Received(m.events), Bytes(probe));
  }

  /** What one pass of the `read_to_end` loop records, from an empty trace:
      it starts with a poll, obeys the rules of `ReadToEndShape`, holds no
      `check_interrupt`, only its last event may end the loop, and the bytes
      its reads delivered are what it appended to the vector. */
  lemma ReadToEndPassFacts(a: Append)
    requires |a.items| <= a.capacity && a.events == []
    ensures var r := ReadToEndNext(a);
      && r.events[0] == Poll(false) && NoCheck(r.events) && ReadToEndShape(r.events) && EndsOnlyLast(r.events)
      && r.items == a.items + Received(r.events)
  {
    var g := ReadToEndOpen(a);
    ReadToEndOpenFacts(a);
    var m := ReadToEndMain(g);
    ReadToEndMainFacts(g, a.items);
    var call := Last(m.events);
    ReadEventFacts(call);
    if !Ends(call) && |m.items| == m.capacity {
      ReadToEndProbeFacts(m, a.items);
    }
  }

  /** The main read of a `read_to_end` pass: read into the spare capacity
      of `vec`, then extend its length over the bytes read. */
  method ReadToEndSpare(inner: Reader, vec: ByteVec, ghost g: Append) returns (reply: Result<seq<Byte>>, ghost m: Append)
    requires inner.data == g.data && inner.steps == g.steps
    requires vec.items == g.items && vec.capacity == g.capacity && vec.slack == g.slack && |g.items| < g.capacity
    modifies inner, vec`items
    ensures m == ReadToEndMain(g) && Last(m.events) == ReadCall(g.capacity - |g.items|, reply)
    ensures inner.data == m.data && inner.steps == m.steps
    ensures vec.items == m.items && vec.capacity == m.capacity && vec.slack == m.slack && vec.Valid()
  {
    reply := inner.Read(vec.capacity - |vec.items|);
    m := ReadToEndMain(g);
    if reply.Ok? {
      vec.FillSpare(reply.value);
    }
  }

  /** The probe of a `read_to_end` pass: read into a fresh 32-byte scratch
      buffer, and append what it received to `vec` with `extend_from_slice`. */
  method ReadToEndProbeRead(inner: Reader, vec: ByteVec, ghost m: Append) returns (p: Pass, ghost n: Append)
    requires inner.data == m.data && inner.steps == m.steps
    requires vec.items == m.items && vec.capacity == m.capacity && vec.slack == m.slack && |m.items| == m.capacity
    modifies inner, vec
    ensures n == ReadToEndProbe(m)
    ensures inner.data == n.data && inner.steps == n.steps
    ensures vec.items == n.items && vec.capacity == n.capacity && vec.slack == n.slack && vec.Valid()
    ensures p.Filled? <==> !Ends(Last(n.events))
    ensures Escape(n.events) == if p.Failed? then Some(p.kind) else None
  {
    var probe := new Byte[ProbeSize](_ => 0);
    var reply := inner.ReadInto(probe, 0, [], probe[..]);
    n := ReadToEndProbe(m);
    ReadEventFacts(Probe(reply));
    if reply.Ok? && reply.value != [] {
      assert probe[..|reply.value|] == reply.value;
      vec.ExtendFromSlice(probe[..|reply.value|]);
      EscapeLast(m.events + [Probe(reply)], Last(n.events));
      p := Filled(|reply.value|);
    } else {
      EscapeLast(m.events, Probe(reply));
      p := if reply.Err? && reply.error != Interrupted then Failed(reply.error) else Stopped;
    }
  }

  /** A `read_to_end` pass past a poll that found the context not
      interrupted: reserve 32 bytes if the vector is full, read into its
      spare capacity, and probe if that read filled it. */
  method ReadToEndRound(inner: Reader, vec: ByteVec, ghost cur: Append) returns (p: Pass, ghost next: Append)
    requires inner.data == cur.data && inner.steps == cur.steps
    requires vec.items == cur.items && vec.capacity == cur.capacity && vec.slack == cur.slack && vec.Valid()
    modifies inner, vec
    ensures next == ReadToEndNext(cur)
    ensures inner.data == next.data && inner.steps == next.steps
    ensures vec.items == next.items && vec.capacity == next.capacity && vec.slack == next.slack && vec.Valid()
    ensures p.Filled? <==> !Ends(Last(next.events))
    ensures Escape(next.events) == if p.Failed? then Some(p.kind) else None
  {
    ghost var g := ReadToEndOpen(cur);
    if |vec.items| == vec.capacity {
      vec.Reserve(ProbeSize);
    }
    var reply, m := ReadToEndSpare(inner, vec, g);
    ghost var call := ReadCall(g.capacity - |g.items|, reply);
    ReadEventFacts(call);
    if reply.Err? || reply.value == [] || |vec.items| < vec.capacity {
      next := m;
      EscapeLast(g.events, call);
      p := if reply.Err? then (if reply.error == Interrupted then Stopped else Failed(reply.error))
           else if reply.value == [] then Stopped else Filled(|reply.value|);
    } else {
      p, next := ReadToEndProbeRead(inner, vec, m);
    }
  }

  /** One pass of the loop of `read_to_end`: poll the context, and unless it
      is interrupted, make the rest of the pass. */
  method ReadToEndPass(inner: Reader, ctx: Context, vec: ByteVec, ghost cur: Append) returns (p: Pass, ghost next: Append)
    requires inner.data == cur.data && inner.steps == cur.steps && ctx.cancel == cur.cancel
    requires vec.items == cur.items && vec.capacity == cur.capacity && vec.slack == cur.slack && vec.Valid()
    modifies inner, ctx, vec
    ensures inner.data == next.data && inner.steps == next.steps && ctx.cancel == next.cancel
    ensures vec.items == next.items && vec.capacity == next.capacity && vec.slack == next.slack && vec.Valid()
    ensures Cancelled(cur.cancel) ==> next == cur.(cancel := CancelAfter(cur.cancel, 1), events := cur.events + [Poll(true)])
    ensures !Cancelled(cur.cancel) ==> next == ReadToEndNext(cur)
    ensures p.Filled? <==> !Cancelled(cur.cancel) && !Ends(Last(next.events))
    ensures Escape(next.events) == if p.Failed? then Some(p.kind) else None
  {
    var interrupted := ctx.IsInterrupted();
    if interrupted {
      next := cur.(cancel := CancelAfter(cur.cancel, 1), events := cur.events + [Poll(true)]);
      EscapeLast(cur.events, Poll(true));
      p := Stopped;
    } else {
      p, next := ReadToEndRound(inner, vec, cur);
    }
  }

  /** The loop of `read_to_end` from state `a`: make passes until one stops.
      The resource, the context and the vector end as `ReadToEndFrom`
      describes, and the pass that stopped says whether a read failed. */
  method ReadToEndDrive(inner: Reader, ctx: Context, vec: ByteVec, ghost a: Append) returns (p: Pass, ghost f: Append)
    requires inner.data == a.data && inner.steps == a.steps && ctx.cancel == a.cancel
    requires vec.items == a.items && vec.capacity == a.capacity && vec.slack == a.slack && vec.Valid()
    requires Escape(a.events) == None
    modifies inner, ctx, vec
    ensures f == ReadToEndFrom(a) && !p.Filled?
    ensures inner.data == f.data && inner.steps == f.steps && ctx.cancel == f.cancel
    ensures vec.items == f.items && vec.capacity == f.capacity && vec.slack == f.slack && vec.Valid()
    ensures Escape(f.events) == if p.Failed? then Some(p.kind) else None
  {
    ghost var cur := a;
    ghost var fin := ReadToEndFrom(a);
    p := Filled(0);
    while p.Filled?
      invariant inner.data == cur.data && inner.steps == cur.steps && ctx.cancel == cur.cancel
      invariant vec.items == cur.items && vec.capacity == cur.capacity && vec.slack == cur.slack && vec.Valid()
      invariant Escape(cur.events) == if p.Failed? then Some(p.kind) else None
      invariant p.Filled? ==> ReadToEndFrom(cur) == fin
      invariant !p.Filled? ==> cur == fin
      decreases |cur.data| + (if p.Filled? then 1 else 0)
    {
      p, cur := ReadToEndPass(inner, ctx, vec, cur);
    }
    f := cur;
  }

  /** `Stream::read_to_end`: appends to `vec` until a read returns 0, a read
      fails, or the context is interrupted, reserving room whenever the
      vector is full. It returns what `ReadToEndRun` describes, and leaves the
      resource, the context and the vector as `ReadToEndLoop` and `Conclude`
      describe. */
  method ReadToEnd(inner: Reader, ctx: Context, vec: ByteVec) returns (r: Result<nat>)
    requires vec.Valid()
    modifies inner, ctx, vec
    ensures var f := ReadToEndLoop(old(inner.data), old(inner.steps), old(ctx.cancel),
                                   old(vec.items), old(vec.capacity), old(vec.slack));
      var run := ReadToEndRun(old(inner.data), old(inner.steps), old(ctx.cancel),
                              old(vec.items), old(vec.capacity), old(vec.slack));
      && r == run.result
      && inner.data == f.data && inner.steps == f.steps && ctx.cancel == run.cancel
      && vec.items == f.items && vec.capacity == f.capacity && vec.slack == f.slack && vec.Valid()
  {
    var startLen := |vec.items|;
    ghost var a := Append(inner.data, inner.steps, ctx.cancel, vec.items, vec.capacity, vec.slack, []);
    var p, f := ReadToEndDrive(inner, ctx, vec, a);
    r := EndLoop(ctx, p, f.events, |vec.items| - startLen);
  }

  /** What a pass of `read_to_end` records, after any trace: its events
      follow the trace's, start with a poll, obey the rules of
      `ReadToEndShape`, hold no `check_interrupt`, only the last of them may
      end the loop, and the bytes its reads delivered are those it
      appended. */
  lemma ReadToEndNextFacts(a: Append)
    requires |a.items| <= a.capacity
    ensures var r := ReadToEndNext(a); var pass := ReadToEndPassEvents(a);
      && r.events == a.events + pass && pass != [] && pass[0] == Poll(false) && Last(r.events) == Last(pass)
      && r.items == a.items + Received(pass)
      && NoCheck(pass) && ReadToEndShape(pass) && EndsOnlyLast(pass)
  {
    var a0 := a.(events := []);
    ReadToEndNextEvents(a);
    ReadToEndPassFacts(a0);
    EscapeSuffix(a.events, ReadToEndPassEvents(a));
  }

  /** The bytes a `read_to_end` loop appends are taken from the front of what
      the resource holds, in order. */
  lemma {:induction false} ReadToEndFromTakes(a: Append)
    requires |a.items| <= a.capacity
    ensures var r := ReadToEndFrom(a); r.items + r.data == a.items + a.data
    decreases |a.data|
  {
    if !Cancelled(a.cancel) {
      var next := ReadToEndNext(a);
      if !Ends(Last(next.events)) {
        ReadToEndFromTakes(next);
      }
    }
  }

  /** A `read_to_end` loop appends to the vector exactly what its reads (main
      reads and probes alike) delivered, concatenated in the order they were
      read, and leaves what the vector held before it untouched. */
  lemma {:induction false} ReadToEndFromReceives(a: Append, base: seq<Byte>)
    requires |a.items| <= a.capacity && a.items == base + Received(a.events)
    ensures var r := ReadToEndFrom(a); r.items == base + Received(r.events)
    decreases |a.data|
  {
    if Cancelled(a.cancel) {
      ReceivedOne(Poll(true));
      ReceivedConcat(a.events, [Poll(true)]);
    } else {
      var next := ReadToEndNext(a);
      var pass := ReadToEndPassEvents(a);
      ReadToEndNextFacts(a);
      ReceivedConcat(a.events, pass);
      AppendAssoc(base, Received(a.events), Received(pass));
      if !Ends(Last(next.events)) {
        ReadToEndFromReceives(next, base);
      }
    }
  }

  /** Appending a running trace to a running trace keeps it running. */
  lemma NoneEndAppend(a: seq<Event>, b: seq<Event>)
    requires NoneEnd(a) && NoneEnd(b)
    ensures NoneEnd(a + b)
  {
    var ev := a + b;
    forall i | 0 <= i < |ev| ensures !Ends(ev[i]) {
      if i >= |a| {
        assert ev[i] == b[i - |a|];
      }
    }
  }

  /** A `read_to_end` loop keeps the rules of `ReadToEndShape`, makes no
      `check_interrupt`, and only ever stops on an event that ends it: an
      interrupted poll, a failed read or probe, or one that delivered
      nothing; no event before that one ends the loop. */
  lemma {:induction false} ReadToEndFromRules(a: Append)
    requires |a.items| <= a.capacity
    requires NoCheck(a.events) && ReadToEndShape(a.events) && NoneEnd(a.events)
    ensures var r := ReadToEndFrom(a);
      && NoCheck(r.events) && ReadToEndShape(r.events) && EndsOnlyLast(r.events)
      && |r.events| > |a.events| && Ends(Last(r.events))
    decreases |a.data|
  {
    if Cancelled(a.cancel) {
      var last: seq<Event> := [Poll(true)];
      NoCheckAppend(a.events, last);
      ReadToEndShapeAppend(a.events, last);
      EndsOnlyLastAppend(a.events, last);
    } else {
      var next := ReadToEndNext(a);
      var pass := ReadToEndPassEvents(a);
      ReadToEndNextFacts(a);
      NoCheckAppend(a.events, pass);
      ReadToEndShapeAppend(a.events, pass);
      if Ends(Last(next.events)) {
        EndsOnlyLastAppend(a.events, pass);
      } else {
        assert NoneEnd(pass);
        NoneEndAppend(a.events, pass);
        ReadToEndFromRules(next);
      }
    }
  }

  /** A main read that filled the whole slice it was given, and so left the
      vector exactly full. */
  predicate FillsRoom(e: Event) { e.ReadCall? && e.got.Ok? && |e.got.value| == e.room }

  /** Every main read of the trace that filled its slice is followed at once
      by a probe. */
  predicate ProbedAfterFill(ev: seq<Event>)
  {
    forall i :: 0 <= i < |ev| && FillsRoom(ev[i]) ==> i + 1 < |ev| && ev[i + 1].Probe?
  }

  /** Traces in which every filling read is already followed by its probe
      keep that when put one after the other. */
  lemma ProbedAfterFillAppend(a: seq<Event>, b: seq<Event>)
    requires ProbedAfterFill(a) && ProbedAfterFill(b)
    ensures ProbedAfterFill(a + b)
  {
    var ev := a + b;
    forall i | 0 <= i < |ev| && FillsRoom(ev[i]) ensures i + 1 < |ev| && ev[i + 1].Probe? {
      if i < |a| {
        assert ev[i] == a[i] && ev[i + 1] == a[i + 1];
      } else {
        assert ev[i] == b[i - |a|] && ev[i + 1] == b[i + 1 - |a|];
      }
    }
  }

  /** Within one pass, a main read that fills the spare capacity is followed
      by the probe: it delivered bytes, so it does not end the loop, and it
      left the vector full. */
  lemma PassProbedAfterFill(a: Append)
    requires |a.items| <= a.capacity && a.events == []
    ensures ProbedAfterFill(ReadToEndNext(a).events)
  {
    var g := ReadToEndOpen(a);
    var m := ReadToEndMain(g);
    var call := Last(m.events);
    var k := |g.events|;
    assert forall i :: 0 <= i < k ==> !g.events[i].ReadCall? by {
      assert g.events == [Poll(false)] || g.events == [Poll(false), Grow(|a.items|, a.capacity, g.capacity)];
    }
    assert m.events == g.events + [call];
    ReadEventFacts(call);
    if FillsRoom(call) {
      assert !Ends(call) && |m.items| == m.capacity;
      var n := ReadToEndProbe(m);
      assert n.events[..k + 1] == m.events && n.events[k + 1].Probe?;
      forall i | 0 <= i < |n.events| ensures FillsRoom(n.events[i]) ==> i + 1 < |n.events| && n.events[i + 1].Probe? {
        if i < k {
          assert n.events[i] == g.events[i];
        } else if i > k {
          assert !n.events[i].ReadCall?;
        }
      }
    } else {
      var r := ReadToEndNext(a);
      forall i | 0 <= i < |r.events| ensures FillsRoom(r.events[i]) ==> i + 1 < |r.events| && r.events[i + 1].Probe? {
        if i < k {
          assert r.events[i] == g.events[i];
        } else {
          assert r.events[i] == call;
        }
      }
    }
  }

  /** In a `read_to_end` loop every main read that fills the spare capacity
      is followed at once by the probe. */
  lemma {:induction false} ReadToEndFromProbes(a: Append)
    requires |a.items| <= a.capacity && ProbedAfterFill(a.events)
    ensures ProbedAfterFill(ReadToEndFrom(a).events)
    decreases |a.data|
  {
    if Cancelled(a.cancel) {
      ProbedAfterFillAppend(a.events, [Poll(true)]);
    } else {
      var next := ReadToEndNext(a);
      ReadToEndNextEvents(a);
      PassProbedAfterFill(a.(events := []));
      ProbedAfterFillAppend(a.events, ReadToEndPassEvents(a));
      if !Ends(Last(next.events)) {
        ReadToEndFromProbes(next);
      }
    }
  }

  /** The probe rule of `read_to_end`, both ways: an event is a probe
      exactly when the one before it is a main read that filled its slice,
      and the trace never ends on such a read. */
  lemma ReadToEndProbeRule(data: seq<Byte>, steps: seq<Step>, c: CancelPlan,
                           items: seq<Byte>, capacity: nat, slack: seq<nat>)
    requires |items| <= capacity
    ensures var ev := ReadToEndLoop(data, steps, c, items, capacity, slack).events;
      && (forall i :: 0 < i < |ev| ==> (ev[i].Probe? <==> FillsRoom(ev[i - 1])))
      && (ev != [] ==> !FillsRoom(Last(ev)))
  {
    var a := Append(data, steps, c, items, capacity, slack, []);
    var ev := ReadToEndFrom(a).events;
    ReadToEndFromRules(a);
    ReadToEndFromProbes(a);
    forall i | 0 < i < |ev| ensures ev[i].Probe? <==> FillsRoom(ev[i - 1]) {
      assert Follows(ev[i - 1], ev[i]);
    }
  }

  /** What `read_to_end` appends: the front of the resource's bytes, in the
      order its main reads and probes delivered them, after the vector's
      original contents, which stay as they were; a successful result is
      the count appended. */
  lemma ReadToEndTransfers(data: seq<Byte>, steps: seq<Step>, c: CancelPlan,
                           items: seq<Byte>, capacity: nat, slack: seq<nat>)
    requires |items| <= capacity
    ensures var f := ReadToEndLoop(data, steps, c, items, capacity, slack);
      var run := ReadToEndRun(data, steps, c, items, capacity, slack);
      && f.items == items + Received(f.events) && f.items[..|items|] == items
      && items + data == f.items + f.data && |f.items| <= f.capacity
      && (run.result.Ok? ==> run.result.value == |f.items| - |items| == |Received(f.events)|)
  {
    var a := Append(data, steps, c, items, capacity, slack, []);
    ReadToEndFromTakes(a);
    ReadToEndFromReceives(a, items);
  }

  /** The trace of `read_to_end` obeys the rules of `ReadToEndShape`, holds
      no `check_interrupt`, and the loop stops only on its last event, which
      ends it: an interrupted poll, a failed read or probe, or a read or
      probe of 0 bytes. */
  lemma ReadToEndLoopShape(data: seq<Byte>, steps: seq<Step>, c: CancelPlan,
                           items: seq<Byte>, capacity: nat, slack: seq<nat>)
    requires |items| <= capacity
    ensures var f := ReadToEndLoop(data, steps, c, items, capacity, slack);
      && ReadToEndShape(f.events) && NoCheck(f.events) && EndsOnlyLast(f.events)
      && f.events != [] && Ends(Last(f.events))
  {
    ReadToEndFromRules(Append(data, steps, c, items, capacity, slack, []));
  }

  /** The whole trace of `read_to_end`, with its `check_interrupt` if any:
      it obeys the rules of `ReadToEndShape`, the loop ends on an interrupted
      poll, a failed read or probe, or one of 0 bytes, and nothing but
      `check_interrupt` follows that event. */
  lemma ReadToEndRunShape(data: seq<Byte>, steps: seq<Step>, c: CancelPlan,
                          items: seq<Byte>, capacity: nat, slack: seq<nat>)
    requires |items| <= capacity
    ensures var ev := ReadToEndRun(data, steps, c, items, capacity, slack).events;
      && ReadToEndShape(ev)
      && (forall i, j :: 0 <= i < j < |ev| && Ends(ev[i]) ==> ev[j].Check?)
      && (exists i :: 0 <= i < |ev| && Ends(ev[i]))
  {
    var f := ReadToEndLoop(data, steps, c, items, capacity, slack);
    ReadToEndLoopShape(data, steps, c, items, capacity, slack);
    var moved := |f.items| - |items|;
    ConcludeOutcome(f.events, moved, f.cancel);
    var ev := Conclude(f.events, moved, f.cancel).events;
    assert ev[|f.events| - 1] == Last(f.events);
    if ev != f.events {
      assert forall i :: 0 <= i < |f.events| ==> ev[i] == f.events[i];
      assert ev[|f.events|].Check?;
    }
  }

  /** How `read_to_end` ends:
      - a hard failure of a read or probe is returned at once, and is the
        only way to fail other than by an interrupt;
      - otherwise the count appended is returned, unless it is 0: then
        `check_interrupt` runs, and fails exactly when the context is
        interrupted at that point. */
  lemma ReadToEndOutcome(data: seq<Byte>, steps: seq<Step>, c: CancelPlan,
                         items: seq<Byte>, capacity: nat, slack: seq<nat>)
    requires |items| <= capacity
    ensures var f := ReadToEndLoop(data, steps, c, items, capacity, slack);
      var run := ReadToEndRun(data, steps, c, items, capacity, slack);
      var ev := run.events;
      && (forall i :: 0 <= i < |ev| && HardFailure(ev[i]) ==> i == |ev| - 1 && run.result == Err(Failure(ev[i]).value))
      && (run.result.Err? && run.result.error != Interrupted ==> exists i :: 0 <= i < |ev| && HardFailure(ev[i]))
      && (ev != f.events <==> |f.items| == |items| && forall i :: 0 <= i < |f.events| ==> !HardFailure(f.events[i]))
      && (run.result == Err(Interrupted) <==> ev != [] && Last(ev) == Check(true))
  {
    var f := ReadToEndLoop(data, steps, c, items, capacity, slack);
    ReadToEndLoopShape(data, steps, c, items, capacity, slack);
    var moved := |f.items| - |items|;
    ConcludeOutcome(f.events, moved, f.cancel);
  }

  /** An interrupt requested before `read_to_end` starts surfaces as its
      failure; no read is issued and the vector is left as it was. */
  lemma ReadToEndInterruptedFirst(data: seq<Byte>, steps: seq<Step>, items: seq<Byte>, capacity: nat, slack: seq<nat>)
    requires |items| <= capacity
    ensures var f := ReadToEndLoop(data, steps, AfterQueries(0), items, capacity, slack);
      var run := ReadToEndRun(data, steps, AfterQueries(0), items, capacity, slack);
      && run.result == Err(Interrupted) && run.events == [Poll(true), Check(true)]
      && f.items == items && f.capacity == capacity && f.data == data
  {
  }

  /** 40 bytes read to the end into an empty vector without capacity, with an
      allocator that never over-allocates: the first pass reserves 32 bytes
      and fills them exactly, so it probes, and the probe's 8 bytes extend
      the vector to 40; the second pass finds the vector full again, reserves
      32 more, and its read returns 0. The vector holds the 40 bytes in
      order. */
  lemma ReadToEndProbeExample(data: seq<Byte>)
    requires |data| == 40
    ensures var f := ReadToEndLoop(data, [], Never, [], 0, []);
      && f.items == data && f.capacity == 72 && f.cancel == Never
      && f.events == [Poll(false), Grow(0, 0, 32), ReadCall(32, Ok(data[..32])), Probe(Ok(data[32..])), Grow(32, 32, 40),
                      Poll(false), Grow(40, 40, 72), ReadCall(32, Ok([]))]
  {
    var none: seq<Byte> := [];
    var n0 := ReadToEndProbeExampleFirst(data);
    var g1 := Append([], [], Never, data, 72, [], n0.events + [Poll(false), Grow(40, 40, 72)]);
    assert ReadToEndOpen(n0) == g1;
    assert ReadReply([], [], 32) == Ok(none);
    var m1 := Append([], [], Never, data, 72, [], g1.events + [ReadCall(32, Ok(none))]);
    assert ReadToEndMain(g1) == m1;
    assert ReadToEndNext(n0) == m1;
    assert ReadToEndFrom(n0) == m1;
  }

  /** The read to the end of `ReadToEndProbeExample` returns `Ok(40)` and
      makes no `check_interrupt`. */
  lemma ReadToEndProbeExampleResult(data: seq<Byte>)
    requires |data| == 40
    ensures var run := ReadToEndRun(data, [], Never, [], 0, []);
      run.result == Ok(40) && run.events == ReadToEndLoop(data, [], Never, [], 0, []).events
  {
    ReadToEndProbeExample(data);
    var f := ReadToEndLoop(data, [], Never, [], 0, []);
    assert Last(f.events) == ReadCall(32, Ok([]));
  }

  /** The probe of the first pass of `ReadToEndProbeExample`: the last 8
      bytes, appended by growing the full vector to 40. */
  lemma ReadToEndProbeExampleProbe(data: seq<Byte>, ev: seq<Event>)
    requires |data| == 40
    ensures ReadToEndProbe(Append(data[32..], [], Never, data[..32], 32, [], ev))
         == Append([], [], Never, data, 40, [], ev + [Probe(Ok(data[32..])), Grow(32, 32, 40)])
  {
    assert |data[32..]| == 8 && data[32..][..8] == data[32..];
    assert ReadReply(data[32..], [], ProbeSize) == Ok(data[32..]);
    assert data[..32] + data[32..] == data;
    assert data[32..][8..] == [];
  }

  /** The main read of the first pass of `ReadToEndProbeExample`: the first
      32 bytes, which fill the capacity just reserved. */
  lemma ReadToEndProbeExampleMain(data: seq<Byte>, ev: seq<Event>)
    requires |data| == 40
    ensures ReadToEndMain(Append(data, [], Never, [], 32, [], ev))
         == Append(data[32..], [], Never, data[..32], 32, [], ev + [ReadCall(32, Ok(data[..32]))])
  {
    assert ReadReply(data, [], 32) == Ok(data[..32]);
    assert [] + data[..32] == data[..32];
  }

  /** The first pass of `ReadToEndProbeExample`. */
  lemma ReadToEndProbeExampleFirst(data: seq<Byte>) returns (n0: Append)
    requires |data| == 40
    ensures n0 == Append([], [], Never, data, 40, [], [Poll(false), Grow(0, 0, 32), ReadCall(32, Ok(data[..32])),
                                                       Probe(Ok(data[32..])), Grow(32, 32, 40)])
    ensures ReadToEndNext(Append(data, [], Never, [], 0, [], [])) == n0
  {
    var a0 := Append(data, [], Never, [], 0, [], []);
    var g0 := Append(data, [], Never, [], 32, [], [Poll(false), Grow(0, 0, 32)]);
    assert ReadToEndOpen(a0) == g0 by {
      assert [] + [Poll(false)] + [Grow(0, 0, 32)] == [Poll(false), Grow(0, 0, 32)];
    }
    var call := ReadCall(32, Ok(data[..32]));
    var m0 := Append(data[32..], [], Never, data[..32], 32, [], g0.events + [call]);
    assert ReadToEndMain(g0) == m0 by {
      ReadToEndProbeExampleMain(data, g0.events);
    }
    assert !Ends(Last(m0.events)) && |m0.items| == m0.capacity by {
      assert Last(m0.events) == call;
      FullReadContinues(call);
    }
    n0 := Append([], [], Never, data, 40, [], m0.events + [Probe(Ok(data[32..])), Grow(32, 32, 40)]);
    assert ReadToEndProbe(m0) == n0 by {
      ReadToEndProbeExampleProbe(data, m0.events);
    }
    assert ReadToEndNext(a0) == n0 by { ReadToEndNextProbes(a0); }
  }
}
