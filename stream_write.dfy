/**
 * The composite write of `Stream` over a `Write` resource: `write_exact`,
 * which hands the unwritten rest of a buffer to the primitive `write` until
 * all of it is accepted, a write accepts nothing, or a write fails. Unlike
 * the composite reads it does not poll the context inside its loop. The
 * method is specified by a function that runs the same loop on values,
 * recording the events it produces; the lemmas state what the source
 * promises about them.
 */
module StreamWrite {
  import opened IoCore
  import opened IoResources

  /** The state of a `write_exact` loop: the resource's script and what it
      has accepted, the count of bytes written so far, and the events. */
  datatype Drain = Drain(steps: seq<Step>, sink: seq<Byte>, wrote: nat, events: seq<Event>)

  /** One pass of the `write_exact` loop: a write of the unwritten rest of
      the buffer. What the resource accepts is the front of that rest. */
  function WriteExactNext(d: Drain, buf: seq<Byte>): (r: Drain)
    requires d.wrote < |buf|
    ensures r.events == d.events + [WriteCall(|buf| - d.wrote, WriteReply(d.steps, |buf| - d.wrote))]
    ensures d.wrote <= r.wrote == d.wrote + Amount(Last(r.events)) <= |buf|
    ensures r.sink == d.sink + buf[d.wrote..r.wrote]
    ensures r.steps == Rest(d.steps)
  {
    var room := |buf| - d.wrote;
    var reply := WriteReply(d.steps, room);
    var n := if reply.Ok? then reply.value else 0;
    Drain(Rest(d.steps), d.sink + buf[d.wrote..d.wrote + n], d.wrote + n, d.events + [WriteCall(room, reply)])
  }

  /** The `write_exact` loop over `buf` from state `d`: while some of the
      buffer is unwritten, write the rest of it; a write that accepts nothing
      (0 bytes or a failure) stops the loop. */
  function WriteExactFrom(d: Drain, buf: seq<Byte>): Drain
    decreases |buf| - d.wrote
  {
    if d.wrote >= |buf| then d
    else
      var next := WriteExactNext(d, buf);
      if next.wrote > d.wrote then WriteExactFrom(next, buf) else next
  }

  /** The `write_exact` loop from the start: nothing written, no events. */
  function WriteExactLoop(steps: seq<Step>, sink: seq<Byte>, buf: seq<Byte>): Drain
  {
    WriteExactFrom(Drain(steps, sink, 0, []), buf)
  }

  /** The whole of `write_exact` of `buf`, on a context whose plan is `c`. */
  function WriteExactRun(steps: seq<Step>, sink: seq<Byte>, c: CancelPlan, buf: seq<Byte>): Run
  {
    var f := WriteExactLoop(steps, sink, buf);
    Conclude(f.events, f.wrote, c)
  }

  /** The resource accepts the buffer's bytes in order, from its front, and
      never more than the buffer holds. */
  lemma {:induction false} WriteExactFromSinks(d: Drain, buf: seq<Byte>, s0: seq<Byte>)
    requires d.wrote <= |buf| && d.sink == s0 + buf[..d.wrote]
    ensures var r := WriteExactFrom(d, buf); r.wrote <= |buf| && r.sink == s0 + buf[..r.wrote]
    decreases |buf| - d.wrote
  {
    if d.wrote < |buf| {
      var next := WriteExactNext(d, buf);
      assert next.sink == s0 + buf[..next.wrote] by {
        assert buf[..d.wrote] + buf[d.wrote..next.wrote] == buf[..next.wrote];
        AppendAssoc(s0, buf[..d.wrote], buf[d.wrote..next.wrote]);
      }
      if next.wrote > d.wrote {
        WriteExactFromSinks(next, buf, s0);
      }
    }
  }

  /** Every event of the trace is a write handed a non-empty slice: the
      context is never polled. */
  predicate OnlyWrites(ev: seq<Event>) { forall i :: 0 <= i < |ev| ==> ev[i].WriteCall? && ev[i].room > 0 }

  /** A `write_exact` loop only writes, each time a non-empty slice. */
  lemma {:induction false} WriteExactFromWrites(d: Drain, buf: seq<Byte>)
    requires OnlyWrites(d.events)
    ensures OnlyWrites(WriteExactFrom(d, buf).events)
    decreases |buf| - d.wrote
  {
    if d.wrote < |buf| {
      var next := WriteExactNext(d, buf);
      var ev := next.events;
      assert OnlyWrites(ev) by {
        forall i | 0 <= i < |ev| ensures ev[i].WriteCall? && ev[i].room > 0 {
          if i < |d.events| {
            assert ev[i] == d.events[i];
          }
        }
      }
      if next.wrote > d.wrote {
        WriteExactFromWrites(next, buf);
      }
    }
  }

  /** In a `write_exact` loop a failed write or a write of 0 bytes can only be
      the last event, so no write follows it. */
  lemma {:induction false} WriteExactFromEndsLast(d: Drain, buf: seq<Byte>)
    requires NoneEnd(d.events)
    ensures EndsOnlyLast(WriteExactFrom(d, buf).events)
    decreases |buf| - d.wrote
  {
    if d.wrote < |buf| {
      var next := WriteExactNext(d, buf);
      var ev := next.events;
      var call := Last(ev);
      if next.wrote > d.wrote {
        assert NoneEnd(ev) by {
          assert !Ends(call);
          forall i | 0 <= i < |ev| ensures !Ends(ev[i]) {
            if i < |d.events| {
              assert ev[i] == d.events[i];
            }
          }
        }
        WriteExactFromEndsLast(next, buf);
      } else {
        EndsOnlyLastAppend(d.events, [call]);
      }
    }
  }

  /** A `write_exact` loop that stops before the whole buffer is written
      stops on a failed write or a write of 0 bytes. */
  lemma {:induction false} WriteExactFromStopsShort(d: Drain, buf: seq<Byte>)
    requires d.wrote <= |buf|
    ensures var r := WriteExactFrom(d, buf);
      r.wrote < |buf| ==> |r.events| > |d.events| && Ends(Last(r.events))
    decreases |buf| - d.wrote
  {
    if d.wrote < |buf| {
      var next := WriteExactNext(d, buf);
      if next.wrote > d.wrote {
        assert WriteExactFrom(d, buf) == WriteExactFrom(next, buf);
        WriteExactFromStopsShort(next, buf);
      } else {
        assert WriteExactFrom(d, buf) == next;
      }
    }
  }

  /** What `write_exact` writes: the resource accepts the front of the
      buffer, in order, never more than the buffer holds, and a successful
      result is the count accepted. */
  lemma WriteExactTransfers(steps: seq<Step>, sink: seq<Byte>, c: CancelPlan, buf: seq<Byte>)
    ensures var f := WriteExactLoop(steps, sink, buf); var run := WriteExactRun(steps, sink, c, buf);
      && f.wrote <= |buf| && f.sink == sink + buf[..f.wrote]
      && (run.result.Ok? ==> run.result.value == f.wrote)
  {
    var d0 := Drain(steps, sink, 0, []);
    assert d0.sink == sink + buf[..0];
    WriteExactFromSinks(d0, buf, sink);
  }

  /** The trace of `write_exact` is a loop trace of writes alone: only its
      last event may end the loop, it stops short of the whole buffer only on
      such an event, and it never polls the context. */
  lemma WriteExactLoopShape(steps: seq<Step>, sink: seq<Byte>, buf: seq<Byte>)
    ensures var f := WriteExactLoop(steps, sink, buf);
      && OnlyWrites(f.events) && EndsOnlyLast(f.events) && NoCheck(f.events)
      && (f.wrote < |buf| ==> f.events != [] && Ends(Last(f.events)))
  {
    var d0 := Drain(steps, sink, 0, []);
    var f := WriteExactFrom(d0, buf);
    WriteExactFromWrites(d0, buf);
    WriteExactFromEndsLast(d0, buf);
    WriteExactFromStopsShort(d0, buf);
    assert NoCheck(f.events) by {
      assert forall i :: 0 <= i < |f.events| ==> f.events[i].WriteCall?;
    }
  }

  /** How `write_exact` ends:
      - the context is consulted at most once, by `check_interrupt` after the
        loop, and only when nothing was written and no write failed hard;
      - a hard failure of a write is returned at once, and is the only way to
        fail other than by an interrupt;
      - otherwise the count written is returned, unless it is 0: then the
        result is `Ok(0)` unless the context is interrupted at that point. */
  lemma WriteExactOutcome(steps: seq<Step>, sink: seq<Byte>, c: CancelPlan, buf: seq<Byte>)
    ensures var f := WriteExactLoop(steps, sink, buf); var run := WriteExactRun(steps, sink, c, buf);
      var ev := run.events;
      && (forall i :: 0 <= i < |ev| ==> !ev[i].Poll?)
      && (forall i :: 0 <= i < |ev| && HardFailure(ev[i]) ==> i == |ev| - 1 && run.result == Err(Failure(ev[i]).value))
      && (run.result.Err? && run.result.error != Interrupted ==> exists i :: 0 <= i < |ev| && HardFailure(ev[i]))
      && (ev != f.events <==> f.wrote == 0 && forall i :: 0 <= i < |f.events| ==> !HardFailure(f.events[i]))
      && (ev != f.events ==> ev == f.events + [Check(Cancelled(c))] && run.result == (if Cancelled(c) then Err(Interrupted) else Ok(0)))
  {
    var f := WriteExactLoop(steps, sink, buf);
    WriteExactLoopShape(steps, sink, buf);
    ConcludeOutcome(f.events, f.wrote, c);
    var ev := Conclude(f.events, f.wrote, c).events;
    assert forall i :: 0 <= i < |ev| ==> !ev[i].Poll? by {
      if ev != f.events {
        assert forall i :: 0 <= i < |f.events| ==> ev[i] == f.events[i];
        assert ev[|f.events|].Check?;
      }
    }
  }

  /** A first write that accepts nothing stops `write_exact` without error:
      the result is `Ok(0)` unless the context is interrupted when
      `check_interrupt` runs. */
  lemma WriteExactZeroFirst(sink: seq<Byte>, c: CancelPlan, buf: seq<Byte>)
    requires buf != []
    ensures var run := WriteExactRun([Give(0)], sink, c, buf);
      && run.result == (if Cancelled(c) then Err(Interrupted) else Ok(0))
      && run.events == [WriteCall(|buf|, Ok(0)), Check(Cancelled(c))]
  {
    var d0 := Drain([Give(0)], sink, 0, []);
    assert WriteReply([Give(0)], |buf|) == Ok(0);
    assert buf[0..0] == [] && sink + [] == sink;
    assert WriteExactFrom(d0, buf) == Drain([], sink, 0, [WriteCall(|buf|, Ok(0))]);
  }

  /** An empty buffer makes no write; only `check_interrupt` is consulted. */
  lemma WriteExactEmpty(steps: seq<Step>, sink: seq<Byte>, c: CancelPlan)
    ensures var run := WriteExactRun(steps, sink, c, []);
      && run.result == (if Cancelled(c) then Err(Interrupted) else Ok(0))
      && run.events == [Check(Cancelled(c))]
  {
  }

  /** One pass of the loop of `write_exact`: write `buf[wrote..]`. `cur` is
      the state of the loop before the pass; the pass is the step
      `WriteExactFrom` takes from it. */
  method WriteExactPass(inner: Writer, buf: seq<Byte>, wrote: nat, ghost cur: Drain) returns (p: Pass, ghost next: Drain)
    requires inner.steps == cur.steps && inner.sink == cur.sink && wrote == cur.wrote < |buf|
    modifies inner
    ensures next == WriteExactNext(cur, buf)
    ensures inner.steps == next.steps && inner.sink == next.sink
    ensures p.Filled? <==> next.wrote > wrote
    ensures p.Filled? ==> next.wrote == wrote + p.n
    ensures Escape(next.events) == if p.Failed? then Some(p.kind) else None
  {
    var reply := inner.Write(buf[wrote..]);
    next := WriteExactNext(cur, buf);
    assert reply.Ok? ==> buf[wrote..][..reply.value] == buf[wrote..wrote + reply.value];
    EscapeLast(cur.events, WriteCall(|buf| - wrote, reply));
    p := if reply.Err? then (if reply.error == Interrupted then Stopped else Failed(reply.error))
         else if reply.value == 0 then Stopped else Filled(reply.value);
  }

  /** `Stream::write_exact`: writes the rest of `buf` until all of it is
      written, a write accepts nothing, or a write fails. It returns what
      `WriteExactRun` describes, and leaves the resource and the context as
      `WriteExactLoop` and `Conclude` describe. */
  method WriteExact(inner: Writer, ctx: Context, buf: seq<Byte>) returns (r: Result<nat>)
    modifies inner, ctx
    ensures var f := WriteExactLoop(old(inner.steps), old(inner.sink), buf);
      var run := WriteExactRun(old(inner.steps), old(inner.sink), old(ctx.cancel), buf);
      && r == run.result
      && inner.steps == f.steps && inner.sink == f.sink && ctx.cancel == run.cancel
  {
    ghost var cur := Drain(inner.steps, inner.sink, 0, []);
    ghost var fin := WriteExactFrom(cur, buf);
    var wrote := 0;
    while wrote < |buf|
      invariant inner.steps == cur.steps && inner.sink == cur.sink && ctx.cancel == old(ctx.cancel)
      invariant wrote == cur.wrote <= |buf|
      invariant Escape(cur.events) == None
      invariant WriteExactFrom(cur, buf) == fin
      decreases |buf| - wrote
    {
      var p;
      p, cur := WriteExactPass(inner, buf, wrote, cur);
      match p {
        case Stopped => break;
        case Failed(k) =>
          assert fin == cur;
          return Err(k);
        case Filled(n) => wrote := wrote + n;
      }
    }
    assert fin == cur;
    r := Finish(ctx, cur.events, wrote);
  }
}
