/**
 * The collaborators a `Stream` works against, as scripted state machines:
 * the ambient context (its interrupt flag), a resource implementing the
 * single-shot `Read`, `Write` or `Seek` primitives, and the growable byte
 * vector `read_to_end` appends to. Each primitive's reply is the matching
 * function of IoCore applied to the object's state, so the composite
 * operations can be specified by functions over that state.
 */
module IoResources {
  import opened IoCore

  /** The ambient context: only its cooperative interrupt flag is modelled. */
  class Context {
    var cancel: CancelPlan

    constructor (plan: CancelPlan)
      ensures cancel == plan
    {
      cancel := plan;
    }

    /** `is_interrupted()`: a non-failing probe of the flag. */
    method IsInterrupted() returns (b: bool)
      modifies this
      ensures b == Cancelled(old(cancel))
      ensures cancel == CancelAfter(old(cancel), 1)
    {
      b := Cancelled(cancel);
      cancel := CancelAfter(cancel, 1);
    }

    /** `check_interrupt()`: fails with `Interrupted` exactly when the flag is set. */
    method CheckInterrupt() returns (r: Result<()>)
      modifies this
      ensures r == if Cancelled(old(cancel)) then Err(Interrupted) else Ok(())
      ensures cancel == CancelAfter(old(cancel), 1)
    {
      r := if Cancelled(cancel) then Err(Interrupted) else Ok(());
      cancel := CancelAfter(cancel, 1);
    }
  }

  /** A resource implementing `Read`: the bytes it has yet to hand out, and the
      script of how its next primitive calls behave. */
  class Reader {
    var data: seq<Byte>
    var steps: seq<Step>

    constructor (data: seq<Byte>, steps: seq<Step>)
      ensures this.data == data && this.steps == steps
    {
      this.data := data;
      this.steps := steps;
    }

    /** The primitive `read` into a slice of `room` bytes; the bytes it returns
        are the ones it wrote into the slice. A reply of no bytes means EOF. */
    method Read(room: nat) returns (r: Result<seq<Byte>>)
      modifies this
      ensures r == ReadReply(old(data), old(steps), room)
      ensures old(data) == (if r.Ok? then r.value else []) + data
      ensures steps == Rest(old(steps))
    {
      r := ReadReply(data, steps, room);
      if r.Ok? {
        data := data[|r.value|..];
      }
      steps := Rest(steps);
    }

    /** The primitive `read` into the slice `buf[at..]`, which receives the
        bytes read at its front; the rest of the array is untouched. */
    method ReadInto(buf: array<Byte>, at: nat, ghost front: seq<Byte>, ghost whole: seq<Byte>) returns (r: Result<seq<Byte>>)
      requires |front| == at <= |whole| == buf.Length && buf[..] == front + whole[at..]
      modifies this, buf
      ensures r == ReadReply(old(data), old(steps), buf.Length - at)
      ensures old(data) == (if r.Ok? then r.value else []) + data
      ensures steps == Rest(old(steps))
      ensures r.Ok? ==> buf[..] == front + r.value + whole[at + |r.value|..]
      ensures r.Err? ==> buf[..] == old(buf[..])
    {
      r := Read(buf.Length - at);
      if r.Ok? {
        var d := r.value;
        forall i | 0 <= i < |d| {
          buf[at + i] := d[i];
        }
        assert buf[..] == front + d + whole[at + |d|..];
      }
    }
  }

  /** A resource implementing `Write`: everything it has accepted so far, and
      the script of how its next primitive calls behave. */
  class Writer {
    var sink: seq<Byte>
    var steps: seq<Step>

    constructor (steps: seq<Step>)
      ensures sink == [] && this.steps == steps
    {
      sink := [];
      this.steps := steps;
    }

    /** The primitive `write` of a slice: accepts a prefix of it and returns
        its length; 0 means no progress is possible. */
    method Write(chunk: seq<Byte>) returns (r: Result<nat>)
      modifies this
      ensures r == WriteReply(old(steps), |chunk|)
      ensures r.Ok? ==> r.value <= |chunk| && sink == old(sink) + chunk[..r.value]
      ensures r.Err? ==> sink == old(sink)
      ensures steps == Rest(old(steps))
    {
      r := WriteReply(steps, |chunk|);
      if r.Ok? {
        sink := sink + chunk[..r.value];
      }
      steps := Rest(steps);
    }
  }

  /** The `Vec<u8>` that `read_to_end` appends to: its initialised contents and
      its capacity. How much a growth over-allocates is the allocator's choice;
      `slack` scripts those choices (0 once exhausted). */
  class ByteVec {
    var items: seq<Byte>
    var capacity: nat
    var slack: seq<nat>

    ghost predicate Valid()
      reads this
    {
      |items| <= capacity
    }

    constructor (items: seq<Byte>, capacity: nat, slack: seq<nat>)
      requires |items| <= capacity
      ensures Valid()
      ensures this.items == items && this.capacity == capacity && this.slack == slack
    {
      this.items := items;
      this.capacity := capacity;
      this.slack := slack;
    }

    /** `Vec::reserve(additional)`: a no-op when the spare capacity already
        suffices, otherwise the capacity grows to at least `len + additional`. */
    method Reserve(additional: nat)
      requires Valid()
      modifies this
      ensures Valid() && items == old(items)
      ensures old(capacity) - |items| >= additional ==>
        capacity == old(capacity) && slack == old(slack)
      ensures old(capacity) - |items| < additional ==>
        capacity == |items| + additional + NextSlack(old(slack)) &&
        slack == Rest(old(slack))
      ensures capacity >= |items| + additional
    {
      if capacity - |items| < additional {
        capacity := |items| + additional + NextSlack(slack);
        slack := Rest(slack);
      }
    }

    /** Bytes written into the spare capacity, then `set_len(len + |d|)`. */
    method FillSpare(d: seq<Byte>)
      requires Valid() && |items| + |d| <= capacity
      modifies this`items
      ensures Valid() && items == old(items) + d
    {
      items := items + d;
    }

    /** `Vec::extend_from_slice`: reserves room for `d`, then appends it. */
    method ExtendFromSlice(d: seq<Byte>)
      requires Valid()
      modifies this
      ensures Valid() && items == old(items) + d
      ensures old(capacity) - |old(items)| >= |d| ==>
        capacity == old(capacity) && slack == old(slack)
      ensures old(capacity) - |old(items)| < |d| ==>
        capacity == |old(items)| + |d| + NextSlack(old(slack)) &&
        slack == Rest(old(slack))
    {
      Reserve(|d|);
      items := items + d;
    }
  }

  /** A resource implementing `Seek`: a position within (or past) a stream of
      `length` bytes. `faults` scripts a failure of its next primitive calls
      (none once exhausted); `log` records every primitive seek issued. */
  class Seeker {
    var position: U64
    var length: U64
    var faults: seq<Option<ErrorKind>>
    var log: seq<SeekFrom>

    constructor (position: U64, length: U64, faults: seq<Option<ErrorKind>>)
      ensures State() == Cursor(position, length, faults, [])
    {
      this.position := position;
      this.length := length;
      this.faults := faults;
      log := [];
    }

    /** The resource's state as a value. */
    function State(): Cursor
      reads this
    {
      Cursor(position, length, faults, log)
    }

    /** The primitive `seek`, as `SeekOn` describes it. */
    method Seek(from: SeekFrom) returns (r: Result<U64>)
      modifies this
      ensures Sought(State(), r) == SeekOn(old(State()), from)
    {
      if Faults(faults, 0) {
        r := Err(faults[0].value);
      } else {
        r := SeekTarget(position, length, from);
      }
      if r.Ok? {
        position := r.value;
      }
      faults := Rest(faults);
      log := log + [from];
    }
  }

  /** The end shared by `read_exact`, `read_to_end` and `write_exact`,
      after a loop that
      produced `loop` without a hard failure and moved `moved` bytes:
      when nothing moved, `check_interrupt` may fail the operation; otherwise the
      count is its result. */
  method Finish(ctx: Context, ghost loop: seq<Event>, moved: nat) returns (r: Result<nat>)
    requires Escape(loop) == None
    modifies ctx
    ensures var run := Conclude(loop, moved, old(ctx.cancel)); r == run.result && ctx.cancel == run.cancel
  {
    r := Ok(moved);
    if moved == 0 {
      var checked := ctx.CheckInterrupt();
      if checked.Err? {
        r := Err(checked.error);
      }
    }
  }

  /** The end of `read_to_end` after its loop stopped on pass `p`, having
      recorded `loop` and moved `moved` bytes: a hard failure is returned;
      otherwise the count is concluded on as `Finish` does. */
  method EndLoop(ctx: Context, p: Pass, ghost loop: seq<Event>, moved: nat) returns (r: Result<nat>)
    requires !p.Filled? && Escape(loop) == if p.Failed? then Some(p.kind) else None
    modifies ctx
    ensures var run := Conclude(loop, moved, old(ctx.cancel)); r == run.result && ctx.cancel == run.cancel
  {
    if p.Failed? {
      r := Err(p.kind);
    } else {
      r := Finish(ctx, loop, moved);
    }
  }
}
