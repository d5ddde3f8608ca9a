/**
 * Shared vocabulary of the stream I/O layer: bytes, error kinds, the scripted
 * behaviour of single-shot primitives, the cooperative cancellation plan of the
 * ambient context, and the trace of observable events a composite operation
 * produces. The post-loop rule shared by `read_exact`, `read_to_end` and
 * `write_exact` (surface an error, or consult `check_interrupt` only when
 * nothing moved) is defined once here as `Conclude`.
 */
module IoCore {

  /** An octet (`u8`). */
  type Byte = b: int | 0 <= b < 256

  datatype Option<+T> = None | Some(value: T)

  /** The error kinds the composite operations tell apart: `Error::is_interrupted`
      decides between stopping the loop and propagating. */
  datatype ErrorKind = Interrupted | InvalidInput | Other(code: int)

  datatype Result<+T> = Ok(value: T) | Err(error: ErrorKind)

  function Min(a: int, b: int): int { if a <= b then a else b }

  function Max(a: int, b: int): int { if a <= b then b else a }

  /** Concatenation is associative. */
  lemma AppendAssoc<T>(x: seq<T>, y: seq<T>, z: seq<T>)
    ensures (x + y) + z == x + (y + z)
  {
  }

  /** The sequence without its first element (empty stays empty). */
  function Rest<T>(s: seq<T>): seq<T> { if s == [] then [] else s[1..] }

  // ---------------------------------------------------------------------------
  // Scripted primitives
  // ---------------------------------------------------------------------------

  /** How a scripted resource answers one primitive call: hand over (or accept)
      at most `limit` bytes, or fail with `kind`. Once a resource's script is
      exhausted, every further call is served as fully as the slice allows. */
  datatype Step = Give(limit: nat) | Fail(kind: ErrorKind)

  /** The reply of a primitive `read` handed a slice of `room` bytes, when the
      resource still holds `data` and its next calls follow `steps`. */
  function ReadReply(data: seq<Byte>, steps: seq<Step>, room: nat): (r: Result<seq<Byte>>)
    ensures r.Ok? ==> |r.value| <= room && |r.value| <= |data|
  {
    if steps != [] && steps[0].Fail? then Err(steps[0].kind)
    else
      var limit := if steps != [] then steps[0].limit else room;
      Ok(data[..Min(Min(limit, room), |data|)])
  }

  /** A read hands out the front of what the resource holds; it fails exactly
      when its scripted step is a failure, and hands out nothing only when the
      slice is empty, the resource is exhausted, or the step gives nothing. */
  lemma ReadReplyFacts(data: seq<Byte>, steps: seq<Step>, room: nat)
    ensures var r := ReadReply(data, steps, room);
      && (r.Ok? ==> data == r.value + data[|r.value|..])
      && (r.Ok? && |r.value| == 0 ==> room == 0 || data == [] || (steps != [] && steps[0] == Give(0)))
      && (r.Err? <==> steps != [] && steps[0].Fail?)
  {
  }

  /** The reply of a primitive `write` handed a slice of `room` bytes: how many
      of them the resource accepts. */
  function WriteReply(steps: seq<Step>, room: nat): (r: Result<nat>)
    ensures r.Ok? ==> r.value <= room
    ensures r.Ok? && r.value == 0 ==> room == 0 || (steps != [] && steps[0] == Give(0))
    ensures r.Err? <==> steps != [] && steps[0].Fail?
  {
    if steps != [] && steps[0].Fail? then Err(steps[0].kind)
    else if steps != [] then Ok(Min(steps[0].limit, room))
    else Ok(room)
  }

  /** How much the allocator over-allocates at its next growth of a vector,
      as scripted by `slack` (nothing once the script is exhausted). */
  function NextSlack(slack: seq<nat>): nat { if slack == [] then 0 else slack[0] }

  // ---------------------------------------------------------------------------
  // Positioning (std `SeekFrom`)
  // ---------------------------------------------------------------------------

  const U64Max: int := 0xFFFF_FFFF_FFFF_FFFF
  const I64Min: int := -0x8000_0000_0000_0000
  const I64Max: int := 0x7FFF_FFFF_FFFF_FFFF

  type U64 = x: int | 0 <= x <= U64Max
  type I64 = x: int | I64Min <= x <= I64Max

  datatype SeekFrom = Start(offset: U64) | End(delta: I64) | Current(delta: I64)

  /** The position a seek lands on in a resource of `len` bytes whose position
      is `pos`: an absolute offset, or a signed offset from the end or from the
      current position; a target below 0 or above `u64::MAX` is refused with
      `InvalidInput` (the in-memory cursor rule of std). */
  function SeekTarget(pos: U64, len: U64, from: SeekFrom): (r: Result<U64>)
    ensures from.Start? ==> r == Ok(from.offset)
    ensures from.End? ==> (r.Ok? <==> 0 <= len + from.delta <= U64Max) && (r.Ok? ==> r.value == len + from.delta)
    ensures from.Current? ==> (r.Ok? <==> 0 <= pos + from.delta <= U64Max) && (r.Ok? ==> r.value == pos + from.delta)
    ensures r.Err? ==> r.error == InvalidInput
  {
    var target := match from
      case Start(n) => n
      case End(d) => len + d
      case Current(d) => pos + d;
    if 0 <= target <= U64Max then Ok(target) else Err(InvalidInput)
  }

  /** A seekable resource as a value: its position within (or past) a stream
      of `length` bytes, a script of faults for its next primitive calls (none
      once exhausted), and every primitive seek issued so far. */
  datatype Cursor = Cursor(position: U64, length: U64, faults: seq<Option<ErrorKind>>, log: seq<SeekFrom>)

  /** A resource after a seek, and what the seek returned. */
  datatype Sought<+T> = Sought(cursor: Cursor, result: Result<T>)

  /** Whether the `k`-th primitive call from now fails. */
  predicate Faults(faults: seq<Option<ErrorKind>>, k: nat) { k < |faults| && faults[k].Some? }

  /** The primitive `seek`: a scripted fault fails it and leaves the position
      where it was; otherwise it moves to `SeekTarget` and returns the new
      position, or refuses a target out of range and stays. Either way the
      seek is logged and the fault script advances. */
  function SeekOn(c: Cursor, from: SeekFrom): (r: Sought<U64>)
    ensures r.result == if Faults(c.faults, 0) then Err(c.faults[0].value) else SeekTarget(c.position, c.length, from)
    ensures r.cursor.position == if r.result.Ok? then r.result.value else c.position
    ensures r.cursor.length == c.length && r.cursor.faults == Rest(c.faults) && r.cursor.log == c.log + [from]
  {
    var result := if Faults(c.faults, 0) then Err(c.faults[0].value) else SeekTarget(c.position, c.length, from);
    Sought(Cursor(if result.Ok? then result.value else c.position, c.length, Rest(c.faults), c.log + [from]), result)
  }

  // ---------------------------------------------------------------------------
  // Cooperative cancellation
  // ---------------------------------------------------------------------------

  /** When the external `Cancel` capability fires, counted in queries of the
      context (`is_interrupted` and `check_interrupt` alike): never, or after
      `n` more queries. Once fired it stays fired. */
  datatype CancelPlan = Never | AfterQueries(n: nat)

  /** Whether the next query of the context reports an interrupt. */
  predicate Cancelled(c: CancelPlan) { c == AfterQueries(0) }

  /** The plan after `q` queries. */
  function CancelAfter(c: CancelPlan, q: nat): (c': CancelPlan)
    ensures Cancelled(c) ==> Cancelled(c')
  {
    match c
    case Never => Never
    case AfterQueries(n) => AfterQueries(if n <= q then 0 else n - q)
  }

  // ---------------------------------------------------------------------------
  // Observable events of a composite operation
  // ---------------------------------------------------------------------------

  datatype Event =
    | Poll(interrupted: bool)                     // is_interrupted()
    | Check(interrupted: bool)                    // check_interrupt(), failing when true
    | ReadCall(room: nat, got: Result<seq<Byte>>) // primitive read into a slice of `room` bytes
    | Probe(got: Result<seq<Byte>>)               // primitive read into the 32-byte probe buffer
    | WriteCall(room: nat, put: Result<nat>)      // primitive write of a slice of `room` bytes
    | Grow(len: nat, before: nat, after: nat)     // a vector of `len` bytes grew from capacity `before` to `after`

  /** How one pass of a composite loop ended: `n` bytes moved and the loop
      goes on, the loop stops quietly, or a primitive failed with an error to
      propagate. */
  datatype Pass = Filled(n: nat) | Stopped | Failed(kind: ErrorKind)

  /** Size of the scratch buffer `read_to_end` probes with. */
  const ProbeSize: nat := 32

  predicate IsCall(e: Event) { e.ReadCall? || e.Probe? || e.WriteCall? }

  /** Bytes a read event delivered. */
  function Bytes(e: Event): seq<Byte>
  {
    match e
    case ReadCall(_, Ok(d)) => d
    case Probe(Ok(d)) => d
    case _ => []
  }

  /** Bytes an event moved, in either direction. */
  function Amount(e: Event): nat
  {
    match e
    case ReadCall(_, Ok(d)) => |d|
    case Probe(Ok(d)) => |d|
    case WriteCall(_, Ok(k)) => k
    case _ => 0
  }

  /** The failure a primitive call reported, if any. */
  function Failure(e: Event): Option<ErrorKind>
  {
    match e
    case ReadCall(_, Err(k)) => Some(k)
    case Probe(Err(k)) => Some(k)
    case WriteCall(_, Err(k)) => Some(k)
    case _ => None
  }

  /** A primitive failure that is not an interrupt: the composite returns it at once. */
  predicate HardFailure(e: Event) { Failure(e).Some? && Failure(e).value != Interrupted }

  /** An event after which a composite loop issues no further primitive call:
      an interrupted context, a primitive error, or a primitive that moved nothing. */
  predicate Ends(e: Event)
  {
    e == Poll(true) || (IsCall(e) && (Failure(e).Some? || Amount(e) == 0))
  }

  /** A read ends the loop it is in exactly when it failed or delivered no
      bytes, and fails the operation exactly when it failed other than by an
      interrupt. */
  lemma ReadEventFacts(e: Event)
    requires e.ReadCall? || e.Probe?
    ensures Ends(e) <==> e.got.Err? || e.got.value == []
    ensures Failure(e) == (if e.got.Err? then Some(e.got.error) else None)
    ensures HardFailure(e) <==> e.got.Err? && e.got.error != Interrupted
  {
  }

  /** A read that delivered no bytes ends the loop it is in. */
  lemma EmptyReadEnds(e: Event)
    requires (e.ReadCall? || e.Probe?) && Bytes(e) == []
    ensures Ends(e)
  {
  }

  /** A read that delivered bytes does not end the loop it is in. */
  lemma FullReadContinues(e: Event)
    requires (e.ReadCall? || e.Probe?) && Bytes(e) != []
    ensures !Ends(e)
  {
  }

  /** The bytes the read events of a trace delivered, in order. */
  function Received(ev: seq<Event>): seq<Byte>
  {
    if ev == [] then [] else Bytes(ev[0]) + Received(ev[1..])
  }

  /** What a trace received splits over concatenation. */
  lemma {:induction false} ReceivedConcat(a: seq<Event>, b: seq<Event>)
    ensures Received(a + b) == Received(a) + Received(b)
  {
    if a == [] {
      assert a + b == b;
    } else {
      assert (a + b)[0] == a[0];
      assert (a + b)[1..] == a[1..] + b;
      ReceivedConcat(a[1..], b);
    }
  }

  /** The bytes received by a one-event trace are that event's. */
  lemma ReceivedOne(e: Event)
    ensures Received([e]) == Bytes(e)
  {
    assert [e][1..] == [];
  }

  /** The bytes received by a two-event trace are the first's, then the
      second's. */
  lemma ReceivedPair(a: Event, b: Event)
    ensures Received([a, b]) == Bytes(a) + Bytes(b)
  {
    assert [a, b][1..] == [b];
    ReceivedOne(b);
  }

  /** No event of the trace ends a loop: the loop is still running. */
  predicate NoneEnd(ev: seq<Event>) { forall i :: 0 <= i < |ev| ==> !Ends(ev[i]) }

  /** Only the last event of a loop trace may end the loop. */
  predicate EndsOnlyLast(ev: seq<Event>) { forall i :: 0 <= i < |ev| - 1 ==> !Ends(ev[i]) }

  /** The trace holds no `check_interrupt`. */
  predicate NoCheck(ev: seq<Event>) { forall i :: 0 <= i < |ev| ==> !ev[i].Check? }

  /** A running trace extended by events of which only the last may end the
      loop keeps only its last event a possible end. */
  lemma EndsOnlyLastAppend(a: seq<Event>, b: seq<Event>)
    requires NoneEnd(a) && EndsOnlyLast(b)
    ensures EndsOnlyLast(a + b)
  {
    var ev := a + b;
    forall i | 0 <= i < |ev| - 1 ensures !Ends(ev[i]) {
      if i >= |a| {
        assert ev[i] == b[i - |a|];
      }
    }
  }

  // ---------------------------------------------------------------------------
  // The post-loop rule
  // ---------------------------------------------------------------------------

  /** A finished composite operation: everything it did, what it returned, and
      the context's cancellation plan afterwards. */
  datatype Run = Run(events: seq<Event>, result: Result<nat>, cancel: CancelPlan)

  /** The last event of a non-empty trace. */
  function Last(ev: seq<Event>): Event
    requires ev != []
  {
    ev[|ev| - 1]
  }

  /** The hard failure a loop stopped on, if it stopped on one. */
  function Escape(loop: seq<Event>): Option<ErrorKind>
  {
    if loop != [] && HardFailure(loop[|loop| - 1]) then Failure(loop[|loop| - 1]) else None
  }

  /** The end of `read_exact`, `read_to_end` and `write_exact`, whose loop
      produced `loop`, moved `moved` bytes and left the context with plan `c`:
      a hard failure is returned as it is; otherwise the count moved is
      returned, except that a count of 0 first consults `check_interrupt`. */
  function Conclude(loop: seq<Event>, moved: nat, c: CancelPlan): Run
  {
    match Escape(loop)
    case Some(k) => Run(loop, Err(k), c)
    case None =>
      if moved == 0 then
        Run(loop + [Check(Cancelled(c))], if Cancelled(c) then Err(Interrupted) else Ok(0), CancelAfter(c, 1))
      else Run(loop, Ok(moved), c)
  }

  /** Events recorded after others end the combined trace, and decide
      whether it escapes. */
  lemma EscapeSuffix(a: seq<Event>, b: seq<Event>)
    requires b != []
    ensures Last(a + b) == Last(b) && Escape(a + b) == Escape(b)
  {
  }

  /** Whether a loop escapes depends on its last event only. */
  lemma EscapeLast(loop: seq<Event>, e: Event)
    ensures Escape(loop + [e]) == if HardFailure(e) then Failure(e) else None
  {
    assert (loop + [e])[|loop|] == e;
  }

  /** The outcome rules of `Conclude`, for a loop trace where only the last
      event may end the loop: a hard failure anywhere is the result and
      nothing follows it; otherwise `check_interrupt` runs exactly when nothing
      moved, nothing but that `check_interrupt` follows an ending event, and only an
      interrupted context at that point makes the operation fail. */
  lemma ConcludeOutcome(loop: seq<Event>, moved: nat, c: CancelPlan)
    requires EndsOnlyLast(loop) && NoCheck(loop)
    ensures var run := Conclude(loop, moved, c);
      && (forall i :: 0 <= i < |loop| && HardFailure(loop[i]) ==>
            i == |loop| - 1 && run.events == loop && run.result == Err(Failure(loop[i]).value))
      && (run.result.Err? && run.result.error != Interrupted ==>
            exists i :: 0 <= i < |loop| && HardFailure(loop[i]))
      && (run.result.Ok? ==> run.result.value == moved)
      && (run.events == loop || run.events == loop + [Check(Cancelled(c))])
      && (run.events != loop <==> (forall i :: 0 <= i < |loop| ==> !HardFailure(loop[i])) && moved == 0)
      && (run.result == Err(Interrupted) <==>
            (forall i :: 0 <= i < |loop| ==> !HardFailure(loop[i])) && moved == 0 && Cancelled(c))
      && (forall i, j :: 0 <= i < j < |run.events| && Ends(run.events[i]) ==> run.events[j].Check?)
  {
    var run := Conclude(loop, moved, c);
    forall i | 0 <= i < |loop| && HardFailure(loop[i])
      ensures i == |loop| - 1
    {
      if i < |loop| - 1 {
        assert Ends(loop[i]);
      }
    }
    if run.result.Err? && run.result.error != Interrupted {
      assert HardFailure(loop[|loop| - 1]);
    }
    forall i, j | 0 <= i < j < |run.events| && Ends(run.events[i]) ensures run.events[j].Check? {
      assert i < |loop|;
      assert run.events[i] == loop[i];
      assert i == |loop| - 1;
    }
  }
}
