/**
 * Positioning a `Stream` over a `Seek` resource: the trait's default
 * `stream_position` and `stream_len`, and the stream's `seek`, `rewind`,
 * `rewind_exact` and `skip_exact`, each a short fixed sequence of primitive
 * seeks. Every method is tied to `SeekOn`, the primitive on values, and the
 * lemmas state where each leaves the position and what it returns.
 */
module StreamSeek {
  import opened IoCore
  import opened IoResources

  // ---------------------------------------------------------------------------
  // Trait defaults
  // ---------------------------------------------------------------------------

  /** The default `stream_len_fast`: the length is not known to be cheap. */
  function StreamLenFast(c: Cursor): (fast: bool)
    ensures !fast
  {
    false
  }

  /** The default `stream_position`: a seek by nothing from the current
      position. */
  method StreamPosition(inner: Seeker) returns (r: Result<U64>)
    modifies inner
    ensures Sought(inner.State(), r) == SeekOn(old(inner.State()), Current(0))
  {
    r := inner.Seek(Current(0));
  }

  /** A seek by nothing from the current position returns that position and
      does not move; only a scripted fault fails it. */
  lemma StreamPositionReports(c: Cursor)
    ensures var s := SeekOn(c, Current(0));
      && s.cursor.position == c.position
      && (s.result.Ok? <==> !Faults(c.faults, 0))
      && (s.result.Ok? ==> s.result.value == c.position)
  {
  }

  /** The default `stream_len` on values: learn the position, seek to the end
      to learn the length, and seek back to the old position unless it was
      the end already; the first failing seek ends it with its error. */
  function StreamLenOn(c: Cursor): Sought<U64>
  {
    var here := SeekOn(c, Current(0));
    if here.result.Err? then here
    else
      var end := SeekOn(here.cursor, End(0));
      if end.result.Err? || here.result.value == end.result.value then end
      else
        var back := SeekOn(end.cursor, Start(here.result.value));
        if back.result.Err? then back else Sought(back.cursor, end.result)
  }

  /** The default `stream_len`. */
  method StreamLen(inner: Seeker) returns (r: Result<U64>)
    modifies inner
    ensures Sought(inner.State(), r) == StreamLenOn(old(inner.State()))
  {
    var oldPos := StreamPosition(inner);
    if oldPos.Err? {
      return Err(oldPos.error);
    }
    var len := inner.Seek(End(0));
    if len.Err? {
      return Err(len.error);
    }
    if oldPos.value != len.value {
      var back := inner.Seek(Start(oldPos.value));
      if back.Err? {
        return Err(back.error);
      }
    }
    return Ok(len.value);
  }

  /** Without faults, `stream_len` returns the length and leaves the position
      where it was, with two seeks when the position was the end and three
      otherwise. */
  lemma StreamLenRestores(c: Cursor)
    requires !Faults(c.faults, 0) && !Faults(c.faults, 1) && !Faults(c.faults, 2)
    ensures var s := StreamLenOn(c);
      && s.result == Ok(c.length)
      && s.cursor.position == c.position && s.cursor.length == c.length
      && s.cursor.log == c.log + [Current(0), End(0)] + (if c.position != c.length then [Start(c.position)] else [])
  {
    var here := SeekOn(c, Current(0));
    assert Rest(c.faults) == [] || Rest(c.faults)[0] == c.faults[1];
    var end := SeekOn(here.cursor, End(0));
    assert Rest(Rest(c.faults)) == [] || Rest(Rest(c.faults))[0] == c.faults[2];
  }

  /** A failing seek ends `stream_len` with its error, and no seek follows
      it: a failure of either of the first two seeks leaves the position
      where it was, but a failure of the seek back leaves it at the end. */
  lemma StreamLenFailures(c: Cursor)
    ensures var s := StreamLenOn(c);
      && (Faults(c.faults, 0) ==>
            s.result == Err(c.faults[0].value) && s.cursor.position == c.position
            && s.cursor.log == c.log + [Current(0)])
      && (!Faults(c.faults, 0) && Faults(c.faults, 1) ==>
            s.result == Err(c.faults[1].value) && s.cursor.position == c.position
            && s.cursor.log == c.log + [Current(0), End(0)])
      && (!Faults(c.faults, 0) && !Faults(c.faults, 1) && c.position != c.length && Faults(c.faults, 2) ==>
            s.result == Err(c.faults[2].value) && s.cursor.position == c.length
            && s.cursor.log == c.log + [Current(0), End(0), Start(c.position)])
      && (s.result.Err? <==> Faults(c.faults, 0) || Faults(c.faults, 1) || (c.position != c.length && Faults(c.faults, 2)))
  {
    var here := SeekOn(c, Current(0));
    assert Rest(c.faults) == [] || Rest(c.faults)[0] == c.faults[1];
    if !Faults(c.faults, 0) {
      var end := SeekOn(here.cursor, End(0));
      assert Rest(Rest(c.faults)) == [] || Rest(Rest(c.faults))[0] == c.faults[2];
      assert c.log + [Current(0)] + [End(0)] == c.log + [Current(0), End(0)];
      assert c.log + [Current(0), End(0)] + [Start(c.position)] == c.log + [Current(0), End(0), Start(c.position)];
    }
  }

  // ---------------------------------------------------------------------------
  // Stream positioning
  // ---------------------------------------------------------------------------

  /** `Stream::seek`: the resource's own seek. */
  method Seek(inner: Seeker, from: SeekFrom) returns (r: Result<U64>)
    modifies inner
    ensures Sought(inner.State(), r) == SeekOn(old(inner.State()), from)
  {
    r := inner.Seek(from);
  }

  /** `Stream::rewind`: a seek to the start, whose position is dropped. */
  method Rewind(inner: Seeker) returns (r: Result<()>)
    modifies inner
    ensures var s := SeekOn(old(inner.State()), Start(0));
      && inner.State() == s.cursor
      && r == if s.result.Ok? then Ok(()) else Err(s.result.error)
  {
    var p := Seek(inner, Start(0));
    if p.Err? {
      return Err(p.error);
    }
    return Ok(());
  }

  /** A seek to the start fails only by a scripted fault, and otherwise moves
      to 0. */
  lemma RewindMoves(c: Cursor)
    ensures var s := SeekOn(c, Start(0));
      && (s.result.Ok? <==> !Faults(c.faults, 0))
      && s.cursor.position == if s.result.Ok? then 0 else c.position
  {
  }

  /** The negation of an `i64`, as `-amount` computes it: two's complement,
      so `i64::MIN` is its own negation. */
  function Negate(a: I64): (r: I64)
    ensures a > I64Min ==> r == -a
    ensures a == I64Min ==> r == I64Min
  {
    if a == I64Min then I64Min else -a
  }

  /** `Stream::rewind_exact`: a seek back by `amount` from the current
      position. */
  method RewindExact(inner: Seeker, amount: I64) returns (r: Result<U64>)
    modifies inner
    ensures Sought(inner.State(), r) == SeekOn(old(inner.State()), Current(Negate(amount)))
  {
    r := Seek(inner, Current(Negate(amount)));
  }

  /** `Stream::skip_exact`: a seek forward by `amount` from the current
      position. */
  method SkipExact(inner: Seeker, amount: I64) returns (r: Result<U64>)
    modifies inner
    ensures Sought(inner.State(), r) == SeekOn(old(inner.State()), Current(amount))
  {
    r := Seek(inner, Current(amount));
  }

  /** A seek by `d` from the current position lands on `position + d` when
      that lies in `0 ..= u64::MAX`; a target out of that range fails with
      `InvalidInput` and does not move. */
  lemma SeekRelative(c: Cursor, d: I64)
    requires !Faults(c.faults, 0)
    ensures var s := SeekOn(c, Current(d));
      && (0 <= c.position + d <= U64Max ==> s.result == Ok(c.position + d) && s.cursor.position == c.position + d)
      && (!(0 <= c.position + d <= U64Max) ==> s.result == Err(InvalidInput) && s.cursor.position == c.position)
  {
  }

  /** `rewind_exact` undoes `skip_exact`: skipping `a` bytes and rewinding
      `a` bytes returns to the starting position when `a` is not `i64::MIN`,
      neither seek faults and the skip stays in range. */
  lemma SkipThenRewind(c: Cursor, a: I64)
    requires a > I64Min && !Faults(c.faults, 0) && !Faults(c.faults, 1)
    requires 0 <= c.position + a <= U64Max
    ensures var skip := SeekOn(c, Current(a));
      var back := SeekOn(skip.cursor, Current(Negate(a)));
      && skip.result == Ok(c.position + a)
      && back.result == Ok(c.position) && back.cursor.position == c.position
  {
    var skip := SeekOn(c, Current(a));
    SeekRelative(c, a);
    assert Rest(c.faults) == [] || Rest(c.faults)[0] == c.faults[1];
    SeekRelative(skip.cursor, Negate(a));
  }

  /** Without the first condition the round trip fails: `-i64::MIN` wraps to
      `i64::MIN`, so from a position `p >= 2^63` the skip by `i64::MIN`
      lands on `p - 2^63` and the rewind then seeks back by `i64::MIN`
      again, below 0, failing with `InvalidInput` where it stands. */
  lemma SkipMinNoRoundTrip(c: Cursor)
    requires !Faults(c.faults, 0) && !Faults(c.faults, 1)
    requires c.position >= -I64Min
    ensures var skip := SeekOn(c, Current(I64Min));
      var back := SeekOn(skip.cursor, Current(Negate(I64Min)));
      && skip.result == Ok(c.position + I64Min)
      && back.result == Err(InvalidInput) && back.cursor.position == c.position + I64Min
  {
    var skip := SeekOn(c, Current(I64Min));
    SeekRelative(c, I64Min);
    assert Rest(c.faults) == [] || Rest(c.faults)[0] == c.faults[1];
    SeekRelative(skip.cursor, Negate(I64Min));
  }
}
