# Composite stream I/O and the fiber pool of kon

This project models two sequential parts of the kon async runtime and proves
properties of the models.

**Composite stream I/O.** A `Stream` wraps a resource and builds loops out of
its single-shot primitives. `read_exact` fills a buffer. `read_to_end`
appends to a growable vector. Whenever a pass's main read, into the vector's
spare capacity, fills that capacity exactly, it probes with a 32-byte scratch
read. A probe is never followed by another probe, even when its bytes leave
the vector exactly full. `write_exact` writes a whole buffer. All
three follow the same rules:

- a primitive that moves 0 bytes stops the loop;
- an `Interrupted` error stops the loop;
- any other error is returned at once;
- after the loop, `check_interrupt` is consulted only when no byte moved.

The `Seek` defaults `stream_position` and `stream_len`, and the stream's
`seek`, `rewind`, `rewind_exact` and `skip_exact`, are short fixed sequences
of primitive seeks.

**The fiber pool.** It counts the fibers in use and keeps a LIFO stack of
idle fibers. `new_fiber` counts a fiber in and reuses the top idle fiber, or
allocates a fresh one. `exit_fiber` counts a fiber out and keeps it only
while the stack is below `count * 20 / 100 + 16` for the remaining count.

Modules:

- `IoCore` (`io_core.dfy`) holds the shared vocabulary:
  - byte and error types, `u64`/`i64` ranges and `SeekFrom`;
  - the scripted primitives: a resource that still holds `data` answers each
    call by the next entry of its script, `Give(limit)` or `Fail(kind)`;
  - the interrupt oracle `CancelPlan`, the context becoming interrupted after
    a given number of queries;
  - the trace of events a composite operation records: polls, reads, probes,
    writes, growths and checks;
  - `Conclude`, the common end of the three loops.
- `IoResources` (`io_resources.dfy`) holds the mutable resources as classes:
  - `Context`, `Reader`, `Writer`, `ByteVec` and `Seeker`, each primitive a
    method tied to its reply function in `IoCore`;
  - `Finish` and `EndLoop`, the post-loop code.
- `StreamRead`, `StreamWrite` and `StreamSeek` hold the stream operations:
  - each loop is a method with a `while` loop, proved to end in the state and
    result that a recursive specification function computes (`...Loop`,
    `...Run`);
  - the lemmas state what those functions promise: byte preservation,
    termination, error surfacing and interrupt handling.
- `FiberPool` (`fiber_pool.dfy`) holds the pool:
  - a `Pool` class updated in place, each method tied to a step function on
    `PoolState` values;
  - lemmas on single steps, on runs of calls (`Replay`) and on a retention
    bound that the class keeps as its invariant.

Points where the model makes a choice, or where the behaviour may surprise:

- **Interrupted reads.** An `Interrupted` error from a primitive, before any
  byte moved, does not by itself fail the operation. The loop stops, and
  `check_interrupt` fails only if the context is itself interrupted.
  Otherwise the result is `Ok(0)` (`ReadExactSpuriousInterrupt`).
- **Retention bound.** The retention rule bounds the idle stack only at the
  moment of a push. After an `exit_fiber` the stack can be larger than the
  ideal size for the new count: 22 `new_fiber` calls then 18 `exit_fiber`
  calls leave 17 idle fibers, while the ideal size for 4 is 16
  (`IdleMayExceedIdeal`). What does hold is a bound by the ideal size for the
  largest count reached (`Retained`).
- **Failed restoring seek.** A `stream_len` whose restoring seek fails
  returns that error with the position left at the end
  (`StreamLenFailures`).
- **Integer overflow.** Rust panics on arithmetic overflow in a debug build
  and wraps around in a release build. The model treats the three places
  where overflow can occur as follows:
  - `count * 20` in `calculate_ideal` wraps at 2^64, as in a release build.
    A debug build would panic there, but only for counts above
    `u64::MAX / 20`, the range where the wrap also matters.
  - `-amount` in `rewind_exact` wraps, as in a release build, so `i64::MIN`
    is its own negation (`Negate`). A debug build panics for `i64::MIN`.
    As a consequence `rewind_exact(i64::MIN)` does not undo
    `skip_exact(i64::MIN)`: from a position `p >= 2^63` the skip lands on
    `p - 2^63` and the rewind fails with `InvalidInput`
    (`SkipMinNoRoundTrip`).
  - `count += 1` and `count -= 1` in the pool are modelled in neither
    profile. `NewFiber` requires `count < u64::MAX` and `ExitFiber` requires
    `count > 0`, which excludes both outcomes: the debug panic, and the
    release wrap, under which `exit_fiber` at count 0 leaves the count at
    `u64::MAX` and the pool running. In runs of calls, `Replay` gives `None`
    for a call that would overflow or underflow, whichever the profile.
- **Vector growth.** The allocator's over-allocation is a parameter: a
  growth gives `len + additional + slack` for the next `slack` of a given
  sequence.

## Model

| member | source | states |
|---|---|---|
| IoCore.ReadReply | src/async_std/io/mod.rs:24-29 | a primitive read never delivers more than its slice or than the resource holds |
| IoCore.ReadReplyFacts | src/async_std/io/mod.rs:24-29 | delivered bytes are the front of the resource; an empty delivery means an empty slice, an exhausted resource or a scripted 0; an error comes only from a scripted failure |
| IoCore.WriteReply | src/async_std/io/mod.rs:32-36 | a primitive write accepts at most its slice; 0 only for an empty slice or a scripted 0; an error only from a scripted failure |
| IoCore.SeekTarget | src/async_std/io/mod.rs:44 | `Start(n)` lands on `n`; `End(d)` lands on `len + d` and `Current(d)` on `pos + d`, each succeeding exactly when that target is in `0 ..= u64::MAX`; every failure is `InvalidInput` |
| IoCore.SeekOn | src/async_std/io/mod.rs:44 | a seek fails only on a fault or a bad target; it moves to its result on success and stays put on failure; the length never changes; every seek is logged |
| IoCore.CancelAfter | src/async_std/io/mod.rs:108 | once the context is interrupted it stays interrupted |
| IoCore.ReadEventFacts | src/async_std/io/mod.rs:109-118 | a read ends the loop iff it failed or delivered nothing; it is a hard failure iff its error is not `Interrupted` |
| IoCore.ConcludeOutcome | src/async_std/io/mod.rs:122-126 | after a loop a hard failure is returned as it is; otherwise the count moved is returned; `check_interrupt` is added iff nothing moved and nothing failed, and then gives `Err(Interrupted)` iff the context is interrupted; nothing but that check follows the event that ended the loop |
| IoCore.Conclude | src/async_std/io/mod.rs:122-126 | the post-loop rule shared by the three loops: a hard failure ending the loop is the result; a count of 0 consults `check_interrupt`; any other count is `Ok(count)` (its properties are `ConcludeOutcome`'s) |
| IoResources.Context.IsInterrupted | src/async_std/io/mod.rs:108 | reports the oracle's state and counts one query |
| IoResources.Context.CheckInterrupt | src/async_std/io/mod.rs:123 | fails with `Interrupted` exactly when the context is interrupted, and counts one query |
| IoResources.Reader.Read | src/async_std/io/mod.rs:98-100 | returns the scripted reply and removes the delivered bytes from the front of the resource |
| IoResources.Reader.ReadInto | src/async_std/io/mod.rs:109 | as `Read`, and writes the delivered bytes into `buf[at..]`; by assumption it leaves the rest of the buffer as it was |
| IoResources.Writer.Write | src/async_std/io/mod.rs:198-200 | the resource accepts the first `n` bytes of the chunk, exactly those it reports; a failed write accepts nothing |
| IoResources.ByteVec.Reserve | src/async_std/io/mod.rs:139-141 | keeps the items; grows only when the spare room is short, to `len + additional + slack`; always leaves room for `additional` |
| IoResources.ByteVec.FillSpare | src/async_std/io/mod.rs:146-148 | `set_len` over the bytes read into the spare capacity appends exactly them |
| IoResources.ByteVec.ExtendFromSlice | src/async_std/io/mod.rs:165 | appends the slice, growing a vector without room by the slice's length plus slack |
| IoResources.Seeker.Seek | src/async_std/io/mod.rs:44 | the resource's state after a seek is the one `SeekOn` gives |
| IoResources.Finish | src/async_std/io/mod.rs:122-126 | the end of the loop: the result and the context are those `Conclude` gives |
| IoResources.EndLoop | src/async_std/io/mod.rs:179-185 | the end of `read_to_end`: a hard failure is returned, otherwise the result and the context are those `Conclude` gives |
| StreamRead.ReadExactNext | src/async_std/io/mod.rs:108-111 | a pass polls, then reads into the unfilled suffix; the bytes delivered move from the front of the resource to the end of those collected, never past the buffer |
| StreamRead.ReadExactFrom | src/async_std/io/mod.rs:108-120 | the `while` loop of `read_exact`: stop on a full buffer or an interrupted poll, else read and go on only if the read moved bytes (its properties are the `ReadExactFrom...` lemmas) |
| StreamRead.ReadExactLoop | src/async_std/io/mod.rs:106-120 | that loop from `read = 0` with nothing recorded |
| StreamRead.ReadExactRun | src/async_std/io/mod.rs:105-126 | the loop followed by the post-loop rule `Conclude` on the count read |
| StreamRead.ReadExactFromFits | src/async_std/io/mod.rs:108-111 | the loop never collects more than the buffer holds |
| StreamRead.ReadExactFromTakes | src/async_std/io/mod.rs:109-111 | collected plus remaining bytes always equal what the resource held |
| StreamRead.ReadExactFromReceives | src/async_std/io/mod.rs:109-111 | the collected bytes are the reads' deliveries, concatenated in order |
| StreamRead.ReadExactFromKinds | src/async_std/io/mod.rs:108-109 | the loop only polls and reads |
| StreamRead.ReadExactFromEndsLast | src/async_std/io/mod.rs:108-118 | an interrupted poll, a failed read or a read of 0 can only be the loop's last event |
| StreamRead.ReadExactFromStopsShort | src/async_std/io/mod.rs:108-118 | a loop that stops before the buffer is full stops on one of those events |
| StreamRead.ReadExactFromPolls | src/async_std/io/mod.rs:108-109 | every read directly follows a poll that found the context not interrupted, and gets a non-empty slice |
| StreamRead.ReadExactTransfers | src/async_std/io/mod.rs:105-126 | `read_exact` collects the front of the resource in read order, never more than the buffer; a success returns that count |
| StreamRead.ReadExactLoopShape | src/async_std/io/mod.rs:108-120 | the loop's trace: only its last event may end it, no `check_interrupt` inside, every read polled, and a short buffer means it ended on such an event |
| StreamRead.ReadExactOutcome | src/async_std/io/mod.rs:105-126 | every read is polled; nothing but `check_interrupt` follows the ending event; hard failures are returned at once and are the only non-interrupt errors; `check_interrupt` runs iff nothing was read and nothing failed; `Err(Interrupted)` iff that `check_interrupt` found the context interrupted |
| StreamRead.ReadExactInterruptedFirst | src/async_std/io/mod.rs:108-126 | interrupted beforehand: no read at all, result `Err(Interrupted)`, for any buffer size including 0 |
| StreamRead.ReadExactSpuriousInterrupt | src/async_std/io/mod.rs:113-126 | an `Interrupted` first read on a context that is not interrupted gives `Ok(0)` |
| StreamRead.ReadExactShortLoop | src/async_std/io/mod.rs:108-111 | reads of 3, 4 and 0 bytes into 10 make three passes and stop after the 0 |
| StreamRead.ReadExactShortExample | src/async_std/io/mod.rs:105-126 | reads of 3, 4 and 0 bytes into 10 give `Ok(7)` with the first 7 bytes and no `check_interrupt` |
| StreamRead.ReadExactPass | src/async_std/io/mod.rs:108-119 | one pass of the method is the step `ReadExactNext` describes, or a lone interrupted poll |
| StreamRead.ReadExact | src/async_std/io/mod.rs:105-127 | the method's result, resource, context and buffer are those `ReadExactLoop` and `ReadExactRun` give; the buffer holds the bytes read at its front (the rest is untouched only because the primitive read is modelled as writing nothing else) |
| StreamRead.ReadToEndMain | src/async_std/io/mod.rs:143-148 | the main read goes into the spare capacity and its bytes are appended from the front of the resource |
| StreamRead.ReadToEndProbe | src/async_std/io/mod.rs:159-166 | the probe reads up to 32 bytes and appends them, growing the full vector only if some arrived |
| StreamRead.ReadToEndOpen | src/async_std/io/mod.rs:136-141 | after the opening a main read always has non-empty spare room |
| StreamRead.ReadToEndNext | src/async_std/io/mod.rs:135-176 | a pass only appends, preserves the bytes, polls once, and consumes bytes unless it ends the loop |
| StreamRead.ReadToEndNextFacts | src/async_std/io/mod.rs:135-176 | a pass starts with a poll, keeps the ordering rules, holds no `check_interrupt`, may end the loop only on its last event, and appends what it read |
| StreamRead.ReadToEndFrom | src/async_std/io/mod.rs:135-177 | the loop leaves the vector within its capacity and never shortens it |
| StreamRead.ReadToEndLoop | src/async_std/io/mod.rs:133-177 | the `while` loop of `read_to_end` from the vector the caller passed, nothing recorded |
| StreamRead.ReadToEndRun | src/async_std/io/mod.rs:132-185 | that loop followed by `Conclude` on `buf.len() - start_len` |
| StreamRead.ReadToEndFromTakes | src/async_std/io/mod.rs:146-166 | items plus remaining bytes always equal what the vector and the resource held |
| StreamRead.ReadToEndFromReceives | src/async_std/io/mod.rs:146-166 | the loop appends exactly the main reads' and probes' deliveries in order, leaving the old contents as they were |
| StreamRead.ReadToEndFromRules | src/async_std/io/mod.rs:135-177 | the loop keeps the ordering rules, makes no `check_interrupt`, and stops only on an ending event (its last) |
| StreamRead.ReadToEndPassFacts | src/async_std/io/mod.rs:135-176 | from an empty trace, one pass obeys the rules and appends what it read |
| StreamRead.ReadToEndTransfers | src/async_std/io/mod.rs:133-185 | `buf[..start_len]` is unchanged; the appended bytes are the resource's front in read order; a success returns `buf.len() - start_len` |
| StreamRead.PassProbedAfterFill | src/async_std/io/mod.rs:143-162 | within one pass, a main read that fills the spare capacity is followed at once by the probe |
| StreamRead.ReadToEndFromProbes | src/async_std/io/mod.rs:135-177 | over the whole loop, every main read that fills the spare capacity is followed at once by the probe |
| StreamRead.ReadToEndProbeRule | src/async_std/io/mod.rs:143-162 | the probe rule both ways over the loop's trace: an event is a probe exactly when the event before it is a main read that filled its slice, and the trace never ends on such a read |
| StreamRead.ReadToEndLoopShape | src/async_std/io/mod.rs:135-177 | the loop's trace obeys the growth and probe rules, holds no `check_interrupt`, and ends on its only ending event |
| StreamRead.ReadToEndRunShape | src/async_std/io/mod.rs:132-185 | the whole trace obeys the rules, contains an ending event, and nothing but `check_interrupt` follows it |
| StreamRead.ReadToEndOutcome | src/async_std/io/mod.rs:149-185 | hard failures are returned at once and are the only non-interrupt errors; `check_interrupt` runs iff nothing was appended and nothing failed; `Err(Interrupted)` iff that `check_interrupt` found the context interrupted |
| StreamRead.ReadToEndInterruptedFirst | src/async_std/io/mod.rs:135-185 | interrupted beforehand: no read, the vector unchanged, result `Err(Interrupted)` |
| StreamRead.ReadToEndProbeExample | src/async_std/io/mod.rs:135-177 | 40 bytes into an empty vector: reserve 32, fill it, probe 8, grow to 40, then reserve 32 more and read 0 |
| StreamRead.ReadToEndProbeExampleResult | src/async_std/io/mod.rs:179-185 | that run returns `Ok(40)` without `check_interrupt` |
| StreamRead.ReadToEndSpare | src/async_std/io/mod.rs:143-148 | the main read of the method is the step `ReadToEndMain` describes |
| StreamRead.ReadToEndProbeRead | src/async_std/io/mod.rs:159-176 | the probe of the method is the step `ReadToEndProbe` describes |
| StreamRead.ReadToEndRound | src/async_std/io/mod.rs:136-176 | the body of a pass of the method past the poll is the step `ReadToEndNext` describes |
| StreamRead.ReadToEndPass | src/async_std/io/mod.rs:135-176 | one pass of the method is that step, or a lone interrupted poll |
| StreamRead.ReadToEndDrive | src/async_std/io/mod.rs:135-177 | the method's loop ends in the state `ReadToEndFrom` gives |
| StreamRead.ReadToEnd | src/async_std/io/mod.rs:132-186 | the method's result, resource, context and vector are those `ReadToEndLoop` and `ReadToEndRun` give |
| StreamWrite.WriteExactNext | src/async_std/io/mod.rs:210-212 | a pass writes the unwritten rest; the bytes the resource accepts are the next ones of the buffer |
| StreamWrite.WriteExactFrom | src/async_std/io/mod.rs:209-221 | the `while` loop of `write_exact`: stop when all is written, else write the rest and go on only if the write accepted bytes (its properties are the `WriteExactFrom...` lemmas) |
| StreamWrite.WriteExactLoop | src/async_std/io/mod.rs:207-221 | that loop from `wrote = 0` with nothing recorded |
| StreamWrite.WriteExactRun | src/async_std/io/mod.rs:206-227 | the loop followed by `Conclude` on the count written |
| StreamWrite.WriteExactFromSinks | src/async_std/io/mod.rs:209-221 | the resource receives the buffer's front, in order, never past its end |
| StreamWrite.WriteExactFromWrites | src/async_std/io/mod.rs:209-210 | the loop only writes, never polls, and every write gets a non-empty slice |
| StreamWrite.WriteExactFromEndsLast | src/async_std/io/mod.rs:209-221 | a failed write or one of 0 bytes can only be the last event |
| StreamWrite.WriteExactFromStopsShort | src/async_std/io/mod.rs:209-221 | a loop that stops before the whole buffer is written stops on one of those |
| StreamWrite.WriteExactTransfers | src/async_std/io/mod.rs:206-227 | the resource receives the first `wrote` bytes of the buffer, `wrote <= buf.len()`, and a success returns `wrote` |
| StreamWrite.WriteExactLoopShape | src/async_std/io/mod.rs:209-221 | the loop's trace holds writes alone, ends only on its last event, and a short write means it ended on one |
| StreamWrite.WriteExactOutcome | src/async_std/io/mod.rs:206-227 | no poll anywhere; hard failures are returned at once and are the only non-interrupt errors; `check_interrupt` runs iff nothing was written and nothing failed, giving `Err(Interrupted)` or `Ok(0)` |
| StreamWrite.WriteExactZeroFirst | src/async_std/io/mod.rs:210-227 | a first write of 0 gives `Ok(0)` unless the context is interrupted |
| StreamWrite.WriteExactEmpty | src/async_std/io/mod.rs:209-227 | an empty buffer makes no write, and only `check_interrupt` decides the result |
| StreamWrite.WriteExactPass | src/async_std/io/mod.rs:210-220 | one pass of the method is the step `WriteExactNext` describes |
| StreamWrite.WriteExact | src/async_std/io/mod.rs:206-228 | the method's result, resource and context are those `WriteExactLoop` and `WriteExactRun` give |
| StreamSeek.StreamLenFast | src/async_std/io/mod.rs:48-50 | the default never claims a cheap length |
| StreamSeek.StreamPosition | src/async_std/io/mod.rs:71-73 | exactly one seek, by `Current(0)` |
| StreamSeek.StreamPositionReports | src/async_std/io/mod.rs:71-73 | that seek reports the position without moving, and fails only on a fault |
| StreamSeek.StreamLenOn | src/async_std/io/mod.rs:53-62 | `stream_len` on values: `Current(0)`, then `End(0)`, then `Start(old)` only when `old != len`, the first failure returned (its properties are `StreamLenRestores` and `StreamLenFailures`) |
| StreamSeek.StreamLen | src/async_std/io/mod.rs:53-62 | the method's resource and result are those `StreamLenOn` gives |
| StreamSeek.StreamLenRestores | src/async_std/io/mod.rs:53-62 | without faults: returns the length, the position is restored, and the seeks are `Current(0)`, `End(0)` and `Start(old)` only when `old != len` |
| StreamSeek.StreamLenFailures | src/async_std/io/mod.rs:54-58 | the first failing seek's error is returned and no seek follows it; the position stays put unless the restoring seek failed, which leaves it at the end; an error occurs iff one of the seeks made faulted |
| StreamSeek.Seek | src/async_std/io/mod.rs:248-250 | the stream's seek is the resource's seek |
| StreamSeek.Rewind | src/async_std/io/mod.rs:252-256 | a single `Start(0)` seek whose position is dropped |
| StreamSeek.RewindMoves | src/async_std/io/mod.rs:252-256 | it fails only on a fault and otherwise moves to 0 |
| StreamSeek.Negate | src/async_std/io/mod.rs:259 | `-amount` is the negation, except that `i64::MIN` maps to itself |
| StreamSeek.RewindExact | src/async_std/io/mod.rs:258-260 | a single `Current(-amount)` seek |
| StreamSeek.SkipExact | src/async_std/io/mod.rs:262-264 | a single `Current(amount)` seek |
| StreamSeek.SeekRelative | src/async_std/io/mod.rs:262-264 | a relative seek lands on `position + d` when that is in range, and fails with `InvalidInput` without moving otherwise |
| StreamSeek.SkipThenRewind | src/async_std/io/mod.rs:258-264 | `rewind_exact(a)` after `skip_exact(a)` returns to the starting position when `a > i64::MIN`, neither seek faults and `position + a` is in `0 ..= u64::MAX` |
| StreamSeek.SkipMinNoRoundTrip | src/async_std/io/mod.rs:258-264 | for `a == i64::MIN` from a position `p >= 2^63` the skip lands on `p - 2^63` and the rewind fails with `InvalidInput` without moving |
| FiberPool.Fiber.constructor | src/fiber/pool.rs:37 | a fresh fiber bound to `start` |
| FiberPool.Ideal | src/fiber/pool.rs:40-44 | `calculate_ideal` in `u64`, the product wrapping at 2^64 (its properties are `IdealFloor` and `IdealMonotone`) |
| FiberPool.IdealFloor | src/fiber/pool.rs:40-44 | the ideal size is at least 16, and is the exact `count * 20 / 100 + 16` wherever the product does not wrap |
| FiberPool.IdealMonotone | src/fiber/pool.rs:40-44 | the ideal size does not decrease as the count grows |
| FiberPool.NewFiberStep | src/fiber/pool.rs:21-38 | `new_fiber` on values: count in, pop the top idle fiber if any (its properties are `NewFiberTakes`, `ExitThenNew` and `NewFiberKeepsRetained`) |
| FiberPool.ExitFiberStep | src/fiber/pool.rs:46-56 | `exit_fiber` on values: count out, push while below the ideal for the new count (its properties are `ExitFiberRetains` and `ExitFiberKeepsRetained`) |
| FiberPool.NewFiberTakes | src/fiber/pool.rs:21-38 | the count grows by exactly one; a non-empty stack gives up its top fiber and shrinks by one; an empty one stays empty and a fresh fiber is made |
| FiberPool.ExitFiberRetains | src/fiber/pool.rs:46-56 | the count drops by exactly one; the fiber is pushed iff the stack is below the ideal for the new count; after a push the size is within that ideal; otherwise the stack is unchanged; in all cases the size is at most the larger of the old size and the ideal |
| FiberPool.ExitThenNew | src/fiber/pool.rs:26-35 | LIFO: a fiber just retained is the next one reused, and reusing it restores the pool |
| FiberPool.NewThenExit | src/fiber/pool.rs:26-55 | reusing the top fiber and retiring it again restores a pool within its ideal |
| FiberPool.NewFiberKeepsRetained | src/fiber/pool.rs:24-35 | `new_fiber` keeps the idle stack within the ideal size for the largest count reached |
| FiberPool.ExitFiberKeepsRetained | src/fiber/pool.rs:49-55 | `exit_fiber` keeps that bound |
| FiberPool.Apply | src/fiber/pool.rs:21-56 | one `new_fiber` or `exit_fiber` call on values, `None` when its counter update would overflow or underflow |
| FiberPool.Replay | src/fiber/pool.rs:21-56 | a run of such calls in order, `None` as soon as one is (its properties are `ReplayCounts`, `FiveInFiveOut` and `IdleMayExceedIdeal`) |
| FiberPool.ReplayCounts | src/fiber/pool.rs:24-49 | over any run whose counter updates neither overflow nor underflow, `count` is the starting count plus the `new_fiber` calls minus the `exit_fiber` calls, and the exits never outnumber them |
| FiberPool.NewsFromEmpty | src/fiber/pool.rs:21-38 | `new_fiber` on a pool with nothing idle only counts |
| FiberPool.RoomForWithin | src/fiber/pool.rs:51-55 | consecutive exits all push when the final size fits the last ideal |
| FiberPool.ExitsPushAll | src/fiber/pool.rs:46-56 | consecutive exits with room push every fiber, in order |
| FiberPool.FiveInFiveOut | src/fiber/pool.rs:17-55 | from a new pool, five `new_fiber` then five `exit_fiber` end with count 0 and all five fibers idle |
| FiberPool.IdleMayExceedIdeal | src/fiber/pool.rs:46-56 | 22 `new_fiber` then 18 `exit_fiber` leave count 4 and 17 idle fibers, above the ideal 16 |
| FiberPool.Pool.constructor | src/fiber/pool.rs:17-19 | a new pool has nothing in use and nothing idle |
| FiberPool.Pool.NewFiber | src/fiber/pool.rs:21-38 | the pool's new state and the fiber returned are those `NewFiberStep` gives: the reused top fiber or a fresh one, bound to `start`; the retention bound is kept |
| FiberPool.Pool.ExitFiber | src/fiber/pool.rs:46-56 | the pool's new state is the one `ExitFiberStep` gives, and the retention bound is kept |

## Left out

- `Stream::flush`, `Write::flush` and `Close`: single forwarding calls with no logic of their own.
- The `Lines` iterator, `BufReader` and the rest of the `buf` module: the `buf` module is not part of this model.
- `stream_position_fast` and the stream's forwarding `stream_len_fast`, `stream_len`, `read` and `write`, and the `Deref`/`DerefMut` impls: they only forward to the resource.
- The async context that each primitive call receives: the model is sequential, and the only context it observes is the interrupt oracle.
- The pool's `Mutex`: both methods take the pool exclusively, so it never blocks.
- `trace!` logging in `new_fiber`.
- `Fiber::new` and `set_start` internals, which allocate a stack and switch contexts: a fiber is an object with a `start` field.
- Dropping a fiber that `exit_fiber` does not retain: the model lets it go without freeing anything explicitly.
- The real `Vec::reserve` policy: capacity grows to `len + additional` plus an arbitrary slack from a given sequence.
- Errors other than `Interrupted` and `InvalidInput` are one kind with a code; their meaning is not modelled.
- FiberPool.IdealMonotone: stated only below `u64::MAX / 20`, because beyond it the product wraps and the ideal size really does drop.
- FiberPool.Pool.NewFiber: requires `count < u64::MAX`, so neither the debug-build panic nor the release-build wrap of `count += 1` is modelled.
- FiberPool.Pool.ExitFiber: requires `count > 0`, so neither the debug-build panic nor the release-build wrap of `count -= 1` (to `u64::MAX`, the pool going on) is modelled.
- IoCore.ReadReply: assumes a primitive read reports at most the length of the slice it was handed (and of what the resource holds). `Read::read` documents only that 0 means end of file, and the loops use the count unchecked (`read += n`, `buf.set_len(len + read)`, `&probe[0..read]`). A resource that reports more would make `read_exact` return more than `buf.len()`, make `read_to_end` set a length past the capacity, and make the probe's slice panic. The bounds in `StreamRead.ReadExactTransfers` and `StreamRead.ReadToEndTransfers` rest on this assumption.
- IoCore.WriteReply: assumes a primitive write reports at most the length of the slice it was handed. `Write::write` does not promise this, and `wrote += n` uses the count unchecked, so a resource that reports more would make `write_exact` return more than `buf.len()`. The bound in `StreamWrite.WriteExactTransfers` rests on this assumption.
- IoResources.Reader.ReadInto: assumes a primitive read writes exactly the bytes it reports into the front of its slice, and nothing when it fails. `Read::read` takes `&mut [u8]` and does not promise this; a resource may write anywhere in the slice it is handed. So the clause of `StreamRead.ReadExact` that the buffer past the bytes read is untouched depends on that assumption. That the first `n` bytes of the buffer hold the reads' bytes in order does not.
- StreamRead.ReadToEndFrom: a resource holds finitely many bytes, so every modelled run of `read_to_end` ends (the loop measure is the bytes left). Endless resources, such as a stream that never returns 0, are not modelled. On such a resource with a context that is never interrupted, the loop at `src/async_std/io/mod.rs:135-177` never ends: it keeps reading and reserves 32 more bytes each time the vector fills, until allocation fails. `read_exact` and `write_exact` end on any resource, since each pass that goes on moves at least one byte of a finite buffer.
