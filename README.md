# Channel: the per-descriptor event handle of the Imagine_Muduo reactor

In the Imagine_Muduo reactor, each file descriptor an event loop watches is held by a `Channel`. This project models `Channel` (src/Channel.cpp) in Dafny and proves what its sequential operations do. The modelled operations are:

- the epoll interest mask (`events_`) and the ready set (`revents_`), and the operations that change them;
- the decoder `ProcessIovec`, which reads the control block a callback returns and frees that callback's buffers;
- the scatter-gather `Send` loop, which rewrites the caller's `iovec` array in place;
- dispatch in `DefaultEventHandler`;
- the listening handle's admission of new connections;
- the timer handle's drain of expired timers;
- `Create`'s choice of initial mask and its argument check.

`Channel` is a Dafny class whose fields mirror the C++ members. Its methods carry `modifies` clauses down to the field. Each channel has a ghost `trace` that records, in order, every mask pushed to the owning loop (`Update`), every buffer freed and every timer run, reinserted or deleted. That is how the contracts state side effects. The owning loop is a small class holding the channel count, its ceiling, the callbacks it hands to new connections and a ghost list of the channels registered with its poller. Masks are `bv32` with the Linux epoll values; `EPOLLET` is bit 31, the sign bit of the C `int`.

Files, one module each:

- `epoll.dfy` (`Epoll`): the flag constants, the re-arm masks, and setting or clearing one bit.
- `effects.dfy` (`Effects`): the entries of the ghost trace, and abstract timers.
- `framing.dfy` (`Framing`): the control-block layout. It has the next-watch mask and the release walk as functions, with lemmas stating exactly what gets freed.
- `scatter.dfy` (`Scatter`):
  - `iovec` blocks and the byte stream they describe;
  - one write's accounting, as a function (`Advance`) and as an in-place method (`ApplyWrite`), and the same with line 303 corrected (`AdvanceFixed`, `ApplyWriteFixed`);
  - the send loop as a specification function: `SendRun` as written, `SendRunFixed` corrected;
  - the delivery lemmas.
- `timers.dfy` (`Timers`): the fate of each expired timer, and counting and ordering lemmas about the drain.
- `channel.dfy` (`Reactor`): the `EventLoop` stand-in and the `Channel` class.

The kernel's `writev` is a parameter `writev: seq<IoVec> -> WriteReply`. `Admissible` restricts it to replies that never report more bytes than are pending and that write at least one byte when bytes are pending. Each `Send` method is proved against its specification function: its `ensures` gives the new array contents and the new fields in terms of `SendRun` (or `SendRunFixed`) of the old array, and the lemmas in `Scatter` prove what those functions deliver.

## Model

| member | source | states |
|---|---|---|
| Epoll.SetBit | src/Channel.cpp:42-52 | OR-ing a bit into the mask sets that bit and leaves every other bit as it was |
| Epoll.ClearBit | src/Channel.cpp:54-64 | AND-ing the mask with the bit's complement clears that bit and leaves every other bit as it was |
| Epoll.SetBitIdempotent | src/Channel.cpp:42-52 | enabling a bit twice leaves the same mask as enabling it once |
| Epoll.ClearBitIdempotent | src/Channel.cpp:54-64 | disabling a bit twice leaves the same mask as disabling it once |
| Reactor.Channel.EnableRead | src/Channel.cpp:42-46 | the new mask is the old one with EPOLLIN set; exactly one push of the new mask |
| Reactor.Channel.EnableWrite | src/Channel.cpp:48-52 | the new mask is the old one with EPOLLOUT set; exactly one push |
| Reactor.Channel.DisableRead | src/Channel.cpp:54-58 | the new mask is the old one with EPOLLIN cleared; exactly one push |
| Reactor.Channel.DisableWrite | src/Channel.cpp:60-64 | the new mask is the old one with EPOLLOUT cleared; exactly one push |
| Reactor.Channel.SetRevents | src/Channel.cpp:66-71 | stores the ready set; nothing else changes and nothing is pushed |
| Reactor.Channel.SetEvents | src/Channel.cpp:73-79 | replaces the whole mask and pushes the new mask exactly once |
| Reactor.Channel.Update | src/Channel.cpp:265-268 | one push of the current mask to the owning loop is appended to the trace |
| Reactor.EventLoop.AddChannel | src/Channel.cpp:371 | the channels registered with the loop's poller gain exactly the new one, at the end; nothing else changes |
| Reactor.EventLoop.AddChannelnum | src/Channel.cpp:372 | the loop's channel count rises by exactly one; nothing else changes |
| Reactor.Channel.constructor | src/Channel.cpp:199 | a new channel belongs to the given loop, has no descriptors (-1), empty masks, cleared flags, unset handlers and callbacks, and an empty trace |
| Reactor.Channel.SetReadCallback | src/Channel.cpp:17-20 | the read callback slot holds the given callback |
| Reactor.Channel.SetWriteCallback | src/Channel.cpp:22-25 | the write callback slot holds the given callback |
| Reactor.Channel.SetCommunicateCallback | src/Channel.cpp:37-40 | the communicate callback slot holds the given callback |
| Framing.NextWatch | src/Channel.cpp:127-138 | the next-watch mask is exactly one of 0, EPOLLIN, EPOLLOUT; it has EPOLLIN iff the watch-read byte is '1', and EPOLLOUT iff the watch-read byte is not '1' and the watch-write byte is '1' |
| Framing.Releases | src/Channel.cpp:140-144 | definition, no contract of its own: the downward walk over payload blocks `hi` to `lo`, freeing those whose flag byte is '1'; its properties are proved by `ReleasesMembers`, `ReleasesDescending` and `ReleasesIgnoreFlagZero` |
| Framing.ReleasePlan | src/Channel.cpp:140-147 | definition, no contract of its own: the walk over blocks `block_num-1` to 1, then block 0's buffer, then the array; its properties are proved by `ReleasePlanExact`, and `ReleaseBlocks` and `ProcessIovec` are proved to append exactly it |
| Framing.ReleasesMembers | src/Channel.cpp:140-144 | the walk frees only payload blocks, and frees block `i` exactly when `lo <= i <= hi` and flag byte `i` is '1' |
| Framing.ReleasesDescending | src/Channel.cpp:140-144 | the walk frees blocks in strictly descending order, so none twice |
| Framing.ReleasePlanExact | src/Channel.cpp:140-147 | payload block `i` is freed iff `1 <= i < block_num` and flag byte `i` is '1'; no free happens twice; the last two frees are block 0's buffer and then the array |
| Framing.ReleasesIgnoreFlagZero | src/Channel.cpp:140-144 | flag byte 0 is never consulted: changing it changes nothing that is freed |
| Reactor.Channel.ReleaseBlocks | src/Channel.cpp:140-147 | the downward loop appends exactly the release plan to the trace |
| Reactor.Channel.ProcessIovec | src/Channel.cpp:114-148 | a null array changes no field. Otherwise: `alive` iff byte `block_num` is '1'; `clear_readbuf` iff byte `block_num+1` is not '1'; the next-watch mask is `NextWatch` of bytes `block_num+2` and `+3`; the trace gains exactly the release plan |
| Reactor.Channel.DefaultEventHandler | src/Channel.cpp:342-346 | at most one handler per call; the read handler iff EPOLLIN is ready and one is set; otherwise the write handler iff EPOLLOUT is ready and one is set |
| Scatter.Fits | src/Channel.cpp:281 | definition, no contract of its own: a reply fits `total` pending bytes when a successful write takes at most `total` bytes, and at least one when any are pending; `AdvanceProgress` relies on it |
| Scatter.Admissible | src/Channel.cpp:281 | definition, no contract of its own: the `writev` oracle fits every array it is given; `SendRun`, `SendRunFixed`, `Send` and `SendAll` demand it |
| Scatter.Shift | src/Channel.cpp:294-295 | definition, no contract of its own: a block advanced by `k` bytes keeps its buffer, starts `k` later and is `k` shorter; `BytesShift` proves it holds exactly the block's bytes after the first `k` |
| Scatter.Advance | src/Channel.cpp:293-310 | definition, no contract of its own: one write's in-place accounting, from the cursor block onward; its properties are proved by `AdvanceShape`, `AdvanceStream`, `AdvanceProgress` and `AdvanceAllSentIsDone`, and `ApplyWrite` is proved to compute it |
| Scatter.AdvanceShape | src/Channel.cpp:293-310 | one write's accounting: the cursor only moves forward and stays below `len`; blocks it passes are emptied; other blocks are untouched; offsets only grow and lengths only shrink; unless completion is reported, the cursor block still has bytes |
| Scatter.AdvanceStream | src/Channel.cpp:293-310 | unless completion is reported, exactly the first `k` pending bytes leave the stream; on completion, what follows the cursor block is exactly what the write did not take |
| Scatter.AdvanceStreamRest | src/Channel.cpp:293-310 | unless completion is reported, the stream from the new cursor is exactly the old one without its first `k` bytes |
| Scatter.AdvanceStreamDone | src/Channel.cpp:297-306 | when completion is reported, what follows the cursor block is exactly the old stream without its first `k` bytes |
| Scatter.AdvanceProgress | src/Channel.cpp:281-310 | if only emptied blocks lie below the cursor, a write of `k` pending bytes keeps that true; without completion, the total remaining drops by exactly `k`, and by at least one |
| Scatter.AdvanceAllSentIsDone | src/Channel.cpp:297-306 | a write that takes every pending byte always reports completion |
| Scatter.ApplyWrite | src/Channel.cpp:293-310 | the in-place rewrite of the array leaves exactly the blocks, the cursor and the completion flag of `Advance`, and touches nothing past `len` |
| Scatter.FinishBlock | src/Channel.cpp:303-307 | emptying the block a completing write ended on leaves exactly the bytes after that write pending, with the cursor one block on |
| Scatter.FinishedLeavesRest | src/Channel.cpp:303-307 | when completion is reported, what lies after the cursor block is exactly the bytes the write did not take |
| Scatter.SendRun | src/Channel.cpp:278-311 | definition, no contract of its own: the send loop as written, one `writev` per round until would-block, error or completion; its properties are proved by `SendRunDelivers` and `SendRunStopsEarly`, and `Send` is proved to end as it says |
| Scatter.SendRunDelivers | src/Channel.cpp:276-312 | the loop delivers a prefix of the stream, in order and without duplication: what it leaves unsent is a suffix of what was pending; finishing leaves the cursor in range with every earlier block emptied |
| Scatter.SendRunStopsEarly | src/Channel.cpp:303-307 | with blocks of 3 and 5 bytes and a `writev` that accepts 3, the loop reports completion with 5 bytes unsent |
| Scatter.AllSentFrom | src/Channel.cpp:303 | definition, no contract of its own: no block from `from` on holds a byte, the test the corrected line 303 makes; `AllSentFromStream` proves it means that no byte of the stream lies there |
| Scatter.AllSentFromStream | src/Channel.cpp:303 | the blocks from `from` on are all empty if and only if they describe no bytes |
| Scatter.NothingAfter | src/Channel.cpp:303 | the scan over the blocks after the cursor returns true if and only if every block from `from` up to `len` is empty |
| Scatter.AdvanceFixed | src/Channel.cpp:293-310 | definition, no contract of its own: the accounting of one write with line 303 corrected: completion only when no byte is pending after the cursor block, otherwise that block is emptied and the cursor moves on; its properties are proved by `AdvanceFixedProgress`, and `ApplyWriteFixed` is proved to compute it |
| Scatter.AdvanceFixedProgress | src/Channel.cpp:293-310 | the corrected accounting keeps the cursor in range past only emptied blocks; it reports completion if and only if the write took every pending byte; otherwise exactly the bytes after the write stay pending, at least one and fewer than before |
| Scatter.ApplyWriteFixed | src/Channel.cpp:293-310 | the in-place corrected accounting leaves exactly the blocks, the cursor and the completion flag of `AdvanceFixed`, and touches nothing past `len` |
| Scatter.SendRunFixed | src/Channel.cpp:276-312 | definition, no contract of its own: the send loop with line 303 corrected, one `writev` per round until would-block, an error, or a write after which no byte is pending; its properties are proved by `SendRunFixedShape`, `SendRunFixedSuffix`, `SendRunFixedCompletes`, `SendRunFixedAllSent` and `SendRunFixedDelivers`, and `SendAll` is proved to end as it says |
| Scatter.SendRunFixedShape | src/Channel.cpp:276-312 | the corrected loop keeps the number of blocks and finishes only with every block after the cursor empty |
| Scatter.SendRunFixedSuffix | src/Channel.cpp:276-312 | what the corrected loop leaves unsent is a suffix of what was pending |
| Scatter.SendRunFixedCompletes | src/Channel.cpp:276-312 | if the first `writev` has bytes to send or succeeds, the corrected loop that leaves nothing unsent has reported completion |
| Scatter.SendRunFixedAllSent | src/Channel.cpp:276-312 | a first write that takes every pending byte completes the corrected send with nothing unsent, whatever empty blocks follow |
| Scatter.SendRunFixedDelivers | src/Channel.cpp:276-312 | the corrected loop delivers a prefix of the stream in order; completion means nothing is left unsent; and if the first `writev` has bytes to send or succeeds, nothing left unsent means completion |
| Reactor.Channel.Send | src/Channel.cpp:276-312 | the array ends as `SendRun` of the old array says. Would-block: returns true, `write_flag` clear, mask `EPOLLOUT,EPOLLONESHOT,EPOLLRDHUP` pushed once. Other error: returns false, mask, flag and trace untouched. Completion: returns true with `write_flag` set and the mask untouched. In every case what is left unsent is a suffix of what was pending |
| Reactor.Channel.SendAll | src/Channel.cpp:276-312 | the same contract with line 303 corrected (`SendRunFixed`): what is left unsent is a suffix of what was pending; completion, with `write_flag` set and true returned, means nothing is left unsent; and if the first `writev` has bytes to send or succeeds, nothing left unsent means completion |
| Reactor.InitialEvents | src/Channel.cpp:216-243 | every role is armed for read, peer hang-up and one-shot, never for write, and edge-triggered iff it is the timer channel |
| Reactor.Channel.Create | src/Channel.cpp:187-255 | a negative `value` throws. A connection channel is created iff the accept gives a descriptor, is null iff it would block, and throws otherwise. A listening channel is created iff socket and listen succeed, and throws otherwise. A timer channel is always created. A new channel is fresh, has its descriptor and listening descriptor set, its role's mask pushed exactly once, and the timer drain as read handler only for the timer role |
| Reactor.Channel.DefaultListenfdReadEventHandler | src/Channel.cpp:353-378 | at or above the ceiling nothing changes. A failed or would-block accept changes nothing. A successful accept: the new channel gets the loop's three callbacks, is registered, and the count rises by exactly one and stays within the ceiling; the listener then re-arms to `EPOLLIN,EPOLLONESHOT,EPOLLRDHUP` and pushes that mask twice (loop, then poller) |
| Timers.Fate | src/Channel.cpp:454-465 | definition, no contract of its own: what happens to one expired timer; its properties are proved by `FateCounts` |
| Timers.Drain | src/Channel.cpp:453-466 | definition, no contract of its own: the fates of the expired timers, in the order given; its properties are proved by `DrainCounts`, `DrainConcat` and `DrainOnlyTimers`, and the timer handler is proved to append exactly it |
| Timers.FateCounts | src/Channel.cpp:454-465 | one timer's fate: a dead timer is deleted without running; a live one runs once and is reinserted if it repeats, deleted if not |
| Timers.DrainCounts | src/Channel.cpp:453-466 | counted per occurrence: each live expired timer runs once; the live repeating ones are reinserted; all others are deleted; no timer both |
| Timers.DrainConcat | src/Channel.cpp:453-466 | draining two batches in turn is draining them together: timers are handled strictly in the order given |
| Timers.DrainOnlyTimers | src/Channel.cpp:453-466 | the drain only runs, reinserts and deletes the expired timers it was given |
| Reactor.Channel.DefaultTimerfdReadEventHandler | src/Channel.cpp:445-467 | the mask becomes `EPOLLIN,EPOLLONESHOT,EPOLLRDHUP,EPOLLET` and is pushed before any timer runs; then the trace is exactly the drain of the expired list, in order |

## Left out

- System calls (`socket`, `bind`, `listen`, `accept`, `setsockopt`, `fcntl` in `SetNonBlocking`, `CreateTimer`, `ReadTimerfd`, `writev`) are not modelled. `Create` and the listening handler receive the descriptor-producing reply as a parameter (`OsReply`), and `Send` receives `writev` as a function parameter.
- `ParsePeerAddr`, the peer address and `SetAddr` are left out: they are socket-address formatting with no state the rest depends on.
- `Destroy` and the `self_` reference are left out: they spin-wait on `shared_ptr` use counts, which is concurrency and reference counting. `Close`, `MakeSelf` and `SetLoop` are left out with them.
- `HandleEvent`, the `Set*Handler` setters and the close and error callback setters only store or call function objects. Handlers are abstract slots here.
- `DefaultEventHandler` reports which handler it would call. The handler's own effects are not modelled.
- The connection handlers `DefaultEventfdReadEventHandler` and `DefaultEventfdWriteEventHandler` have bodies that are entirely commented out, so they do nothing. The commented-out `Process` is not modelled either.
- The `int` status 0 returned by `SetEvents` and `SetRevents`, logging, and the destructor are not modelled.
- The event loop, the poller and the timer store are abstract. `EventLoop.cpp`, `Poller.cpp` and the timer code are not part of this model. `GetExpiredTimers` is the given `expired` sequence; `RunCallback`, `InsertTimer` and `delete` are trace entries. Whether a timer repeats stands for what `ResetCallTime` returns.
- A timer channel's descriptor is whatever the timer utility returns; it is not checked, as in `Create`. A missing descriptor is written -1.
- The header's initial field values are not part of this model. The channel constructor starts every field at an empty value, and `Create` fills it in.
- Reactor.Channel.Send: `Admissible` excludes a `writev` that writes zero bytes while bytes are pending. The C++ code behaves in two ways there. If the cursor block still has bytes, lines 293-295 shift it by 0 and call `writev` again, so the loop repeats without end only while `writev` keeps returning 0. If the cursor block is empty, lines 297-302 take `num` as 0 and skip the inner loop, and line 303 sets `write_flag_` and returns true at once. For example, with blocks of 0 and 5 bytes, it reports completion with 5 bytes unsent. Neither case is modelled.
- Reactor.Channel.Send: requires `len > 0`. With `len == 0` the C++ code reads `data[0]` out of bounds. With `len < 0`, `writev` fails with `EINVAL` and `Send` returns false at line 290; that case is excluded as well.
- Reactor.Channel.SendAll: when every block is empty from the start, the result is whatever the first `writev` reports. A would-block or an error then ends the send with nothing unsent and without completion, as in `Send`; a real `writev` of zero bytes returns 0, which completes it.
- Reactor.Channel.ProcessIovec: requires the control buffer to hold `block_num + 4` bytes, as the documented layout promises. The C++ code reads those bytes without checking.
- Reactor.Channel.DefaultListenfdReadEventHandler: the accept reply is a parameter. `Create` turning a negative descriptor into an exception is modelled; the peer address is not.
- Timers.Fate: a timer's `alive` flag is fixed for the whole batch. It stands for what `IsAlive()` returns at line 454 when the loop reaches that timer. A callback at line 458 that cancels a later timer of the same batch is not modelled.
- Integer width: the model counts with unbounded `int` and `nat`. Line 120 narrows the `size_t` length of block 0 to an `int` `block_num`, and lines 293 and 297 cast `size_t` block lengths to `ssize_t`. Overflow or truncation in those conversions is not modelled.
- Threads: the ceiling check at line 360 and the increment at line 372 are not atomic across worker threads sharing a loop. The guarantee that the count stays within the ceiling holds for one thread only. Concurrency is not modelled.
- Test programs under testmuduo are socket clients and servers with no sequential behaviour to state.

## Findings

| source | as written | input that shows it | evidently intended | confidence | as-written member | corrected member |
|---|---|---|---|---|---|---|
| src/Channel.cpp:303-307 | when a write ends exactly on the end of the cursor block, the loop sets `write_flag_` and returns true, whatever later blocks still hold | two blocks of 3 and 5 bytes; `writev` accepts 3 bytes; the send reports completion with 5 bytes never sent | report completion only when no later block holds a byte; otherwise empty that block and continue with the next, so completion means every byte was delivered, and delivering every byte means completion | not executed | Scatter.SendRunStopsEarly | Reactor.Channel.SendAll |
