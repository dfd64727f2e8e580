/** Scatter-gather blocks, the byte stream they describe, and the accounting
    the send loop performs after each vectored write. */
module Scatter {

  /** One `struct iovec`: `buffer` names the memory area `iov_base` points
      into, `base` is the offset of `iov_base` in it, `len` is `iov_len`. */
  datatype IoVec = IoVec(buffer: nat, base: nat, len: nat)

  /** One byte of the stream: its buffer and its offset there. */
  datatype BytePos = BytePos(buffer: nat, offset: nat)

  /** What one `writev` call reports. */
  datatype WriteReply = Wrote(count: nat) | WouldBlock | WriteError

  /** The state after accounting one write: the blocks, the cursor, and
      whether the loop reports the send complete. */
  datatype Step = Step(blocks: seq<IoVec>, id: nat, done: bool)

  /** How a send ends; `Finished` carries the cursor block it stopped on. */
  datatype SendEnd = Blocked | Failed | Finished(cursor: nat)

  datatype SendOutcome = SendOutcome(blocks: seq<IoVec>, end: SendEnd)

  function Bytes(v: IoVec): seq<BytePos> {
    seq(v.len, j requires 0 <= j < v.len => BytePos(v.buffer, v.base + j))
  }

  /** Advancing `iov_base` by `k` bytes and shrinking `iov_len` to match. */
  function Shift(v: IoVec, k: nat): IoVec
    requires k <= v.len
  {
    IoVec(v.buffer, v.base + k, v.len - k)
  }

  /** The bytes blocks `from ..` still describe, in order. */
  function StreamFrom(bs: seq<IoVec>, from: nat): seq<BytePos>
    decreases |bs| - from
  {
    if from >= |bs| then [] else Bytes(bs[from]) + StreamFrom(bs, from + 1)
  }

  /** The bytes a `writev` of the whole array would send, in order. */
  function Stream(bs: seq<IoVec>): seq<BytePos> {
    StreamFrom(bs, 0)
  }

  /** Every block before the cursor is fully sent. */
  ghost predicate ZeroBelow(bs: seq<IoVec>, id: nat) {
    id <= |bs| && forall i :: 0 <= i < id ==> bs[i].len == 0
  }

  /** No block from `from` on holds a byte. */
  predicate AllSentFrom(bs: seq<IoVec>, from: nat) {
    forall j :: from <= j < |bs| ==> bs[j].len == 0
  }

  /** A `writev` reply is possible for `total` pending bytes: it never
      reports more than is pending, and on a non-blocking socket it either
      writes at least one byte or fails when bytes are pending. */
  predicate Fits(r: WriteReply, total: nat) {
    r.Wrote? ==> r.count <= total && (total > 0 ==> r.count > 0)
  }

  /** An oracle standing for the kernel's `writev`. */
  ghost predicate Admissible(writev: seq<IoVec> -> WriteReply) {
    forall bs :: Fits(writev(bs), |Stream(bs)|)
  }

  ghost predicate IsSuffix(s: seq<BytePos>, t: seq<BytePos>) {
    |s| <= |t| && s == t[|t| - |s|..]
  }

  lemma SuffixOfDrop(s: seq<BytePos>, t: seq<BytePos>, k: nat)
    requires k <= |t| && IsSuffix(s, t[k..])
    ensures IsSuffix(s, t)
  {
    assert t[k..][|t| - k - |s|..] == t[|t| - |s|..];
  }

  lemma DropConcat(b: seq<BytePos>, u: seq<BytePos>, k: nat)
    requires |b| <= k <= |b| + |u|
    ensures (b + u)[k..] == u[k - |b|..]
  {
  }

  lemma BytesShift(v: IoVec, k: nat)
    requires k <= v.len
    ensures Bytes(Shift(v, k)) == Bytes(v)[k..]
  {
  }

  /** Rewriting a block before `from` does not change the stream from `from`. */
  lemma {:induction false} StreamFromFrame(bs: seq<IoVec>, j: nat, v: IoVec, from: nat)
    requires j < from && j < |bs|
    ensures StreamFrom(bs[j := v], from) == StreamFrom(bs, from)
    decreases |bs| - from
  {
    if from < |bs| {
      StreamFromFrame(bs, j, v, from + 1);
    }
  }

  /** The blocks from `from` on hold no byte exactly when they describe no
      bytes of the stream. */
  lemma {:induction false} AllSentFromStream(bs: seq<IoVec>, from: nat)
    ensures AllSentFrom(bs, from) <==> StreamFrom(bs, from) == []
    decreases |bs| - from
  {
    if from < |bs| {
      AllSentFromStream(bs, from + 1);
      assert StreamFrom(bs, from) == Bytes(bs[from]) + StreamFrom(bs, from + 1);
      assert |Bytes(bs[from])| == bs[from].len;
    }
  }

  /** Fully sent blocks before the cursor contribute nothing to the stream. */
  lemma {:induction false} StreamSkipsZeros(bs: seq<IoVec>, id: nat, from: nat)
    requires ZeroBelow(bs, id) && from <= id
    ensures StreamFrom(bs, from) == StreamFrom(bs, id)
    decreases id - from
  {
    if from < id {
      StreamSkipsZeros(bs, id, from + 1);
    }
  }

  /** The accounting of lines 293-310 after a write of `k` bytes with the
      cursor at `id`: blocks written past are emptied, the block the write
      ends inside is shifted, and a write ending exactly on the end of the
      cursor block reports completion. Written as `Send`'s inner loop. */
  function Advance(bs: seq<IoVec>, id: nat, k: nat): Step
    requires id < |bs| && k <= |StreamFrom(bs, id)|
    decreases |bs| - id
  {
    var num := bs[id].len;
    if k > num then
      var zeroed := bs[id := bs[id].(len := 0)];
      StreamFromFrame(bs, id, bs[id].(len := 0), id + 1);
      Advance(zeroed, id + 1, k - num)
    else if k == num then Step(bs, id, true)
    else Step(bs[id := Shift(bs[id], k)], id, false)
  }

  /** What a write of `k` bytes does to the blocks: the cursor only moves
      forward and stays in range, blocks it moves past are emptied, other
      blocks are untouched, and offsets only grow. When the loop reports
      completion the cursor block is left as it was and is no longer than
      the write; otherwise it still holds bytes. */
  lemma {:induction false} AdvanceShape(bs: seq<IoVec>, id: nat, k: nat)
    requires id < |bs| && k <= |StreamFrom(bs, id)|
    ensures var r := Advance(bs, id, k);
      && |r.blocks| == |bs|
      && id <= r.id < |bs|
      && (forall i :: 0 <= i < id ==> r.blocks[i] == bs[i])
      && (forall i :: r.id < i < |bs| ==> r.blocks[i] == bs[i])
      && (forall i :: id <= i < r.id ==> r.blocks[i].len == 0)
      && (forall i :: 0 <= i < |bs| ==>
            r.blocks[i].buffer == bs[i].buffer && r.blocks[i].base >= bs[i].base && r.blocks[i].len <= bs[i].len)
      && (!r.done ==> 0 < r.blocks[r.id].len)
      && (r.done ==> r.blocks[r.id] == bs[r.id] && r.blocks[r.id].len <= k)
    decreases |bs| - id
  {
    var num := bs[id].len;
    if k > num {
      var zeroed := bs[id := bs[id].(len := 0)];
      StreamFromFrame(bs, id, bs[id].(len := 0), id + 1);
      AdvanceShape(zeroed, id + 1, k - num);
    }
  }

  /** A write that takes every byte still pending from the cursor on always
      ends on the end of some block, so the loop reports completion. */
  lemma {:induction false} AdvanceAllSentIsDone(bs: seq<IoVec>, id: nat, k: nat)
    requires id < |bs| && k == |StreamFrom(bs, id)|
    ensures Advance(bs, id, k).done
    decreases |bs| - id
  {
    var num := bs[id].len;
    assert StreamFrom(bs, id) == Bytes(bs[id]) + StreamFrom(bs, id + 1);
    if k > num {
      var zeroed := bs[id := bs[id].(len := 0)];
      StreamFromFrame(bs, id, bs[id].(len := 0), id + 1);
      AdvanceAllSentIsDone(zeroed, id + 1, k - num);
    }
  }

  /** Unless the loop reports completion, exactly the first `k` pending
      bytes leave the stream. */
  lemma {:induction false} AdvanceStreamRest(bs: seq<IoVec>, id: nat, k: nat)
    requires id < |bs| && k <= |StreamFrom(bs, id)|
    ensures var r := Advance(bs, id, k);
      !r.done ==> StreamFrom(r.blocks, r.id) == StreamFrom(bs, id)[k..]
    decreases |bs| - id
  {
    var num := bs[id].len;
    var u := StreamFrom(bs, id + 1);
    assert StreamFrom(bs, id) == Bytes(bs[id]) + u;
    if k > num {
      var zeroed := bs[id := bs[id].(len := 0)];
      StreamFromFrame(bs, id, bs[id].(len := 0), id + 1);
      assert Advance(bs, id, k) == Advance(zeroed, id + 1, k - num);
      AdvanceStreamRest(zeroed, id + 1, k - num);
      DropConcat(Bytes(bs[id]), u, k);
    } else if k < num {
      var r := Advance(bs, id, k);
      assert r.blocks == bs[id := Shift(bs[id], k)];
      StreamFromFrame(bs, id, Shift(bs[id], k), id + 1);
      BytesShift(bs[id], k);
      assert StreamFrom(r.blocks, id) == Bytes(Shift(bs[id], k)) + u;
    }
  }

  /** When the loop reports completion the write ended exactly at the end of
      the cursor block, so what follows that block is what the write did not
      take. */
  lemma {:induction false} AdvanceStreamDone(bs: seq<IoVec>, id: nat, k: nat)
    requires id < |bs| && k <= |StreamFrom(bs, id)|
    ensures var r := Advance(bs, id, k);
      r.done ==> StreamFrom(r.blocks, r.id + 1) == StreamFrom(bs, id)[k..]
    decreases |bs| - id
  {
    var num := bs[id].len;
    var u := StreamFrom(bs, id + 1);
    assert StreamFrom(bs, id) == Bytes(bs[id]) + u;
    if k > num {
      var zeroed := bs[id := bs[id].(len := 0)];
      StreamFromFrame(bs, id, bs[id].(len := 0), id + 1);
      assert Advance(bs, id, k) == Advance(zeroed, id + 1, k - num);
      AdvanceStreamDone(zeroed, id + 1, k - num);
      DropConcat(Bytes(bs[id]), u, k);
    } else if k == num {
      DropConcat(Bytes(bs[id]), u, k);
    }
  }

  /** Exactly the first `k` pending bytes leave the stream. When the loop
      reports completion the write ended exactly at the end of the cursor
      block, so what follows that block is what the write did not take. */
  lemma AdvanceStream(bs: seq<IoVec>, id: nat, k: nat)
    requires id < |bs| && k <= |StreamFrom(bs, id)|
    ensures var r := Advance(bs, id, k);
      && |r.blocks| == |bs| && id <= r.id < |bs|
      && (!r.done ==> StreamFrom(r.blocks, r.id) == StreamFrom(bs, id)[k..])
      && (r.done ==> StreamFrom(r.blocks, r.id + 1) == StreamFrom(bs, id)[k..])
  {
    AdvanceShape(bs, id, k);
    AdvanceStreamRest(bs, id, k);
    AdvanceStreamDone(bs, id, k);
  }

  /** One write, accounted for with the cursor past only emptied blocks,
      keeps the cursor past only emptied blocks; unless completion is
      reported the stream loses exactly its first `k` bytes, and at least
      one. */
  lemma AdvanceProgress(bs: seq<IoVec>, id: nat, k: nat)
    requires id < |bs| && ZeroBelow(bs, id) && Fits(Wrote(k), |Stream(bs)|)
    ensures k <= |StreamFrom(bs, id)|
    ensures var r := Advance(bs, id, k);
      && ZeroBelow(r.blocks, r.id) && r.id < |r.blocks| == |bs|
      && (!r.done ==> Stream(r.blocks) == Stream(bs)[k..] && |Stream(r.blocks)| < |Stream(bs)|)
  {
    StreamSkipsZeros(bs, id, 0);
    AdvanceShape(bs, id, k);
    AdvanceStream(bs, id, k);
    var r := Advance(bs, id, k);
    StreamSkipsZeros(r.blocks, r.id, 0);
  }

  /** Emptying the block a completed write ended on leaves exactly the bytes
      after that write pending, with the cursor one block further on. */
  lemma FinishBlock(bs: seq<IoVec>, id: nat, k: nat)
    requires id < |bs| && ZeroBelow(bs, id) && Fits(Wrote(k), |Stream(bs)|)
    requires k <= |StreamFrom(bs, id)| && Advance(bs, id, k).done
    ensures Advance(bs, id, k).id < |Advance(bs, id, k).blocks|
    ensures var r := Advance(bs, id, k);
      var emptied := r.blocks[r.id := r.blocks[r.id].(len := 0)];
      && |emptied| == |bs| && ZeroBelow(emptied, r.id + 1)
      && Stream(emptied) == Stream(bs)[k..]
  {
    AdvanceProgress(bs, id, k);
    AdvanceShape(bs, id, k);
    AdvanceStream(bs, id, k);
    StreamSkipsZeros(bs, id, 0);
    var r := Advance(bs, id, k);
    var emptied := r.blocks[r.id := r.blocks[r.id].(len := 0)];
    StreamSkipsZeros(emptied, r.id + 1, 0);
    StreamFromFrame(r.blocks, r.id, r.blocks[r.id].(len := 0), r.id + 1);
  }

  /** When a write is reported as completing the send, what is left after
      the cursor block is exactly what that write did not take. */
  lemma FinishedLeavesRest(bs: seq<IoVec>, id: nat, k: nat)
    requires id < |bs| && ZeroBelow(bs, id) && Fits(Wrote(k), |Stream(bs)|)
    requires k <= |StreamFrom(bs, id)| && Advance(bs, id, k).done
    ensures Advance(bs, id, k).id < |Advance(bs, id, k).blocks|
    ensures StreamFrom(Advance(bs, id, k).blocks, Advance(bs, id, k).id + 1) == Stream(bs)[k..]
    ensures IsSuffix(Stream(bs)[k..], Stream(bs))
  {
    StreamSkipsZeros(bs, id, 0);
    AdvanceStream(bs, id, k);
  }

  /** One write's accounting (lines 293-310) done in place on the first
      `len` blocks of `data`: the cursor block is shifted when the write ends
      inside it; otherwise blocks are emptied while the write reaches past
      them, and completion is reported when it ends exactly on a block's
      end, or the block it ends inside is shifted. */
  method ApplyWrite(data: array<IoVec>, len: int, id: nat, k: nat) returns (newId: nat, done: bool)
    requires id < len <= data.Length && k <= |StreamFrom(data[..len], id)|
    modifies data
    ensures var s := Advance(old(data[..len]), id, k);
      && data[..len] == s.blocks && newId == s.id && done == s.done
    ensures data[len..] == old(data[len..])
  {
    ghost var step := Advance(data[..len], id, k);
    newId, done := id, false;
    var sendNum: nat := k;
    if sendNum < data[newId].len {
      data[newId] := Shift(data[newId], sendNum);
      assert data[..len] == step.blocks;
      return;
    }
    var num := data[newId].len;
    while sendNum > num
      invariant newId < len && num == data[newId].len
      invariant sendNum <= |StreamFrom(data[..len], newId)|
      invariant Advance(data[..len], newId, sendNum) == step
      invariant data[len..] == old(data[len..])
      decreases len - newId
    {
      assert StreamFrom(data[..len], newId) == Bytes(data[newId]) + StreamFrom(data[..len], newId + 1);
      ghost var cur := data[..len];
      data[newId] := data[newId].(len := 0);
      assert data[..len] == cur[newId := cur[newId].(len := 0)];
      StreamFromFrame(cur, newId, cur[newId].(len := 0), newId + 1);
      newId := newId + 1;
      sendNum := sendNum - num;
      num := data[newId].len;
    }
    if sendNum == num {
      done := true;
      return;
    }
    ghost var cur := data[..len];
    data[newId] := Shift(data[newId], sendNum);
    assert data[..len] == cur[newId := Shift(cur[newId], sendNum)];
  }

  /** `Send`'s loop (lines 278-311) as a function of the blocks,
      the cursor and the `writev` oracle: would-block and other errors end
      it, and it finishes as soon as one write ends exactly on the end of
      the cursor block. */
  function SendRun(bs: seq<IoVec>, id: nat, writev: seq<IoVec> -> WriteReply): SendOutcome
    requires id < |bs| && ZeroBelow(bs, id) && Admissible(writev)
    decreases |Stream(bs)|
  {
    match writev(bs)
    case WouldBlock => SendOutcome(bs, Blocked)
    case WriteError => SendOutcome(bs, Failed)
    case Wrote(k) =>
      AdvanceProgress(bs, id, k);
      var r := Advance(bs, id, k);
      if r.done then SendOutcome(r.blocks, Finished(r.id))
      else SendRun(r.blocks, r.id, writev)
  }

  /** The bytes a send has not delivered. After `Finished` the cursor block
      still has its length, but its bytes were written. */
  function Unsent(o: SendOutcome): seq<BytePos> {
    match o.end
    case Finished(c) => StreamFrom(o.blocks, c + 1)
    case _ => Stream(o.blocks)
  }

  /** The send delivers a prefix of the stream, in order and without
      duplication: what it leaves unsent is a suffix of what was pending, so
      a later send resumes exactly where this one stopped. Finishing leaves
      the cursor in range with every block before it emptied. */
  lemma {:induction false} SendRunDelivers(bs: seq<IoVec>, id: nat, writev: seq<IoVec> -> WriteReply)
    requires id < |bs| && ZeroBelow(bs, id) && Admissible(writev)
    ensures var o := SendRun(bs, id, writev);
      && |o.blocks| == |bs|
      && IsSuffix(Unsent(o), Stream(bs))
      && (o.end.Finished? ==> o.end.cursor < |bs| && ZeroBelow(o.blocks, o.end.cursor))
    decreases |Stream(bs)|
  {
    match writev(bs)
    case WouldBlock =>
    case WriteError =>
    case Wrote(k) =>
      AdvanceProgress(bs, id, k);
      var r := Advance(bs, id, k);
      if !r.done {
        SendRunDelivers(r.blocks, r.id, writev);
        var o := SendRun(r.blocks, r.id, writev);
        assert SendRun(bs, id, writev) == o;
        SuffixOfDrop(Unsent(o), Stream(bs), k);
      } else {
        FinishedLeavesRest(bs, id, k);
      }
  }

  /** A `writev` that accepts three bytes of an eight-byte stream and would
      block on anything else. */
  function ThreeOfEight(bs: seq<IoVec>): WriteReply {
    if |Stream(bs)| == 8 then Wrote(3) else WouldBlock
  }

  /** Line 303 reports the send complete when a write ends on the end of the
      cursor block, whatever later blocks still hold: with blocks of 3 and 5
      bytes and a `writev` that accepts 3, the loop finishes with 5 bytes
      unsent. */
  lemma SendRunStopsEarly()
    ensures Admissible(ThreeOfEight)
    ensures var o := SendRun([IoVec(0, 0, 3), IoVec(1, 0, 5)], 0, ThreeOfEight);
      o.end.Finished? && |Unsent(o)| == 5
  {
    var bs := [IoVec(0, 0, 3), IoVec(1, 0, 5)];
    assert StreamFrom(bs, 2) == [];
    assert |StreamFrom(bs, 1)| == 5;
    assert |Stream(bs)| == 8;
    assert Advance(bs, 0, 3) == Step(bs, 0, true);
  }

  /** The check the corrected loop makes when a write ends on the end of the
      cursor block: whether every block from `from` up to `len` is empty. */
  method NothingAfter(data: array<IoVec>, len: int, from: nat) returns (empty: bool)
    requires 0 <= len <= data.Length
    ensures empty <==> AllSentFrom(data[..len], from)
  {
    var i := from;
    while i < len && data[i].len == 0
      invariant from <= i
      invariant forall j :: from <= j < i && j < len ==> data[j].len == 0
      decreases len - i
    {
      i := i + 1;
    }
    empty := i >= len;
  }

  /** The accounting of lines 293-310 with line 303 corrected: a write ending
      on the end of the cursor block completes the send only if no later
      block holds a byte; otherwise that block is emptied and the cursor
      moves on to the next. */
  function AdvanceFixed(bs: seq<IoVec>, id: nat, k: nat): Step
    requires id < |bs| && k <= |StreamFrom(bs, id)|
  {
    var r := Advance(bs, id, k);
    if !r.done || AllSentFrom(r.blocks, r.id + 1) then r
    else Step(r.blocks[r.id := r.blocks[r.id].(len := 0)], r.id + 1, false)
  }

  /** The corrected accounting keeps the cursor in range past only emptied
      blocks, reports completion exactly when the write took every pending
      byte, and otherwise leaves exactly the bytes after the write pending,
      at least one of them, and fewer than before. */
  lemma AdvanceFixedProgress(bs: seq<IoVec>, id: nat, k: nat)
    requires id < |bs| && ZeroBelow(bs, id) && Fits(Wrote(k), |Stream(bs)|)
    ensures k <= |StreamFrom(bs, id)|
    ensures var r := AdvanceFixed(bs, id, k);
      && r.id < |r.blocks| == |bs| && ZeroBelow(r.blocks, r.id)
      && (r.done <==> k == |Stream(bs)|)
      && (r.done ==> AllSentFrom(r.blocks, r.id + 1))
      && (!r.done ==> Stream(r.blocks) == Stream(bs)[k..] && 0 < |Stream(r.blocks)| < |Stream(bs)|)
  {
    AdvanceProgress(bs, id, k);
    AdvanceShape(bs, id, k);
    StreamSkipsZeros(bs, id, 0);
    var r := Advance(bs, id, k);
    if k == |Stream(bs)| {
      AdvanceAllSentIsDone(bs, id, k);
    }
    if !r.done {
      StreamSkipsZeros(r.blocks, r.id, 0);
      assert StreamFrom(r.blocks, r.id) == Bytes(r.blocks[r.id]) + StreamFrom(r.blocks, r.id + 1);
    } else {
      FinishedLeavesRest(bs, id, k);
      AllSentFromStream(r.blocks, r.id + 1);
      if !AllSentFrom(r.blocks, r.id + 1) {
        FinishBlock(bs, id, k);
      }
    }
  }

  /** The corrected accounting done in place on the first `len` blocks of
      `data`: the write is applied as in `Send`, and when it ends on the end
      of the cursor block with bytes still pending after it, that block is
      emptied and the cursor moves on. */
  method ApplyWriteFixed(data: array<IoVec>, len: int, id: nat, k: nat) returns (newId: nat, finished: bool)
    requires id < len <= data.Length && k <= |StreamFrom(data[..len], id)|
    modifies data
    ensures var s := AdvanceFixed(old(data[..len]), id, k);
      && data[..len] == s.blocks && newId == s.id && finished == s.done
    ensures data[len..] == old(data[len..])
  {
    AdvanceShape(data[..len], id, k);
    var done;
    newId, done := ApplyWrite(data, len, id, k);
    finished := false;
    if !done {
      return;
    }
    finished := NothingAfter(data, len, newId + 1);
    if finished {
      return;
    }
    ghost var cur := data[..len];
    data[newId] := data[newId].(len := 0);
    assert data[..len] == cur[newId := cur[newId].(len := 0)];
    newId := newId + 1;
  }

  /** The send loop with line 303 corrected: one `writev` per round until
      would-block, an error, or a write after which no byte is pending. */
  function SendRunFixed(bs: seq<IoVec>, id: nat, writev: seq<IoVec> -> WriteReply): SendOutcome
    requires id < |bs| && ZeroBelow(bs, id) && Admissible(writev)
    decreases |Stream(bs)|
  {
    match writev(bs)
    case WouldBlock => SendOutcome(bs, Blocked)
    case WriteError => SendOutcome(bs, Failed)
    case Wrote(k) =>
      AdvanceFixedProgress(bs, id, k);
      var r := AdvanceFixed(bs, id, k);
      if r.done then SendOutcome(r.blocks, Finished(r.id))
      else SendRunFixed(r.blocks, r.id, writev)
  }

  /** The corrected loop keeps the number of blocks, and finishes only with
      no byte pending after the cursor block. */
  lemma {:induction false} SendRunFixedShape(bs: seq<IoVec>, id: nat, writev: seq<IoVec> -> WriteReply)
    requires id < |bs| && ZeroBelow(bs, id) && Admissible(writev)
    ensures var o := SendRunFixed(bs, id, writev);
      && |o.blocks| == |bs|
      && (o.end.Finished? ==> o.end.cursor < |bs| && AllSentFrom(o.blocks, o.end.cursor + 1))
    decreases |Stream(bs)|
  {
    match writev(bs)
    case WouldBlock =>
    case WriteError =>
    case Wrote(k) =>
      AdvanceFixedProgress(bs, id, k);
      var r := AdvanceFixed(bs, id, k);
      if !r.done {
        SendRunFixedShape(r.blocks, r.id, writev);
      }
  }

  /** What the corrected loop leaves unsent is a suffix of what was pending. */
  lemma {:induction false} SendRunFixedSuffix(bs: seq<IoVec>, id: nat, writev: seq<IoVec> -> WriteReply)
    requires id < |bs| && ZeroBelow(bs, id) && Admissible(writev)
    ensures IsSuffix(Unsent(SendRunFixed(bs, id, writev)), Stream(bs))
    decreases |Stream(bs)|
  {
    match writev(bs)
    case WouldBlock =>
    case WriteError =>
    case Wrote(k) =>
      AdvanceFixedProgress(bs, id, k);
      var r := AdvanceFixed(bs, id, k);
      if !r.done {
        SendRunFixedSuffix(r.blocks, r.id, writev);
        SuffixOfDrop(Unsent(SendRunFixed(r.blocks, r.id, writev)), Stream(bs), k);
      } else {
        AllSentFromStream(r.blocks, r.id + 1);
      }
  }

  /** The corrected loop stops short of completion only with bytes still
      unsent, provided its first `writev` either has bytes to send or
      succeeds: every later round has bytes pending, and a would-block or
      an error then leaves them all unsent. */
  lemma {:induction false} SendRunFixedCompletes(bs: seq<IoVec>, id: nat, writev: seq<IoVec> -> WriteReply)
    requires id < |bs| && ZeroBelow(bs, id) && Admissible(writev)
    requires Stream(bs) != [] || writev(bs).Wrote?
    ensures var o := SendRunFixed(bs, id, writev);
      Unsent(o) == [] ==> o.end.Finished?
    decreases |Stream(bs)|
  {
    match writev(bs)
    case WouldBlock =>
    case WriteError =>
    case Wrote(k) =>
      AdvanceFixedProgress(bs, id, k);
      var r := AdvanceFixed(bs, id, k);
      if !r.done {
        SendRunFixedCompletes(r.blocks, r.id, writev);
      }
  }

  /** A first write that takes every pending byte completes the corrected
      send at once, with nothing left unsent. */
  lemma SendRunFixedAllSent(bs: seq<IoVec>, id: nat, writev: seq<IoVec> -> WriteReply)
    requires id < |bs| && ZeroBelow(bs, id) && Admissible(writev)
    requires writev(bs) == Wrote(|Stream(bs)|)
    ensures var o := SendRunFixed(bs, id, writev);
      o.end.Finished? && Unsent(o) == []
  {
    var k := |Stream(bs)|;
    AdvanceFixedProgress(bs, id, k);
    var r := AdvanceFixed(bs, id, k);
    AllSentFromStream(r.blocks, r.id + 1);
  }

  /** The corrected loop delivers a prefix of the stream in order, and,
      once its first `writev` has bytes to send or succeeds, it reports
      completion exactly when every byte has been delivered. */
  lemma SendRunFixedDelivers(bs: seq<IoVec>, id: nat, writev: seq<IoVec> -> WriteReply)
    requires id < |bs| && ZeroBelow(bs, id) && Admissible(writev)
    ensures var o := SendRunFixed(bs, id, writev);
      && |o.blocks| == |bs|
      && IsSuffix(Unsent(o), Stream(bs))
      && (o.end.Finished? ==> Unsent(o) == [])
      && ((Stream(bs) != [] || writev(bs).Wrote?) ==> (o.end.Finished? <==> Unsent(o) == []))
  {
    SendRunFixedShape(bs, id, writev);
    SendRunFixedSuffix(bs, id, writev);
    var o := SendRunFixed(bs, id, writev);
    if o.end.Finished? {
      AllSentFromStream(o.blocks, o.end.cursor + 1);
    }
    if Stream(bs) != [] || writev(bs).Wrote? {
      SendRunFixedCompletes(bs, id, writev);
    }
  }
}
