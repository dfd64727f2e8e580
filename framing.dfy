/** The control-block convention a read or write callback uses to hand its
    decisions back to the reactor. Block 0's length is the block count `n`;
    its buffer holds `n` "free this block" flags, then the keep-alive,
    sticky, watch-read and watch-write flags, each the character '1' or '0'. */
module Framing {
  import opened Epoll
  import opened Effects

  /** The block array a callback returns: `Null` is a null pointer; otherwise
      block 0's length (`blockNum`) and the characters of block 0's buffer.
      The payload buffers' contents play no part in decoding. */
  datatype IoBlocks = Null | Blocks(blockNum: nat, control: seq<char>)

  /** The next mask to watch, decoded from the watch-read and watch-write
      flags: at most one of read and write, read taking precedence, and the
      watch-write flag deciding only when watch-read is not '1'. */
  function NextWatch(watchRead: char, watchWrite: char): (m: bv32)
    ensures m == 0 || m == EPOLLIN || m == EPOLLOUT
    ensures m & EPOLLIN != 0 <==> watchRead == '1'
    ensures m & EPOLLOUT != 0 <==> watchRead != '1' && watchWrite == '1'
  {
    if watchRead == '1' then EPOLLIN
    else if watchWrite == '1' then EPOLLOUT
    else 0
  }

  /** The payload frees made while walking flag bytes `hi` down to `lo`. */
  function Releases(control: seq<char>, lo: int, hi: int): seq<Effect>
    requires 0 <= lo && hi < |control|
    decreases hi - lo + 1
  {
    if lo > hi then []
    else Releases(control, lo + 1, hi) + (if control[lo] == '1' then [FreePayload(lo)] else [])
  }

  /** Everything a decode of a block array with `n` blocks frees, in order:
      the flagged payload blocks from `n - 1` down to 1, then block 0's
      buffer, then the array. */
  function ReleasePlan(control: seq<char>, n: nat): seq<Effect>
    requires n + 4 <= |control|
  {
    Releases(control, 1, n - 1) + [FreeControl, FreeArray]
  }

  /** The walk frees only payload blocks, and exactly the flagged ones
      between `lo` and `hi`. */
  lemma {:induction false} ReleasesMembers(control: seq<char>, lo: int, hi: int)
    requires 0 <= lo && hi < |control|
    ensures forall e :: e in Releases(control, lo, hi) <==>
      e.FreePayload? && lo <= e.block <= hi && control[e.block] == '1'
    decreases hi - lo + 1
  {
    if lo <= hi {
      ReleasesMembers(control, lo + 1, hi);
      var rest := Releases(control, lo + 1, hi);
      var last: seq<Effect> := if control[lo] == '1' then [FreePayload(lo)] else [];
      assert Releases(control, lo, hi) == rest + last;
      forall e ensures e in rest + last <==> e in rest || e in last {
      }
    }
  }

  /** The walk frees blocks in strictly descending order. */
  lemma {:induction false} ReleasesDescending(control: seq<char>, lo: int, hi: int)
    requires 0 <= lo && hi < |control|
    ensures forall e :: e in Releases(control, lo, hi) ==> e.FreePayload?
    ensures forall p, q :: 0 <= p < q < |Releases(control, lo, hi)| ==>
      Releases(control, lo, hi)[p].block > Releases(control, lo, hi)[q].block
    decreases hi - lo + 1
  {
    if lo <= hi {
      ReleasesDescending(control, lo + 1, hi);
      ReleasesMembers(control, lo + 1, hi);
      var rest := Releases(control, lo + 1, hi);
      var last: seq<Effect> := if control[lo] == '1' then [FreePayload(lo)] else [];
      var r := rest + last;
      assert Releases(control, lo, hi) == r;
      forall p, q | 0 <= p < q < |r| ensures r[p].block > r[q].block {
        if q < |rest| {
          assert r[p] == rest[p] && r[q] == rest[q];
        } else {
          assert r[p] == rest[p] && rest[p] in rest;
          assert r[q] == FreePayload(lo);
        }
      }
    }
  }

  /** The plan frees block `i`'s buffer, for `1 <= i < n`, exactly when flag
      byte `i` is '1', frees each of them once, and always ends by freeing
      block 0's buffer and the array, once each. */
  lemma ReleasePlanExact(control: seq<char>, n: nat)
    requires n + 4 <= |control|
    ensures forall i: nat :: FreePayload(i) in ReleasePlan(control, n) <==> 1 <= i < n && control[i] == '1'
    ensures forall p, q :: 0 <= p < q < |ReleasePlan(control, n)| ==>
      ReleasePlan(control, n)[p] != ReleasePlan(control, n)[q]
    ensures ReleasePlan(control, n)[|ReleasePlan(control, n)| - 2..] == [FreeControl, FreeArray]
  {
    var r := Releases(control, 1, n - 1);
    ReleasesMembers(control, 1, n - 1);
    ReleasesDescending(control, 1, n - 1);
    var plan := ReleasePlan(control, n);
    assert plan == r + [FreeControl, FreeArray];
    forall p, q | 0 <= p < q < |plan| ensures plan[p] != plan[q] {
      if q < |r| {
        assert plan[p] == r[p] && plan[q] == r[q];
      } else if p < |r| {
        assert plan[p] == r[p] && r[p] in r;
      }
    }
  }

  /** Flag byte 0 is never consulted: changing it changes nothing freed. */
  lemma {:induction false} ReleasesIgnoreFlagZero(control: seq<char>, lo: int, hi: int, c: char)
    requires 1 <= lo && hi < |control| && 0 < |control|
    ensures Releases(control[0 := c], lo, hi) == Releases(control, lo, hi)
    decreases hi - lo + 1
  {
    if lo <= hi {
      ReleasesIgnoreFlagZero(control, lo + 1, hi, c);
    }
  }
}
