/** Readiness-event masks as the Linux epoll interface defines them.
    `Channel.cpp` keeps masks in a C `int`; a `bv32` holds the same 32 bits, so
    EPOLLET (bit 31) is the sign bit of that `int`. */
module Epoll {

  const EPOLLIN: bv32 := 0x0000_0001
  const EPOLLOUT: bv32 := 0x0000_0004
  const EPOLLRDHUP: bv32 := 0x0000_2000
  const EPOLLONESHOT: bv32 := 0x4000_0000
  const EPOLLET: bv32 := 0x8000_0000

  /** Mask a connection handle is re-armed with when a write would block. */
  const WriteRearm: bv32 := EPOLLOUT | EPOLLONESHOT | EPOLLRDHUP
  /** Mask the listening handle re-arms itself with after an accept. */
  const ListenRearm: bv32 := EPOLLIN | EPOLLONESHOT | EPOLLRDHUP
  /** Mask the timer handle re-arms itself with before running timers. */
  const TimerRearm: bv32 := EPOLLIN | EPOLLONESHOT | EPOLLRDHUP | EPOLLET

  /** `mask |= bit`: the bit is set and every other bit is as it was. */
  function SetBit(mask: bv32, bit: bv32): (r: bv32)
    ensures r & bit == bit
    ensures r & !bit == mask & !bit
  {
    mask | bit
  }

  /** `mask &= ~bit`: the bit is clear and every other bit is as it was. */
  function ClearBit(mask: bv32, bit: bv32): (r: bv32)
    ensures r & bit == 0
    ensures r & !bit == mask & !bit
  {
    mask & !bit
  }

  /** Enabling a bit twice has the effect of enabling it once. */
  lemma SetBitIdempotent(mask: bv32, bit: bv32)
    ensures SetBit(SetBit(mask, bit), bit) == SetBit(mask, bit)
  {
  }

  /** Disabling a bit twice has the effect of disabling it once. */
  lemma ClearBitIdempotent(mask: bv32, bit: bv32)
    ensures ClearBit(ClearBit(mask, bit), bit) == ClearBit(mask, bit)
  {
  }
}
