/** The externally visible effects a channel has, in the order it has them.
    A channel keeps a ghost log of these; nothing in `Channel.cpp` keeps such a
    log, it is how the model states what was pushed, freed or run. */
module Effects {

  /** A timer taken from the loop's timer store: whether it is still alive
      (cancelled timers are marked dead) at the moment the drain reaches it,
      and whether resetting its call time reports that it repeats. */
  datatype Timer = Timer(id: nat, alive: bool, repeats: bool)

  datatype Effect =
    /** `loop_->UpdateChannel(self_)`, pushing the current mask. */
    | UpdateChannel(mask: bv32)
    /** `loop->GetEpoll()->Update(fd, mask)`, pushing straight to the poller. */
    | PollerUpdate(fd: int, mask: bv32)
    /** `delete[]` of payload block `block`'s buffer. */
    | FreePayload(block: nat)
    /** `delete[]` of the control block's buffer. */
    | FreeControl
    /** `delete[]` of the block array itself. */
    | FreeArray
    /** `RunCallback()` of a timer. */
    | RunTimer(timer: Timer)
    /** `InsertTimer` of a repeating timer back into the loop's store. */
    | ReinsertTimer(timer: Timer)
    /** `delete` of a timer. */
    | DeleteTimer(timer: Timer)
}
