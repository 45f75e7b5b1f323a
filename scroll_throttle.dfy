/**
 * The scroll handler of the portfolio page: a one-flag gate that lets at
 * most one card update wait for the next animation frame.
 *
 * The browser's frame scheduler is replaced by an explicit count of the
 * frame callbacks queued with it; `RunFrame` is the scheduler running the
 * queued callback, with the container position and viewport height it
 * reads at that moment (never a snapshot from the scroll event).
 */
module ScrollThrottle {
  import opened ProjectCards

  class ScrollSampler {
    /** True while a frame callback is queued and has not yet run. */
    var ticking: bool
    /** How many frame callbacks are queued with the scheduler. */
    var pendingFrames: nat
    /** The cards the frame callback updates. */
    const deck: CardDeck

    /** The flag is up exactly when one callback is queued. */
    ghost predicate Valid()
      reads this
    {
      pendingFrames == (if ticking then 1 else 0)
    }

    constructor (deck: CardDeck)
      ensures Valid() && this.deck == deck
      ensures !ticking && pendingFrames == 0
    {
      this.deck := deck;
      ticking := false;
      pendingFrames := 0;
    }

    /** A scroll event: queues a frame callback unless one is already queued. */
    method OnScroll()
      requires Valid()
      modifies this
      ensures Valid() && ticking
      ensures pendingFrames == if old(ticking) then old(pendingFrames) else old(pendingFrames) + 1
      ensures pendingFrames <= 1
    {
      if !ticking {
        pendingFrames := pendingFrames + 1;
        ticking := true;
      }
    }

    /** The scheduler runs the queued callback: the cards are updated from
        the live geometry, then the flag is lowered. */
    method RunFrame(containerTop: int, viewportHeight: int)
      requires Valid() && pendingFrames > 0
      modifies this, deck.cards
      ensures Valid() && !ticking && pendingFrames == 0
      ensures forall i :: 0 <= i < deck.cards.Length ==>
                deck.cards[i] == Settle(old(deck.cards[i]), ScrollProgress(containerTop, viewportHeight), i, deck.cards.Length)
    {
      pendingFrames := pendingFrames - 1;
      deck.Update(containerTop, viewportHeight);
      ticking := false;
    }
  }
}
