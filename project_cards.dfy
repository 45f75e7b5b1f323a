/**
 * The project-card placement engine of the portfolio page.
 *
 * Every card of the projects section walks through three phases as the page
 * scrolls: `entering` (parked below the viewport, hidden), `placing` (moving
 * from the bottom of the viewport to its centre while shrinking) and `placed`
 * (back in the normal flow). The phase of card `i` depends only on an integer
 * scroll progress and on the card's trigger offset `i * 1200`. A second pass
 * makes at most two cards interactive: the placing card and the highest-index
 * placed card (the "sticky" card).
 *
 * The browser's style properties are abstracted into a `Card` record: the
 * four class names the engine manages, a `Layout` summarising the position,
 * transform and size properties, the opacity, the visibility and whether
 * pointer events are enabled.
 */
module ProjectCards {

  /** Distance in scroll progress between the triggers of two consecutive cards. */
  const CardSpacing: int := 1200

  /** Length in scroll progress of the `placing` phase of one card. */
  const PlacementDuration: int := 1200

  /** The phase of one card, as the interval arithmetic on progress decides it. */
  datatype Phase = Entering | Placing | Placed

  /** The class names the engine adds to and removes from a card's class list. */
  datatype CssClass = EnteringClass | PlacingClass | PlacedClass | ClickableClass

  /** The three phase classes (every class except `clickable`). */
  const PhaseClasses: set<CssClass> := {EnteringClass, PlacingClass, PlacedClass}

  /**
   * What the inline position, top, bottom, left, transform and size
   * properties of a card say, in three shapes:
   *  - Parked: absolute, at the bottom of the container, translated one card
   *    height down and scaled to 1.15;
   *  - Moving(elapsed): fixed, at the position and scale the ease-out curve
   *    gives for `t = elapsed / PlacementDuration` (the curve itself is not modelled);
   *  - InFlow: every override cleared, so the stylesheet places the card.
   */
  datatype Layout = Parked | Moving(elapsed: int) | InFlow

  /** The part of a card element's state the engine reads and writes. */
  datatype Card = Card(
    classes: set<CssClass>,
    layout: Layout,
    opacity: int,
    visible: bool,
    pointerEvents: bool)

  function Max(a: int, b: int): int { if a < b then b else a }

  /** The scroll progress through the projects container: the sentinel -1
      before the container's top edge reaches the bottom of the viewport,
      afterwards how far it has risen past it. */
  function ScrollProgress(containerTop: int, viewportHeight: int): (p: int)
    ensures p == -1 <==> containerTop > viewportHeight
    ensures p != -1 ==> p >= 0 && p == viewportHeight - containerTop
  {
    if containerTop <= viewportHeight then Max(0, viewportHeight - containerTop) else -1
  }

  /** The progress at which card `index` starts to be placed. */
  function TriggerOffset(index: nat): nat
  {
    index * CardSpacing
  }

  /** The phase of card `index` at progress `p`, stated by intervals:
      entering below the trigger, placing for one placement duration,
      placed from then on. */
  function PhaseAt(p: int, index: nat): Phase
  {
    if p < TriggerOffset(index) then Entering
    else if p < TriggerOffset(index) + PlacementDuration then Placing
    else Placed
  }

  /** The class name that marks a phase. */
  function ClassOf(ph: Phase): CssClass
  {
    match ph
    case Entering => EnteringClass
    case Placing => PlacingClass
    case Placed => PlacedClass
  }

  /** The card state the `entering` treatment writes: used both when the
      section has not been reached and for a card whose trigger lies ahead. */
  function Park(c: Card): Card
  {
    Card(c.classes - {PlacingClass, PlacedClass, ClickableClass} + {EnteringClass},
         Parked, 0, false, false)
  }

  /** The first pass of an update on one card, with the source's three tests
      taken in the source's order; a card that passes none of them is left
      as it was. */
  function Place(c: Card, p: int, index: nat): Card
  {
    var trigger := TriggerOffset(index);
    var isTriggered := p >= trigger;
    var isCurrentlyPlacing := p >= trigger && p < trigger + PlacementDuration;
    var isPlaced := p >= trigger + PlacementDuration;
    if isPlaced then
      Card(c.classes - {EnteringClass, PlacingClass} + {PlacedClass, ClickableClass},
           InFlow, 1, true, c.pointerEvents)
    else if isCurrentlyPlacing then
      Card(c.classes - {EnteringClass, PlacedClass} + {PlacingClass, ClickableClass},
           Moving(p - trigger), 1, true, c.pointerEvents)
    else if !isTriggered then
      Park(c)
    else
      c
  }

  /** The second pass of an update on one card: interactive or not. */
  function Gate(c: Card, interactive: bool): Card
  {
    if interactive then c.(classes := c.classes + {ClickableClass}, pointerEvents := true)
    else c.(classes := c.classes - {ClickableClass}, pointerEvents := false)
  }

  /** Card `index` of `n` is the sticky card: placed, and no card after it is. */
  predicate IsSticky(p: int, n: nat, index: nat)
  {
    index < n && PhaseAt(p, index) == Placed &&
    forall j :: index < j < n ==> PhaseAt(p, j) != Placed
  }

  /** Card `index` of `n` is to be interactive: it is the placing card or the sticky card. */
  predicate Interactive(p: int, n: nat, index: nat)
  {
    PhaseAt(p, index) == Placing || IsSticky(p, n, index)
  }

  /**
   * The state card `index` of `n` is left in by one update at progress `p`.
   * Whatever it was before, afterwards it carries exactly one phase class;
   * before the section is reached every card is parked, hidden and inert;
   * otherwise the phase class is the one the intervals give and the card is
   * clickable exactly when it is interactive.
   */
  function Settle(c: Card, p: int, index: nat, n: nat): (r: Card)
    ensures p < 0 ==> r.classes * PhaseClasses == {EnteringClass} && ClickableClass !in r.classes
                      && r.layout == Parked && r.opacity == 0 && !r.visible && !r.pointerEvents
    ensures p >= 0 ==> r.classes * PhaseClasses == {ClassOf(PhaseAt(p, index))}
    ensures p >= 0 ==> (ClickableClass in r.classes <==> Interactive(p, n, index))
    ensures p >= 0 ==> (r.pointerEvents <==> Interactive(p, n, index))
    ensures p >= 0 ==> (r.visible <==> PhaseAt(p, index) != Entering)
    ensures p >= 0 ==> r.opacity == (if PhaseAt(p, index) == Entering then 0 else 1)
    ensures p >= 0 && PhaseAt(p, index) == Entering ==> r.layout == Parked
    ensures p >= 0 && PhaseAt(p, index) == Placed ==> r.layout == InFlow
    ensures p >= 0 && PhaseAt(p, index) == Placing ==>
              r.layout == Moving(p - TriggerOffset(index)) && 0 <= r.layout.elapsed < PlacementDuration
  {
    if p < 0 then Park(c) else Gate(Place(c, p, index), Interactive(p, n, index))
  }

  /** The outcome of an update depends only on the progress, the card's
      index and the number of cards, never on the card's previous state. */
  lemma SettleForgetsHistory(c1: Card, c2: Card, p: int, index: nat, n: nat)
    ensures Settle(c1, p, index, n) == Settle(c2, p, index, n)
  {
    var r1, r2 := Settle(c1, p, index, n), Settle(c2, p, index, n);
    assert r1.classes == r2.classes by {
      forall k: CssClass ensures k in r1.classes <==> k in r2.classes {
        if k != ClickableClass {
          assert k in r1.classes <==> k in r1.classes * PhaseClasses;
          assert k in r2.classes <==> k in r2.classes * PhaseClasses;
        }
      }
    }
  }

  /** Updating twice with the same progress gives what updating once gives. */
  lemma SettleIdempotent(c: Card, p: int, index: nat, n: nat)
    ensures Settle(Settle(c, p, index, n), p, index, n) == Settle(c, p, index, n)
  {
    SettleForgetsHistory(Settle(c, p, index, n), c, p, index, n);
  }

  /** At any progress no two cards are placing. */
  lemma AtMostOnePlacing(p: int, i: nat, j: nat)
    requires PhaseAt(p, i) == Placing && PhaseAt(p, j) == Placing
    ensures i == j
  {
  }

  /** Placed cards form a prefix of the card order. */
  lemma PlacedPrefix(p: int, i: nat, j: nat)
    requires i <= j && PhaseAt(p, j) == Placed
    ensures PhaseAt(p, i) == Placed
  {
  }

  /** Phases only move forward as progress grows: a placed card stays placed,
      a card that has left `entering` does not return to it. */
  lemma PhaseMonotone(p: int, q: int, index: nat)
    requires p <= q
    ensures PhaseAt(p, index) == Placed ==> PhaseAt(q, index) == Placed
    ensures PhaseAt(p, index) != Entering ==> PhaseAt(q, index) != Entering
  {
  }

  /** With `q = p / 1200`, card `q` is the placing card and the cards below it
      are placed: the phase is read off the quotient. */
  lemma PhaseByQuotient(p: int, index: nat)
    requires p >= 0
    ensures PhaseAt(p, index) == Placed <==> index < p / CardSpacing
    ensures PhaseAt(p, index) == Placing <==> index == p / CardSpacing
    ensures PhaseAt(p, index) == Entering <==> index > p / CardSpacing
  {
    var q := p / CardSpacing;
    assert CardSpacing * q <= p < CardSpacing * q + CardSpacing;
    if index < q {
      assert TriggerOffset(index) + PlacementDuration == CardSpacing * (index + 1) <= CardSpacing * q;
    } else if index > q {
      assert TriggerOffset(index) == CardSpacing * index >= CardSpacing * (q + 1);
    } else {
      assert TriggerOffset(index) == CardSpacing * q;
    }
  }

  /** The interactive cards, in closed form: the card numbered by the
      quotient `p / 1200` (when it exists, it is placing) and the card just
      below the smaller of that quotient and the card count (the sticky card). */
  lemma InteractiveByQuotient(p: int, n: nat, index: nat)
    requires p >= 0 && index < n
    ensures Interactive(p, n, index) <==>
              index == p / CardSpacing || index + 1 == (if p / CardSpacing < n then p / CardSpacing else n)
  {
    var q := p / CardSpacing;
    var top := if q < n then q else n;
    PhaseByQuotient(p, index);
    if index + 1 == top {
      forall j | index < j < n ensures PhaseAt(p, j) != Placed {
        PhaseByQuotient(p, j);
      }
      assert IsSticky(p, n, index);
    }
    if IsSticky(p, n, index) && index + 1 < n {
      PhaseByQuotient(p, index + 1);
    }
  }

  /** At most two cards are interactive at any progress. */
  lemma AtMostTwoInteractive(p: int, n: nat)
    requires p >= 0
    ensures |set i | 0 <= i < n && Interactive(p, n, i)| <= 2
  {
    var q := p / CardSpacing;
    var top := if q < n then q else n;
    var live := set i | 0 <= i < n && Interactive(p, n, i);
    forall i | i in live ensures i in {q, top - 1} {
      InteractiveByQuotient(p, n, i);
    }
    assert live <= {q, top - 1};
    CardinalityOfSubset(live, {q, top - 1});
  }

  lemma CardinalityOfSubset(a: set<int>, b: set<int>)
    requires a <= b
    ensures |a| <= |b|
  {
    assert b == a + (b - a);
  }

  /**
   * The projects section as the page holds it: the cards collected when
   * the page loaded, each with its state. A missing container leaves the
   * collection empty, so every update is then a no-op.
   */
  class CardDeck {
    const cards: array<Card>

    /** Collects the cards (one class set per card element of the markup),
        marks each `entering` and parks it hidden and inert. */
    constructor (sectionPresent: bool, markup: seq<set<CssClass>>)
      ensures fresh(cards)
      ensures cards.Length == (if sectionPresent then |markup| else 0)
      ensures forall i :: 0 <= i < cards.Length ==>
                cards[i] == Card(markup[i] + {EnteringClass}, Parked, 0, false, false)
    {
      var n := if sectionPresent then |markup| else 0;
      var a := new Card[n];
      var k := 0;
      while k < n
        invariant 0 <= k <= n
        invariant forall j :: 0 <= j < k ==> a[j] == Card(markup[j] + {EnteringClass}, Parked, 0, false, false)
      {
        a[k] := Card(markup[k] + {EnteringClass}, Parked, 0, false, false);
        k := k + 1;
      }
      cards := a;
    }

    /** Recomputes every card's phase and style from the container's top
        edge and the viewport height, then leaves at most the placing card
        and the sticky card clickable. */
    method Update(containerTop: int, viewportHeight: int)
      modifies cards
      ensures forall i :: 0 <= i < cards.Length ==>
                cards[i] == Settle(old(cards[i]), ScrollProgress(containerTop, viewportHeight), i, cards.Length)
    {
      var n := cards.Length;
      if n == 0 {
        return;
      }
      var p := ScrollProgress(containerTop, viewportHeight);
      if p < 0 {
        ParkAll();
        return;
      }
      var sticky, placing := PlacePass(p);
      GatePass(p, sticky, placing);
    }

    /** The treatment before the section is reached: every card parked. */
    method ParkAll()
      modifies cards
      ensures forall j :: 0 <= j < cards.Length ==> cards[j] == Park(old(cards[j]))
    {
      var k := 0;
      while k < cards.Length
        invariant 0 <= k <= cards.Length
        invariant forall j :: 0 <= j < k ==> cards[j] == Park(old(cards[j]))
        invariant forall j :: k <= j < cards.Length ==> cards[j] == old(cards[j])
      {
        cards[k] := Park(cards[k]);
        k := k + 1;
      }
    }

    /** The first pass: each card placed by its interval test, remembering
        the last placed card (the sticky card) and the placing card, or -1. */
    method PlacePass(p: int) returns (sticky: int, placing: int)
      modifies cards
      ensures forall j :: 0 <= j < cards.Length ==> cards[j] == Place(old(cards[j]), p, j)
      ensures -1 <= sticky < cards.Length && -1 <= placing < cards.Length
      ensures forall j :: 0 <= j < cards.Length ==> (j == sticky <==> IsSticky(p, cards.Length, j))
      ensures forall j :: 0 <= j < cards.Length ==> (j == placing <==> PhaseAt(p, j) == Placing)
    {
      var n := cards.Length;
      sticky, placing := -1, -1;
      var k := 0;
      while k < n
        invariant 0 <= k <= n
        invariant forall j :: 0 <= j < k ==> cards[j] == Place(old(cards[j]), p, j)
        invariant forall j :: k <= j < n ==> cards[j] == old(cards[j])
        invariant -1 <= sticky < k
        invariant sticky == -1 ==> forall j :: 0 <= j < k ==> PhaseAt(p, j) != Placed
        invariant sticky >= 0 ==> PhaseAt(p, sticky) == Placed
        invariant sticky >= 0 ==> forall j :: sticky < j < k ==> PhaseAt(p, j) != Placed
        invariant -1 <= placing < k
        invariant placing == -1 ==> forall j :: 0 <= j < k ==> PhaseAt(p, j) != Placing
        invariant placing >= 0 ==> PhaseAt(p, placing) == Placing
      {
        var c := cards[k];
        var trigger := TriggerOffset(k);
        var isTriggered := p >= trigger;
        var isCurrentlyPlacing := p >= trigger && p < trigger + PlacementDuration;
        var isPlaced := p >= trigger + PlacementDuration;
        if isPlaced {
          sticky := k;
          cards[k] := Card(c.classes - {EnteringClass, PlacingClass} + {PlacedClass, ClickableClass},
                           InFlow, 1, true, c.pointerEvents);
        } else if isCurrentlyPlacing {
          placing := k;
          cards[k] := Card(c.classes - {EnteringClass, PlacedClass} + {PlacingClass, ClickableClass},
                           Moving(p - trigger), 1, true, c.pointerEvents);
        } else if !isTriggered {
          cards[k] := Park(c);
        }
        k := k + 1;
      }
      forall j | 0 <= j < n ensures j == placing <==> PhaseAt(p, j) == Placing {
        if PhaseAt(p, j) == Placing {
          AtMostOnePlacing(p, j, placing);
        }
      }
    }

    /** The second pass: only the sticky and the placing card stay clickable. */
    method GatePass(p: int, sticky: int, placing: int)
      requires forall j :: 0 <= j < cards.Length ==> (j == sticky <==> IsSticky(p, cards.Length, j))
      requires forall j :: 0 <= j < cards.Length ==> (j == placing <==> PhaseAt(p, j) == Placing)
      modifies cards
      ensures forall j :: 0 <= j < cards.Length ==> cards[j] == Gate(old(cards[j]), Interactive(p, cards.Length, j))
    {
      var n := cards.Length;
      var k := 0;
      while k < n
        invariant 0 <= k <= n
        invariant forall j :: 0 <= j < k ==> cards[j] == Gate(old(cards[j]), Interactive(p, n, j))
        invariant forall j :: k <= j < n ==> cards[j] == old(cards[j])
      {
        var c := cards[k];
        if k != sticky && k != placing {
          cards[k] := c.(classes := c.classes - {ClickableClass}, pointerEvents := false);
        } else {
          cards[k] := c.(classes := c.classes + {ClickableClass}, pointerEvents := true);
        }
        k := k + 1;
      }
    }
  }
}
