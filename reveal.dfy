/** Scroll animations of the rule, slam and icon cards: the `reveal` class every
    card gets on load, and the `reveal` and `active` classes a card gets once its
    top has come far enough into the viewport. */
module Reveal {
  import opened Dom

  /** How far above the bottom of the viewport a card's top must be to reveal it. */
  const ElementVisible := 150

  /** The reveal test: the card's top is above innerHeight - 150. */
  predicate InView(top: int, innerHeight: int) {
    top < innerHeight - ElementVisible
  }

  /** One card after revealOnScroll. */
  function RevealCard(c: Card, innerHeight: int): (r: Card)
    ensures r.top == c.top && c.classes <= r.classes
    ensures InView(c.top, innerHeight) ==> RevealClass in r.classes && Active in r.classes
    ensures !InView(c.top, innerHeight) ==> r == c
    ensures r.classes - {RevealClass, Active} == c.classes - {RevealClass, Active}
  {
    if InView(c.top, innerHeight) then c.(classes := c.classes + {RevealClass, Active}) else c
  }

  /** revealOnScroll: add `reveal` and `active` to every card in view, in place. */
  method RevealOnScroll(cards: array<Card>, innerHeight: int)
    modifies cards
    ensures forall i :: 0 <= i < cards.Length ==> cards[i] == RevealCard(old(cards[i]), innerHeight)
  {
    for i := 0 to cards.Length
      invariant forall j :: 0 <= j < i ==> cards[j] == RevealCard(old(cards[j]), innerHeight)
      invariant forall j :: i <= j < cards.Length ==> cards[j] == old(cards[j])
    {
      var elementTop := cards[i].top;
      if elementTop < innerHeight - ElementVisible {
        cards[i] := cards[i].(classes := cards[i].classes + {RevealClass, Active});
      }
    }
  }

  /** The load-time pass: every card gets the `reveal` class. */
  method AddRevealClass(cards: array<Card>)
    modifies cards
    ensures forall i :: 0 <= i < cards.Length ==>
      cards[i].top == old(cards[i].top) && cards[i].classes == old(cards[i].classes) + {RevealClass}
  {
    for i := 0 to cards.Length
      invariant forall j :: 0 <= j < i ==>
        cards[j].top == old(cards[j].top) && cards[j].classes == old(cards[j].classes) + {RevealClass}
      invariant forall j :: i <= j < cards.Length ==> cards[j] == old(cards[j])
    {
      cards[i] := cards[i].(classes := cards[i].classes + {RevealClass});
    }
  }

  /** What one scroll event presents to revealOnScroll: the cards' current tops,
      which change as the page scrolls, and the viewport height. */
  datatype Frame = Frame(tops: seq<int>, innerHeight: int)

  predicate FitsCards(frames: seq<Frame>, n: nat) {
    forall k :: 0 <= k < |frames| ==> |frames[k].tops| == n
  }

  /** The cards after the layout of one frame and one revealOnScroll pass. */
  function RevealStep(cards: seq<Card>, f: Frame): (r: seq<Card>)
    requires |f.tops| == |cards|
    ensures |r| == |cards|
    ensures forall i :: 0 <= i < |cards| ==> r[i] == RevealCard(cards[i].(top := f.tops[i]), f.innerHeight)
  {
    seq(|cards|, i requires 0 <= i < |cards| => RevealCard(cards[i].(top := f.tops[i]), f.innerHeight))
  }

  /** The cards after a sequence of scroll events. */
  function RevealRun(cards: seq<Card>, frames: seq<Frame>): (r: seq<Card>)
    requires FitsCards(frames, |cards|)
    ensures |r| == |cards|
    decreases |frames|
  {
    if frames == [] then cards else RevealRun(RevealStep(cards, frames[0]), frames[1..])
  }

  /** No scroll event ever takes a class away from a card. */
  lemma {:induction false} RevealRunKeepsClasses(cards: seq<Card>, frames: seq<Frame>)
    requires FitsCards(frames, |cards|)
    ensures forall i :: 0 <= i < |cards| ==> cards[i].classes <= RevealRun(cards, frames)[i].classes
    decreases |frames|
  {
    if frames != [] {
      var next := RevealStep(cards, frames[0]);
      RevealRunKeepsClasses(next, frames[1..]);
    }
  }

  /** A card that was in view during any scroll event is revealed and active after
      all later events. */
  lemma {:induction false} RevealedStaysRevealed(cards: seq<Card>, frames: seq<Frame>, k: nat, i: nat)
    requires FitsCards(frames, |cards|)
    requires k < |frames| && i < |cards| && InView(frames[k].tops[i], frames[k].innerHeight)
    ensures RevealClass in RevealRun(cards, frames)[i].classes
    ensures Active in RevealRun(cards, frames)[i].classes
    decreases |frames|
  {
    var next := RevealStep(cards, frames[0]);
    if k == 0 {
      RevealRunKeepsClasses(next, frames[1..]);
    } else {
      RevealedStaysRevealed(next, frames[1..], k - 1, i);
    }
  }

  /** A card that was never in view keeps exactly the classes it had. */
  lemma {:induction false} UnseenStaysHidden(cards: seq<Card>, frames: seq<Frame>, i: nat)
    requires FitsCards(frames, |cards|)
    requires i < |cards|
    requires forall k :: 0 <= k < |frames| ==> !InView(frames[k].tops[i], frames[k].innerHeight)
    ensures RevealRun(cards, frames)[i].classes == cards[i].classes
    decreases |frames|
  {
    if frames != [] {
      var next := RevealStep(cards, frames[0]);
      UnseenStaysHidden(next, frames[1..], i);
    }
  }
}
