/**
 * The deck of a game of Set (SetGame/Models/SetDeck.swift): how a fresh,
 * shuffled deck is built and how cards are dealt from its end.
 */
module Deck {
  import opened Features
  import opened Cards
  import opened GameConstants
  import opened Extensions

  /** No card occurs twice. */
  predicate Distinct(s: seq<SetCard>)
  {
    forall i, j :: 0 <= i < j < |s| ==> s[i] != s[j]
  }

  /** Every card that `admits` accepts occurs exactly once, and no other card occurs. */
  ghost predicate ExactlyOnce(cards: seq<SetCard>, admits: SetCard -> bool)
  {
    forall c :: multiset(cards)[c] == if admits(c) then 1 else 0
  }

  /** The cards of the full deck: every feature combination, unselected. */
  predicate InFullDeck(c: SetCard) { !c.isSelected }

  /** The cards of the limited deck: every combination with number one, unselected. */
  predicate InLimitedDeck(c: SetCard) { !c.isSelected && c.number == One }

  /** The cards of the very limited deck: colour one and number one, unselected. */
  predicate InVeryLimitedDeck(c: SetCard) { !c.isSelected && c.color == Color1 && c.number == One }

  /** Position of a card in the order of the four nested loops of `newDeck`. */
  function FullKey(c: SetCard): int
  {
    27 * (c.shape.RawValue() - 1) + 9 * (c.shading.RawValue() - 1) + 3 * c.color.RawValue() + (c.number.RawValue() - 1)
  }

  /** Position of a card in the order of the three nested loops of `newLimitedDeck`. */
  function LimitedKey(c: SetCard): int
  {
    9 * (c.shape.RawValue() - 1) + 3 * (c.shading.RawValue() - 1) + c.color.RawValue()
  }

  /** Position of a card in the order of the two nested loops of `newVeryLimitedDeck`. */
  function VeryLimitedKey(c: SetCard): int
  {
    3 * (c.shape.RawValue() - 1) + (c.shading.RawValue() - 1)
  }

  lemma DistinctCount(s: seq<SetCard>, x: SetCard)
    requires Distinct(s)
    ensures multiset(s)[x] == if x in s then 1 else 0
  {
    if |s| > 0 {
      assert s == [s[0]] + s[1..];
      assert Distinct(s[1..]);
      DistinctCount(s[1..], x);
    }
  }

  /**
   * A sequence that lists, at each position, the unique admitted card whose
   * key is that position, and that is long enough for every key, holds each
   * admitted card exactly once.
   */
  lemma CatalogExactlyOnce(s: seq<SetCard>, admits: SetCard -> bool, key: SetCard -> int)
    requires forall i :: 0 <= i < |s| ==> admits(s[i]) && key(s[i]) == i
    requires forall c :: admits(c) ==> 0 <= key(c) < |s|
    requires forall c, d :: admits(c) && admits(d) && key(c) == key(d) ==> c == d
    ensures ExactlyOnce(s, admits)
  {
    assert Distinct(s);
    forall c ensures multiset(s)[c] == if admits(c) then 1 else 0 {
      DistinctCount(s, c);
      if admits(c) {
        assert s[key(c)] == c;
      }
    }
  }

  /** After shuffling: any permutation keeps the length and the exactly-once property. */
  lemma PermutationKeepsExactlyOnce(s: seq<SetCard>, t: seq<SetCard>, admits: SetCard -> bool)
    requires multiset(s) == multiset(t)
    requires ExactlyOnce(s, admits)
    ensures ExactlyOnce(t, admits) && |t| == |s|
  {
    assert |multiset(s)| == |s| && |multiset(t)| == |t|;
  }

  /** A sequence that holds each admitted card exactly once holds only admitted cards. */
  lemma ExactlyOnceAdmits(cards: seq<SetCard>, admits: SetCard -> bool)
    requires ExactlyOnce(cards, admits)
    ensures forall i :: 0 <= i < |cards| ==> admits(cards[i])
  {
    forall i | 0 <= i < |cards|
      ensures admits(cards[i])
    {
      assert cards[i] in multiset(cards);
    }
  }

  /** How many cards one subsequent deal hands out: `setSize`, or all that are left. */
  function DealCount(d: seq<SetCard>): (n: nat)
    ensures n <= SetSize && n <= |d|
    ensures n == SetSize || n == |d|
  {
    PopCount(SetSize, |d|)
  }

  /** The deck once a subsequent deal has been taken from its end. */
  function AfterDeal(d: seq<SetCard>): (r: seq<SetCard>)
    ensures |r| == |d| - DealCount(d)
  {
    d[..|d| - DealCount(d)]
  }

  /** The cards a subsequent deal hands out: the last ones of the deck, in deck order. */
  function NextDeal(d: seq<SetCard>): (r: seq<SetCard>)
    ensures |r| == DealCount(d)
    ensures AfterDeal(d) + r == d
  {
    d[|d| - DealCount(d)..]
  }

  class SetDeck {
    var cards: seq<SetCard>

    constructor (cards: seq<SetCard>)
      ensures this.cards == cards
    {
      this.cards := cards;
    }

    /**
     * A new deck holding the 81 unselected cards, one per combination of the
     * four features, in some order. `shuffled()` is modelled as an arbitrary
     * permutation.
     */
    static method NewDeck() returns (deck: SetDeck)
      ensures fresh(deck)
      ensures |deck.cards| == 81
      ensures ExactlyOnce(deck.cards, InFullDeck)
    {
      AllCasesExact();
      RawValuesInjective();
      var cardArray: seq<SetCard> := [];
      for a := 0 to 3
        invariant |cardArray| == 27 * a
        invariant forall i :: 0 <= i < |cardArray| ==> InFullDeck(cardArray[i]) && FullKey(cardArray[i]) == i
      {
        var shape := AllShapes[a];
        for b := 0 to 3
          invariant |cardArray| == 27 * a + 9 * b
          invariant forall i :: 0 <= i < |cardArray| ==> InFullDeck(cardArray[i]) && FullKey(cardArray[i]) == i
        {
          var shading := AllShades[b];
          for c := 0 to 3
            invariant |cardArray| == 27 * a + 9 * b + 3 * c
            invariant forall i :: 0 <= i < |cardArray| ==> InFullDeck(cardArray[i]) && FullKey(cardArray[i]) == i
          {
            var color := AllColors[c];
            for d := 0 to 3
              invariant |cardArray| == 27 * a + 9 * b + 3 * c + d
              invariant forall i :: 0 <= i < |cardArray| ==> InFullDeck(cardArray[i]) && FullKey(cardArray[i]) == i
            {
              cardArray := cardArray + [NewCard(shape, shading, color, AllNumbers[d])];
            }
          }
        }
      }
      CatalogExactlyOnce(cardArray, InFullDeck, FullKey);
      var shuffled :| multiset(shuffled) == multiset(cardArray);
      PermutationKeepsExactlyOnce(cardArray, shuffled, InFullDeck);
      deck := new SetDeck(shuffled);
    }

    /** A shuffled deck of the 27 unselected cards whose number is one, each once. */
    static method NewLimitedDeck() returns (deck: SetDeck)
      ensures fresh(deck)
      ensures |deck.cards| == 27
      ensures ExactlyOnce(deck.cards, InLimitedDeck)
    {
      AllCasesExact();
      RawValuesInjective();
      var cardArray: seq<SetCard> := [];
      for a := 0 to 3
        invariant |cardArray| == 9 * a
        invariant forall i :: 0 <= i < |cardArray| ==> InLimitedDeck(cardArray[i]) && LimitedKey(cardArray[i]) == i
      {
        var shape := AllShapes[a];
        for b := 0 to 3
          invariant |cardArray| == 9 * a + 3 * b
          invariant forall i :: 0 <= i < |cardArray| ==> InLimitedDeck(cardArray[i]) && LimitedKey(cardArray[i]) == i
        {
          var shading := AllShades[b];
          for c := 0 to 3
            invariant |cardArray| == 9 * a + 3 * b + c
            invariant forall i :: 0 <= i < |cardArray| ==> InLimitedDeck(cardArray[i]) && LimitedKey(cardArray[i]) == i
          {
            cardArray := cardArray + [NewCard(shape, shading, AllColors[c], One)];
          }
        }
      }
      CatalogExactlyOnce(cardArray, InLimitedDeck, LimitedKey);
      var shuffled :| multiset(shuffled) == multiset(cardArray);
      PermutationKeepsExactlyOnce(cardArray, shuffled, InLimitedDeck);
      deck := new SetDeck(shuffled);
    }

    /** A shuffled deck of the 9 unselected cards of colour one and number one, each once. */
    static method NewVeryLimitedDeck() returns (deck: SetDeck)
      ensures fresh(deck)
      ensures |deck.cards| == 9
      ensures ExactlyOnce(deck.cards, InVeryLimitedDeck)
    {
      AllCasesExact();
      RawValuesInjective();
      var cardArray: seq<SetCard> := [];
      for a := 0 to 3
        invariant |cardArray| == 3 * a
        invariant forall i :: 0 <= i < |cardArray| ==> InVeryLimitedDeck(cardArray[i]) && VeryLimitedKey(cardArray[i]) == i
      {
        var shape := AllShapes[a];
        for b := 0 to 3
          invariant |cardArray| == 3 * a + b
          invariant forall i :: 0 <= i < |cardArray| ==> InVeryLimitedDeck(cardArray[i]) && VeryLimitedKey(cardArray[i]) == i
        {
          cardArray := cardArray + [NewCard(shape, AllShades[b], Color1, One)];
        }
      }
      CatalogExactlyOnce(cardArray, InVeryLimitedDeck, VeryLimitedKey);
      var shuffled :| multiset(shuffled) == multiset(cardArray);
      PermutationKeepsExactlyOnce(cardArray, shuffled, InVeryLimitedDeck);
      deck := new SetDeck(shuffled);
    }

    /** Whether there are no cards left to deal. */
    function IsEmpty(): (r: bool)
      reads this
      ensures r <==> |cards| == 0
    {
      cards == []
    }

    /**
     * Removes the last `initialDealSize` cards (all of them when fewer remain)
     * and returns them in deck order.
     */
    method InitialDeal() returns (dealt: seq<SetCard>)
      modifies this
      ensures |dealt| == PopCount(InitialDealSize, |old(cards)|)
      ensures old(cards) == cards + dealt
    {
      cards, dealt := PopLast(cards, InitialDealSize);
    }

    /**
     * Removes the last `setSize` cards (as many as remain, possibly none) and
     * returns them in deck order.
     */
    method SubsequentDeal() returns (dealt: seq<SetCard>)
      modifies this
      ensures dealt == NextDeal(old(cards)) && cards == AfterDeal(old(cards))
      ensures old(cards) == cards + dealt
    {
      cards, dealt := PopLast(cards, SetSize);
    }
  }
}
