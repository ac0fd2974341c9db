/**
 * The game engine of SetGame/Models/SetGame.swift: a deck to draw from and
 * the tableau of cards on the table, with the operations that select cards,
 * take away or replace a selected set, deal more cards and end the game.
 *
 * The Swift `SetGame` is a struct whose `mutating` methods update its two
 * stored properties in place; it becomes a class with those two fields. The
 * computed properties that read only the tableau live in module Tableau as
 * functions of the tableau.
 */
module Game {
  import opened Wrappers
  import opened Features
  import opened Cards
  import opened GameConstants
  import opened Extensions
  import opened Deck
  import opened Tableau

  // ---------------------------------------------------------------------------
  // Replacing a selected set
  // ---------------------------------------------------------------------------

  /**
   * The tableau after `replaceSelectedSet` with a set selected: the dealt
   * cards written into the selected slots or, when the deck had nothing left
   * to deal, the tableau with the selected cards taken away.
   */
  function ReplacedTableau(t: seq<SetCard>, d: seq<SetCard>): seq<SetCard>
    requires HasSetSelected(t)
  {
    if DealCount(d) == 0 then WithoutSelected(t)
    else ReplaceSlots(t, SelectedCardIndices(t), NextDeal(d))
  }

  /**
   * Replacing a selected set keeps every unselected card where it was and
   * leaves as many cards selected as the deal fell short of `setSize`; with
   * an empty deck the tableau loses exactly the three selected cards.
   */
  lemma ReplacedTableauShape(t: seq<SetCard>, d: seq<SetCard>)
    requires HasSetSelected(t)
    requires forall i :: 0 <= i < |d| ==> !d[i].isSelected
    ensures var r := ReplacedTableau(t, d);
            NumSelected(r) == (if DealCount(d) == 0 then 0 else SetSize - DealCount(d)) &&
            (DealCount(d) > 0 ==>
               |r| == |t| &&
               (forall x :: 0 <= x < |t| && !t[x].isSelected ==> r[x] == t[x]) &&
               (forall m :: 0 <= m < DealCount(d) ==> r[SelectedCardIndices(t)[m]] == NextDeal(d)[m])) &&
            (DealCount(d) == 0 ==> |r| == |t| - SetSize)
  {
    var r := ReplacedTableau(t, d);
    var indices := SelectedCardIndices(t);
    var cards := NextDeal(d);
    if DealCount(d) == 0 {
      WithoutSelectedSize(t);
      assert NumSelected(r) == 0;
    } else {
      forall a | 0 <= a < |indices|
        ensures t[indices[a]].isSelected
      {
        assert indices[a] in indices;
      }
      DealUnselected(d);
      ReplaceSlotsPlaces(t, indices, cards);
      ReplaceSlotsCount(t, indices, cards);
      forall x | 0 <= x < |t| && !t[x].isSelected
        ensures r[x] == t[x]
      {
        assert x !in indices;
        assert x !in indices[..|cards|];
      }
    }
  }

  /**
   * Replacing a selected set from a deck of unselected cards leaves at most
   * `setSize` cards selected and an undealt rest with none selected.
   */
  lemma ReplacedTableauValid(t: seq<SetCard>, d: seq<SetCard>)
    requires HasSetSelected(t)
    requires forall i :: 0 <= i < |d| ==> !d[i].isSelected
    ensures NumSelected(ReplacedTableau(t, d)) <= SetSize
    ensures forall i :: 0 <= i < |AfterDeal(d)| ==> !AfterDeal(d)[i].isSelected
  {
    DealUnselected(d);
    if DealCount(d) == 0 {
      assert NumSelected(WithoutSelected(t)) == 0;
    } else {
      var indices := SelectedCardIndices(t);
      forall a | 0 <= a < |indices|
        ensures t[indices[a]].isSelected
      {
        assert indices[a] in indices;
      }
      ReplaceSlotsCount(t, indices, NextDeal(d));
    }
  }

  /** Both parts of a deck with no selected card have no selected card. */
  lemma DealUnselected(d: seq<SetCard>)
    requires forall i :: 0 <= i < |d| ==> !d[i].isSelected
    ensures forall m :: 0 <= m < |NextDeal(d)| ==> !NextDeal(d)[m].isSelected
    ensures forall i :: 0 <= i < |AfterDeal(d)| ==> !AfterDeal(d)[i].isSelected
  {
    var n := |d| - DealCount(d);
    forall m | 0 <= m < |NextDeal(d)|
      ensures !NextDeal(d)[m].isSelected
    {
      assert NextDeal(d)[m] == d[n + m];
    }
    forall i | 0 <= i < |AfterDeal(d)|
      ensures !AfterDeal(d)[i].isSelected
    {
      assert AfterDeal(d)[i] == d[i];
    }
  }

  /** A card that was not selected keeps its position when a set is replaced by dealt cards. */
  lemma ReplacedTableauKeepsUnselected(t: seq<SetCard>, d: seq<SetCard>, i: nat)
    requires HasSetSelected(t)
    requires DealCount(d) > 0
    requires i < |t| && !t[i].isSelected
    ensures var r := ReplacedTableau(t, d); i < |r| && r[i] == t[i]
  {
    var indices := SelectedCardIndices(t);
    ReplaceSlotsPlaces(t, indices, NextDeal(d));
    assert i !in indices;
    assert i !in indices[..DealCount(d)];
  }

  // ---------------------------------------------------------------------------
  // The engine's state as a value, and what each operation makes of it
  // ---------------------------------------------------------------------------

  /** The tableau and the undealt deck: the state the engine's operations change. */
  datatype Table = Table(tableau: seq<SetCard>, deck: seq<SetCard>)

  /** The engine's invariant: at most `setSize` cards selected, and no card in the deck selected. */
  predicate WellFormed(s: Table)
  {
    NumSelected(s.tableau) <= SetSize &&
    forall i :: 0 <= i < |s.deck| ==> !s.deck[i].isSelected
  }

  /** `replaceSelectedSet` on the state: nothing changes unless a set is selected. */
  function AfterReplace(s: Table): Table
  {
    if HasSetSelected(s.tableau) then Table(ReplacedTableau(s.tableau, s.deck), AfterDeal(s.deck))
    else s
  }

  /** Replacing a selected set keeps the invariant. */
  lemma ReplaceKeepsWellFormed(s: Table)
    requires WellFormed(s)
    ensures WellFormed(AfterReplace(s))
  {
    if HasSetSelected(s.tableau) {
      ReplacedTableauValid(s.tableau, s.deck);
    }
  }

  /**
   * What `select` does before it selects an unselected card: replace a
   * selected set, or deselect three selected cards that are no set.
   */
  function ClearedForSelection(s: Table): Table
  {
    if HasSetSelected(s.tableau) then AfterReplace(s)
    else if HasMaxSelected(s.tableau) then Table(Deselected(s.tableau), s.deck)
    else s
  }

  /** The card about to be selected is still on the table after the clearing step. */
  lemma UnselectedSurvivesClearing(s: Table, card: SetCard)
    requires card in s.tableau && !card.isSelected
    ensures card in ClearedForSelection(s).tableau
  {
    var t := s.tableau;
    var i := FirstIndexOf(t, card);
    if HasSetSelected(t) {
      if DealCount(s.deck) == 0 {
        WithoutSelectedKeeps(t, card);
      } else {
        ReplacedTableauKeepsUnselected(t, s.deck, i);
      }
    } else if HasMaxSelected(t) {
      assert Deselected(t)[i] == card;
    }
  }

  /**
   * Unless the clearing step takes the selected set away (a set selected and
   * an empty deck), the card to select stays at the position where it was found.
   */
  lemma ClearingKeepsPosition(s: Table, card: SetCard)
    requires card in s.tableau && !card.isSelected
    requires !(HasSetSelected(s.tableau) && |s.deck| == 0)
    ensures var i := FirstIndexOf(s.tableau, card);
            i < |ClearedForSelection(s).tableau| && ClearedForSelection(s).tableau[i] == card
  {
    var t := s.tableau;
    var i := FirstIndexOf(t, card);
    if HasSetSelected(t) {
      ReplacedTableauKeepsUnselected(t, s.deck, i);
    } else if HasMaxSelected(t) {
      assert Deselected(t)[i] == card;
    }
  }

  /**
   * The position `select` toggles after the clearing step: the one found
   * before it, as at SetGame.swift:70, unless the clearing took the selected
   * set away and so moved the later cards; then the card is found again.
   */
  function SelectionSlot(s: Table, card: SetCard): (j: nat)
    requires card in s.tableau && CanSelect(card)
    ensures j < |ClearedForSelection(s).tableau| && ClearedForSelection(s).tableau[j] == card
  {
    if HasSetSelected(s.tableau) && |s.deck| == 0 then
      UnselectedSurvivesClearing(s, card);
      FirstIndexOf(ClearedForSelection(s).tableau, card)
    else
      ClearingKeepsPosition(s, card);
      FirstIndexOf(s.tableau, card)
  }

  /** After the clearing step of a valid state there is room to select one more card. */
  lemma ClearingLeavesRoom(s: Table)
    requires WellFormed(s)
    ensures WellFormed(ClearedForSelection(s))
    ensures NumSelected(ClearedForSelection(s).tableau) < SetSize
  {
    if HasSetSelected(s.tableau) {
      ReplacedTableauShape(s.tableau, s.deck);
      ReplacedTableauValid(s.tableau, s.deck);
    }
  }

  /**
   * `select` as its documentation ("in either case, select the given card")
   * intends: a selectable card is toggled where it lies after the clearing
   * step, a deselectable one where it lies now.
   */
  function SelectResult(s: Table, card: SetCard): Table
    requires card in s.tableau
  {
    if CanSelect(card) then
      var m := ClearedForSelection(s);
      var j := SelectionSlot(s, card);
      Table(m.tableau[j := m.tableau[j].ToggleSelection()], m.deck)
    else if CanDeselect(card, s.tableau) then
      var i := FirstIndexOf(s.tableau, card);
      Table(s.tableau[i := s.tableau[i].ToggleSelection()], s.deck)
    else
      s
  }

  /**
   * `replaceSelectedSet` as written at SetGame.swift:105-118: guarded by the
   * written `hasSetSelected` (positions 0, 1 and 2); the selected cards are
   * removed when nothing is dealt, and otherwise the selected positions are
   * read again before every write. None stands for the out-of-range trap.
   */
  function AfterReplaceAsWritten(s: Table): Option<Table>
  {
    if !HasSetSelectedAsWritten(s.tableau) then Some(s)
    else if DealCount(s.deck) == 0 then Some(Table(WithoutSelected(s.tableau), s.deck))
    else
      match ReplaceSlotsAsWritten(s.tableau, NextDeal(s.deck), 0)
      case None => None
      case Some(t) => Some(Table(t, AfterDeal(s.deck)))
  }

  /** The clearing step of `select` as written at SetGame.swift:72-76. */
  function ClearedForSelectionAsWritten(s: Table): Option<Table>
  {
    if HasSetSelectedAsWritten(s.tableau) then AfterReplaceAsWritten(s)
    else if HasMaxSelected(s.tableau) then Some(Table(Deselected(s.tableau), s.deck))
    else Some(s)
  }

  /**
   * `select` as written at SetGame.swift:69-82: the position is found before
   * the clearing step, and the clearing step is the written one. None stands
   * for a trap, in the replacement loop or on the position when the clearing
   * removed cards in front of it.
   */
  function SelectResultAsWritten(s: Table, card: SetCard): Option<Table>
    requires card in s.tableau
  {
    var i := FirstIndexOf(s.tableau, card);
    if CanSelect(card) then
      match ClearedForSelectionAsWritten(s)
      case None => None
      case Some(m) =>
        if i < |m.tableau| then Some(Table(m.tableau[i := m.tableau[i].ToggleSelection()], m.deck))
        else None
    else if CanDeselect(card, s.tableau) then
      Some(Table(s.tableau[i := s.tableau[i].ToggleSelection()], s.deck))
    else
      Some(s)
  }

  /**
   * Where no clearing happens, and where three selected cards that are no
   * set by either test are deselected, the intended `select` does exactly
   * what the written one does, duplicate cards or not.
   */
  lemma SelectAgreesWithWritten(s: Table, card: SetCard)
    requires card in s.tableau
    requires !(CanSelect(card) && HasMaxSelected(s.tableau)) ||
             (!HasSetSelected(s.tableau) && !HasSetSelectedAsWritten(s.tableau))
    ensures SelectResultAsWritten(s, card) == Some(SelectResult(s, card))
  {
    if CanSelect(card) {
      ClearingKeepsPosition(s, card);
    }
  }

  /**
   * As written, `replaceSelectedSet` always traps in its replacement loop
   * when three selected cards at positions 0, 1 and 2 form a set and the
   * deck holds a full deal.
   */
  lemma ReplaceAsWrittenTrapsOnFullDeal(s: Table)
    requires WellFormed(s) && |s.deck| >= SetSize
    requires HasSetSelectedAsWritten(s.tableau)
    ensures AfterReplaceAsWritten(s).None?
  {
    DealUnselected(s.deck);
    ReplaceSlotsAsWrittenTraps(s.tableau, NextDeal(s.deck));
  }

  /** So selecting a card in that situation traps as well. */
  lemma SelectAsWrittenTrapsOnFullDeal(s: Table, card: SetCard)
    requires card in s.tableau && CanSelect(card)
    requires WellFormed(s) && |s.deck| >= SetSize
    requires HasSetSelectedAsWritten(s.tableau)
    ensures SelectResultAsWritten(s, card).None?
  {
    ReplaceAsWrittenTrapsOnFullDeal(s);
  }

  /** Selecting or deselecting a card keeps the invariant. */
  lemma SelectKeepsWellFormed(s: Table, card: SetCard)
    requires card in s.tableau
    requires WellFormed(s)
    ensures WellFormed(SelectResult(s, card))
  {
    if CanSelect(card) {
      var m := ClearedForSelection(s);
      ClearingLeavesRoom(s);
      ToggleCount(m.tableau, SelectionSlot(s, card));
    } else if CanDeselect(card, s.tableau) {
      ToggleCount(s.tableau, FirstIndexOf(s.tableau, card));
    }
  }

  /**
   * `select` flips the given card when it may be selected or deselected,
   * and otherwise (a selected card while three are selected) changes nothing.
   */
  lemma SelectFlipsTheCard(s: Table, card: SetCard)
    requires card in s.tableau
    ensures CanSelect(card) || CanDeselect(card, s.tableau) ==>
              card.ToggleSelection() in SelectResult(s, card).tableau
    ensures !CanSelect(card) && !CanDeselect(card, s.tableau) ==> SelectResult(s, card) == s
  {
    if CanSelect(card) {
      var j := SelectionSlot(s, card);
      assert SelectResult(s, card).tableau[j] == card.ToggleSelection();
    } else if CanDeselect(card, s.tableau) {
      var i := FirstIndexOf(s.tableau, card);
      assert SelectResult(s, card).tableau[i] == card.ToggleSelection();
    }
  }

  /**
   * With fewer than three cards selected there is nothing to clear: `select`
   * flips the flag of the chosen card where it was found and changes
   * nothing else, the deck included. The same holds for deselecting.
   */
  lemma SelectTogglesOnlyThatCard(s: Table, card: SetCard)
    requires card in s.tableau
    ensures var i := FirstIndexOf(s.tableau, card);
            (CanSelect(card) && !HasMaxSelected(s.tableau)) || CanDeselect(card, s.tableau) ==>
              SelectResult(s, card) == Table(s.tableau[i := card.ToggleSelection()], s.deck)
  {
  }

  /**
   * How `select` moves the number of selected cards: one more or one fewer
   * when no clearing happens, and exactly one (the new card) after three
   * selected cards that are no set were deselected or a set was replaced by
   * a full deal.
   */
  lemma SelectCounts(s: Table, card: SetCard)
    requires card in s.tableau
    requires WellFormed(s)
    ensures var r := SelectResult(s, card);
            (CanSelect(card) && !HasMaxSelected(s.tableau) ==>
               NumSelected(r.tableau) == NumSelected(s.tableau) + 1 && r.deck == s.deck) &&
            (CanDeselect(card, s.tableau) ==>
               NumSelected(r.tableau) == NumSelected(s.tableau) - 1 && r.deck == s.deck) &&
            (CanSelect(card) && HasMaxSelected(s.tableau) && !HasSetSelected(s.tableau) ==>
               NumSelected(r.tableau) == 1 && |r.tableau| == |s.tableau| && r.deck == s.deck) &&
            (CanSelect(card) && HasSetSelected(s.tableau) && DealCount(s.deck) == SetSize ==>
               NumSelected(r.tableau) == 1 && |r.tableau| == |s.tableau| && r.deck == AfterDeal(s.deck))
  {
    if CanSelect(card) {
      var m := ClearedForSelection(s);
      ToggleCount(m.tableau, SelectionSlot(s, card));
      if HasSetSelected(s.tableau) {
        ReplacedTableauShape(s.tableau, s.deck);
      }
    } else if CanDeselect(card, s.tableau) {
      ToggleCount(s.tableau, FirstIndexOf(s.tableau, card));
    }
  }

  /**
   * As written, selecting an unselected card after a selected set was
   * removed from the table (the deck being empty) can reach past the end of
   * the shortened tableau: three selected cards that form a set, then the
   * card chosen, at position 3 of a tableau that shrinks to one card.
   */
  lemma SelectAsWrittenStaleIndex()
    ensures exists s: Table, card: SetCard ::
              card in s.tableau && SelectResultAsWritten(s, card).None? &&
              card.ToggleSelection() in SelectResult(s, card).tableau
  {
    var x := SetCard(Shape2, Shade2, Color2, Two, false);
    var s := Table([SetCard(Shape1, Shade1, Color1, One, true),
                    SetCard(Shape1, Shade1, Color1, Two, true),
                    SetCard(Shape1, Shade1, Color1, Three, true),
                    x], []);
    assert s.tableau[0].FormsSetWith(s.tableau[1], s.tableau[2]);
    StaleIndexAfterRemoval(s, x);
  }

  /** The situation of `SelectAsWrittenStaleIndex`, for any such table. */
  lemma StaleIndexAfterRemoval(s: Table, x: SetCard)
    requires |s.tableau| == 4 && s.tableau[3] == x && !x.isSelected && |s.deck| == 0
    requires forall i :: 0 <= i < 3 ==> s.tableau[i].isSelected
    requires s.tableau[0].FormsSetWith(s.tableau[1], s.tableau[2])
    ensures x in s.tableau && SelectResultAsWritten(s, x).None?
    ensures x.ToggleSelection() in SelectResult(s, x).tableau
  {
    ThreeSelectedInFront(s.tableau);
    assert HasSetSelectedAsWritten(s.tableau);
    assert s.tableau[3..] == [x];
    assert ClearedForSelectionAsWritten(s) == Some(Table([x], []));
    assert FirstIndexOf(s.tableau, x) == 3;
    SelectFlipsTheCard(s, x);
  }
  /**
   * With seven or more cards, a set selected in front and an empty deck, the
   * stale position does not trap: the written `select` of the card at
   * position 3 toggles the card that was at position 6, while the intended
   * one toggles the chosen card, now at the front.
   */
  lemma StaleIndexTogglesAnotherCard(s: Table)
    requires |s.tableau| >= 7 && |s.deck| == 0
    requires forall i :: 0 <= i < 3 ==> s.tableau[i].isSelected
    requires forall i :: 3 <= i < |s.tableau| ==> !s.tableau[i].isSelected
    requires s.tableau[0].FormsSetWith(s.tableau[1], s.tableau[2])
    ensures SelectResultAsWritten(s, s.tableau[3]) ==
            Some(Table(s.tableau[3..][3 := s.tableau[6].ToggleSelection()], []))
    ensures SelectResult(s, s.tableau[3]) ==
            Table(s.tableau[3..][0 := s.tableau[3].ToggleSelection()], [])
  {
    var t, x := s.tableau, s.tableau[3];
    ThreeSelectedInFront(t);
    assert HasSetSelectedAsWritten(t) && HasSetSelected(t);
    assert FirstIndexOf(t, x) == 3;
    assert ClearedForSelectionAsWritten(s) == Some(Table(t[3..], []));
    assert ClearedForSelection(s) == Table(t[3..], []);
    assert t[3..][0] == x;
    assert FirstIndexOf(t[3..], x) == 0;
  }


  /**
   * `addCards` on the state: nothing before the game has begun, the set
   * replaced when one is selected, and otherwise a subsequent deal appended
   * to the tableau.
   */
  function AddCardsResult(s: Table): Table
  {
    if |s.tableau| == 0 then s
    else if HasSetSelected(s.tableau) then AfterReplace(s)
    else Table(s.tableau + NextDeal(s.deck), AfterDeal(s.deck))
  }
  /**
   * `addCards` as written at SetGame.swift:136-143: guarded by the written
   * `hasSetSelected` and replacing through AfterReplaceAsWritten. None
   * stands for the trap of the replacement loop.
   */
  function AddCardsResultAsWritten(s: Table): Option<Table>
  {
    if |s.tableau| == 0 then Some(s)
    else if HasSetSelectedAsWritten(s.tableau) then AfterReplaceAsWritten(s)
    else Some(Table(s.tableau + NextDeal(s.deck), AfterDeal(s.deck)))
  }

  /**
   * As written, adding cards while three selected cards at positions 0, 1
   * and 2 form a set and the deck holds a full deal always traps.
   */
  lemma AddCardsAsWrittenTrapsOnFullDeal(s: Table)
    requires WellFormed(s) && |s.deck| >= SetSize
    requires HasSetSelectedAsWritten(s.tableau)
    ensures AddCardsResultAsWritten(s).None?
  {
    ReplaceAsWrittenTrapsOnFullDeal(s);
  }

  /**
   * Where neither guard sees a set, the written `addCards` does exactly what
   * the intended one does.
   */
  lemma AddCardsAgreesWithWritten(s: Table)
    requires !HasSetSelected(s.tableau) && !HasSetSelectedAsWritten(s.tableau)
    ensures AddCardsResultAsWritten(s) == Some(AddCardsResult(s))
  {
  }


  /** Adding cards keeps the invariant. */
  lemma AddCardsKeepsWellFormed(s: Table)
    requires WellFormed(s)
    ensures WellFormed(AddCardsResult(s))
  {
    if |s.tableau| > 0 {
      if HasSetSelected(s.tableau) {
        ReplaceKeepsWellFormed(s);
      } else {
        var d := s.deck;
        var dealt := NextDeal(d);
        NumSelectedAppend(s.tableau, dealt);
        DealUnselected(d);
        assert NumSelected(dealt) == 0;
      }
    }
  }

  /**
   * Without a selected set, adding cards moves the next deal from the deck
   * to the end of the tableau: no card is created or lost, and the tableau
   * grows by the size of the deal once the game has begun.
   */
  lemma AddCardsMovesTheDeal(s: Table)
    requires !HasSetSelected(s.tableau)
    ensures var r := AddCardsResult(s);
            multiset(r.tableau) + multiset(r.deck) == multiset(s.tableau) + multiset(s.deck) &&
            |r.tableau| == |s.tableau| + (if |s.tableau| == 0 then 0 else DealCount(s.deck)) &&
            r.tableau[..|s.tableau|] == s.tableau
  {
    if |s.tableau| > 0 {
      var d := s.deck;
      assert d == AfterDeal(d) + NextDeal(d);
      assert multiset(d) == multiset(AfterDeal(d)) + multiset(NextDeal(d));
    }
  }

  class SetGame {
    /** The deck from which cards are dealt. */
    var deck: SetDeck
    /** The cards on the table. */
    var tableau: seq<SetCard>

    /** The memberwise initializer of the struct. */
    constructor (deck: SetDeck, tableau: seq<SetCard>)
      ensures this.deck == deck && this.tableau == tableau
    {
      this.deck := deck;
      this.tableau := tableau;
    }

    /** The state of the engine as a value. */
    function State(): Table
      reads this, deck
    {
      Table(tableau, deck.cards)
    }

    /** The engine's invariant holds of its current state. */
    ghost predicate Valid()
      reads this, deck
    {
      WellFormed(State())
    }

    /** `gameHasBegun`: there are cards on the table. */
    function GameHasBegun(): (r: bool)
      reads this
      ensures r <==> |tableau| > 0
    {
      |tableau| != 0
    }

    /** `cardsRemainingInDeck`: the deck still has cards to deal. */
    function CardsRemainingInDeck(): (r: bool)
      reads this, deck
      ensures r <==> |deck.cards| > 0
    {
      !deck.IsEmpty()
    }

    /**
     * `gameOver`: never while the deck has cards; once it is empty, when at
     * most `setSize` cards are left or the tableau is a cap set.
     */
    function GameOver(): (r: bool)
      reads this, deck
      ensures |deck.cards| > 0 ==> !r
      ensures |deck.cards| == 0 && |tableau| <= MinimumCapSetSize ==>
                (r <==> |tableau| <= SetSize || NoSetIn(tableau))
      ensures |deck.cards| == 0 && |tableau| > MinimumCapSetSize ==> !r
    {
      if !deck.IsEmpty() then false
      else |tableau| <= SetSize || HasCapSet(tableau)
    }

    /**
     * `setOnTableau`: the three cards, in tableau order, of the first triple
     * i < j < k (by i, then j, then k) that forms a set, or None when the
     * tableau is a cap set.
     */
    method SetOnTableau() returns (r: Option<seq<SetCard>>)
      ensures r.None? <==> NoSetIn(tableau)
      ensures r.Some? ==> |r.value| == SetSize && r.value[0].FormsSetWith(r.value[1], r.value[2])
      ensures r.Some? ==> FindSet(tableau).Some? && var p := FindSet(tableau).value;
                          r.value == [tableau[p.i], tableau[p.j], tableau[p.k]]
    {
      var t := tableau;
      ghost var first := FindSet(t);
      for i := 0 to |t|
        invariant first == FindSetFrom(t, i, i + 1, i + 2)
      {
        for j := i + 1 to |t|
          invariant first == FindSetFrom(t, i, j, j + 1)
        {
          for k := j + 1 to |t|
            invariant first == FindSetFrom(t, i, j, k)
          {
            if t[i].FormsSetWith(t[j], t[k]) {
              FindSetNoneIffCapSet(t);
              return Some([t[i], t[j], t[k]]);
            }
          }
          assert FindSetFrom(t, i, j, |t|) == FindSetFrom(t, i, j + 1, j + 2);
        }
        assert FindSetFrom(t, i, |t|, |t| + 1) == FindSetFrom(t, i + 1, i + 2, i + 3);
      }
      FindSetNoneIffCapSet(t);
      return None;
    }

    /** `deselectAll`: every selected card is deselected; nothing else changes. */
    method DeselectAll()
      modifies this`tableau
      ensures tableau == Deselected(old(tableau))
    {
      ghost var t0 := tableau;
      var indices := IndicesWhere(tableau, IsSelected);
      for p := 0 to |indices|
        invariant tableau == ToggleSlots(t0, indices[..p])
      {
        assert indices[..p + 1][..p] == indices[..p];
        tableau := tableau[indices[p] := tableau[indices[p]].ToggleSelection()];
      }
      assert indices[..|indices|] == indices;
      ToggleSelectedDeselects(t0);
    }

    /**
     * `removeSelectedSet`: with a set selected, the selected cards are taken
     * off the table, one by one from the highest position down, and the
     * other cards keep their order; otherwise nothing changes.
     */
    method RemoveSelectedSet()
      modifies this`tableau
      ensures tableau == if HasSetSelected(old(tableau)) then WithoutSelected(old(tableau)) else old(tableau)
    {
      if !HasSetSelected(tableau) {
        return;
      }
      ghost var t0 := tableau;
      var indices := IndicesWhere(tableau, IsSelected);
      for p := |indices| downto 0
        invariant var bound := if p == |indices| then |t0| else indices[p];
                  tableau == t0[..bound] + WithoutSelected(t0[bound..])
      {
        RemoveStep(t0, indices, p);
        tableau := tableau[..indices[p]] + tableau[indices[p] + 1..];
      }
      RemoveDone(t0, indices);
    }

    /**
     * The loop of `replaceSelectedSet` that writes `newCards[index]` into
     * slot `indices[index]`, for each index of `newCards` in turn.
     */
    method PlaceInSlots(indices: seq<nat>, newCards: seq<SetCard>)
      requires |newCards| <= |indices|
      requires forall a :: 0 <= a < |indices| ==> indices[a] < |tableau|
      modifies this`tableau
      ensures tableau == ReplaceSlots(old(tableau), indices, newCards)
    {
      ghost var t0 := tableau;
      for index := 0 to |newCards|
        invariant tableau == ReplaceSlots(t0, indices, newCards[..index])
      {
        ReplaceSlotsStep(t0, indices, newCards, index);
        tableau := tableau[indices[index] := newCards[index]];
      }
      assert newCards[..|newCards|] == newCards;
    }

    /**
     * `replaceSelectedSet`: with a set selected, a subsequent deal replaces
     * the selected cards slot by slot, or, when the deck is empty, the
     * selected cards are removed; otherwise nothing changes. The slots are
     * the selected positions taken once, before the first write.
     */
    method ReplaceSelectedSet()
      modifies this`tableau, deck
      ensures State() == AfterReplace(old(State()))
      ensures old(Valid()) ==> Valid()
    {
      if !HasSetSelected(tableau) {
        return;
      }
      ghost var t0, d0 := tableau, deck.cards;
      var newCards := deck.SubsequentDeal();
      if |newCards| == 0 {
        RemoveSelectedSet();
      } else {
        var indices := IndicesWhere(tableau, IsSelected);
        PlaceInSlots(indices, newCards);
      }
      if old(Valid()) {
        ReplaceKeepsWellFormed(Table(t0, d0));
      }
    }

    /**
     * The first step of `select` for an unselected card: a selected set is
     * replaced, or three selected cards that are no set are deselected.
     */
    method ClearForSelection()
      modifies this`tableau, deck
      ensures State() == ClearedForSelection(old(State()))
    {
      if HasSetSelected(tableau) {
        ReplaceSelectedSet();
      } else if HasMaxSelected(tableau) {
        DeselectAll();
      }
    }

    /**
     * `select`: an unselected card is selected, after a selected set has
     * been replaced or three selected cards that are no set have been
     * deselected; a selected card is deselected unless three are selected.
     * The position found first is kept, except after the selected set was
     * taken away, when the card is found again (the written code keeps the
     * stale position; see SelectResultAsWritten).
     */
    method Select(card: SetCard)
      requires card in tableau
      modifies this`tableau, deck
      ensures State() == SelectResult(old(State()), card)
      ensures old(Valid()) ==> Valid()
    {
      ghost var s0 := State();
      var selectionIndex := FirstIndexOf(tableau, card);
      if CanSelect(card) {
        var removes := HasSetSelected(tableau) && |deck.cards| == 0;
        ClearForSelection();
        if removes {
          // the selected set was taken away, so the later cards moved up
          UnselectedSurvivesClearing(s0, card);
          selectionIndex := FirstIndexOf(tableau, card);
        }
        assert selectionIndex == SelectionSlot(s0, card);
        tableau := tableau[selectionIndex := tableau[selectionIndex].ToggleSelection()];
      } else if CanDeselect(card, tableau) {
        tableau := tableau[selectionIndex := tableau[selectionIndex].ToggleSelection()];
      }
      if old(Valid()) {
        SelectKeepsWellFormed(s0, card);
      }
    }

    /**
     * `addCards`: nothing before the game has begun; with a set selected, the
     * set is replaced; otherwise a subsequent deal is appended to the
     * tableau.
     */
    method AddCards()
      modifies this`tableau, deck
      ensures State() == AddCardsResult(old(State()))
      ensures old(Valid()) ==> Valid()
    {
      ghost var s0 := State();
      if !GameHasBegun() {
        return;
      }
      if HasSetSelected(tableau) {
        ReplaceSelectedSet();
      } else {
        var dealt := deck.SubsequentDeal();
        tableau := tableau + dealt;
      }
      if old(Valid()) {
        AddCardsKeepsWellFormed(s0);
      }
    }

    /**
     * `startGame`: a new shuffled deck, and its initial deal of `3 * 4`
     * cards on the table. Between them deck and tableau hold each of the 81
     * cards exactly once, none selected.
     */
    method StartGame()
      modifies this
      ensures fresh(deck)
      ensures |tableau| == InitialDealSize && |deck.cards| == 81 - InitialDealSize
      ensures ExactlyOnce(deck.cards + tableau, InFullDeck)
      ensures NumSelected(tableau) == 0
      ensures Valid()
    {
      deck := SetDeck.NewDeck();
      tableau := deck.InitialDeal();
      ExactlyOnceAdmits(deck.cards + tableau, InFullDeck);
      forall i | 0 <= i < |tableau|
        ensures !tableau[i].isSelected
      {
        assert tableau[i] == (deck.cards + tableau)[|deck.cards| + i];
      }
      forall i | 0 <= i < |deck.cards|
        ensures !deck.cards[i].isSelected
      {
        assert deck.cards[i] == (deck.cards + tableau)[i];
      }
    }
  }
}
