# Set game engine, modelled in Dafny

This project models the engine of a Swift implementation of the card game
Set. A card has four features with three values each: shape, shading, colour
and number of symbols. The 81 distinct cards make up the deck. Twelve cards
are dealt onto the table (the tableau). The player selects cards. Three cards
form a set when, for every feature, the three values are all equal or all
different. A selected set is replaced by cards from the end of the deck, or
removed once the deck is empty. The game is over once the deck is empty and
either at most three cards are left or no set can be made from them; the code
takes more than 20 cards to always hold a set, and its test for "no set" is
inverted (see `Game.SetGame.GameOver` under "## Left out" and "## Findings").

The Dafny modules follow the Swift files, except that the tableau queries of
SetGame.swift and the reference functions for its mutators form a module of
their own, `Tableau`, and `Wrappers` stands for a Swift language feature:

- `Features` (`set_feature.dfy`): the four feature enumerations with their
  raw values, and the all-equal-or-all-different rule for one feature.
- `Cards` (`set_card.dfy`): `SetCard` is a Swift struct with synthesized `==`.
  It is modelled as a datatype, whose equality is the same: every stored
  property, `isSelected` included. The `mutating` `toggleSelection` becomes a
  function from the old card to the new one.
- `GameConstants` (`set_game_constants.dfy`): `setSize`, `initialDealSize`,
  `minimumCapSetSize`, `reward` and `penalty`.
- `Extensions` (`extensions.dfy`): the `Bool`, `Int` and `Array` extensions.
  Swift arrays are values, so a `mutating` array function takes a sequence
  and returns the sequence it leaves behind.
- `Deck` (`set_deck.dfy`): `SetDeck` is a class with a `cards: seq<SetCard>`
  field. The three deck builders keep their nested loops. The deals pop cards
  off the end of the deck.
- `Tableau` (`tableau.dfy`): the computed properties of `SetGame` that read
  only the tableau, as functions of a `seq<SetCard>`. It also holds the
  reference definitions of what the mutators do to the tableau, and the
  recursive search `FindSet` that specifies `setOnTableau`.
- `Game` (`set_game.dfy`): `SetGame` is a class with the fields `deck` and
  `tableau`. Its `mutating` methods assign those fields. Each state-changing
  method is tied to a function on the value `Table(tableau, deck)`:
  `State() == SelectResult(old(State()), card)`, for example. The invariant
  `WellFormed` is proved about those functions: at most three cards selected,
  none selected in the deck.
- `Wrappers` (`wrappers.dfy`): an `Option` type for Swift optionals.

`shuffled()` is modelled as an arbitrary permutation. The model proves only
that the result is a permutation, not that it is uniform.

Where the code and its documentation disagree, the model shows both. The code
as written is a member named `...AsWritten`, with a lemma that exhibits the
difference. The intended version is the one the engine in `Game` uses (see
"## Findings").

## Model

| member | source | states |
|---|---|---|
| Features.FormsSetWith | SetGame/Models/SetFeature.swift:31-39 | the feature rule: all three values equal or all pairwise different (its meaning is stated by the lemmas below) |
| Features.AllEqualFormsSet | SetGame/Models/SetFeature.swift:32-34 | three equal values of a feature form a set |
| Features.AllDistinctFormsSet | SetGame/Models/SetFeature.swift:35-37 | three pairwise different values of a feature form a set |
| Features.FormsSetIffNotExactlyTwo | SetGame/Models/SetFeature.swift:31-39 | the feature rule fails exactly when two values agree and the third differs |
| Features.FormsSetPermutation | SetGame/Models/SetFeature.swift:31-39 | the feature rule gives the same answer for all six orders of its arguments |
| Features.ShapeFeature.RawValue | SetGame/Models/SetFeature.swift:42-46 | shape raw values lie in 1..3 |
| Features.ShadeFeature.RawValue | SetGame/Models/SetFeature.swift:49-53 | shading raw values lie in 1..3 |
| Features.ColorFeature.RawValue | SetGame/Models/SetFeature.swift:56-61 | colour raw values are zero-based, 0..2, so they can index a three-element array |
| Features.NumberFeature.RawValue | SetGame/Models/SetFeature.swift:64-68 | number raw values lie in 1..3 |
| Features.AllCasesExact | SetGame/Models/SetFeature.swift:42-68 | each `allCases` has exactly three distinct cases, lists every case, and holds raw value i+1 (colours: i) at position i |
| Features.RawValuesInjective | SetGame/Models/SetFeature.swift:42-68 | distinct cases of an enumeration have distinct raw values |
| Features.ShapeFeature.Third | SetGame/Models/SetFeature.swift:31-39 | the shape value returned completes the two given ones to a set under the feature rule |
| Features.ShadeFeature.Third | SetGame/Models/SetFeature.swift:31-39 | the shading value returned completes the two given ones to a set |
| Features.ColorFeature.Third | SetGame/Models/SetFeature.swift:31-39 | the colour value returned completes the two given ones to a set |
| Features.NumberFeature.Third | SetGame/Models/SetFeature.swift:31-39 | the number value returned completes the two given ones to a set |
| Features.ThirdUnique | SetGame/Models/SetFeature.swift:31-39 | for every feature, any value that completes two values to a set is the one Third returns |
| Cards.NewCard | SetGame/Models/SetCard.swift:13-19 | the memberwise initializer keeps the four features and starts unselected |
| Cards.SetCard.FormsSetWith | SetGame/Models/SetCard.swift:26-36 | the card test: three different cards whose four features each pass the feature rule (its meaning is stated by FormsSetWithRule) |
| Cards.FormsSetWithRule | SetGame/Models/SetCard.swift:26-36 | cards where any two are equal never form a set; three different cards form a set exactly when no feature shows one value on exactly two of them |
| Cards.FormsSetWithPermutation | SetGame/Models/SetCard.swift:26-36 | the card test does not depend on the order of the three cards |
| Cards.ThirdCard | SetGame/Models/SetCard.swift:26-36 | the completing card, feature by feature, built unselected |
| Cards.SetClosure | SetGame/Models/SetCard.swift:26-36 | two cards that differ in some feature form a set with ThirdCard, and every card they form a set with has ThirdCard's features |
| Cards.SetCard.ToggleSelection | SetGame/Models/SetCard.swift:39-41 | the flag is flipped, the features are kept, and the card is no longer equal to the old one |
| Cards.ToggleTwice | SetGame/Models/SetCard.swift:39-41 | toggling twice restores the card |
| Cards.SetCard.Id | SetGame/Models/SetCard.swift:44-49 | the id lies between 1101 and 3323 |
| Cards.IdInjective | SetGame/Models/SetCard.swift:43-49 | two cards have the same id exactly when all four features agree |
| Cards.IdIgnoresSelection | SetGame/Models/SetCard.swift:44-49 | toggling the selection keeps the id |
| Cards.EqualityIncludesSelection | SetGame/Models/SetCard.swift:13-19 | synthesized equality separates a card selected from the same card unselected, though both have one id |
| GameConstants.ConstantValues | SetGame/Models/SetGameConstants.swift:13-24 | setSize 3, initialDealSize 4·setSize = 12, minimumCapSetSize 20, a positive reward 2.0 and a negative penalty -1.0 |
| Extensions.IntValue | SetGame/Extensions.swift:11-16 | the result is 0 or 1, and 1 exactly for true |
| Extensions.BoolValue | SetGame/Extensions.swift:18-23 | the result is false exactly for zero |
| Extensions.BoolIntRoundTrip | SetGame/Extensions.swift:11-23 | `boolValue` of `intValue` gives back the Boolean |
| Extensions.NoneSatisfy | SetGame/Extensions.swift:29-36 | true exactly when no element passes the test |
| Extensions.AnySatisfy | SetGame/Extensions.swift:41-48 | true exactly when some element passes the test |
| Extensions.OneAndOnly | SetGame/Extensions.swift:51-54 | some value exactly for a one-element array, and then that element |
| Extensions.PopCount | SetGame/Extensions.swift:63 | `min(k, count)`: at most both, and equal to one of them |
| Extensions.PopLast | SetGame/Extensions.swift:61-68 | min(k, count) elements leave the end in their original order; the remaining prefix followed by them is the old array |
| Extensions.Prepend | SetGame/Extensions.swift:72-74 | the element comes first, followed by the old array |
| Extensions.MatchingIndices | SetGame/Extensions.swift:80-88 | exactly the indices whose element passes the test, strictly increasing and in range |
| Extensions.IndicesWhere | SetGame/Extensions.swift:80-88 | the loop computes exactly MatchingIndices |
| Extensions.RemoveFirst | SetGame/Extensions.swift:95-102 | min(k, count) elements leave the front in order; they followed by the remaining suffix are the old array |
| Deck.CatalogExactlyOnce | SetGame/Models/SetDeck.swift:19-32 | a sequence listing each admitted card at the position of its key holds every admitted card exactly once |
| Deck.PermutationKeepsExactlyOnce | SetGame/Models/SetDeck.swift:33 | shuffling keeps the length and the exactly-once property |
| Deck.SetDeck.constructor | SetGame/Models/SetDeck.swift:12-13 | the deck holds the given cards |
| Deck.SetDeck.NewDeck | SetGame/Models/SetDeck.swift:19-34 | a fresh deck of 81 cards holding every unselected combination of the four features exactly once |
| Deck.SetDeck.NewLimitedDeck | SetGame/Models/SetDeck.swift:41-54 | a fresh deck of 27 cards holding every unselected card of number one exactly once |
| Deck.SetDeck.NewVeryLimitedDeck | SetGame/Models/SetDeck.swift:60-71 | a fresh deck of 9 cards holding every unselected card of colour one and number one exactly once |
| Deck.SetDeck.IsEmpty | SetGame/Models/SetDeck.swift:75-77 | true exactly when no card is left |
| Deck.SetDeck.InitialDeal | SetGame/Models/SetDeck.swift:82-84 | hands out min(12, count) cards from the end; the deck keeps the rest, and the rest followed by the deal is the old deck |
| Deck.SetDeck.SubsequentDeal | SetGame/Models/SetDeck.swift:91-93 | hands out NextDeal of the old deck, min(3, count) cards from the end, and keeps AfterDeal of it; the rest followed by the deal is the old deck |
| Tableau.SelectedCardIndices | SetGame/Models/SetGame.swift:37-39 | an index is listed exactly when its card is selected; the list is strictly increasing and in range |
| Tableau.NumSelected | SetGame/Models/SetGame.swift:32-34 | at most the tableau size, and zero exactly when no card is selected |
| Tableau.HasMaxSelected | SetGame/Models/SetGame.swift:27-29 | it holds only when the tableau has at least setSize cards |
| Tableau.HasSetSelected | SetGame/Models/SetGame.swift:20-23 | it holds only when exactly setSize cards are selected |
| Tableau.HasSetSelectedMeaning | SetGame/Models/SetGame.swift:20-23 | holds exactly when three cards are selected and some three selected cards form a set |
| Tableau.HasSetSelectedAsWritten | SetGame/Models/SetGame.swift:21-23 | the code as written: it holds only when three cards are selected and the tableau has at least three cards |
| Tableau.HasSetSelectedAsWrittenFalsePositive | SetGame/Models/SetGame.swift:22 | there is a tableau where the written test holds but the three selected cards are no set |
| Tableau.HasSetSelectedAsWrittenFalseNegative | SetGame/Models/SetGame.swift:22 | there is a tableau where the three selected cards form a set but the written test fails |
| Tableau.CanSelect | SetGame/Models/SetGame.swift:47-49 | a card may be selected exactly when it is not selected (partner: SelectOrDeselect) |
| Tableau.CanDeselect | SetGame/Models/SetGame.swift:56-58 | a card may be deselected exactly when it is selected and not exactly three cards are selected (partner: SelectOrDeselect) |
| Tableau.SelectOrDeselect | SetGame/Models/SetGame.swift:47-58 | no card may be both selected and deselected, and a card may be neither exactly when it is selected while three cards are selected |
| Tableau.FirstIndexOf | SetGame/Models/SetGame.swift:70 | the position holds the card, and no earlier position does |
| Tableau.NumSelectedUpdate | SetGame/Models/SetGame.swift:77-79 | overwriting one slot changes the count of selected cards by the flags of the old and the new card |
| Tableau.NumSelectedAppend | SetGame/Models/SetGame.swift:141 | the count of selected cards is additive over concatenation |
| Tableau.ToggleCount | SetGame/Models/SetGame.swift:77-79 | toggling one card moves the count of selected cards by one in its direction |
| Tableau.Deselected | SetGame/Models/SetGame.swift:84-89 | same length, same features at every position, and nothing selected |
| Tableau.ToggleSlotsPlaces | SetGame/Models/SetGame.swift:86-88 | toggling distinct positions one after another toggles exactly those positions |
| Tableau.ToggleSelectedDeselects | SetGame/Models/SetGame.swift:85-89 | toggling each selected position deselects the whole tableau |
| Tableau.WithoutSelected | SetGame/Models/SetGame.swift:90-101 | no card in the result is selected |
| Tableau.WithoutSelectedSize | SetGame/Models/SetGame.swift:98-100 | removing the selected cards shortens the tableau by their number |
| Tableau.WithoutSelectedKeeps | SetGame/Models/SetGame.swift:98-100 | every unselected card of the tableau survives the removal |
| Tableau.WithoutSelectedAppend | SetGame/Models/SetGame.swift:98-100 | the removal distributes over concatenation |
| Tableau.RemoveStep | SetGame/Models/SetGame.swift:98-99 | one step of the descending loop removes the next selected position once every higher one is gone |
| Tableau.RemoveDone | SetGame/Models/SetGame.swift:98-100 | once the loop has passed the first selected position, every selected card is gone and the order of the rest is kept |
| Tableau.ReplaceSlots | SetGame/Models/SetGame.swift:114-116 | writing the cards into the slots keeps the tableau size |
| Tableau.ReplaceSlotsStep | SetGame/Models/SetGame.swift:114-116 | each iteration writes the next card into the next slot |
| Tableau.ReplaceSlotsPlaces | SetGame/Models/SetGame.swift:114-116 | with distinct slots, each new card lands in its own slot and every other slot keeps its card |
| Tableau.ReplaceSlotsCount | SetGame/Models/SetGame.swift:114-116 | writing unselected cards over selected slots lowers the selected count by the number written |
| Tableau.ReplaceSlotsAsWritten | SetGame/Models/SetGame.swift:114-116 | the loop as written: every write reads `selectedCardIndices` again, and None stands for the out-of-range trap (its behaviour is stated by ReplaceSlotsAsWrittenTraps) |
| Tableau.ReplaceSlotsAsWrittenTraps | SetGame/Models/SetGame.swift:114-116 | as written, replacing three selected cards by three dealt cards always runs out of range at the third write |
| Tableau.ReplaceSlotsPlacesDealtSet | SetGame/Models/SetGame.swift:103-118 | with the slots taken once, the three dealt cards fill the three selected slots, unselected cards stay put, and nothing is left selected |
| Tableau.FindSetFromFound | SetGame/Models/SetGame.swift:172-178 | the search from a start triple answers a set triple at or after the start |
| Tableau.FindSetFromNoneEarlier | SetGame/Models/SetGame.swift:172-181 | no set lies between the start and the answer, and none at all after the start when it answers nothing |
| Tableau.FindSet | SetGame/Models/SetGame.swift:171-182 | an answer is three positions i < j < k whose cards form a set |
| Tableau.FindSetNoneIffCapSet | SetGame/Models/SetGame.swift:169-182 | the search answers nothing exactly when no three cards form a set |
| Tableau.FindSetIsFirst | SetGame/Models/SetGame.swift:169-182 | no set triple comes before the answer in the loop order |
| Tableau.FirstSetIsFound | SetGame/Models/SetGame.swift:169-182 | a set triple with none before it is the answer |
| Tableau.HasCapSet | SetGame/Models/SetGame.swift:151-158 | false above 20 cards; up to 20 cards true exactly when no three cards form a set |
| Tableau.HasCapSetAsWritten | SetGame/Models/SetGame.swift:153-158 | the code as written: false above 20 cards |
| Tableau.HasCapSetAsWrittenInverted | SetGame/Models/SetGame.swift:157 | up to 20 cards, the written test holds exactly when a set exists, the opposite of the intended one |
| Tableau.SelectedTripleIsIndices | SetGame/Models/SetGame.swift:37-39 | with three selected, any three selected positions in order are the listed indices |
| Tableau.SelectedPrefixCount | SetGame/Models/SetGame.swift:32-34 | a tableau of which only the first k cards are selected has k selected |
| Tableau.SelectedSuffixCount | SetGame/Models/SetGame.swift:32-34 | a tableau of which only the cards from position k on are selected has size - k selected |
| Deck.DealCount | SetGame/Models/SetDeck.swift:91-93 | one deal hands out setSize cards, or all that are left when fewer remain |
| Deck.AfterDeal | SetGame/Models/SetDeck.swift:91-93 | the deck loses exactly the dealt cards |
| Deck.NextDeal | SetGame/Models/SetDeck.swift:91-93 | the deal has the deal count's length, and the remaining deck followed by it is the old deck |
| Game.ReplacedTableau | SetGame/Models/SetGame.swift:105-118 | the tableau after `replaceSelectedSet` with a set selected: the selected cards removed when nothing is dealt, otherwise the deal written into the selected slots taken once (its shape is stated by ReplacedTableauShape) |
| Game.DealUnselected | SetGame/Models/SetGame.swift:110 | from a deck without selected cards, neither the deal nor the rest has a selected card |
| Game.ReplacedTableauShape | SetGame/Models/SetGame.swift:105-118 | with a deal, the size is kept, unselected cards stay put, the dealt cards fill the selected slots, and 3 - n stay selected for a deal of n; with no deal, the three selected cards are removed and nothing stays selected |
| Game.ReplacedTableauValid | SetGame/Models/SetGame.swift:105-118 | the replacement leaves at most setSize cards selected and an undealt rest without selected cards |
| Game.ReplacedTableauKeepsUnselected | SetGame/Models/SetGame.swift:114-116 | an unselected card keeps its position when dealt cards replace the set |
| Game.AfterReplace | SetGame/Models/SetGame.swift:105-118 | the state after `replaceSelectedSet`: unchanged without a selected set, otherwise ReplacedTableau and the deck without its deal (partner: ReplaceKeepsWellFormed) |
| Game.ReplaceKeepsWellFormed | SetGame/Models/SetGame.swift:105-118 | replacing a selected set keeps the invariant |
| Game.ClearedForSelection | SetGame/Models/SetGame.swift:72-76 | the clearing step of `select`: AfterReplace with a set selected, Deselected with three selected that are no set, otherwise unchanged (partners: ClearingLeavesRoom, UnselectedSurvivesClearing) |
| Game.UnselectedSurvivesClearing | SetGame/Models/SetGame.swift:71-76 | the unselected card being selected is still on the table after the set is replaced or the selection is cleared |
| Game.ClearingKeepsPosition | SetGame/Models/SetGame.swift:70-77 | unless a selected set is taken away with an empty deck, the card to select is still at the position found before the clearing step |
| Game.SelectionSlot | SetGame/Models/SetGame.swift:70-77 | the position toggled after the clearing step holds the card to select |
| Game.ClearingLeavesRoom | SetGame/Models/SetGame.swift:71-76 | after the clearing step, the invariant holds and fewer than setSize cards are selected |
| Game.SelectResult | SetGame/Models/SetGame.swift:69-82 | the intended `select`: toggle at SelectionSlot after ClearedForSelection for a selectable card, toggle in place for a deselectable one, otherwise unchanged (partners: the three lemmas below) |
| Game.SelectKeepsWellFormed | SetGame/Models/SetGame.swift:69-82 | selecting or deselecting keeps the invariant |
| Game.SelectFlipsTheCard | SetGame/Models/SetGame.swift:60-82 | a card that may be selected or deselected appears toggled in the result; otherwise nothing changes |
| Game.SelectTogglesOnlyThatCard | SetGame/Models/SetGame.swift:69-82 | selecting while fewer than three are selected, or deselecting, flips only the chosen card where it was found; the rest of the tableau and the deck are unchanged |
| Game.SelectCounts | SetGame/Models/SetGame.swift:69-82 | selecting raises the count by one and deselecting lowers it by one; after deselecting three, or after a full deal replaces a set, exactly the new card is selected and the tableau keeps its size |
| Game.AfterReplaceAsWritten | SetGame/Models/SetGame.swift:105-118 | `replaceSelectedSet` as written: the written `hasSetSelected` guard and the written replacement loop, None for its trap |
| Game.ClearedForSelectionAsWritten | SetGame/Models/SetGame.swift:72-76 | the clearing step of `select` as written, from the written guard and AfterReplaceAsWritten |
| Game.SelectResultAsWritten | SetGame/Models/SetGame.swift:69-82 | `select` as written: the position is found before ClearedForSelectionAsWritten and used after it, None for either trap (partners: the three lemmas below) |
| Game.SelectAgreesWithWritten | SetGame/Models/SetGame.swift:69-82 | without a clearing step, or when three selected cards are deselected that are no set by either test, the written `select` gives exactly the intended result, duplicate cards or not |
| Game.ReplaceAsWrittenTrapsOnFullDeal | SetGame/Models/SetGame.swift:105-116 | as written, `replaceSelectedSet` always traps when positions 0..2 hold a selected set and the deck holds a full deal |
| Game.SelectAsWrittenTrapsOnFullDeal | SetGame/Models/SetGame.swift:72-116 | as written, selecting a card while positions 0..2 hold a set and the deck holds a full deal always traps |
| Game.SelectAsWrittenStaleIndex | SetGame/Models/SetGame.swift:70-77 | there is a state in which the code as written indexes past the end of the tableau while the intended select toggles the card |
| Game.StaleIndexAfterRemoval | SetGame/Models/SetGame.swift:70-77 | three selected cards forming a set at 0..2, the chosen card at 3 and an empty deck make the written index out of range |
| Game.StaleIndexTogglesAnotherCard | SetGame/Models/SetGame.swift:70-77 | with seven or more cards, a selected set at 0..2, the rest unselected and an empty deck, the written select of the card at 3 toggles the card that was at 6, while the intended one toggles the chosen card |
| Game.AddCardsResult | SetGame/Models/SetGame.swift:136-143 | the state after `addCards`: unchanged before the game has begun, AfterReplace with a set selected, otherwise the deal appended (partners: the two lemmas below) |
| Game.AddCardsKeepsWellFormed | SetGame/Models/SetGame.swift:136-143 | adding cards keeps the invariant |
| Game.AddCardsMovesTheDeal | SetGame/Models/SetGame.swift:136-143 | without a selected set, no card is created or lost, the tableau keeps its cards as a prefix, and it grows by the deal once the game has begun |
| Game.AddCardsResultAsWritten | SetGame/Models/SetGame.swift:136-143 | `addCards` as written: the written `hasSetSelected` guard and AfterReplaceAsWritten, None for the trap (partners: the two lemmas below) |
| Game.AddCardsAsWrittenTrapsOnFullDeal | SetGame/Models/SetGame.swift:138-139 | as written, adding cards while positions 0..2 hold a selected set and the deck holds a full deal always traps |
| Game.AddCardsAgreesWithWritten | SetGame/Models/SetGame.swift:136-143 | where neither guard sees a set, the written `addCards` gives exactly the intended result |
| Game.SetGame.constructor | SetGame/Models/SetGame.swift:11-18 | the engine holds the given deck and tableau |
| Game.SetGame.GameHasBegun | SetGame/Models/SetGame.swift:130-132 | true exactly when there are cards on the table |
| Game.SetGame.CardsRemainingInDeck | SetGame/Models/SetGame.swift:147-149 | true exactly when the deck has cards |
| Game.SetGame.GameOver | SetGame/Models/SetGame.swift:162-167 | never over while the deck has cards; with an empty deck and at most 20 cards, over exactly when at most setSize cards remain or no set can be made; never over above 20 cards |
| Game.SetGame.SetOnTableau | SetGame/Models/SetGame.swift:171-182 | nothing exactly when no three cards form a set; otherwise the three cards, in tableau order, of the first set triple in loop order |
| Game.SetGame.DeselectAll | SetGame/Models/SetGame.swift:85-89 | the tableau becomes Deselected of the old one; the deck is not touched |
| Game.SetGame.RemoveSelectedSet | SetGame/Models/SetGame.swift:91-101 | with a set selected, the tableau becomes its unselected cards in their old order; otherwise unchanged |
| Game.SetGame.PlaceInSlots | SetGame/Models/SetGame.swift:114-116 | the tableau becomes ReplaceSlots of the old one |
| Game.SetGame.ReplaceSelectedSet | SetGame/Models/SetGame.swift:105-118 | the state becomes AfterReplace of the old state, and the invariant is kept |
| Game.SetGame.ClearForSelection | SetGame/Models/SetGame.swift:72-76 | the state becomes ClearedForSelection of the old state |
| Game.SetGame.Select | SetGame/Models/SetGame.swift:69-82 | the state becomes SelectResult of the old state, and the invariant is kept |
| Game.SetGame.AddCards | SetGame/Models/SetGame.swift:136-143 | the state becomes AddCardsResult of the old state, and the invariant is kept |
| Game.SetGame.StartGame | SetGame/Models/SetGame.swift:123-126 | a fresh deck; 12 cards on the table and 69 in the deck; together they hold each of the 81 cards exactly once, none selected, and the invariant holds |

## Left out

- The view model (score, hints, the reward and penalty bookkeeping), the views, the
  grid layout, the shape drawing and the `CGPoint`/`CGSize`/`CGRect` extensions of
  SetGame/Extensions.swift: these are user-interface code. SetGame/SetGameModels.swift
  is not part of this model.
- Deck.SetDeck.NewDeck, NewLimitedDeck, NewVeryLimitedDeck: `shuffled()` is an
  arbitrary permutation; the model says nothing about its uniformity or its randomness.
- Tableau.HasCapSet: the shortcut "more than 20 cards always contain a set" is taken
  from the code as given. The model does not prove this bound from the game's
  combinatorics, so the function states the search answer only up to 20 cards.
- Game.SetGame.GameOver: follows the code, which ends the game once the deck is empty
  and at most `setSize` cards are left; its doc comment promises only that "either all
  cards have been made into a set, or there are no more sets". With the written
  `hasCapSet`, a game with an empty deck and 4 to 20 cards would end exactly when a set
  is still on the table. The model uses the intended `HasCapSet` (see "## Findings").
- Extensions.PopLast, Extensions.RemoveFirst: `k` is a `nat`. A negative `k` makes the
  Swift range `0..<k` trap, and that trap is not modelled.
- Game.SetGame.Select: its guard tests the selected cards, not positions 0..2 (see
  Tableau.HasSetSelectedAsWritten). It keeps the position found before the clearing
  step, as the code does, except after the selected set was taken away with an empty
  deck, when it finds the card again. The written guard, the stale position and both
  traps are modelled by Game.SelectResultAsWritten.
- Game.SetGame.ReplaceSelectedSet: its guard tests the selected cards, not positions
  0..2 (see Tableau.HasSetSelectedAsWritten). The slots are taken once, before the first
  write, as intended; the written re-reading of `selectedCardIndices` is modelled by
  Tableau.ReplaceSlotsAsWritten and Game.AfterReplaceAsWritten.
- Game.SetGame.RemoveSelectedSet: its guard tests the selected cards, not positions
  0..2 (see Tableau.HasSetSelectedAsWritten).
- Game.SetGame.AddCards: its guard tests the selected cards, not positions 0..2 (see
  Tableau.HasSetSelectedAsWritten). With three selected cards that form a set while
  positions 0..2 do not, and a non-empty deck, the code appends a deal where the model
  replaces the set. With a set at positions 0..2 and a full deal in the deck, the code
  traps where the model replaces the set; see Game.AddCardsResultAsWritten.
- Game.AfterReplace: its guard tests the selected cards, not positions 0..2, and the
  slots are taken once, before the first write; see Tableau.HasSetSelectedAsWritten and
  Game.AfterReplaceAsWritten.
- Game.ClearedForSelection: its guard tests the selected cards, not positions 0..2, and
  it replaces through Game.AfterReplace; see Game.ClearedForSelectionAsWritten.
- Game.AddCardsResult: its guard tests the selected cards, not positions 0..2, and it
  replaces through Game.AfterReplace; see Game.AddCardsResultAsWritten.
- Game.SetGame.ClearForSelection: its guard tests the selected cards, not positions
  0..2, and it replaces through ReplaceSelectedSet with the slots taken once; see
  Game.ClearedForSelectionAsWritten.
- Game.SetGame.Select, Game.SelectResult, Tableau.FirstIndexOf: `requires card in
  tableau` stands for the force-unwrap of `firstIndex(where:)` at SetGame.swift:70,
  which traps on a card that is not on the table; that trap is not modelled.
- Swift `Int` overflow: the ids, indices and counts here stay far below 2^63, so
  integers are unbounded.
- `SetCard`, `SetDeck` and `SetGame` are Swift value types. `SetCard` is a datatype
  here. `SetDeck` and `SetGame` are classes, because their methods update fields in
  place. The model does not rely on any sharing between the two classes beyond the
  one deck a game holds.

## Findings

| source | as written | input that shows it | evidently intended | confidence | as-written member | corrected member |
|---|---|---|---|---|---|---|
| SetGame/Models/SetGame.swift:22 | `hasSetSelected` checks whether the cards at positions 0, 1 and 2 form a set, whichever cards are selected | six cards, the last three selected: the first three are a set and the selected three are not (false positive), or the other way round (false negative) | the three selected cards form a set | not executed | Tableau.HasSetSelectedAsWritten, Tableau.HasSetSelectedAsWrittenFalsePositive, Tableau.HasSetSelectedAsWrittenFalseNegative | Tableau.HasSetSelected, Tableau.HasSetSelectedMeaning |
| SetGame/Models/SetGame.swift:157 | `hasCapSet` returns `setOnTableau() != nil`, true when a set exists | any tableau of at most 20 cards that contains a set | true when no set exists (`== nil`) | not executed | Tableau.HasCapSetAsWritten, Tableau.HasCapSetAsWrittenInverted | Tableau.HasCapSet, Tableau.FindSetNoneIffCapSet |
| SetGame/Models/SetGame.swift:114-116 | each write re-reads `selectedCardIndices`, which shrinks by one per write, so `selectedCardIndices[2]` is out of range; a two-card deal does not trap but writes the second card over the third selected slot, leaving the second selected card selected (no deck the game builds reaches a two-card deal: 69, 15 or 0 cards remain after the first deal) | any tableau with a selected set and three unselected cards dealt; in `select` and in `addCards`, any state in which positions 0..2 hold a selected set and the deck holds three cards | the slots are the three selected positions, taken before the first write | not executed | Tableau.ReplaceSlotsAsWritten, Tableau.ReplaceSlotsAsWrittenTraps, Game.ReplaceAsWrittenTrapsOnFullDeal, Game.SelectAsWrittenTrapsOnFullDeal, Game.AddCardsAsWrittenTrapsOnFullDeal | Tableau.ReplaceSlots, Tableau.ReplaceSlotsPlacesDealtSet, Game.ReplacedTableauShape |
| SetGame/Models/SetGame.swift:70-77 | `selectionIndex` is computed before the selected set is removed, so it can point past the end of the shortened tableau; when four or more cards are left it does not trap but silently toggles another card, the one three positions further on | tableau of three selected Shape1/Shade1/Color1 cards numbered one, two and three, then an unselected (Shape2, Shade2, Color2, two) card; empty deck; select the fourth card (it traps); with three or more further unselected cards behind it, the card that was seventh is toggled instead | the chosen card is found again once the selected set has been removed, and toggled | not executed | Game.SelectResultAsWritten, Game.SelectAsWrittenStaleIndex, Game.StaleIndexTogglesAnotherCard | Game.SelectResult, Game.SelectionSlot, Game.SelectFlipsTheCard |
