/**
 * The queries that `SetGame` (SetGame/Models/SetGame.swift) computes from its
 * tableau alone, the search for a set, and the reference definitions of what
 * its mutators do to the tableau.
 *
 * Three of the source's definitions do not do what their own documentation
 * says. Each appears here twice: as written (the `...AsWritten` members, with
 * a lemma that exhibits the difference) and as intended; the engine in module
 * Game uses the intended one.
 */
module Tableau {
  import opened Wrappers
  import opened Features
  import opened Cards
  import opened GameConstants
  import opened Extensions

  /** The test `{ $0.isSelected }` that the engine hands to `indices(where:)`. */
  predicate IsSelected(c: SetCard) { c.isSelected }

  // ---------------------------------------------------------------------------
  // Selection queries
  // ---------------------------------------------------------------------------

  /** `selectedCardIndices`: the positions of the selected cards, in increasing order. */
  function SelectedCardIndices(t: seq<SetCard>): (r: seq<nat>)
    ensures forall x: nat :: x in r <==> x < |t| && t[x].isSelected
    ensures forall a, b :: 0 <= a < b < |r| ==> r[a] < r[b]
    ensures forall a :: 0 <= a < |r| ==> r[a] < |t|
  {
    MatchingIndices(t, IsSelected)
  }

  /** `numSelected`: how many cards are selected; zero exactly when none is. */
  function NumSelected(t: seq<SetCard>): (r: nat)
    ensures r <= |t|
    ensures r == 0 <==> forall i :: 0 <= i < |t| ==> !t[i].isSelected
  {
    var indices := SelectedCardIndices(t);
    assert |indices| > 0 ==> indices[0] in indices;
    |indices|
  }

  /** `hasMaxSelected`: exactly `setSize` cards are selected. */
  function HasMaxSelected(t: seq<SetCard>): (r: bool)
    ensures r ==> |t| >= SetSize
  {
    NumSelected(t) == SetSize
  }

  /**
   * `hasSetSelected` as its documentation describes it: three cards are
   * selected and the three selected cards form a set.
   */
  function HasSetSelected(t: seq<SetCard>): (r: bool)
    ensures r ==> NumSelected(t) == SetSize
  {
    HasMaxSelected(t) &&
    var indices := SelectedCardIndices(t);
    t[indices[0]].FormsSetWith(t[indices[1]], t[indices[2]])
  }

  /**
   * `hasSetSelected` as written at SetGame.swift:22: three cards are selected
   * and the cards at positions 0, 1 and 2 form a set, whichever cards are
   * selected.
   */
  function HasSetSelectedAsWritten(t: seq<SetCard>): (r: bool)
    ensures r ==> NumSelected(t) == SetSize && |t| >= SetSize
  {
    HasMaxSelected(t) && t[0].FormsSetWith(t[1], t[2])
  }

  /** `canSelect`: only a card that is not selected can be selected. */
  predicate CanSelect(card: SetCard)
  {
    !card.isSelected
  }

  /** `canDeselect`: a selected card can be deselected unless three are selected. */
  predicate CanDeselect(card: SetCard, t: seq<SetCard>)
  {
    card.isSelected && !HasMaxSelected(t)
  }

  /**
   * `select` does at most one of the two: a card may be selected or
   * deselected but never both, and it may do neither exactly when the card
   * is selected while three cards are selected.
   */
  lemma SelectOrDeselect(card: SetCard, t: seq<SetCard>)
    ensures CanSelect(card) ==> !CanDeselect(card, t)
    ensures !CanSelect(card) && !CanDeselect(card, t) <==> card.isSelected && HasMaxSelected(t)
  {
  }

  /** `firstIndex(where: { $0 == card })`: the first position holding a card equal to `card`. */
  function FirstIndexOf(t: seq<SetCard>, card: SetCard): (r: nat)
    requires card in t
    ensures r < |t| && t[r] == card
    ensures forall j :: 0 <= j < r ==> t[j] != card
  {
    if t[0] == card then 0 else 1 + FirstIndexOf(t[1..], card)
  }

  // ---------------------------------------------------------------------------
  // Counting selected cards
  // ---------------------------------------------------------------------------

  lemma NumSelectedLast(t: seq<SetCard>)
    requires |t| > 0
    ensures NumSelected(t) == NumSelected(t[..|t| - 1]) + IntValue(t[|t| - 1].isSelected)
  {
  }

  /** Overwriting one slot changes the count by the flags of the old and the new card. */
  lemma NumSelectedUpdate(t: seq<SetCard>, i: nat, x: SetCard)
    requires i < |t|
    ensures NumSelected(t[i := x]) + IntValue(t[i].isSelected) == NumSelected(t) + IntValue(x.isSelected)
  {
    var front, back := t[..i], t[i + 1..];
    assert t == front + ([t[i]] + back);
    assert t[i := x] == front + ([x] + back);
    NumSelectedAppend(front, [t[i]] + back);
    NumSelectedAppend(front, [x] + back);
    NumSelectedAppend([t[i]], back);
    NumSelectedAppend([x], back);
    NumSelectedSingle(t[i]);
    NumSelectedSingle(x);
  }

  /** One card counts as selected exactly when it is. */
  lemma NumSelectedSingle(c: SetCard)
    ensures NumSelected([c]) == IntValue(c.isSelected)
  {
    NumSelectedLast([c]);
    assert [c][..0] == [];
  }

  lemma {:induction false} NumSelectedAppend(t: seq<SetCard>, u: seq<SetCard>)
    ensures NumSelected(t + u) == NumSelected(t) + NumSelected(u)
  {
    if |u| == 0 {
      assert t + u == t;
    } else {
      NumSelectedLast(t + u);
      NumSelectedLast(u);
      assert (t + u)[..|t + u| - 1] == t + u[..|u| - 1];
      NumSelectedAppend(t, u[..|u| - 1]);
    }
  }

  lemma {:induction false} NumSelectedAll(t: seq<SetCard>)
    requires forall i :: 0 <= i < |t| ==> t[i].isSelected
    ensures NumSelected(t) == |t|
  {
    if |t| > 0 {
      NumSelectedLast(t);
      NumSelectedAll(t[..|t| - 1]);
    }
  }

  // ---------------------------------------------------------------------------
  // What the mutators do to the tableau
  // ---------------------------------------------------------------------------

  /** The tableau after `deselectAll`: every card unselected, nothing else changed. */
  function Deselected(t: seq<SetCard>): (r: seq<SetCard>)
    ensures |r| == |t|
    ensures forall i :: 0 <= i < |t| ==> r[i].SameFeatures(t[i]) && !r[i].isSelected
    ensures NumSelected(r) == 0
  {
    seq(|t|, i requires 0 <= i < |t| => t[i].(isSelected := false))
  }

  /** The tableau with the card at each of the given positions toggled, in order. */
  function ToggleSlots(t: seq<SetCard>, indices: seq<nat>): (r: seq<SetCard>)
    requires forall a :: 0 <= a < |indices| ==> indices[a] < |t|
    ensures |r| == |t|
  {
    if |indices| == 0 then t
    else
      var before := ToggleSlots(t, indices[..|indices| - 1]);
      var x := indices[|indices| - 1];
      before[x := before[x].ToggleSelection()]
  }

  /**
   * With distinct positions, toggling them one after another toggles exactly
   * the cards at those positions.
   */
  lemma {:induction false} ToggleSlotsPlaces(t: seq<SetCard>, indices: seq<nat>)
    requires forall a :: 0 <= a < |indices| ==> indices[a] < |t|
    requires forall a, b :: 0 <= a < b < |indices| ==> indices[a] < indices[b]
    ensures forall x :: 0 <= x < |t| ==>
              ToggleSlots(t, indices)[x] == if x in indices then t[x].ToggleSelection() else t[x]
  {
    if |indices| > 0 {
      var n := |indices| - 1;
      ToggleSlotsPlaces(t, indices[..n]);
      assert indices == indices[..n] + [indices[n]];
      assert indices[n] !in indices[..n] by {
        forall m | 0 <= m < n
          ensures indices[m] != indices[n]
        {
          assert indices[m] < indices[n];
        }
      }
    }
  }

  /** Toggling every selected position deselects the whole tableau: the loop of `deselectAll`. */
  lemma ToggleSelectedDeselects(t: seq<SetCard>)
    ensures ToggleSlots(t, SelectedCardIndices(t)) == Deselected(t)
  {
    var indices := SelectedCardIndices(t);
    ToggleSlotsPlaces(t, indices);
    forall x | 0 <= x < |t|
      ensures ToggleSlots(t, indices)[x] == Deselected(t)[x]
    {
      assert x in indices <==> t[x].isSelected;
    }
  }

  /**
   * The unselected cards of the tableau in their original order: what is
   * left once every selected position has been removed.
   */
  function WithoutSelected(t: seq<SetCard>): (r: seq<SetCard>)
    ensures forall i :: 0 <= i < |r| ==> !r[i].isSelected
  {
    if |t| == 0 then []
    else
      WithoutSelected(t[..|t| - 1]) + (if t[|t| - 1].isSelected then [] else [t[|t| - 1]])
  }

  /** Removing the selected cards shortens the tableau by their number. */
  lemma {:induction false} WithoutSelectedSize(t: seq<SetCard>)
    ensures |WithoutSelected(t)| + NumSelected(t) == |t|
  {
    if |t| > 0 {
      WithoutSelectedSize(t[..|t| - 1]);
      NumSelectedLast(t);
    }
  }

  /** Toggling one card moves the count of selected cards by one, in its direction. */
  lemma ToggleCount(t: seq<SetCard>, i: nat)
    requires i < |t|
    ensures NumSelected(t[i := t[i].ToggleSelection()]) ==
            if t[i].isSelected then NumSelected(t) - 1 else NumSelected(t) + 1
  {
    NumSelectedUpdate(t, i, t[i].ToggleSelection());
  }

  /** An unselected card of the tableau is still there once the selected cards are removed. */
  lemma {:induction false} WithoutSelectedKeeps(t: seq<SetCard>, card: SetCard)
    requires card in t && !card.isSelected
    ensures card in WithoutSelected(t)
  {
    if t[|t| - 1] != card {
      assert card in t[..|t| - 1] by {
        var i :| 0 <= i < |t| && t[i] == card;
        assert t[..|t| - 1][i] == card;
      }
      WithoutSelectedKeeps(t[..|t| - 1], card);
    }
  }

  lemma {:induction false} WithoutSelectedAppend(a: seq<SetCard>, b: seq<SetCard>)
    ensures WithoutSelected(a + b) == WithoutSelected(a) + WithoutSelected(b)
  {
    if |b| == 0 {
      assert a + b == a;
    } else {
      assert (a + b)[..|a + b| - 1] == a + b[..|b| - 1];
      WithoutSelectedAppend(a, b[..|b| - 1]);
    }
  }

  lemma {:induction false} WithoutSelectedNoneSelected(a: seq<SetCard>)
    requires forall i :: 0 <= i < |a| ==> !a[i].isSelected
    ensures WithoutSelected(a) == a
  {
    if |a| > 0 {
      WithoutSelectedNoneSelected(a[..|a| - 1]);
      assert a == a[..|a| - 1] + [a[|a| - 1]];
    }
  }

  /**
   * Between two consecutive selected positions (or after the last one) no
   * card is selected.
   */
  lemma GapUnselected(t: seq<SetCard>, indices: seq<nat>, p: nat, bound: nat)
    requires indices == SelectedCardIndices(t)
    requires p < |indices|
    requires bound == if p + 1 == |indices| then |t| else indices[p + 1]
    ensures indices[p] < bound <= |t|
    ensures forall j :: indices[p] < j < bound ==> !t[j].isSelected
  {
    forall j | indices[p] < j < bound
      ensures !t[j].isSelected
    {
      forall q | 0 <= q < |indices|
        ensures indices[q] != j
      {
        if q <= p {
          assert indices[q] <= indices[p];
        }
        if p < q && p + 1 < |indices| {
          assert indices[p + 1] <= indices[q];
        }
      }
    }
  }

  /**
   * Taking out position `i` of a tableau whose selected cards from `bound` on
   * are already gone, when `i` is selected and nothing between `i` and
   * `bound` is, leaves the selected cards from `i` on gone.
   */
  lemma RemoveOne(t: seq<SetCard>, i: nat, bound: nat)
    requires i < bound <= |t|
    requires t[i].isSelected
    requires forall j :: i < j < bound ==> !t[j].isSelected
    ensures var current := t[..bound] + WithoutSelected(t[bound..]);
            i < |current| &&
            current[..i] + current[i + 1..] == t[..i] + WithoutSelected(t[i..])
  {
    var current := t[..bound] + WithoutSelected(t[bound..]);
    var gap := t[i + 1..bound];
    assert current[..i] == t[..i];
    assert current[i + 1..] == gap + WithoutSelected(t[bound..]);
    assert t[i..] == ([t[i]] + gap) + t[bound..];
    WithoutSelectedAppend([t[i]] + gap, t[bound..]);
    WithoutSelectedAppend([t[i]], gap);
    assert WithoutSelected([t[i]]) == [] by {
      assert [t[i]][..0] == [];
    }
    forall j | 0 <= j < |gap|
      ensures !gap[j].isSelected
    {
      assert gap[j] == t[i + 1 + j];
    }
    WithoutSelectedNoneSelected(gap);
  }

  /**
   * One step of the descending removal loop of `removeSelectedSet`: taking
   * out selected position `indices[p]` when every selected position above it
   * has already been removed.
   */
  lemma RemoveStep(t: seq<SetCard>, indices: seq<nat>, p: nat)
    requires indices == SelectedCardIndices(t)
    requires p < |indices|
    ensures var bound := if p + 1 == |indices| then |t| else indices[p + 1];
            var current := t[..bound] + WithoutSelected(t[bound..]);
            indices[p] < |current| &&
            current[..indices[p]] + current[indices[p] + 1..] == t[..indices[p]] + WithoutSelected(t[indices[p]..])
  {
    var bound := if p + 1 == |indices| then |t| else indices[p + 1];
    GapUnselected(t, indices, p, bound);
    assert indices[p] in indices;
    RemoveOne(t, indices[p], bound);
  }

  /** No card before the first selected position is selected. */
  lemma PrefixUnselected(t: seq<SetCard>, indices: seq<nat>, bound: nat)
    requires indices == SelectedCardIndices(t)
    requires bound == if 0 == |indices| then |t| else indices[0]
    ensures bound <= |t|
    ensures forall j :: 0 <= j < bound ==> !t[j].isSelected
  {
    forall j | 0 <= j < bound
      ensures !t[j].isSelected
    {
      forall q | 0 <= q < |indices|
        ensures indices[q] != j
      {
        if 0 < q {
          assert indices[0] < indices[q];
        }
      }
    }
  }

  lemma SplitAtUnselectedPrefix(t: seq<SetCard>, bound: nat)
    requires bound <= |t|
    requires forall j :: 0 <= j < bound ==> !t[j].isSelected
    ensures t[..bound] + WithoutSelected(t[bound..]) == WithoutSelected(t)
  {
    WithoutSelectedNoneSelected(t[..bound]);
    assert t == t[..bound] + t[bound..];
    WithoutSelectedAppend(t[..bound], t[bound..]);
  }

  /** The removal loop ends with every selected card gone. */
  lemma RemoveDone(t: seq<SetCard>, indices: seq<nat>)
    requires indices == SelectedCardIndices(t)
    ensures var bound := if 0 == |indices| then |t| else indices[0];
            t[..bound] + WithoutSelected(t[bound..]) == WithoutSelected(t)
  {
    var bound := if 0 == |indices| then |t| else indices[0];
    PrefixUnselected(t, indices, bound);
    SplitAtUnselectedPrefix(t, bound);
  }

  /**
   * The tableau after writing `cards[m]` into slot `indices[m]` for every `m`,
   * in order, with the slots chosen once, before the first write.
   */
  function ReplaceSlots(t: seq<SetCard>, indices: seq<nat>, cards: seq<SetCard>): (r: seq<SetCard>)
    requires |cards| <= |indices|
    requires forall a :: 0 <= a < |indices| ==> indices[a] < |t|
    ensures |r| == |t|
    decreases |cards|
  {
    if |cards| == 0 then t
    else ReplaceSlots(t, indices, cards[..|cards| - 1])[indices[|cards| - 1] := cards[|cards| - 1]]
  }

  /** One more step of the slot-by-slot replacement writes the next card into the next slot. */
  lemma ReplaceSlotsStep(t: seq<SetCard>, indices: seq<nat>, cards: seq<SetCard>, n: nat)
    requires n < |cards| <= |indices|
    requires forall a :: 0 <= a < |indices| ==> indices[a] < |t|
    ensures ReplaceSlots(t, indices, cards[..n + 1]) == ReplaceSlots(t, indices, cards[..n])[indices[n] := cards[n]]
  {
    assert cards[..n + 1][..n] == cards[..n];
  }

  /**
   * With distinct slots, every new card lands in its own slot and every
   * other slot keeps its card.
   */
  lemma {:induction false} ReplaceSlotsPlaces(t: seq<SetCard>, indices: seq<nat>, cards: seq<SetCard>)
    requires |cards| <= |indices|
    requires forall a :: 0 <= a < |indices| ==> indices[a] < |t|
    requires forall a, b :: 0 <= a < b < |indices| ==> indices[a] < indices[b]
    ensures forall m :: 0 <= m < |cards| ==> ReplaceSlots(t, indices, cards)[indices[m]] == cards[m]
    ensures forall x :: 0 <= x < |t| && x !in indices[..|cards|] ==> ReplaceSlots(t, indices, cards)[x] == t[x]
  {
    if |cards| > 0 {
      var n := |cards| - 1;
      ReplaceSlotsPlaces(t, indices, cards[..n]);
      assert indices[..|cards|] == indices[..n] + [indices[n]];
      forall m | 0 <= m < n
        ensures indices[m] != indices[n]
      {
        assert indices[m] < indices[n];
      }
    }
  }

  /**
   * Writing unselected cards over selected slots lowers the count of
   * selected cards by one per card written.
   */
  lemma {:induction false} ReplaceSlotsCount(t: seq<SetCard>, indices: seq<nat>, cards: seq<SetCard>)
    requires |cards| <= |indices|
    requires forall a :: 0 <= a < |indices| ==> indices[a] < |t| && t[indices[a]].isSelected
    requires forall a, b :: 0 <= a < b < |indices| ==> indices[a] < indices[b]
    requires forall m :: 0 <= m < |cards| ==> !cards[m].isSelected
    ensures NumSelected(ReplaceSlots(t, indices, cards)) + |cards| == NumSelected(t)
  {
    if |cards| > 0 {
      var n := |cards| - 1;
      var before := ReplaceSlots(t, indices, cards[..n]);
      ReplaceSlotsCount(t, indices, cards[..n]);
      ReplaceSlotsPlaces(t, indices, cards[..n]);
      assert indices[n] !in indices[..n] by {
        forall m | 0 <= m < n ensures indices[m] != indices[n] {
          assert indices[m] < indices[n];
        }
      }
      assert before[indices[n]] == t[indices[n]];
      NumSelectedUpdate(before, indices[n], cards[n]);
    }
  }

  /**
   * The loop of `replaceSelectedSet` as written at SetGame.swift:114-116:
   * the slot for `cards[index]` is read from `selectedCardIndices` afresh
   * after each write. None stands for the out-of-range trap.
   */
  function ReplaceSlotsAsWritten(t: seq<SetCard>, cards: seq<SetCard>, index: nat): Option<seq<SetCard>>
    decreases |cards| - index
  {
    if index >= |cards| then Some(t)
    else
      var indices := SelectedCardIndices(t);
      if index < |indices| then ReplaceSlotsAsWritten(t[indices[index] := cards[index]], cards, index + 1)
      else None
  }

  /**
   * As written, replacing a selected set by three dealt cards always traps:
   * each write removes one selected card, so at the third step only one
   * selected index is left and `selectedCardIndices[2]` is out of range.
   */
  lemma ReplaceSlotsAsWrittenTraps(t: seq<SetCard>, cards: seq<SetCard>)
    requires NumSelected(t) == SetSize
    requires |cards| == SetSize
    requires forall m :: 0 <= m < |cards| ==> !cards[m].isSelected
    ensures ReplaceSlotsAsWritten(t, cards, 0) == None
  {
    var s0 := SelectedCardIndices(t);
    assert s0[0] in s0;
    var t1 := t[s0[0] := cards[0]];
    NumSelectedUpdate(t, s0[0], cards[0]);
    var s1 := SelectedCardIndices(t1);
    assert s1[1] in s1;
    var t2 := t1[s1[1] := cards[1]];
    NumSelectedUpdate(t1, s1[1], cards[1]);
    assert |SelectedCardIndices(t2)| == 1;
    assert ReplaceSlotsAsWritten(t2, cards, 2) == None;
    assert ReplaceSlotsAsWritten(t1, cards, 1) == None;
  }

  /**
   * The same inputs with the slots captured once: all three dealt cards are
   * placed, in the three previously selected slots, and nothing is left
   * selected.
   */
  lemma ReplaceSlotsPlacesDealtSet(t: seq<SetCard>, cards: seq<SetCard>)
    requires NumSelected(t) == SetSize
    requires |cards| == SetSize
    requires forall m :: 0 <= m < |cards| ==> !cards[m].isSelected
    ensures var indices := SelectedCardIndices(t);
            var r := ReplaceSlots(t, indices, cards);
            |r| == |t| && NumSelected(r) == 0 &&
            (forall m :: 0 <= m < SetSize ==> r[indices[m]] == cards[m]) &&
            (forall x :: 0 <= x < |t| && !t[x].isSelected ==> r[x] == t[x])
  {
    var indices := SelectedCardIndices(t);
    forall a | 0 <= a < |indices| ensures t[indices[a]].isSelected {
      assert indices[a] in indices;
    }
    ReplaceSlotsPlaces(t, indices, cards);
    ReplaceSlotsCount(t, indices, cards);
    assert indices[..|cards|] == indices;
  }

  // ---------------------------------------------------------------------------
  // Searching for a set
  // ---------------------------------------------------------------------------

  /** Three positions into the tableau. */
  datatype Triple = Triple(i: nat, j: nat, k: nat)

  /** Positions a < b < c hold three cards that form a set. */
  predicate IsSetAt(t: seq<SetCard>, a: nat, b: nat, c: nat)
  {
    a < b < c < |t| && t[a].FormsSetWith(t[b], t[c])
  }

  /** No three cards of the tableau form a set: the tableau is a cap set. */
  predicate NoSetIn(t: seq<SetCard>)
  {
    forall a, b, c :: 0 <= a < b < c < |t| ==> !t[a].FormsSetWith(t[b], t[c])
  }

  /** (a, b, c) comes strictly before (x, y, z) in lexicographic order. */
  predicate LexBefore(a: nat, b: nat, c: nat, x: nat, y: nat, z: nat)
  {
    a < x || (a == x && b < y) || (a == x && b == y && c < z)
  }

  /**
   * The first set triple at or after (i, j, k), scanning k fastest, then j,
   * then i, as the three nested loops of `setOnTableau` do.
   */
  function FindSetFrom(t: seq<SetCard>, i: nat, j: nat, k: nat): Option<Triple>
    requires i < j < k
    decreases |t| - i, |t| - j, |t| - k
  {
    if i >= |t| then None
    else if j >= |t| then FindSetFrom(t, i + 1, i + 2, i + 3)
    else if k >= |t| then FindSetFrom(t, i, j + 1, j + 2)
    else if t[i].FormsSetWith(t[j], t[k]) then Some(Triple(i, j, k))
    else FindSetFrom(t, i, j, k + 1)
  }

  /** An answer of FindSetFrom is a set triple at or after its start. */
  lemma {:induction false} FindSetFromFound(t: seq<SetCard>, i: nat, j: nat, k: nat)
    requires i < j < k
    requires FindSetFrom(t, i, j, k).Some?
    decreases |t| - i, |t| - j, |t| - k
    ensures var r := FindSetFrom(t, i, j, k).value;
            IsSetAt(t, r.i, r.j, r.k) && !LexBefore(r.i, r.j, r.k, i, j, k)
  {
    if i >= |t| {
    } else if j >= |t| {
      FindSetFromFound(t, i + 1, i + 2, i + 3);
    } else if k >= |t| {
      FindSetFromFound(t, i, j + 1, j + 2);
    } else if t[i].FormsSetWith(t[j], t[k]) {
    } else {
      FindSetFromFound(t, i, j, k + 1);
    }
  }

  /**
   * No set triple lies between the start of FindSetFrom and its answer, or
   * anywhere at or after the start when it answers None.
   */
  lemma {:induction false} FindSetFromNoneEarlier(t: seq<SetCard>, i: nat, j: nat, k: nat, a: nat, b: nat, c: nat)
    requires i < j < k
    requires a < b < c < |t| && !LexBefore(a, b, c, i, j, k)
    requires var r := FindSetFrom(t, i, j, k);
             r.None? || LexBefore(a, b, c, r.value.i, r.value.j, r.value.k)
    decreases |t| - i, |t| - j, |t| - k
    ensures !t[a].FormsSetWith(t[b], t[c])
  {
    if i >= |t| {
    } else if j >= |t| {
      FindSetFromNoneEarlier(t, i + 1, i + 2, i + 3, a, b, c);
    } else if k >= |t| {
      FindSetFromNoneEarlier(t, i, j + 1, j + 2, a, b, c);
    } else if t[i].FormsSetWith(t[j], t[k]) {
    } else if a == i && b == j && c == k {
    } else {
      FindSetFromNoneEarlier(t, i, j, k + 1, a, b, c);
    }
  }

  /** The lexicographically first triple of positions i < j < k whose cards form a set. */
  function FindSet(t: seq<SetCard>): (r: Option<Triple>)
    ensures r.Some? ==> IsSetAt(t, r.value.i, r.value.j, r.value.k)
  {
    if FindSetFrom(t, 0, 1, 2).Some? then
      FindSetFromFound(t, 0, 1, 2);
      FindSetFrom(t, 0, 1, 2)
    else
      None
  }

  /** The search finds nothing exactly when the tableau is a cap set. */
  lemma FindSetNoneIffCapSet(t: seq<SetCard>)
    ensures FindSet(t).None? <==> NoSetIn(t)
  {
    if FindSet(t).None? {
      forall a, b, c | 0 <= a < b < c < |t|
        ensures !t[a].FormsSetWith(t[b], t[c])
      {
        FindSetFromNoneEarlier(t, 0, 1, 2, a, b, c);
      }
    }
  }

  /** No set triple comes before the one the search finds. */
  lemma FindSetIsFirst(t: seq<SetCard>)
    requires FindSet(t).Some?
    ensures var r := FindSet(t).value;
            forall a, b, c ::
              (0 <= a < b < c < |t| && LexBefore(a, b, c, r.i, r.j, r.k))
              ==> !t[a].FormsSetWith(t[b], t[c])
  {
    var r := FindSet(t).value;
    forall a, b, c | 0 <= a < b < c < |t| && LexBefore(a, b, c, r.i, r.j, r.k)
      ensures !t[a].FormsSetWith(t[b], t[c])
    {
      FindSetFromNoneEarlier(t, 0, 1, 2, a, b, c);
    }
  }

  /** A set triple with no set triple before it is the one FindSet returns. */
  lemma FirstSetIsFound(t: seq<SetCard>, a: nat, b: nat, c: nat)
    requires IsSetAt(t, a, b, c)
    requires forall x, y, z :: 0 <= x < y < z < |t| && LexBefore(x, y, z, a, b, c) ==> !t[x].FormsSetWith(t[y], t[z])
    ensures FindSet(t) == Some(Triple(a, b, c))
  {
    FindSetNoneIffCapSet(t);
    var r := FindSet(t);
    assert !NoSetIn(t);
    var tr := r.value;
    FindSetIsFirst(t);
    assert !LexBefore(tr.i, tr.j, tr.k, a, b, c);
    assert !LexBefore(a, b, c, tr.i, tr.j, tr.k);
  }

  /**
   * `hasCapSet` as its documentation describes it: no set can be made. More
   * than `minimumCapSetSize` cards always contain a set, so then the answer
   * is false without a search.
   */
  function HasCapSet(t: seq<SetCard>): (r: bool)
    ensures |t| > MinimumCapSetSize ==> !r
    ensures |t| <= MinimumCapSetSize ==> (r <==> NoSetIn(t))
  {
    FindSetNoneIffCapSet(t);
    if |t| > 20 then false else FindSet(t).None?
  }

  /** `hasCapSet` as written at SetGame.swift:157: true when the search does find a set. */
  function HasCapSetAsWritten(t: seq<SetCard>): (r: bool)
    ensures |t| > MinimumCapSetSize ==> !r
  {
    if |t| > 20 then false else FindSet(t).Some?
  }

  /** Up to 20 cards, the written `hasCapSet` answers the opposite of its documentation. */
  lemma HasCapSetAsWrittenInverted(t: seq<SetCard>)
    requires |t| <= MinimumCapSetSize
    ensures HasCapSetAsWritten(t) <==> !NoSetIn(t)
    ensures HasCapSetAsWritten(t) == !HasCapSet(t)
  {
    FindSetNoneIffCapSet(t);
  }

  /**
   * When three cards are selected, `HasSetSelected` holds exactly when some
   * three selected cards form a set.
   */
  lemma HasSetSelectedMeaning(t: seq<SetCard>)
    ensures HasSetSelected(t) <==>
      NumSelected(t) == SetSize &&
      exists a: nat, b: nat, c: nat :: IsSetAt(t, a, b, c) && t[a].isSelected && t[b].isSelected && t[c].isSelected
  {
    var indices := SelectedCardIndices(t);
    if NumSelected(t) == SetSize {
      forall a, b, c | 0 <= a < b < c < |t| && t[a].isSelected && t[b].isSelected && t[c].isSelected
        ensures a == indices[0] && b == indices[1] && c == indices[2]
      {
        SelectedTripleIsIndices(t, a, b, c);
      }
      if HasSetSelected(t) {
        assert indices[0] in indices && indices[1] in indices && indices[2] in indices;
        assert IsSetAt(t, indices[0], indices[1], indices[2]);
      }
    }
  }

  /** With exactly three selected, any three selected positions in order are the selected indices. */
  lemma SelectedTripleIsIndices(t: seq<SetCard>, a: nat, b: nat, c: nat)
    requires NumSelected(t) == SetSize
    requires a < b < c < |t| && t[a].isSelected && t[b].isSelected && t[c].isSelected
    ensures var indices := SelectedCardIndices(t);
            a == indices[0] && b == indices[1] && c == indices[2]
  {
    var indices := SelectedCardIndices(t);
    assert a in indices && b in indices && c in indices;
    var pa :| 0 <= pa < 3 && indices[pa] == a;
    var pb :| 0 <= pb < 3 && indices[pb] == b;
    var pc :| 0 <= pc < 3 && indices[pc] == c;
    assert forall x, y :: 0 <= x <= y < 3 ==> indices[x] <= indices[y];
  }

  /**
   * The written `hasSetSelected` can hold when the selected cards do not form
   * a set: the first three cards form one, the selected three do not.
   */
  lemma HasSetSelectedAsWrittenFalsePositive()
    ensures exists t :: HasSetSelectedAsWritten(t) && !HasSetSelected(t)
  {
    var t := [SetCard(Shape1, Shade1, Color1, One, false),
              SetCard(Shape1, Shade1, Color1, Two, false),
              SetCard(Shape1, Shade1, Color1, Three, false),
              SetCard(Shape2, Shade1, Color1, One, true),
              SetCard(Shape2, Shade1, Color1, Two, true),
              SetCard(Shape3, Shade1, Color1, One, true)];
    ThreeSelectedAtEnd(t);
    assert t[0].FormsSetWith(t[1], t[2]);
    assert !t[3].FormsSetWith(t[4], t[5]);
    assert HasSetSelectedAsWritten(t) && !HasSetSelected(t);
  }

  /**
   * The written `hasSetSelected` can fail when the selected cards do form a
   * set: the selected three form one, the first three do not.
   */
  lemma HasSetSelectedAsWrittenFalseNegative()
    ensures exists t :: !HasSetSelectedAsWritten(t) && HasSetSelected(t)
  {
    var t := [SetCard(Shape2, Shade1, Color1, One, false),
              SetCard(Shape2, Shade1, Color1, Two, false),
              SetCard(Shape3, Shade1, Color1, One, false),
              SetCard(Shape1, Shade1, Color1, One, true),
              SetCard(Shape1, Shade1, Color1, Two, true),
              SetCard(Shape1, Shade1, Color1, Three, true)];
    ThreeSelectedAtEnd(t);
    assert !t[0].FormsSetWith(t[1], t[2]);
    assert t[3].FormsSetWith(t[4], t[5]);
    assert !HasSetSelectedAsWritten(t) && HasSetSelected(t);
  }

  /**
   * In a tableau whose first three cards alone are selected, those are the
   * selected indices, and removing them leaves the cards from position 3 on.
   */
  lemma ThreeSelectedInFront(t: seq<SetCard>)
    requires |t| >= 3
    requires forall x :: 0 <= x < 3 ==> t[x].isSelected
    requires forall x :: 3 <= x < |t| ==> !t[x].isSelected
    ensures NumSelected(t) == SetSize && SelectedCardIndices(t) == [0, 1, 2]
    ensures WithoutSelected(t) == t[3..]
  {
    SelectedPrefixCount(t, 3);
    var r := SelectedCardIndices(t);
    assert |r| == 3;
    forall m | 0 <= m < 3
      ensures r[m] < 3
    {
      var x := r[m];
      assert x in r;
      assert t[x].isSelected;
    }
    assert r[0] < r[1] < r[2];
    assert r == [0, 1, 2];
    ThreeSelectedInFrontRemoved(t);
  }

  /** A tableau whose first k cards alone are selected has k selected. */
  lemma {:induction false} SelectedPrefixCount(t: seq<SetCard>, k: nat)
    requires k <= |t|
    requires forall x :: 0 <= x < k ==> t[x].isSelected
    requires forall x :: k <= x < |t| ==> !t[x].isSelected
    ensures NumSelected(t) == k
  {
    if |t| == k {
      NumSelectedAll(t);
    } else {
      NumSelectedLast(t);
      SelectedPrefixCount(t[..|t| - 1], k);
    }
  }

  /** A tableau whose cards from position k on alone are selected has |t| - k selected. */
  lemma {:induction false} SelectedSuffixCount(t: seq<SetCard>, k: nat)
    requires k <= |t|
    requires forall x :: 0 <= x < k ==> !t[x].isSelected
    requires forall x :: k <= x < |t| ==> t[x].isSelected
    ensures NumSelected(t) == |t| - k
  {
    if |t| > k {
      NumSelectedLast(t);
      SelectedSuffixCount(t[..|t| - 1], k);
    }
  }

  /** Removing the three selected cards in front of a tableau leaves the cards behind them. */
  lemma ThreeSelectedInFrontRemoved(t: seq<SetCard>)
    requires |t| >= 3
    requires forall x :: 0 <= x < 3 ==> t[x].isSelected
    requires forall x :: 3 <= x < |t| ==> !t[x].isSelected
    ensures WithoutSelected(t) == t[3..]
  {
    var front, back := t[..3], t[3..];
    assert t == front + back;
    WithoutSelectedAppend(front, back);
    NumSelectedAll(front);
    WithoutSelectedSize(front);
    forall i | 0 <= i < |back|
      ensures !back[i].isSelected
    {
      assert back[i] == t[3 + i];
    }
    WithoutSelectedNoneSelected(back);
  }

  /** In a six-card tableau whose last three cards alone are selected, those are the selected indices. */
  lemma ThreeSelectedAtEnd(t: seq<SetCard>)
    requires |t| == 6
    requires forall x :: 0 <= x < 3 ==> !t[x].isSelected
    requires forall x :: 3 <= x < 6 ==> t[x].isSelected
    ensures NumSelected(t) == SetSize && SelectedCardIndices(t) == [3, 4, 5]
  {
    SelectedSuffixCount(t, 3);
    var r := SelectedCardIndices(t);
    forall m | 0 <= m < 3
      ensures 3 <= r[m] < 6
    {
      assert r[m] in r;
    }
    assert r[0] < r[1] < r[2];
  }
}
