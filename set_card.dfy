/**
 * A single card of the game of Set (SetGame/Models/SetCard.swift): one value
 * of each of the four features plus a mutable selection flag.
 *
 * The Swift type is a struct, a value type whose synthesized `==` compares
 * every stored property, `isSelected` included. A Dafny datatype has exactly
 * that equality, and a `mutating func` on a value becomes a function from the
 * old value to the new one.
 */
module Cards {
  import opened Features

  datatype SetCard = SetCard(
    shape: ShapeFeature,
    shading: ShadeFeature,
    color: ColorFeature,
    number: NumberFeature,
    isSelected: bool)
  {
    /**
     * Whether this card forms a set with two others. Any two of the three
     * being equal (selection flag included) answers false; otherwise each of
     * the four features must individually pass the feature rule.
     */
    predicate FormsSetWith(second: SetCard, third: SetCard)
    {
      if second == this || third == this || second == third then
        false
      else
        Features.FormsSetWith(shape, second.shape, third.shape) &&
        Features.FormsSetWith(shading, second.shading, third.shading) &&
        Features.FormsSetWith(color, second.color, third.color) &&
        Features.FormsSetWith(number, second.number, third.number)
    }

    /** The card with its selection flag flipped and its four features kept. */
    function ToggleSelection(): (r: SetCard)
      ensures r.isSelected == !isSelected
      ensures SameFeatures(r)
      ensures r != this
    {
      this.(isSelected := !isSelected)
    }

    /** The decimal key shape·1000 + shading·100 + color·10 + number. */
    function Id(): (r: int)
      ensures 1101 <= r <= 3323
    {
      shape.RawValue() * 1000 + shading.RawValue() * 100 + color.RawValue() * 10 + number.RawValue()
    }

    /** The two cards agree on all four features (their selection flags may differ). */
    predicate SameFeatures(other: SetCard)
    {
      shape == other.shape && shading == other.shading &&
      color == other.color && number == other.number
    }
  }

  /** A card as the Swift memberwise initializer builds it: `isSelected` defaults to false. */
  function NewCard(shape: ShapeFeature, shading: ShadeFeature, color: ColorFeature, number: NumberFeature): (c: SetCard)
    ensures !c.isSelected
    ensures c.shape == shape && c.shading == shading && c.color == color && c.number == number
  {
    SetCard(shape, shading, color, number, false)
  }

  /** Toggling twice gives back the very same card. */
  lemma ToggleTwice(c: SetCard)
    ensures c.ToggleSelection().ToggleSelection() == c
  {
  }

  /**
   * The id is unique: two cards have the same id exactly when they agree on
   * all four features, whatever their selection flags.
   */
  lemma IdInjective(a: SetCard, b: SetCard)
    ensures a.Id() == b.Id() <==> a.SameFeatures(b)
  {
    RawValuesInjective();
  }

  /** The id does not see the selection flag. */
  lemma IdIgnoresSelection(c: SetCard)
    ensures c.ToggleSelection().Id() == c.Id()
  {
  }

  /** A card that is not selected differs from the same card selected. */
  lemma EqualityIncludesSelection(c: SetCard)
    ensures c.(isSelected := true) != c.(isSelected := false)
    ensures c.(isSelected := true).Id() == c.(isSelected := false).Id()
  {
  }

  /**
   * Three cards form a set exactly when they are pairwise different cards and
   * no feature shows the same value on exactly two of them.
   */
  lemma FormsSetWithRule(a: SetCard, b: SetCard, c: SetCard)
    ensures (b == a || c == a || b == c) ==> !a.FormsSetWith(b, c)
    ensures b != a && c != a && b != c ==>
      (a.FormsSetWith(b, c) <==>
        !ExactlyTwoEqual(a.shape, b.shape, c.shape) &&
        !ExactlyTwoEqual(a.shading, b.shading, c.shading) &&
        !ExactlyTwoEqual(a.color, b.color, c.color) &&
        !ExactlyTwoEqual(a.number, b.number, c.number))
  {
    FormsSetIffNotExactlyTwo(a.shape, b.shape, c.shape);
    FormsSetIffNotExactlyTwo(a.shading, b.shading, c.shading);
    FormsSetIffNotExactlyTwo(a.color, b.color, c.color);
    FormsSetIffNotExactlyTwo(a.number, b.number, c.number);
  }

  /** The card test does not depend on the order of the three cards. */
  lemma FormsSetWithPermutation(a: SetCard, b: SetCard, c: SetCard)
    ensures a.FormsSetWith(b, c) == a.FormsSetWith(c, b) == b.FormsSetWith(a, c)
    ensures a.FormsSetWith(b, c) == b.FormsSetWith(c, a) == c.FormsSetWith(a, b) == c.FormsSetWith(b, a)
  {
    FormsSetPermutation(a.shape, b.shape, c.shape);
    FormsSetPermutation(a.shading, b.shading, c.shading);
    FormsSetPermutation(a.color, b.color, c.color);
    FormsSetPermutation(a.number, b.number, c.number);
  }

  /**
   * The card that completes two cards to a set: feature by feature, the
   * value the feature rule demands. It is built unselected, as every card of
   * a fresh deck is.
   */
  function ThirdCard(a: SetCard, b: SetCard): (c: SetCard)
    ensures !c.isSelected
  {
    NewCard(a.shape.Third(b.shape), a.shading.Third(b.shading),
            a.color.Third(b.color), a.number.Third(b.number))
  }

  /**
   * Set closure: two cards that differ in some feature are completed to a set
   * by exactly one combination of features, that of ThirdCard.
   */
  lemma SetClosure(a: SetCard, b: SetCard)
    requires !a.SameFeatures(b)
    ensures a.FormsSetWith(b, ThirdCard(a, b))
    ensures forall d :: a.FormsSetWith(b, d) ==> d.SameFeatures(ThirdCard(a, b))
  {
    var c := ThirdCard(a, b);
    ThirdUnique();
    assert c != a && c != b by {
      if a.shape != b.shape {
        assert c.shape != a.shape && c.shape != b.shape;
      } else if a.shading != b.shading {
        assert c.shading != a.shading && c.shading != b.shading;
      } else if a.color != b.color {
        assert c.color != a.color && c.color != b.color;
      } else {
        assert c.number != a.number && c.number != b.number;
      }
    }
  }
}
