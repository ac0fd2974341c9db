/**
 * The four card features of the game of Set and the rule that decides when
 * three values of one feature form a set (SetGame/Models/SetFeature.swift).
 */
module Features {

  /** Three values "form a set" when they are all equal or all different. */
  predicate FormsSetWith<T(==)>(first: T, second: T, third: T)
  {
    (first == second && first == third) ||
    (first != second && first != third && second != third)
  }

  /** Exactly two of the three values are equal. */
  predicate ExactlyTwoEqual<T(==)>(a: T, b: T, c: T)
  {
    (a == b && a != c) || (a == c && a != b) || (b == c && a != b)
  }

  /** All three values are equal: always a set. */
  lemma AllEqualFormsSet<T>(a: T, b: T, c: T)
    requires a == b == c
    ensures FormsSetWith(a, b, c)
  {
  }

  /** Three pairwise distinct values: always a set. */
  lemma AllDistinctFormsSet<T>(a: T, b: T, c: T)
    requires a != b && a != c && b != c
    ensures FormsSetWith(a, b, c)
  {
  }

  /** The rule fails exactly when two of the three values agree and the third differs. */
  lemma FormsSetIffNotExactlyTwo<T>(a: T, b: T, c: T)
    ensures FormsSetWith(a, b, c) <==> !ExactlyTwoEqual(a, b, c)
  {
  }

  /** The rule does not depend on the order of its arguments. */
  lemma FormsSetPermutation<T>(a: T, b: T, c: T)
    ensures FormsSetWith(a, b, c) == FormsSetWith(a, c, b)
    ensures FormsSetWith(a, b, c) == FormsSetWith(b, a, c)
    ensures FormsSetWith(a, b, c) == FormsSetWith(b, c, a)
    ensures FormsSetWith(a, b, c) == FormsSetWith(c, a, b)
    ensures FormsSetWith(a, b, c) == FormsSetWith(c, b, a)
  {
  }

  datatype ShapeFeature = Shape1 | Shape2 | Shape3 {
    /** The Swift raw value: 1, 2 or 3. */
    function RawValue(): (r: int)
      ensures 1 <= r <= 3
    {
      match this
      case Shape1 => 1
      case Shape2 => 2
      case Shape3 => 3
    }

    /**
     * The value that completes this one and `other` to a set: the same value
     * when the two agree, otherwise the one value neither of them has. It is
     * the only value that does.
     */
    function Third(other: ShapeFeature): (r: ShapeFeature)
      ensures FormsSetWith(this, other, r)
    {
      if this == other then this
      else if this != Shape1 && other != Shape1 then Shape1
      else if this != Shape2 && other != Shape2 then Shape2
      else Shape3
    }
  }

  datatype ShadeFeature = Shade1 | Shade2 | Shade3 {
    /** The Swift raw value: 1, 2 or 3. */
    function RawValue(): (r: int)
      ensures 1 <= r <= 3
    {
      match this
      case Shade1 => 1
      case Shade2 => 2
      case Shade3 => 3
    }

    /**
     * The value that completes this one and `other` to a set: the same value
     * when the two agree, otherwise the one value neither of them has. It is
     * the only value that does.
     */
    function Third(other: ShadeFeature): (r: ShadeFeature)
      ensures FormsSetWith(this, other, r)
    {
      if this == other then this
      else if this != Shade1 && other != Shade1 then Shade1
      else if this != Shade2 && other != Shade2 then Shade2
      else Shade3
    }
  }

  datatype ColorFeature = Color1 | Color2 | Color3 {
    /** The Swift raw value, zero-based so that it can index an array: 0, 1 or 2. */
    function RawValue(): (r: int)
      ensures 0 <= r <= 2
    {
      match this
      case Color1 => 0
      case Color2 => 1
      case Color3 => 2
    }

    /**
     * The value that completes this one and `other` to a set: the same value
     * when the two agree, otherwise the one value neither of them has. It is
     * the only value that does.
     */
    function Third(other: ColorFeature): (r: ColorFeature)
      ensures FormsSetWith(this, other, r)
    {
      if this == other then this
      else if this != Color1 && other != Color1 then Color1
      else if this != Color2 && other != Color2 then Color2
      else Color3
    }
  }

  datatype NumberFeature = One | Two | Three {
    /** The Swift raw value: 1, 2 or 3. */
    function RawValue(): (r: int)
      ensures 1 <= r <= 3
    {
      match this
      case One => 1
      case Two => 2
      case Three => 3
    }

    /**
     * The value that completes this one and `other` to a set: the same value
     * when the two agree, otherwise the one value neither of them has. It is
     * the only value that does.
     */
    function Third(other: NumberFeature): (r: NumberFeature)
      ensures FormsSetWith(this, other, r)
    {
      if this == other then this
      else if this != One && other != One then One
      else if this != Two && other != Two then Two
      else Three
    }
  }

  /** The value Third picks is the only one that completes two values to a set. */
  lemma ThirdUnique()
    ensures forall a: ShapeFeature, b, d :: FormsSetWith(a, b, d) ==> d == a.Third(b)
    ensures forall a: ShadeFeature, b, d :: FormsSetWith(a, b, d) ==> d == a.Third(b)
    ensures forall a: ColorFeature, b, d :: FormsSetWith(a, b, d) ==> d == a.Third(b)
    ensures forall a: NumberFeature, b, d :: FormsSetWith(a, b, d) ==> d == a.Third(b)
  {
    forall a: ShapeFeature, b: ShapeFeature, d: ShapeFeature | FormsSetWith(a, b, d)
      ensures d == a.Third(b)
    {
      match d
      case Shape1 =>
      case Shape2 =>
      case Shape3 =>
    }
    forall a: ShadeFeature, b: ShadeFeature, d: ShadeFeature | FormsSetWith(a, b, d)
      ensures d == a.Third(b)
    {
      match d
      case Shade1 =>
      case Shade2 =>
      case Shade3 =>
    }
    forall a: ColorFeature, b: ColorFeature, d: ColorFeature | FormsSetWith(a, b, d)
      ensures d == a.Third(b)
    {
      match d
      case Color1 =>
      case Color2 =>
      case Color3 =>
    }
    forall a: NumberFeature, b: NumberFeature, d: NumberFeature | FormsSetWith(a, b, d)
      ensures d == a.Third(b)
    {
      match d
      case One =>
      case Two =>
      case Three =>
    }
  }

  /** `allCases` of each enumeration, in declaration order. */
  const AllShapes: seq<ShapeFeature> := [Shape1, Shape2, Shape3]
  const AllShades: seq<ShadeFeature> := [Shade1, Shade2, Shade3]
  const AllColors: seq<ColorFeature> := [Color1, Color2, Color3]
  const AllNumbers: seq<NumberFeature> := [One, Two, Three]

  /**
   * Each enumeration has exactly three cases, listed once each by `allCases`,
   * and the raw value of the case at position `i` of `allCases` is `i + 1`
   * (`i` for colours, so colour raw values are valid indices into a
   * three-element array).
   */
  lemma AllCasesExact()
    ensures |AllShapes| == |AllShades| == |AllColors| == |AllNumbers| == 3
    ensures forall s: ShapeFeature :: s in AllShapes
    ensures forall s: ShadeFeature :: s in AllShades
    ensures forall c: ColorFeature :: c in AllColors
    ensures forall n: NumberFeature :: n in AllNumbers
    ensures forall i, j :: 0 <= i < j < 3 ==>
      AllShapes[i] != AllShapes[j] && AllShades[i] != AllShades[j] &&
      AllColors[i] != AllColors[j] && AllNumbers[i] != AllNumbers[j]
    ensures forall i :: 0 <= i < 3 ==>
      AllShapes[i].RawValue() == i + 1 && AllShades[i].RawValue() == i + 1 &&
      AllColors[i].RawValue() == i && AllNumbers[i].RawValue() == i + 1
  {
    forall s: ShapeFeature ensures s in AllShapes {
      assert s == AllShapes[s.RawValue() - 1];
    }
    forall s: ShadeFeature ensures s in AllShades {
      assert s == AllShades[s.RawValue() - 1];
    }
    forall c: ColorFeature ensures c in AllColors {
      assert c == AllColors[c.RawValue()];
    }
    forall n: NumberFeature ensures n in AllNumbers {
      assert n == AllNumbers[n.RawValue() - 1];
    }
  }

  /** Distinct cases have distinct raw values. */
  lemma RawValuesInjective()
    ensures forall a: ShapeFeature, b: ShapeFeature :: a.RawValue() == b.RawValue() ==> a == b
    ensures forall a: ShadeFeature, b: ShadeFeature :: a.RawValue() == b.RawValue() ==> a == b
    ensures forall a: ColorFeature, b: ColorFeature :: a.RawValue() == b.RawValue() ==> a == b
    ensures forall a: NumberFeature, b: NumberFeature :: a.RawValue() == b.RawValue() ==> a == b
  {
  }
}
