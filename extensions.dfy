/**
 * The `Bool`, `Int` and `Array` extensions of SetGame/Extensions.swift. Swift
 * arrays are values; a `mutating func` on one takes the old array and gives
 * back the new one, so here it takes a sequence and returns the sequence it
 * leaves behind beside its own result.
 */
module Extensions {
  import opened Wrappers

  /** 1 for true, 0 for false. */
  function IntValue(b: bool): (r: int)
    ensures r == 0 || r == 1
    ensures r == 1 <==> b
  {
    if b then 1 else 0
  }

  /** False only for zero. */
  function BoolValue(i: int): (r: bool)
    ensures r <==> i != 0
  {
    i != 0
  }

  lemma BoolIntRoundTrip(b: bool)
    ensures BoolValue(IntValue(b)) == b
  {
  }

  /** True when no element passes the test; stops at the first element that does. */
  method NoneSatisfy<T>(s: seq<T>, passesTest: T -> bool) returns (r: bool)
    ensures r <==> forall i :: 0 <= i < |s| ==> !passesTest(s[i])
  {
    for i := 0 to |s|
      invariant forall j :: 0 <= j < i ==> !passesTest(s[j])
    {
      if passesTest(s[i]) {
        return false;
      }
    }
    return true;
  }

  /** True when at least one element passes the test; stops at the first one. */
  method AnySatisfy<T>(s: seq<T>, passesTest: T -> bool) returns (r: bool)
    ensures r <==> exists i :: 0 <= i < |s| && passesTest(s[i])
  {
    for i := 0 to |s|
      invariant forall j :: 0 <= j < i ==> !passesTest(s[j])
    {
      if passesTest(s[i]) {
        return true;
      }
    }
    return false;
  }

  /** The only element when there is exactly one, otherwise nothing. */
  function OneAndOnly<T>(s: seq<T>): (r: Option<T>)
    ensures r.Some? <==> |s| == 1
    ensures r.Some? ==> s == [r.value]
  {
    if |s| == 1 then Some(s[0]) else None
  }

  /** Inserts `element` in front of the array. */
  method Prepend<T>(s: seq<T>, element: T) returns (r: seq<T>)
    ensures |r| == |s| + 1 && r[0] == element && r[1..] == s
  {
    r := [element] + s;
  }

  /**
   * How many elements `popLast(k)` and `removeFirst(k)` take from an array of
   * `count` elements: `k`, or all of them when fewer remain.
   */
  function PopCount(k: nat, count: nat): (r: nat)
    ensures r <= k && r <= count
    ensures r == k || r == count
  {
    if k < count then k else count
  }

  /**
   * Removes up to `k` elements from the end and returns them in their
   * original order: the array keeps the prefix, and the prefix followed by
   * the answer is the old array.
   */
  method PopLast<T>(s: seq<T>, k: nat) returns (rest: seq<T>, answer: seq<T>)
    ensures |answer| == PopCount(k, |s|)
    ensures rest + answer == s
    ensures rest == s[..|s| - |answer|] && answer == s[|s| - |answer|..]
  {
    answer := [];
    rest := s;
    var upperLimit := PopCount(k, |s|);
    for n := 0 to upperLimit
      invariant |rest| == |s| - n
      invariant rest + answer == s
    {
      var last := rest[|rest| - 1];
      rest := rest[..|rest| - 1];
      answer := Prepend(answer, last);
    }
  }

  /**
   * Removes up to `k` elements from the front and returns them in order: the
   * array keeps the suffix, and the answer followed by it is the old array.
   */
  method RemoveFirst<T>(s: seq<T>, k: nat) returns (rest: seq<T>, answer: seq<T>)
    ensures |answer| == PopCount(k, |s|)
    ensures answer + rest == s
    ensures answer == s[..|answer|] && rest == s[|answer|..]
  {
    answer := [];
    rest := s;
    var upperLimit := PopCount(k, |s|);
    for n := 0 to upperLimit
      invariant |answer| == n
      invariant answer + rest == s
    {
      var first := rest[0];
      rest := rest[1..];
      answer := answer + [first];
    }
  }

  /** The indices of `s` whose element passes the test, in increasing order. */
  function MatchingIndices<T>(s: seq<T>, passesTest: T -> bool): (r: seq<nat>)
    ensures |r| <= |s|
    ensures forall x: nat :: x in r <==> x < |s| && passesTest(s[x])
    ensures forall a, b :: 0 <= a < b < |r| ==> r[a] < r[b]
    ensures forall a :: 0 <= a < |r| ==> r[a] < |s|
  {
    if |s| == 0 then []
    else
      MatchingIndices(s[..|s| - 1], passesTest) +
      (if passesTest(s[|s| - 1]) then [|s| - 1] else [])
  }

  /** `indices(where:)`: one pass over the array, appending each index whose element passes. */
  method IndicesWhere<T>(s: seq<T>, passesTest: T -> bool) returns (answer: seq<nat>)
    ensures answer == MatchingIndices(s, passesTest)
  {
    answer := [];
    for index := 0 to |s|
      invariant answer == MatchingIndices(s[..index], passesTest)
    {
      assert s[..index + 1][..index] == s[..index];
      if passesTest(s[index]) {
        answer := answer + [index];
      }
    }
    assert s[..|s|] == s;
  }
}
