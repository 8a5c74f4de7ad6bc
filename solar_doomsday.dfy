/**
 * `solar_doomsday`: split an area into square panels greedily, always
 * taking the largest square that still fits into what is left.
 */
module SolarDoomsday {

  /** The sum of a list, Python's `sum`. */
  function Total(s: seq<int>): int
  {
    if |s| == 0 then 0 else Total(s[..|s| - 1]) + s[|s| - 1]
  }

  /** The integer square root: the largest r with r * r <= n. */
  function Isqrt(n: nat): (r: nat)
    ensures r * r <= n < (r + 1) * (r + 1)
  {
    if n == 0 then 0
    else
      var r := Isqrt(n - 1);
      if (r + 1) * (r + 1) <= n then r + 1 else r
  }

  /** A positive perfect square. */
  predicate IsPositiveSquare(v: int) {
    v >= 1 && Isqrt(v) * Isqrt(v) == v
  }

  /** `[x * x for x in range(1, num + 1) if x * x <= num]`, built for x up to k. */
  function SquaresUpTo(num: int, k: nat): seq<int>
  {
    if k == 0 then []
    else
      var s := SquaresUpTo(num, k - 1);
      if k * k <= num then s + [k * k] else s
  }

  /** The list holds the squares of 1..k that are at most num, and nothing else. */
  lemma {:induction false} SquaresUpToContents(num: int, k: nat)
    ensures forall v :: v in SquaresUpTo(num, k) ==> exists x :: 1 <= x <= k && v == x * x && v <= num
    ensures forall x :: 1 <= x <= k && x * x <= num ==> x * x in SquaresUpTo(num, k)
  {
    if k > 0 {
      SquaresUpToContents(num, k - 1);
    }
  }

  /** Python's `max` of a non-empty list. */
  function Max(s: seq<int>): int
    requires |s| > 0
  {
    if |s| == 1 then s[0]
    else
      var m := Max(s[..|s| - 1]);
      if s[|s| - 1] > m then s[|s| - 1] else m
  }

  /** `max` returns an element of the list that no element exceeds. */
  lemma {:induction false} MaxIsMaximum(s: seq<int>)
    requires |s| > 0
    ensures Max(s) in s && forall a :: 0 <= a < |s| ==> s[a] <= Max(s)
  {
    if |s| > 1 {
      var init := s[..|s| - 1];
      MaxIsMaximum(init);
      assert forall a :: 0 <= a < |s| - 1 ==> s[a] == init[a];
      assert Max(init) in s by {
        var a :| 0 <= a < |init| && init[a] == Max(init);
        assert s[a] == Max(init);
      }
    }
  }

  lemma SquareMonotone(x: int, y: int)
    requires 0 <= x <= y
    ensures x * x <= y * y
  {
    assert x * x <= x * y <= y * y;
  }

  /**
   * `get_max_square(num)`: the largest of the squares 1, 4, 9, ... that are
   * at most num, which is the square of the integer square root of num.
   * On num < 1 the list is empty and Python's `max` raises ValueError.
   */
  function GetMaxSquare(num: int): (sq: int)
    requires num >= 1
    ensures sq == Isqrt(num) * Isqrt(num)
  {
    var s := SquaresUpTo(num, num);
    var r := Isqrt(num);
    RootPositive(num);
    RootAtMostSquare(r);
    SquaresUpToContents(num, num);
    assert r * r in s;
    forall v | v in s ensures v <= r * r {
      var x :| 1 <= x <= num && v == x * x && v <= num;
      SquareBelow(x, r, num);
    }
    MaxIsMaximum(s);
    Max(s)
  }

  lemma RootAtMostSquare(r: int)
    requires r >= 1
    ensures r <= r * r
  {
    assert r * 1 <= r * r;
  }

  /** A square that fits into num is at most the square of num's integer root r. */
  lemma SquareBelow(x: int, r: int, num: int)
    requires x >= 1 && r >= 0 && x * x <= num < (r + 1) * (r + 1)
    ensures x * x <= r * r
  {
    if x > r { SquareMonotone(r + 1, x); }
    SquareMonotone(x, r);
  }

  /** The largest square that fits into a positive area is itself positive and at most the area. */
  lemma RootPositive(num: int)
    requires num >= 1
    ensures Isqrt(num) >= 1 && 1 <= Isqrt(num) * Isqrt(num) <= num
  {
    SquareMonotone(1, Isqrt(num));
  }

  /** `get_max_square(num)` is x * x for the x >= 1 with x * x <= num < (x + 1) * (x + 1). */
  lemma MaxSquareBounds(num: int)
    requires num >= 1
    ensures var x := Isqrt(num); x >= 1 && GetMaxSquare(num) == x * x && x * x <= num < (x + 1) * (x + 1)
  {
    RootPositive(num);
  }

  /**
   * The panels for a remaining area: nothing once the area is used up,
   * otherwise its largest square and then the panels for the rest.
   */
  function Panels(area: int): seq<int>
    decreases area
  {
    if area <= 0 then []
    else
      var r := Isqrt(area);
      RootPositive(area);
      [r * r] + Panels(area - r * r)
  }

  lemma PanelsStep(area: int)
    requires area > 0
    ensures Panels(area) == [GetMaxSquare(area)] + Panels(area - GetMaxSquare(area))
  {
  }

  /** The integer square root does not decrease as its argument grows. */
  lemma IsqrtMonotone(a: nat, b: nat)
    requires a <= b
    ensures Isqrt(a) <= Isqrt(b)
  {
    var x, y := Isqrt(a), Isqrt(b);
    if x > y {
      SquareMonotone(y + 1, x);
    }
  }

  lemma {:induction false} TotalPrepend(v: int, s: seq<int>)
    ensures Total([v] + s) == v + Total(s)
    decreases |s|
  {
    if |s| > 0 {
      assert ([v] + s)[..|s|] == [v] + s[..|s| - 1];
      TotalPrepend(v, s[..|s| - 1]);
    }
  }

  /** The panels cover the area exactly. */
  lemma {:induction false} PanelsSum(area: int)
    requires area >= 0
    ensures Total(Panels(area)) == area
    decreases area
  {
    if area > 0 {
      var sq := GetMaxSquare(area);
      PanelsSum(area - sq);
      TotalPrepend(sq, Panels(area - sq));
    }
  }

  /** Every panel is a positive perfect square. */
  lemma {:induction false} PanelsAreSquares(area: int)
    ensures forall a :: 0 <= a < |Panels(area)| ==> IsPositiveSquare(Panels(area)[a])
    decreases area
  {
    if area > 0 {
      var sq := GetMaxSquare(area);
      var r := Isqrt(area);
      PanelsAreSquares(area - sq);
      assert Isqrt(sq) == r by {
        var s := Isqrt(sq);
        if s < r { SquareMonotone(s + 1, r); }
        if s > r { SquareMonotone(r + 1, s); }
      }
    }
  }

  predicate NonIncreasing(s: seq<int>) {
    forall a, b :: 0 <= a < b < |s| ==> s[a] >= s[b]
  }

  lemma PrependLargest(v: int, s: seq<int>)
    requires NonIncreasing(s) && (|s| > 0 ==> s[0] <= v)
    ensures NonIncreasing([v] + s)
  {
    assert forall b :: 0 <= b < |s| ==> s[b] <= v;
  }

  /** The panels come largest first. */
  lemma {:induction false} PanelsNonIncreasing(area: int)
    ensures NonIncreasing(Panels(area))
    decreases area
  {
    if area > 0 {
      var r := Isqrt(area);
      RootPositive(area);
      var rest := Panels(area - r * r);
      PanelsNonIncreasing(area - r * r);
      if area - r * r > 0 {
        var r' := Isqrt(area - r * r);
        IsqrtMonotone(area - r * r, area);
        SquareMonotone(r', r);
        assert rest[0] == r' * r';
      }
      PrependLargest(r * r, rest);
    }
  }

  /**
   * What the greedy split promises: positive squares, largest first, that
   * cover the area exactly when it is not negative.
   */
  predicate SquareSplit(area: int, panels: seq<int>) {
    && (area >= 0 ==> Total(panels) == area)
    && NonIncreasing(panels)
    && forall a :: 0 <= a < |panels| ==> IsPositiveSquare(panels[a])
  }

  lemma PanelsProperties(area: int)
    ensures area <= 0 ==> Panels(area) == []
    ensures SquareSplit(area, Panels(area))
  {
    if area >= 0 {
      PanelsSum(area);
    }
    PanelsNonIncreasing(area);
    PanelsAreSquares(area);
  }

  /**
   * `solution(area)`: while area is left, take its largest square, record
   * it and subtract it.
   */
  method Solution(area: int) returns (returnList: seq<int>)
    ensures returnList == Panels(area)
    ensures area <= 0 ==> returnList == []
    ensures SquareSplit(area, returnList)
  {
    var remaining := area;
    returnList := [];
    while remaining > 0
      invariant returnList + Panels(remaining) == Panels(area)
      invariant area > 0 ==> remaining >= 0
      invariant area <= 0 ==> remaining == area && returnList == []
      decreases remaining
    {
      var maxSq := GetMaxSquare(remaining);
      RootPositive(remaining);
      assert 1 <= maxSq <= remaining;
      PanelsStep(remaining);
      returnList := returnList + [maxSq];
      remaining := remaining - maxSq;
    }
    assert Panels(remaining) == [];
    PanelsProperties(area);
  }
}
