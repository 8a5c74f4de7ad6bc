/**
 * `lovely_lucky_lambs`: how many henchmen a budget of LAMBs pays for, when
 * every senior henchman gets as much as possible (doubling payments) or as
 * little as the rules allow (each payment the sum of the two before it).
 */
module LovelyLuckyLambs {

  /** The two ways of paying: the most generous and the most stingy. */
  datatype Rule = Generous | Stingy

  /** 2^k, the generous payment of the k-th henchman. */
  function Pow2(k: nat): (p: nat)
    ensures p >= 1
  {
    if k == 0 then 1 else 2 * Pow2(k - 1)
  }

  /** 1, 1, 2, 3, 5, ...: the stingy payment of the k-th henchman. */
  function Fib(k: nat): (f: nat)
    ensures f >= 1
  {
    if k < 2 then 1 else Fib(k - 1) + Fib(k - 2)
  }

  /** The payment of the k-th henchman (counting from 0) under a rule. */
  function Payment(rule: Rule, k: nat): nat
  {
    match rule
    case Generous => Pow2(k)
    case Stingy => Fib(k)
  }

  /** The first n payments under a rule. */
  function Payments(rule: Rule, n: nat): (s: seq<int>)
    ensures |s| == n && forall k :: 0 <= k < n ==> s[k] == Payment(rule, k)
  {
    seq(n, k requires 0 <= k < n => Payment(rule, k))
  }

  /** The sum of a list, Python's `sum`. */
  function Total(s: seq<int>): int
  {
    if |s| == 0 then 0 else Total(s[..|s| - 1]) + s[|s| - 1]
  }

  /** Paying one more henchman adds their payment to the total. */
  lemma TotalStep(rule: Rule, n: nat)
    ensures Total(Payments(rule, n + 1)) == Total(Payments(rule, n)) + Payment(rule, n)
  {
    assert Payments(rule, n + 1)[..n] == Payments(rule, n);
  }

  /** One more henchman: the list grows by their payment and its total by the same amount. */
  lemma PaymentsStep(rule: Rule, n: nat)
    ensures Payments(rule, n + 1) == Payments(rule, n) + [Payment(rule, n)]
    ensures Total(Payments(rule, n + 1)) == Total(Payments(rule, n)) + Payment(rule, n)
  {
    TotalStep(rule, n);
  }

  /**
   * The number of henchmen the budget pays for: the first n at which the
   * total of the first n payments exceeds `lambs`, searched from k on.
   */
  function HenchmenFrom(rule: Rule, lambs: int, k: nat): (n: nat)
    requires forall j :: 0 <= j < k ==> Total(Payments(rule, j)) <= lambs
    ensures k <= n
    ensures Total(Payments(rule, n)) > lambs
    ensures forall j :: 0 <= j < n ==> Total(Payments(rule, j)) <= lambs
    decreases lambs - Total(Payments(rule, k))
  {
    if Total(Payments(rule, k)) > lambs then k
    else
      TotalStep(rule, k);
      HenchmenFrom(rule, lambs, k + 1)
  }

  /** The length of the list of payments both loops stop at. */
  function Henchmen(rule: Rule, lambs: int): (n: nat)
    ensures Total(Payments(rule, n)) > lambs
    ensures forall j :: 0 <= j < n ==> Total(Payments(rule, j)) <= lambs
  {
    HenchmenFrom(rule, lambs, 0)
  }

  /** A negative budget pays nobody; any other budget pays at least one henchman. */
  lemma NoHenchmenIffNegative(rule: Rule, lambs: int)
    ensures Henchmen(rule, lambs) == 0 <==> lambs < 0
  {
    var n := Henchmen(rule, lambs);
    if n > 0 {
      assert Total(Payments(rule, 0)) <= lambs;
    }
  }

  /**
   * `get_generous_result(lambs)`: append the payment, then double it, while
   * the list's sum is at most `lambs`.
   */
  method GetGenerousResult(lambs: int) returns (genResult: seq<int>)
    ensures genResult == Payments(Generous, Henchmen(Generous, lambs))
  {
    genResult := [];
    var thisPayment := 1;
    ghost var henchmen := Henchmen(Generous, lambs);
    while Total(genResult) <= lambs
      invariant genResult == Payments(Generous, |genResult|)
      invariant thisPayment == Pow2(|genResult|)
      invariant |genResult| <= henchmen
      decreases henchmen - |genResult|
    {
      PaymentsStep(Generous, |genResult|);
      genResult := genResult + [thisPayment];
      thisPayment := thisPayment * 2;
    }
  }

  /**
   * `get_stingy_result(lambs)`: append the payment and, from the second
   * henchman on, make the next payment the sum of the last two, while the
   * list's sum is at most `lambs`.
   */
  method GetStingyResult(lambs: int) returns (stiResult: seq<int>)
    ensures stiResult == Payments(Stingy, Henchmen(Stingy, lambs))
  {
    stiResult := [];
    var thisPayment := 1;
    ghost var henchmen := Henchmen(Stingy, lambs);
    while Total(stiResult) <= lambs
      invariant stiResult == Payments(Stingy, |stiResult|)
      invariant thisPayment == Fib(|stiResult|)
      invariant |stiResult| <= henchmen
      decreases henchmen - |stiResult|
    {
      PaymentsStep(Stingy, |stiResult|);
      stiResult := stiResult + [thisPayment];
      if |stiResult| > 1 {
        var lastTwo := stiResult[|stiResult| - 2..];
        assert Total(lastTwo) == lastTwo[0] + lastTwo[1] by {
          assert lastTwo[..1] == [lastTwo[0]];
        }
        thisPayment := Total(lastTwo);
      }
    }
  }

  /** Each Fibonacci payment is at most the matching power of two. */
  lemma {:induction false} FibAtMostPow2(k: nat)
    ensures Fib(k) <= Pow2(k)
  {
    if k >= 2 {
      FibAtMostPow2(k - 1);
      FibAtMostPow2(k - 2);
      PowMonotone(k - 2, k - 1);
    }
  }

  lemma {:induction false} PowMonotone(a: nat, b: nat)
    requires a <= b
    ensures Pow2(a) <= Pow2(b)
    decreases b - a
  {
    if a < b {
      PowMonotone(a, b - 1);
    }
  }

  /** Paying stingily never costs more than paying generously, for any number of henchmen. */
  lemma {:induction false} StingyTotalAtMostGenerous(n: nat)
    ensures Total(Payments(Stingy, n)) <= Total(Payments(Generous, n))
  {
    if n > 0 {
      StingyTotalAtMostGenerous(n - 1);
      TotalStep(Stingy, n - 1);
      TotalStep(Generous, n - 1);
      FibAtMostPow2(n - 1);
    }
  }

  /** A budget pays at least as many stingy henchmen as generous ones. */
  lemma StingyPaysMore(lambs: int)
    ensures Henchmen(Generous, lambs) <= Henchmen(Stingy, lambs)
  {
    StingyTotalAtMostGenerous(Henchmen(Stingy, lambs));
  }

  /** The generous payments double: 1, 2, 4, ..., strictly increasing. */
  lemma GenerousIncreasing(n: nat)
    ensures forall a, b :: 0 <= a < b < n ==> Payments(Generous, n)[a] < Payments(Generous, n)[b]
  {
    forall a, b | 0 <= a < b < n
      ensures Pow2(a) < Pow2(b)
    {
      PowMonotone(a + 1, b);
    }
  }

  /** The stingy payments start 1, 1 and then each is the sum of the two before it. */
  lemma StingyRecurrence(n: nat)
    ensures n >= 1 ==> Payments(Stingy, n)[0] == 1
    ensures n >= 2 ==> Payments(Stingy, n)[1] == 1
    ensures forall k :: 2 <= k < n ==>
      Payments(Stingy, n)[k] == Payments(Stingy, n)[k - 1] + Payments(Stingy, n)[k - 2]
  {
  }

  /** The stingy payments never decrease. */
  lemma StingyNonDecreasing(n: nat)
    ensures forall a, b :: 0 <= a <= b < n ==> Payments(Stingy, n)[a] <= Payments(Stingy, n)[b]
  {
    forall a, b | 0 <= a <= b < n
      ensures Fib(a) <= Fib(b)
    {
      FibMonotone(a, b);
    }
  }

  lemma {:induction false} FibMonotone(a: nat, b: nat)
    requires a <= b
    ensures Fib(a) <= Fib(b)
    decreases b - a
  {
    if a < b {
      FibMonotone(a, b - 1);
      assert Fib(b - 1) <= Fib(b);
    }
  }

  /**
   * `solution(total_lambs)`: the stingy head count minus the generous one,
   * the difference between the most and the fewest henchmen the budget pays.
   */
  method Solution(totalLambs: int) returns (difference: int)
    ensures difference == Henchmen(Stingy, totalLambs) - Henchmen(Generous, totalLambs)
    ensures difference >= 0
  {
    var generous := GetGenerousResult(totalLambs);
    var stingy := GetStingyResult(totalLambs);
    var a := |generous|;
    var b := |stingy|;
    StingyPaysMore(totalLambs);
    difference := b - a;
  }
}
