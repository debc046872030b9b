/** What rounding the distribution does to the expected index that answers a score question. */
module MockScores {
  import opened MockShares

  function Triangle(n: nat): nat {
    n * (n + 1)
  }

  lemma TriangleStep(n: nat)
    requires n > 0
    ensures Triangle(n) == Triangle(n - 1) + 2 * n
  {
  }

  /** Rounding moves the score by at most n(n-1)/4 ten-thousandths from the exact weighted mean. */
  lemma {:induction false} ScoreNearMean(s: seq<nat>, total: nat)
    requires total > 0 && s != []
    ensures -(total * Triangle(|s| - 1))
            <= (4 * total) * Moment(SharesOf(s, total)) - 40000 * Moment(s)
            <= total * Triangle(|s| - 1)
  {
    var n := |s| - 1;
    var p := SharesOf(s, total);
    SharesOfInit(s, total);
    if n == 0 {
      assert s[..0] == [] && p[..0] == [];
    } else {
      ScoreNearMean(s[..n], total);
      TriangleStep(n);
      Distribute(total, Triangle(n - 1), 2 * n);
      Distribute(4 * total, Moment(p[..n]), n * p[n]);
      TermNearMean(s[n], n, total);
    }
  }

  lemma TermNearMean(v: nat, i: nat, total: nat)
    requires total > 0
    ensures -(total * (2 * i)) <= (4 * total) * (i * Share(v, total)) - 40000 * (i * v) <= total * (2 * i)
  {
    ShareBounds(v, total);
    var d := (2 * total) * Share(v, total) - 20000 * v;
    Scaled(i, d, total);
    ScaledTerm(i, total, Share(v, total), v);
  }

  lemma Scaled(i: nat, d: int, t: int)
    requires -t <= d <= t
    ensures -(t * (2 * i)) <= 2 * (i * d) <= t * (2 * i)
  {
    assert i * (t - d) >= 0 && i * (t + d) >= 0;
    Distribute(i, t, -d);
    Distribute(i, t, d);
  }

  lemma ScaledTerm(i: int, t: int, p: int, v: int)
    ensures 2 * (i * ((2 * t) * p - 20000 * v)) == (4 * t) * (i * p) - 40000 * (i * v)
  {
    Distribute(i, (2 * t) * p, -20000 * v);
  }

  lemma {:induction false} SumAtLeastLength(s: seq<nat>)
    requires forall i | 0 <= i < |s| :: s[i] >= 1
    ensures Sum(s) >= |s|
  {
    if s != [] { SumAtLeastLength(s[..|s| - 1]); }
  }

  lemma MeanStep(moment: nat, sum: nat, n: nat, v: nat)
    requires n > 0 && sum >= n && 2 * moment + Triangle(n - 1) <= 2 * ((n - 1) * sum)
    ensures 2 * (moment + n * v) + Triangle(n) <= 2 * (n * (sum + v))
  {
    TriangleStep(n);
    Distribute(n, sum, v);
    assert (n - 1) * sum == n * sum - sum;
  }

  /** With every weight at least one, the exact mean stays below the top index by n(n-1)/2 shares. */
  lemma {:induction false} MeanBelowTop(s: seq<nat>)
    requires s != [] && forall i | 0 <= i < |s| :: s[i] >= 1
    ensures 2 * Moment(s) + Triangle(|s| - 1) <= 2 * ((|s| - 1) * Sum(s))
  {
    var n := |s| - 1;
    if n == 0 {
      assert s[..0] == [];
    } else {
      MeanBelowTop(s[..n]);
      SumAtLeastLength(s[..n]);
      MeanStep(Moment(s[..n]), Sum(s[..n]), n, s[n]);
    }
  }

  /** The score of n criteria lies between 0 and n-1 whenever every weight is at least one and the
      total is at most 20000, although the rounded shares may sum to more than one. */
  lemma ScoreInRange(s: seq<nat>)
    requires s != [] && (forall i | 0 <= i < |s| :: s[i] >= 1) && Sum(s) <= 20000
    ensures 0 <= Moment(Shares(s)) <= 10000 * (|s| - 1)
  {
    SumAtLeastLength(s);
    ScoreNearMean(s, Sum(s));
    MeanBelowTop(s);
    TopBound(Sum(s), |s| - 1, Triangle(|s| - 1), Moment(s), Moment(Shares(s)));
  }

  lemma TopBound(t: nat, n: nat, c: nat, moment: nat, m: nat)
    requires 0 < t <= 20000
    requires (4 * t) * m <= 40000 * moment + t * c && 2 * moment + c <= 2 * (n * t)
    ensures m <= 10000 * n
  {
    assert t * c <= 20000 * c by { assert c * (20000 - t) >= 0; }
    assert (4 * t) * (10000 * n) == 40000 * (n * t);
    Cancel(4 * t, 10000 * n, m);
  }

  lemma OfThree(a: nat, b: nat, c: nat)
    ensures Sum([a, b, c]) == a + b + c && Moment([a, b, c]) == b + 2 * c
  {
    OfTwo(a, b);
    Snoc([a, b], c);
    assert [a, b] + [c] == [a, b, c];
  }

  lemma OfFour(a: nat, b: nat, c: nat, d: nat)
    ensures Sum([a, b, c, d]) == a + b + c + d && Moment([a, b, c, d]) == b + 2 * c + 3 * d
  {
    OfThree(a, b, c);
    Snoc([a, b, c], d);
    assert [a, b, c] + [d] == [a, b, c, d];
  }

  lemma OfFive(a: nat, b: nat, c: nat, d: nat, e: nat)
    ensures Sum([a, b, c, d, e]) == a + b + c + d + e && Moment([a, b, c, d, e]) == b + 2 * c + 3 * d + 4 * e
  {
    OfFour(a, b, c, d);
    Snoc([a, b, c, d], e);
    assert [a, b, c, d] + [e] == [a, b, c, d, e];
  }

  lemma {:induction false} MomentOfOnes(k: nat)
    ensures 2 * Moment(Ones(k)) == k * (k - 1)
  {
    if k > 0 {
      MomentOfOnes(k - 1);
      assert Ones(k)[..k - 1] == Ones(k - 1);
      Distribute(k - 1, k - 2, 2);
    }
  }

  ghost predicate Positive(s: seq<nat>) {
    forall i | 0 <= i < |s| :: s[i] >= 1
  }

  /** Some positive weights for n criteria, of a total of at most 20000, score the last index itself. */
  ghost predicate TopReached(n: nat) {
    exists s: seq<nat> :: |s| == n && Positive(s) && Sum(s) <= 20000 && Moment(Shares(s)) == 10000 * (n - 1)
  }

  /** The bound is reached, although the mean is below it, exactly for the even numbers of criteria
      that leave room for positive weights; a single criterion always scores 0. */
  lemma ScoreBoundIsTight(n: nat)
    requires n > 0
    ensures TopReached(n) <==> n == 1 || (n % 2 == 0 && n <= 20000)
  {
    if TopReached(n) && n > 1 { ReachedIsEven(n); }
    if n == 1 {
      OneReachesTop();
    } else if n % 2 == 0 && n <= 20000 {
      EvenReachesTop(n / 2);
    }
  }

  lemma ReachedIsEven(n: nat)
    requires n > 1 && TopReached(n)
    ensures n % 2 == 0 && n <= 20000
  {
    var s: seq<nat> :| |s| == n && Positive(s) && Sum(s) <= 20000 && Moment(Shares(s)) == 10000 * (n - 1);
    SumAtLeastLength(s);
    TopNeedsEven(s, n - 1);
  }

  lemma OneReachesTop()
    ensures TopReached(1)
  {
    var s: seq<nat> := [1];
    assert Shares(s)[..0] == [] && s[..0] == [];
    assert Sum(s) == 1 && Moment(Shares(s)) == 0;
  }

  lemma OnesThenTop(k: nat, top: nat)
    ensures Sum(Ones(k) + [top]) == k + top && Moment(Ones(k) + [top]) == Moment(Ones(k)) + k * top
  {
    SumWithOnes([], k);
    assert [] + Ones(k) == Ones(k);
    Snoc(Ones(k), top);
  }

  lemma OnesThenTopMoment(k: nat, top: nat, q: int)
    requires q == k - 1 + 2 * top
    ensures 2 * Moment(Ones(k) + [top]) == k * q
  {
    OnesThenTop(k, top);
    MomentOfOnes(k);
    AddTop(k, top, q, Moment(Ones(k)));
  }

  lemma AddTop(k: nat, top: nat, q: int, moment: nat)
    requires q == k - 1 + 2 * top && 2 * moment == k * (k - 1)
    ensures 2 * (moment + k * top) == k * q
  {
    Distribute(k, k - 1, 2 * top);
  }

  lemma ShareAt20000(v: nat)
    ensures Share(v, 20000) == (v + 1) / 2
  {
    ShareIs(v, 20000, (v + 1) / 2);
  }

  lemma EvenReachesTop(half: nat)
    requires 0 < half <= 10000
    ensures TopReached(2 * half)
  {
    var k, top := 2 * half - 1, 20001 - 2 * half;
    var s := Ones(k) + [top];
    OnesThenTop(k, top);
    ShareAt20000(top);
    OnesThenTopMoment(k, 10001 - half, 20000);
    SharesAt20000(k, top);
    assert |s| == 2 * half && Positive(s) && Sum(s) <= 20000 && Moment(Shares(s)) == 10000 * k;
  }

  lemma SharesAt20000(k: nat, top: nat)
    requires k + top == 20000
    ensures Shares(Ones(k) + [top]) == Ones(k) + [Share(top, 20000)]
  {
    OnesThenTop(k, top);
    assert Share(1, 20000) == 1;
  }

  /** A score at the last index, at a total of at most 20000, takes weights of one below the top. */
  lemma TopHasNoSlack(s: seq<nat>, n: nat)
    requires |s| == n + 1 > 1 && Positive(s) && 0 < Sum(s) <= 20000 && Moment(Shares(s)) == 10000 * n
    ensures n < 20000 && s == Ones(n) + [20000 - n]
  {
    SumAtLeastLength(s);
    ScoreNearMean(s, Sum(s));
    MeanBelowTop(s);
    NoSlack(Sum(s), n, Triangle(n), Moment(s), Moment(Shares(s)));
    LeastMeanIsOnes(s);
  }

  lemma EvenBelowMissesTop(n: nat)
    requires 0 < n < 20000 && n % 2 == 0
    ensures Moment(Shares(Ones(n) + [20000 - n])) != 10000 * n
  {
    SharesAt20000(n, 20000 - n);
    OnesThenTopMoment(n, Share(20000 - n, 20000), 19999);
  }

  lemma TopNeedsEven(s: seq<nat>, n: nat)
    requires |s| == n + 1 > 1 && Positive(s) && 0 < Sum(s) <= 20000 && Moment(Shares(s)) == 10000 * n
    ensures n % 2 == 1 && n < 20000
  {
    TopHasNoSlack(s, n);
    if n % 2 == 0 { EvenBelowMissesTop(n); }
  }

  lemma NoSlack(t: nat, n: nat, c: nat, moment: nat, m: nat)
    requires 0 < t <= 20000 && n > 0 && c == Triangle(n) && m == 10000 * n
    requires (4 * t) * m <= 40000 * moment + t * c && 2 * moment + c <= 2 * (n * t)
    ensures t == 20000 && 2 * moment + c == 2 * (n * t)
  {
    TriangleStep(n);
    assert (4 * t) * m == 40000 * (n * t);
    assert c * (20000 - t) >= 0;
    Cancel(c, 19999, t);
  }

  lemma LeastStep(moment: nat, sum: nat, n: nat, v: nat)
    requires n > 0 && 2 * moment + Triangle(n - 1) <= 2 * ((n - 1) * sum)
    requires 2 * (moment + n * v) + Triangle(n) == 2 * (n * (sum + v))
    ensures sum <= n
  {
    TriangleStep(n);
    Distribute(n, sum, v);
    assert (n - 1) * sum == n * sum - sum;
  }

  /** Only weights of one below the top bring the mean that close to it. */
  lemma LeastMeanIsOnes(s: seq<nat>)
    requires |s| > 1 && Positive(s) && 2 * Moment(s) + Triangle(|s| - 1) == 2 * ((|s| - 1) * Sum(s))
    ensures s == Ones(|s| - 1) + [Sum(s) - (|s| - 1)]
  {
    var n := |s| - 1;
    MeanBelowTop(s[..n]);
    SumAtLeastLength(s[..n]);
    LeastStep(Moment(s[..n]), Sum(s[..n]), n, s[n]);
    AllOnes(s[..n]);
  }

  lemma {:induction false} AllOnes(s: seq<nat>)
    requires Positive(s) && Sum(s) == |s|
    ensures s == Ones(|s|)
  {
    if s != [] {
      SumAtLeastLength(s[..|s| - 1]);
      AllOnes(s[..|s| - 1]);
    }
  }

  /** A zero weight breaks the bound at the same total. */
  lemma ZeroWeightBreaksBound()
    ensures var s := [0, 1, 19999]; Sum(s) == 20000 && Moment(Shares(s)) > 10000 * (|s| - 1)
  {
    OfThree(0, 1, 19999);
    OfThree(0, 1, 10000);
    assert Shares([0, 1, 19999]) == [0, 1, 10000];
  }

  // ----- when the score can leave the range -----

  predicate InRange(s: seq<nat>) {
    Moment(Shares(s)) <= 10000 * (|s| - 1)
  }

  /** What rounding adds to a share, scaled by twice the total. */
  function Gain(v: nat, total: nat): int
    requires total > 0
  {
    (2 * total) * Share(v, total) - 20000 * v
  }

  /** A gain is at most half a share, and a share rounded down to nothing loses. */
  lemma GainBound(v: nat, total: nat)
    requires total > 0 && v > 0
    ensures Gain(v, total) <= total
    ensures Share(v, total) == 0 ==> Gain(v, total) < 0
  {
    ShareBounds(v, total);
  }

  /** What rounding adds to the sum of the shares. */
  lemma {:induction false} TotalGain(s: seq<nat>, total: nat)
    requires total > 0
    ensures (2 * total) * Sum(SharesOf(s, total)) - 20000 * Sum(s) == SumOfGains(s, total)
  {
    if s != [] {
      var n := |s| - 1;
      TotalGain(s[..n], total);
      SharesOfInit(s, total);
      Distribute(2 * total, Sum(SharesOf(s[..n], total)), Share(s[n], total));
    }
  }

  function SumOfGains(s: seq<nat>, total: nat): int
    requires total > 0
  {
    if s == [] then 0 else SumOfGains(s[..|s| - 1], total) + Gain(s[|s| - 1], total)
  }

  lemma GainsSnoc(s: seq<nat>, v: nat, total: nat)
    requires total > 0
    ensures SumOfGains(s + [v], total) == SumOfGains(s, total) + Gain(v, total)
  {
    assert (s + [v])[..|s|] == s;
  }

  /** The sum of the shares of a total exceeds 10000 by what rounding adds, in whole steps. */
  lemma Excess(s: seq<nat>) returns (excess: int)
    requires Sum(s) > 0
    ensures Sum(Shares(s)) == 10000 + excess
    ensures SumOfGains(s, Sum(s)) < 2 * Sum(s) ==> excess <= 0
    ensures SumOfGains(s, Sum(s)) < 4 * Sum(s) ==> excess <= 1
    ensures SumOfGains(s, Sum(s)) < 6 * Sum(s) ==> excess <= 2
  {
    var t := Sum(s);
    excess := Sum(Shares(s)) - 10000;
    TotalGain(s, t);
    Distribute(2 * t, excess, 10000);
    Cancel(2 * t, excess, 1);
    Cancel(2 * t, excess, 2);
    Cancel(2 * t, excess, 3);
  }

  /** A share with what rounding adds to it; kept apart from how both are computed. */
  datatype Rounded = Rounded(share: nat, gain: int)

  function RoundedOf(v: nat, total: nat): Rounded
    requires total > 0
  {
    Rounded(Share(v, total), Gain(v, total))
  }

  predicate Bounded(r: Rounded, total: nat) {
    r.gain <= total && (r.share == 0 ==> r.gain < 0)
  }

  lemma TwoStayInRange(a: nat, b: nat)
    requires a > 0 && b > 0
    ensures InRange([a, b])
  {
    var s, t := [a, b], a + b;
    OfTwo(a, b);
    OfTwo(Share(a, t), Share(b, t));
    assert Shares(s) == [Share(a, t), Share(b, t)];
    var excess := Excess(s);
    GainsOfTwo(a, b, t);
    GainBound(a, t);
    GainBound(b, t);
  }

  lemma GainsOfTwo(a: nat, b: nat, t: nat)
    requires t > 0
    ensures SumOfGains([a, b], t) == Gain(a, t) + Gain(b, t)
  {
    GainsSnoc([], a, t);
    GainsSnoc([a], b, t);
    assert [] + [a] == [a] && [a] + [b] == [a, b];
  }

  lemma ThreeKeepEnough(a: Rounded, b: Rounded, c: Rounded, excess: int, t: nat)
    requires t > 0 && Bounded(a, t) && Bounded(b, t) && Bounded(c, t)
    requires var gain := a.gain + b.gain + c.gain;
             (gain < 2 * t ==> excess <= 0) && (gain < 4 * t ==> excess <= 1) && (gain < 6 * t ==> excess <= 2)
    requires a.share + b.share + c.share == 10000 + excess
    ensures b.share + 2 * c.share <= 20000
  {
  }

  lemma ThreeStayInRange(a: nat, b: nat, c: nat)
    requires a > 0 && b > 0 && c > 0
    ensures InRange([a, b, c])
  {
    var s, t := [a, b, c], a + b + c;
    OfThree(a, b, c);
    OfThree(Share(a, t), Share(b, t), Share(c, t));
    assert Shares(s) == [Share(a, t), Share(b, t), Share(c, t)];
    var excess := Excess(s);
    GainsOfThree(a, b, c, t);
    GainBound(a, t);
    GainBound(b, t);
    GainBound(c, t);
    ThreeKeepEnough(RoundedOf(a, t), RoundedOf(b, t), RoundedOf(c, t), excess, t);
  }

  lemma GainsOfThree(a: nat, b: nat, c: nat, t: nat)
    requires t > 0
    ensures SumOfGains([a, b, c], t) == Gain(a, t) + Gain(b, t) + Gain(c, t)
  {
    GainsOfTwo(a, b, t);
    GainsSnoc([a, b], c, t);
    assert [a, b] + [c] == [a, b, c];
  }

  lemma FourKeepEnough(a: Rounded, b: Rounded, c: Rounded, d: Rounded, excess: int, t: nat)
    requires t > 0 && Bounded(a, t) && Bounded(b, t) && Bounded(c, t) && Bounded(d, t)
    requires var gain := a.gain + b.gain + c.gain + d.gain;
             (gain < 2 * t ==> excess <= 0) && (gain < 4 * t ==> excess <= 1) && (gain < 6 * t ==> excess <= 2)
    requires a.share + b.share + c.share + d.share == 10000 + excess
    ensures b.share + 2 * c.share + 3 * d.share <= 30000
  {
  }

  lemma FourStayInRange(a: nat, b: nat, c: nat, d: nat)
    requires a > 0 && b > 0 && c > 0 && d > 0
    ensures InRange([a, b, c, d])
  {
    var s, t := [a, b, c, d], a + b + c + d;
    OfFour(a, b, c, d);
    OfFour(Share(a, t), Share(b, t), Share(c, t), Share(d, t));
    assert Shares(s) == [Share(a, t), Share(b, t), Share(c, t), Share(d, t)];
    var excess := Excess(s);
    GainsOfFour(a, b, c, d, t);
    GainBound(a, t);
    GainBound(b, t);
    GainBound(c, t);
    GainBound(d, t);
    FourKeepEnough(RoundedOf(a, t), RoundedOf(b, t), RoundedOf(c, t), RoundedOf(d, t), excess, t);
  }

  lemma GainsOfFour(a: nat, b: nat, c: nat, d: nat, t: nat)
    requires t > 0
    ensures SumOfGains([a, b, c, d], t) == Gain(a, t) + Gain(b, t) + Gain(c, t) + Gain(d, t)
  {
    GainsOfThree(a, b, c, t);
    GainsSnoc([a, b, c], d, t);
    assert [a, b, c] + [d] == [a, b, c, d];
  }

  /** Up to four criteria the score stays in the range whatever the total: whenever rounding adds
      to the sum of the shares, the lower criteria keep enough of it. */
  lemma FewStayInRange(s: seq<nat>)
    requires s != [] && |s| <= 4 && Positive(s)
    ensures InRange(s)
  {
    match |s| {
      case 1 =>
        assert Shares(s)[..0] == [];
      case 2 =>
        TwoStayInRange(s[0], s[1]);
        assert s == [s[0], s[1]];
      case 3 =>
        ThreeStayInRange(s[0], s[1], s[2]);
        assert s == [s[0], s[1], s[2]];
      case 4 =>
        FourStayInRange(s[0], s[1], s[2], s[3]);
        assert s == [s[0], s[1], s[2], s[3]];
    }
  }

  /** The least weight with a positive share. */
  function LeastCounted(total: nat): nat {
    (total + 19999) / 20000
  }

  lemma ShareIs(v: nat, total: nat, p: nat)
    requires total > 0 && (2 * p - 1) * total <= 20000 * v < (2 * p + 1) * total
    ensures Share(v, total) == p
  {
    ShareBounds(v, total);
    assert (2 * p - 1) * total == (2 * total) * p - total && (2 * p + 1) * total == (2 * total) * p + total;
    Distribute(2 * total, Share(v, total), 1);
    Distribute(2 * total, p, 1);
    Cancel(2 * total, p, Share(v, total) + 1);
    Cancel(2 * total, Share(v, total), p + 1);
  }

  lemma {:induction false} ManySmall(k: nat, v: nat)
    ensures Sum(seq(k, _ => v)) == k * v && (v == 0 ==> Moment(seq(k, _ => v)) == 0)
  {
    var s := seq(k, _ => v);
    if k > 0 {
      ManySmall(k - 1, v);
      assert s[..k - 1] == seq(k - 1, _ => v);
      Distribute(v, k - 1, 1);
    }
  }

  /** Weights that share out a total so that rounding lifts the score over the range. */
  function Lifting(n: nat, total: nat): seq<nat>
    requires n >= 3 && 2 * LeastCounted(total) + n - 3 <= total
  {
    var v := LeastCounted(total);
    Ones(n - 3) + [v, v, total - 2 * v - (n - 3)]
  }

  /** From five criteria on, two lower weights just large enough to count, and otherwise the least
      possible, are rounded up by more than they cost. */
  lemma LiftingLeavesRange(n: nat, total: nat)
    requires n >= 5 && 20000 * (2 * LeastCounted(total) + n - 3) <= 3 * total
    ensures 2 * LeastCounted(total) + n - 3 <= total
    ensures var s := Lifting(n, total); |s| == n && Positive(s) && Sum(s) == total
    ensures Moment(Shares(Lifting(n, total))) == 10000 * (n - 1) + n - 4
  {
    var v := LeastCounted(total);
    assert total > 20000;
    var k, top := n - 3, total - 2 * v - (n - 3);
    var s := Lifting(n, total);
    var ones, zeros := Ones(k), seq<nat>(k, _ => 0);
    ManySmall(k, 1);
    ManySmall(k, 0);
    Snoc3(ones, v, v, top);
    Snoc3(zeros, 1, 1, 9999);
    ShareIs(1, total, 0);
    ShareIs(v, total, 1);
    ShareIs(top, total, 9999);
    assert Shares(s) == zeros + [1, 1, 9999];
  }

  lemma Snoc3(s: seq<nat>, a: nat, b: nat, c: nat)
    ensures Sum(s + [a, b, c]) == Sum(s) + a + b + c
    ensures Moment(s + [a, b, c]) == Moment(s) + |s| * a + (|s| + 1) * b + (|s| + 2) * c
  {
    Snoc(s, a);
    Snoc(s + [a], b);
    Snoc(s + [a] + [b], c);
    assert s + [a] + [b] + [c] == s + [a, b, c];
  }

  /** Some positive weights for n criteria, with this total, score above the last index. */
  ghost predicate Exceeds(n: nat, total: nat) {
    exists s: seq<nat> :: |s| == n && Positive(s) && Sum(s) == total && !InRange(s)
  }

  /** From five criteria on, every total of at least 20000 (n-1) can leave the range. */
  lemma LargeTotalBreaksBound(n: nat, total: nat)
    requires n >= 5 && total >= 20000 * (n - 1)
    ensures Exceeds(n, total)
  {
    LiftingLeavesRange(n, total);
    assert !InRange(Lifting(n, total));
  }

  /** The score stays in the range, whatever the positive weights, exactly for up to four criteria. */
  lemma InRangeExactly(n: nat)
    requires n > 0
    ensures (forall s: seq<nat> | |s| == n && Positive(s) :: InRange(s)) <==> n <= 4
  {
    if n <= 4 {
      forall s: seq<nat> | |s| == n && Positive(s) ensures InRange(s) { FewStayInRange(s); }
    } else {
      LargeTotalBreaksBound(n, 20000 * (n - 1));
    }
  }

  /** With five criteria, the smallest number that can fail, the exact totals at which they can. */
  lemma FiveExceedExactly(total: nat)
    ensures Exceeds(5, total) <==> 20000 * (2 * LeastCounted(total) + 2) <= 3 * total
    ensures Exceeds(5, total) <==> total == 40000 || 53334 <= total <= 60000 || total >= 66667
  {
    if Exceeds(5, total) {
      var s: seq<nat> :| |s| == 5 && Positive(s) && Sum(s) == total && !InRange(s);
      FiveExceeding(s);
    }
    if 20000 * (2 * LeastCounted(total) + 2) <= 3 * total {
      LiftingLeavesRange(5, total);
      assert !InRange(Lifting(5, total));
    }
  }

  lemma FiveExceeding(s: seq<nat>)
    requires |s| == 5 && Positive(s) && !InRange(s)
    ensures 20000 * (2 * LeastCounted(Sum(s)) + 2) <= 3 * Sum(s)
  {
    var a, b, c, d, e := s[0], s[1], s[2], s[3], s[4];
    assert s == [a, b, c, d, e];
    OfFive(a, b, c, d, e);
    FiveMustBeLifted(a, b, c, d, e);
    var shares := [Share(a, Sum(s)), Share(b, Sum(s)), Share(c, Sum(s)), Share(d, Sum(s)), Share(e, Sum(s))];
    assert shares[2] == 1 && shares[3] == 1 && shares[4] == 9999;
    LiftedTotal(a, b, c, d, e, Sum(s));
  }

  lemma LiftedTotal(a: nat, b: nat, c: nat, d: nat, e: nat, t: nat)
    requires a > 0 && b > 0 && t == a + b + c + d + e
    requires Share(c, t) == 1 && Share(d, t) == 1 && Share(e, t) == 9999
    ensures 20000 * (2 * LeastCounted(t) + 2) <= 3 * t
  {
    ShareBounds(c, t);
    ShareBounds(d, t);
    ShareBounds(e, t);
  }

  /** Only the shares 0, 0, 1, 1 and 9999 leave the range. */
  lemma FiveNeedLifting(a: Rounded, b: Rounded, c: Rounded, d: Rounded, e: Rounded, excess: int, t: nat)
    requires t > 0 && Bounded(a, t) && Bounded(b, t) && Bounded(c, t) && Bounded(d, t) && Bounded(e, t)
    requires var gain := a.gain + b.gain + c.gain + d.gain + e.gain;
             (gain < 2 * t ==> excess <= 0) && (gain < 4 * t ==> excess <= 1) && (gain < 6 * t ==> excess <= 2)
    requires a.share + b.share + c.share + d.share + e.share == 10000 + excess
    requires b.share + 2 * c.share + 3 * d.share + 4 * e.share > 40000
    ensures [a.share, b.share, c.share, d.share, e.share] == [0, 0, 1, 1, 9999]
  {
  }

  lemma FiveMustBeLifted(a: nat, b: nat, c: nat, d: nat, e: nat)
    requires a > 0 && b > 0 && c > 0 && d > 0 && e > 0 && !InRange([a, b, c, d, e])
    ensures var t := a + b + c + d + e;
            [Share(a, t), Share(b, t), Share(c, t), Share(d, t), Share(e, t)] == [0, 0, 1, 1, 9999]
  {
    var s, t := [a, b, c, d, e], a + b + c + d + e;
    OfFive(a, b, c, d, e);
    OfFive(Share(a, t), Share(b, t), Share(c, t), Share(d, t), Share(e, t));
    assert Shares(s) == [Share(a, t), Share(b, t), Share(c, t), Share(d, t), Share(e, t)];
    var excess := Excess(s);
    GainsOfFour(a, b, c, d, t);
    GainsSnoc([a, b, c, d], e, t);
    assert [a, b, c, d] + [e] == s;
    GainBound(a, t);
    GainBound(b, t);
    GainBound(c, t);
    GainBound(d, t);
    GainBound(e, t);
    FiveNeedLifting(RoundedOf(a, t), RoundedOf(b, t), RoundedOf(c, t), RoundedOf(d, t), RoundedOf(e, t), excess, t);
  }
}
