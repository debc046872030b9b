/** Probabilities of the mock decision maker: they are rounded to four places, so they are modelled
    as whole ten-thousandths of exact rationals. What rounding does to their sum and to a choice. */
module MockShares {

  /** `(v / total).toFixed(4)` in ten-thousandths: rounded to nearest, ties to the larger. */
  function Share(v: nat, total: nat): nat
    requires total > 0
  {
    (20000 * v + total) / (2 * total)
  }

  function Abs(x: int): nat { if x < 0 then -x else x }

  // ----- products of two variables, one step at a time -----

  lemma Distribute(t: int, a: int, b: int)
    ensures t * (a + b) == t * a + t * b
  {
  }

  lemma Cancel(t: int, a: int, b: int)
    requires t > 0
    ensures t * a < t * b <==> a < b
  {
    Distribute(t, a, b - a);
    Distribute(t, b, a - b);
    if a < b { assert t * (b - a) > 0; } else { assert t * (a - b) >= 0; }
  }

  lemma ShareBounds(v: nat, total: nat)
    requires total > 0
    ensures 20000 * v - total < (2 * total) * Share(v, total) <= 20000 * v + total
  {
    var a, b := 20000 * v + total, 2 * total;
    assert a == b * (a / b) + a % b;
  }

  /** ECMA-262, section 21.1.3.3: the share is the integer n for which n/10000 - v/total is as close
      to zero as possible, and the larger of two such. */
  lemma ShareIsNearest(v: nat, total: nat, n: int)
    requires total > 0
    ensures var p := Share(v, total);
            && Abs(total * p - 10000 * v) <= Abs(total * n - 10000 * v)
            && (Abs(total * p - 10000 * v) == Abs(total * n - 10000 * v) ==> n <= p)
  {
    ShareBounds(v, total);
    var p: int := Share(v, total);
    var d := total * p - 10000 * v;
    assert (2 * total) * p == 2 * (total * p);
    Distribute(total, p, n - p);
    if n >= p + 1 {
      Cancel(total, 0, n - p);
      Distribute(total, n - p - 1, 1);
      Cancel(total, -1, n - p - 1);
    } else if n <= p - 1 {
      Distribute(total, n - p + 1, -1);
      Cancel(total, n - p + 1, 1);
    }
  }

  /** A larger score never gets a smaller share; with a total of at most 10000 it gets a larger one. */
  lemma ShareOrder(v: nat, w: nat, total: nat)
    requires total > 0 && v < w
    ensures Share(v, total) <= Share(w, total)
    ensures total <= 10000 ==> Share(v, total) < Share(w, total)
  {
    ShareBounds(v, total);
    ShareBounds(w, total);
    Distribute(2 * total, Share(w, total), 1);
    Cancel(2 * total, Share(v, total), Share(w, total) + 1);
    Cancel(2 * total, Share(v, total), Share(w, total));
  }

  /** Scores with equal shares differ by less than a ten-thousandth of the total. */
  lemma EqualShares(v: nat, w: nat, total: nat)
    requires total > 0 && Share(w, total) <= Share(v, total)
    ensures 10000 * (w as int - v as int) < total
  {
    ShareBounds(v, total);
    ShareBounds(w, total);
    Cancel(2 * total, Share(v, total), Share(w, total));
  }

  function Sum(s: seq<nat>): nat {
    if s == [] then 0 else Sum(s[..|s| - 1]) + s[|s| - 1]
  }

  /** The index-weighted sum. */
  function Moment(s: seq<nat>): nat {
    if s == [] then 0 else Moment(s[..|s| - 1]) + (|s| - 1) * s[|s| - 1]
  }

  /** The total the shares are taken of; an empty or all-zero list divides by one. */
  function Total(s: seq<nat>): (t: nat)
    ensures t > 0
  {
    if Sum(s) == 0 then 1 else Sum(s)
  }

  function SharesOf(s: seq<nat>, total: nat): seq<nat>
    requires total > 0
  {
    seq(|s|, i requires 0 <= i < |s| => Share(s[i], total))
  }

  function Shares(s: seq<nat>): seq<nat> {
    SharesOf(s, Total(s))
  }

  lemma SharesOfInit(s: seq<nat>, total: nat)
    requires total > 0 && s != []
    ensures SharesOf(s, total)[..|s| - 1] == SharesOf(s[..|s| - 1], total)
    ensures SharesOf(s, total)[|s| - 1] == Share(s[|s| - 1], total)
  {
  }

  // ----- rounded shares nearly sum to one -----

  lemma {:induction false} ShareSumBound(s: seq<nat>, total: nat)
    requires total > 0
    ensures -(total * |s|) <= (2 * total) * Sum(SharesOf(s, total)) - 20000 * Sum(s) <= total * |s|
  {
    if s != [] {
      var n := |s| - 1;
      var p := SharesOf(s, total);
      ShareSumBound(s[..n], total);
      SharesOfInit(s, total);
      ShareBounds(s[n], total);
      Distribute(2 * total, Sum(p[..n]), p[n]);
      Distribute(total, n, 1);
    }
  }

  /** The rounded probabilities of n options sum to one up to n half ten-thousandths. */
  lemma SharesNearlySumToOne(s: seq<nat>)
    requires Sum(s) > 0
    ensures -|s| <= 2 * (Sum(Shares(s)) - 10000) <= |s|
  {
    ShareSumBound(s, Sum(s));
    DivideByTotal(Sum(s), Sum(Shares(s)), |s|);
  }

  lemma DivideByTotal(t: int, m: int, n: int)
    requires t > 0 && -(t * n) <= (2 * t) * m - 20000 * t <= t * n
    ensures -n <= 2 * (m - 10000) <= n
  {
    var d := 2 * m - 20000;
    assert t * d == (2 * t) * m - 20000 * t;
    assert t * -n == -(t * n);
    Cancel(t, n, d);
    Cancel(t, d, -n);
  }

  // ----- the choice -----

  ghost predicate IsFirstMax(s: seq<nat>, i: nat) {
    i < |s| && (forall j | 0 <= j < |s| :: s[j] <= s[i]) && (forall j | 0 <= j < i :: s[j] < s[i])
  }

  /** A stable descending sort of the options begins with the first largest share. */
  lemma StableSortHead(s: seq<nat>, order: seq<nat>)
    requires forall i | 0 <= i < |s| :: i in order
    requires forall k | 0 <= k < |order| :: order[k] < |s|
    requires forall a, b | 0 <= a < b < |order| ::
               s[order[a]] > s[order[b]] || (s[order[a]] == s[order[b]] && order[a] < order[b])
    requires order != []
    ensures IsFirstMax(s, order[0])
  {
    forall j | 0 <= j < |s| ensures s[j] <= s[order[0]] && (j < order[0] ==> s[j] < s[order[0]]) {
      assert j in order;
      var b :| 0 <= b < |order| && order[b] == j;
    }
  }

  /** With a total of at most 10000, rounding does not change which option comes first. */
  lemma ChoiceIsFirstRawMax(s: seq<nat>, i: nat)
    requires i < |s| && Sum(s) <= 10000
    ensures IsFirstMax(Shares(s), i) <==> IsFirstMax(s, i)
  {
    var t, p := Total(s), Shares(s);
    forall j | 0 <= j < |s| ensures (s[j] < s[i] <==> p[j] < p[i]) && (s[j] <= s[i] <==> p[j] <= p[i]) {
      if s[j] < s[i] { ShareOrder(s[j], s[i], t); }
      if s[i] < s[j] { ShareOrder(s[i], s[j], t); }
    }
    assert |p| == |s|;
  }

  /** For any total, the chosen raw score is within a ten-thousandth of the total of every other. */
  lemma ChoiceIsNearMax(s: seq<nat>, i: nat, j: nat)
    requires IsFirstMax(Shares(s), i) && j < |s|
    ensures 10000 * (s[j] as int - s[i] as int) < Total(s)
  {
    assert Shares(s)[j] <= Shares(s)[i];
    EqualShares(s[i], s[j], Total(s));
  }

  lemma Snoc(s: seq<nat>, v: nat)
    ensures Sum(s + [v]) == Sum(s) + v && Moment(s + [v]) == Moment(s) + |s| * v
  {
    assert (s + [v])[..|s|] == s;
  }

  lemma OfTwo(a: nat, b: nat)
    ensures Sum([a, b]) == a + b && Moment([a, b]) == b
  {
    Snoc([], a);
    Snoc([a], b);
    assert [] + [a] == [a] && [a] + [b] == [a, b];
  }

  // ----- 10000 is the last safe total -----

  lemma HalfShare(v: nat, t: nat)
    requires t > 10000 && (2 * v == t || 2 * v == t + 1)
    ensures Share(v, t) == 5000
  {
    ShareBounds(v, t);
    assert (2 * t) * 4999 == 9998 * t && (2 * t) * 5001 == 10002 * t;
    Cancel(2 * t, 4999, Share(v, t));
    Cancel(2 * t, Share(v, t), 5001);
  }

  lemma UnitShare(t: nat)
    requires t > 10000
    ensures Share(1, t) == if t <= 20000 then 1 else 0
  {
  }

  /** If the share grows by less than the score over a stretch, it stands still somewhere in it. */
  lemma {:induction false} FlatStep(t: nat, a: nat, b: nat) returns (x: nat)
    requires t > 0 && a < b && Share(b, t) - Share(a, t) < b - a
    ensures a <= x < b && Share(x + 1, t) <= Share(x, t)
  {
    if Share(b, t) <= Share(b - 1, t) {
      x := b - 1;
    } else {
      x := FlatStep(t, a, b - 1);
    }
  }

  function Ones(k: nat): seq<nat> {
    seq(k, _ => 1)
  }

  lemma {:induction false} SumWithOnes(s: seq<nat>, k: nat)
    ensures Sum(s + Ones(k)) == Sum(s) + k
  {
    if k == 0 {
      assert s + Ones(0) == s;
    } else {
      SumWithOnes(s, k - 1);
      assert (s + Ones(k))[..|s + Ones(k)| - 1] == s + Ones(k - 1);
    }
  }

  /** Some options, each with a positive score, have this total, and the option chosen by rounded
      share is not the first with the largest score. */
  ghost predicate Misleads(s: seq<nat>, total: nat) {
    && (forall i | 0 <= i < |s| :: s[i] >= 1) && Sum(s) == total
    && exists i: nat :: IsFirstMax(Shares(s), i) && !IsFirstMax(s, i)
  }

  lemma MisleadingScores(total: nat) returns (s: seq<nat>)
    requires total > 10000
    ensures Misleads(s, total)
  {
    var h := (total + 1) / 2;
    HalfShare(h, total);
    UnitShare(total);
    var x := FlatStep(total, 1, h);
    var rest := total - 2 * x - 1;
    s := [x, x + 1] + Ones(rest);
    SumWithOnes([x, x + 1], rest);
    OfTwo(x, x + 1);
    MisledBy(x, rest, total);
  }

  /** The share of x is not below that of x + 1, so the first option keeps the lead. */
  lemma MisledBy(x: nat, rest: nat, total: nat)
    requires x > 0 && Sum([x, x + 1] + Ones(rest)) == total > 0 && Share(x + 1, total) <= Share(x, total)
    ensures Misleads([x, x + 1] + Ones(rest), total)
  {
    var s := [x, x + 1] + Ones(rest);
    if x > 1 { ShareOrder(1, x, total); }
    assert forall j | 2 <= j < |s| :: s[j] == 1;
    assert IsFirstMax(Shares(s), 0);
    assert s[0] < s[1];
  }

  /** Rounding never misleads the choice exactly for totals of at most 10000. */
  lemma RoundingIsSafeExactly(total: nat)
    ensures (forall s: seq<nat> :: !Misleads(s, total)) <==> total <= 10000
  {
    if total <= 10000 {
      forall s: seq<nat> ensures !Misleads(s, total) {
        if Sum(s) == total {
          forall i: nat | IsFirstMax(Shares(s), i) ensures IsFirstMax(s, i) {
            ChoiceIsFirstRawMax(s, i);
          }
        }
      }
    } else {
      var s := MisleadingScores(total);
    }
  }
}
