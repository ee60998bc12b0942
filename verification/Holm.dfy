/**
 Holm's step-down adjustment over exact reals: the loop, the procedure it stands
 for, and the family-wise guarantee it is used for.
 */
module Holm {
  import opened Prelude
  import opened Sums

  /** A known p-value and the comparison it belongs to. */
  datatype Known = Known(p: real, index: nat)

  predicate Before(a: Known, b: Known) {
    a.p < b.p || (a.p == b.p && a.index < b.index)
  }

  function Insert(x: Known, s: seq<Known>): (r: seq<Known>)
    ensures |r| == |s| + 1
  {
    if s == [] || Before(x, s[0]) then [x] + s else [s[0]] + Insert(x, s[1..])
  }

  /** The known values among the first `n`, sorted by value and then by index. */
  function Ranked(ps: seq<Option<real>>, n: nat): seq<Known>
    requires n <= |ps|
  {
    if n == 0 then []
    else if ps[n - 1].None? then Ranked(ps, n - 1)
    else Insert(Known(ps[n - 1].value, n - 1), Ranked(ps, n - 1))
  }

  predicate InOrder(s: seq<Known>) {
    forall i, j | 0 <= i < j < |s| :: Before(s[i], s[j])
  }

  lemma {:induction false} InsertFacts(x: Known, s: seq<Known>)
    requires InOrder(s) && forall e <- s :: e.index != x.index
    ensures InOrder(Insert(x, s))
    ensures forall e :: e in Insert(x, s) <==> e == x || e in s
  {
    if s != [] && !Before(x, s[0]) {
      assert s[0] in s && s == [s[0]] + s[1..];
      InsertFacts(x, s[1..]);
      var rest := Insert(x, s[1..]);
      forall i | 0 <= i < |rest|
        ensures Before(s[0], rest[i])
      {
        assert rest[i] in rest;
        assert rest[i] == x || rest[i] in s[1..];
      }
    }
  }

  /** The ranking holds each known value once, in strict order. */
  lemma {:induction false} RankedFacts(ps: seq<Option<real>>, n: nat)
    requires n <= |ps|
    ensures InOrder(Ranked(ps, n))
    ensures forall e :: e in Ranked(ps, n) <==> e.index < n && ps[e.index] == Some(e.p)
  {
    hide Insert, InOrder;
    if n == 0 {
      NoneRanked();
    } else {
      RankedFacts(ps, n - 1);
      if ps[n - 1].Some? {
        var last := Known(ps[n - 1].value, n - 1);
        InsertFacts(last, Ranked(ps, n - 1));
      }
    }
  }

  lemma NoneRanked()
    ensures InOrder([])
  {
  }

  lemma RanksDistinct(ps: seq<Option<real>>, n: nat, i: nat, j: nat)
    requires n <= |ps| && i < |Ranked(ps, n)| && j < |Ranked(ps, n)|
    requires Ranked(ps, n)[i].index == Ranked(ps, n)[j].index
    ensures i == j
  {
    RankedFacts(ps, n);
    var s := Ranked(ps, n);
    assert s[i] in s && s[j] in s;
    assert s[i] == s[j];
  }

  function Max(a: real, b: real): real { if a >= b then a else b }

  function Min(a: real, b: real): real { if a <= b then a else b }

  /** The multiplied p-value of rank `k`, capped at 1. */
  function Scaled(s: seq<Known>, k: nat): real
    requires k < |s|
  {
    Min(1.0, (|s| - k) as real * s[k].p)
  }

  /** The largest scaled value among the first `k` ranks. */
  function Running(s: seq<Known>, k: nat): real
    requires k <= |s|
  {
    if k == 0 then 0.0 else Max(Running(s, k - 1), Scaled(s, k - 1))
  }

  /** The value given to rank `k`. */
  function AtRank(s: seq<Known>, k: nat): real
    requires k < |s|
  {
    Running(s, k + 1)
  }

  /** Rank by rank, the adjusted values of the comparisons ranked. */
  predicate AdjustedTo(s: seq<Known>, n: nat, adjusted: seq<Option<real>>)
    requires n <= |s|
  {
    forall k | 0 <= k < n :: s[k].index < |adjusted| && adjusted[s[k].index] == Some(AtRank(s, k))
  }

  predicate IsAdjusted(ps: seq<Option<real>>, adjusted: seq<Option<real>>) {
    && |adjusted| == |ps|
    && (forall i | 0 <= i < |ps| :: adjusted[i].None? <==> ps[i].None?)
    && AdjustedTo(Ranked(ps, |ps|), |Ranked(ps, |ps|)|, adjusted)
  }

  method Adjust(ps: seq<Option<real>>) returns (adjusted: seq<Option<real>>)
    ensures IsAdjusted(ps, adjusted)
  {
    hide Ranked, Scaled;
    var known := Ranked(ps, |ps|);
    RankedFacts(ps, |ps|);
    adjusted := seq(|ps|, _ => None);
    var running := 0.0;
    for rank := 0 to |known|
      invariant |adjusted| == |ps| && running == Running(known, rank)
      invariant AdjustedTo(known, rank, adjusted)
      invariant forall i | 0 <= i < |ps| :: adjusted[i].Some? ==> ps[i].Some?
    {
      assert known[rank] in known;
      forall k | 0 <= k < rank
        ensures known[k].index != known[rank].index
      {
        if known[k].index == known[rank].index {
          RanksDistinct(ps, |ps|, k, rank);
        }
      }
      running := Max(running, Scaled(known, rank));
      adjusted := adjusted[known[rank].index := Some(running)];
    }
    forall i | 0 <= i < |ps| && ps[i].Some?
      ensures adjusted[i].Some?
    {
      assert Known(ps[i].value, i) in known;
    }
  }

  // ---------------------------------------------------------- what the values mean

  /** Holm's procedure at level alpha: the number rejected before the first that is not. */
  function StepDown(s: seq<Known>, alpha: real, k: nat): (r: nat)
    requires k <= |s|
    ensures k <= r <= |s|
    decreases |s| - k
  {
    if k < |s| && s[k].p <= alpha / (|s| - k) as real then StepDown(s, alpha, k + 1) else k
  }

  lemma Threshold(s: seq<Known>, k: nat, alpha: real)
    requires k < |s| && 0.0 <= alpha < 1.0
    ensures s[k].p <= alpha / (|s| - k) as real <==> Scaled(s, k) <= alpha
  {
    var d := (|s| - k) as real;
    ScaleOrder(s[k].p, alpha / d, d);
    assert alpha / d * d == alpha;
  }

  lemma {:induction false} RunningGrows(s: seq<Known>, i: nat, j: nat)
    requires i <= j <= |s|
    ensures Running(s, i) <= Running(s, j)
    decreases j
  {
    if i < j {
      RunningGrows(s, i, j - 1);
    }
  }

  lemma {:induction false} StepDownExactly(s: seq<Known>, alpha: real, k: nat)
    requires k <= |s| && 0.0 <= alpha < 1.0 && Running(s, k) <= alpha
    ensures forall j | k <= j < |s| :: AtRank(s, j) <= alpha <==> j < StepDown(s, alpha, k)
    decreases |s| - k
  {
    hide Scaled;
    if k < |s| {
      Threshold(s, k, alpha);
      var next := StepDown(s, alpha, k + 1);
      if Scaled(s, k) <= alpha {
        StepDownExactly(s, alpha, k + 1);
      } else {
        forall j | k <= j < |s|
          ensures AtRank(s, j) > alpha
        {
          RunningGrows(s, k + 1, j + 1);
        }
      }
    }
  }

  /** The comparisons Holm's procedure rejects at level alpha. */
  function Rejected(ps: seq<Option<real>>, alpha: real): set<nat> {
    var s := Ranked(ps, |ps|);
    set k | 0 <= k < StepDown(s, alpha, 0) :: s[k].index
  }

  predicate Significant(adjusted: seq<Option<real>>, i: nat, alpha: real) {
    i < |adjusted| && adjusted[i].Some? && adjusted[i].value <= alpha
  }

  lemma RankOf(ps: seq<Option<real>>, adjusted: seq<Option<real>>, i: nat) returns (k: nat)
    requires IsAdjusted(ps, adjusted) && i < |ps| && ps[i].Some?
    ensures var s := Ranked(ps, |ps|);
      k < |s| && s[k] == Known(ps[i].value, i) && adjusted[i] == Some(AtRank(s, k))
  {
    hide Ranked, AtRank;
    var s := Ranked(ps, |ps|);
    RankedFacts(ps, |ps|);
    assert Known(ps[i].value, i) in s;
    k :| 0 <= k < |s| && s[k] == Known(ps[i].value, i);
  }

  /** At every level below 1, the adjusted values reject exactly what the procedure rejects. */
  lemma AdjustedIsStepDown(ps: seq<Option<real>>, adjusted: seq<Option<real>>, alpha: real, i: nat)
    requires IsAdjusted(ps, adjusted) && 0.0 <= alpha < 1.0
    ensures Significant(adjusted, i, alpha) <==> i in Rejected(ps, alpha)
  {
    var s := Ranked(ps, |ps|);
    StepDownExactly(s, alpha, 0);
    RankedFacts(ps, |ps|);
    hide Ranked, AtRank, StepDown;
    if i < |ps| && ps[i].Some? {
      var k := RankOf(ps, adjusted, i);
      forall j | 0 <= j < |s| && s[j].index == i
        ensures j == k
      {
        RanksDistinct(ps, |ps|, j, k);
      }
    } else {
      forall j | 0 <= j < |s|
        ensures s[j].index != i
      {
        assert s[j] in s;
      }
    }
  }

  lemma {:induction false} RunningInRange(s: seq<Known>, k: nat)
    requires k <= |s|
    ensures 0.0 <= Running(s, k) <= 1.0
  {
    if k > 0 {
      RunningInRange(s, k - 1);
    }
  }

  /** An adjusted value is a p-value again: with the levels below 1 it rejects at, that fixes it. */
  lemma AdjustedInRange(ps: seq<Option<real>>, adjusted: seq<Option<real>>, i: nat)
    requires IsAdjusted(ps, adjusted) && i < |ps|
    ensures adjusted[i].Some? <==> ps[i].Some?
    ensures adjusted[i].Some? ==> 0.0 <= adjusted[i].value <= 1.0
  {
    hide Ranked;
    if ps[i].Some? {
      var k := RankOf(ps, adjusted, i);
      RunningInRange(Ranked(ps, |ps|), k + 1);
    }
  }

  predicate AllExceed(ps: seq<Option<real>>, nulls: set<nat>, level: real) {
    forall i <- nulls :: i < |ps| && ps[i].Some? && ps[i].value > level
  }

  lemma {:induction false} FirstRank(s: seq<Known>, nulls: set<nat>, k: nat) returns (r: nat)
    requires k < |s| && s[k].index in nulls
    ensures r <= k && s[r].index in nulls && forall j | 0 <= j < r :: s[j].index !in nulls
  {
    if exists j :: 0 <= j < k && s[j].index in nulls {
      var j :| 0 <= j < k && s[j].index in nulls;
      r := FirstRank(s, nulls, j);
    } else {
      r := k;
    }
  }

  /** Comparisons that all rank at `r` or later number at most `m - r`. */
  lemma {:induction false} AtMost(s: seq<Known>, nulls: set<nat>, r: nat)
    requires r <= |s| && forall i <- nulls :: exists j :: r <= j < |s| && s[j].index == i
    ensures |nulls| <= |s| - r
    decreases |s| - r
  {
    if r == |s| {
      assert nulls == {};
    } else {
      var rest := nulls - {s[r].index};
      forall i | i in rest
        ensures exists j :: r + 1 <= j < |s| && s[j].index == i
      {
        var j :| r <= j < |s| && s[j].index == i;
      }
      AtMost(s, rest, r + 1);
      assert nulls <= rest + {s[r].index};
      assert |nulls| <= |rest| + 1;
    }
  }

  lemma LargeProduct(s: seq<Known>, r: nat, alpha: real, few: nat)
    requires r < |s| && 0 < few <= |s| - r && 0.0 <= alpha < 1.0 && s[r].p > alpha / few as real
    ensures Scaled(s, r) > alpha
  {
    var d, p := few as real, s[r].p;
    assert alpha / d * d == alpha && alpha / d >= 0.0;
    assert (p - alpha / d) * d > 0.0;
    assert ((|s| - r) as real - d) * p >= 0.0;
  }

  /** The true null that ranks first still has all of them at its rank or later. */
  lemma FirstNull(ps: seq<Option<real>>, adjusted: seq<Option<real>>, nulls: set<nat>, level: real, i: nat)
    returns (r: nat, k: nat)
    requires IsAdjusted(ps, adjusted) && i in nulls && AllExceed(ps, nulls, level)
    ensures var s := Ranked(ps, |ps|);
      r <= k < |s| && adjusted[i] == Some(AtRank(s, k)) && s[r].p > level && |nulls| <= |s| - r
  {
    hide Ranked, AtRank;
    var s := Ranked(ps, |ps|);
    RankedFacts(ps, |ps|);
    k := RankOf(ps, adjusted, i);
    r := FirstRank(s, nulls, k);
    forall n | n in nulls
      ensures exists j :: r <= j < |s| && s[j].index == n
    {
      var j := RankOf(ps, adjusted, n);
    }
    AtMost(s, nulls, r);
    assert s[r] in s;
  }

  /**
   The guarantee: if the k true null hypotheses all have p-values above alpha / k, the
   adjustment rejects none of them at level alpha.
   */
  lemma NoTrueNullRejected(ps: seq<Option<real>>, adjusted: seq<Option<real>>, nulls: set<nat>, alpha: real, i: nat)
    requires IsAdjusted(ps, adjusted) && 0.0 <= alpha < 1.0
    requires i in nulls && AllExceed(ps, nulls, alpha / |nulls| as real)
    ensures adjusted[i].Some? && !Significant(adjusted, i, alpha)
  {
    hide Ranked, Scaled, IsAdjusted;
    var s := Ranked(ps, |ps|);
    var r, k := FirstNull(ps, adjusted, nulls, alpha / |nulls| as real, i);
    LargeProduct(s, r, alpha, |nulls|);
    RunningGrows(s, r + 1, k + 1);
  }

  // -------------------------------------------------------------- the closed test

  /** Bonferroni's test at level alpha does not reject that all of these are true nulls. */
  predicate Survives(ps: seq<Option<real>>, nulls: set<nat>, alpha: real) {
    nulls != {} && AllExceed(ps, nulls, alpha / |nulls| as real)
  }

  lemma {:induction false} StepDownStops(s: seq<Known>, alpha: real, k: nat)
    requires k <= |s|
    ensures var r := StepDown(s, alpha, k); r < |s| ==> s[r].p > alpha / (|s| - r) as real
    decreases |s| - k
  {
    if k < |s| && s[k].p <= alpha / (|s| - k) as real {
      StepDownStops(s, alpha, k + 1);
    }
  }

  /** The comparisons that rank at `r` or later. */
  function RankedFrom(s: seq<Known>, r: nat): set<nat> {
    set k | r <= k < |s| :: s[k].index
  }

  lemma {:induction false} RankedFromSize(ps: seq<Option<real>>, r: nat)
    requires r <= |Ranked(ps, |ps|)|
    ensures |RankedFrom(Ranked(ps, |ps|), r)| == |Ranked(ps, |ps|)| - r
    decreases |Ranked(ps, |ps|)| - r
  {
    hide Ranked;
    var s := Ranked(ps, |ps|);
    if r < |s| {
      RankedFromSize(ps, r + 1);
      forall k | r + 1 <= k < |s|
        ensures s[k].index != s[r].index
      {
        if s[k].index == s[r].index {
          RanksDistinct(ps, |ps|, k, r);
        }
      }
      assert RankedFrom(s, r) == RankedFrom(s, r + 1) + {s[r].index};
    } else {
      assert RankedFrom(s, r) == {};
    }
  }

  /** Everything from the first comparison not rejected survives Bonferroni's test together. */
  lemma LaterRanksSurvive(ps: seq<Option<real>>, alpha: real)
    requires var s := Ranked(ps, |ps|); StepDown(s, alpha, 0) < |s|
    ensures var s := Ranked(ps, |ps|); Survives(ps, RankedFrom(s, StepDown(s, alpha, 0)), alpha)
  {
    hide Ranked, StepDown;
    var s := Ranked(ps, |ps|);
    var r := StepDown(s, alpha, 0);
    var nulls := RankedFrom(s, r);
    StepDownStops(s, alpha, 0);
    RankedFromSize(ps, r);
    RankedFacts(ps, |ps|);
    forall i | i in nulls
      ensures i < |ps| && ps[i].Some? && ps[i].value > alpha / |nulls| as real
    {
      var k :| r <= k < |s| && s[k].index == i;
      assert s[k] in s;
    }
  }

  /**
   Holm's procedure is the closed Bonferroni test: a comparison is adjusted to alpha or
   less exactly if every set of comparisons that contains it is rejected by that test.
   */
  lemma AdjustedIsClosedTest(ps: seq<Option<real>>, adjusted: seq<Option<real>>, alpha: real, i: nat)
    requires IsAdjusted(ps, adjusted) && 0.0 <= alpha < 1.0 && i < |ps| && ps[i].Some?
    ensures Significant(adjusted, i, alpha) <==> forall nulls | i in nulls :: !Survives(ps, nulls, alpha)
  {
    forall nulls | i in nulls && Survives(ps, nulls, alpha)
      ensures !Significant(adjusted, i, alpha)
    {
      NoTrueNullRejected(ps, adjusted, nulls, alpha, i);
    }
    if !Significant(adjusted, i, alpha) {
      NotRejectedSurvives(ps, adjusted, alpha, i);
    }
  }

  lemma NotRejectedSurvives(ps: seq<Option<real>>, adjusted: seq<Option<real>>, alpha: real, i: nat)
    requires IsAdjusted(ps, adjusted) && 0.0 <= alpha < 1.0 && i < |ps| && ps[i].Some?
    requires !Significant(adjusted, i, alpha)
    ensures exists nulls :: i in nulls && Survives(ps, nulls, alpha)
  {
    hide Ranked, StepDown, AtRank, Survives;
    var s := Ranked(ps, |ps|);
    var k := RankOf(ps, adjusted, i);
    StepDownExactly(s, alpha, 0);
    LaterRanksSurvive(ps, alpha);
    assert i in RankedFrom(s, StepDown(s, alpha, 0));
  }
}
