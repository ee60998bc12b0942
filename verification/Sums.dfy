/** Finite sums of real sequences, and the algebra that the statistics rest on. */
module Sums {

  type Reals = seq<real>

  function Dot(a: Reals, b: Reals): real
    requires |a| == |b|
  {
    if a == [] then 0.0 else a[0] * b[0] + Dot(a[1..], b[1..])
  }

  /** A product that proofs can treat as a symbol. */
  function Times(x: real, y: real): real {
    x * y
  }

  function Square(x: real): real {
    Times(x, x)
  }

  function Ones(n: nat): (s: Reals)
    ensures |s| == n
  {
    seq(n, _ => 1.0)
  }

  function Sum(s: Reals): real {
    Dot(s, Ones(|s|))
  }

  function Mean(s: Reals): real
    requires s != []
  {
    Sum(s) / |s| as real
  }

  /** a + c b, term by term. */
  function Plus(a: Reals, c: real, b: Reals): (s: Reals)
    requires |a| == |b|
    ensures |s| == |a|
  {
    seq(|a|, i requires 0 <= i < |a| => a[i] + c * b[i])
  }

  /** s with c subtracted from every term. */
  function Centred(s: Reals, c: real): (r: Reals)
    ensures |r| == |s|
  {
    Plus(s, -c, Ones(|s|))
  }

  /** The sum of squared distances from c. */
  function SquaresAbout(s: Reals, c: real): real {
    Dot(Centred(s, c), Centred(s, c))
  }

  lemma {:induction false} DotPlus(a: Reals, c: real, b: Reals, w: Reals)
    requires |a| == |b| == |w|
    ensures Dot(Plus(a, c, b), w) == Dot(a, w) + Times(c, Dot(b, w))
  {
    if a == [] {
      assert Times(c, Dot(b, w)) == 0.0;
    } else {
      DotPlus(a[1..], c, b[1..], w[1..]);
      PlusTail(a, c, b);
      hide Plus;
      Distribute(a[0], c, b[0], w[0], Dot(b[1..], w[1..]));
    }
  }

  lemma PlusTail(a: Reals, c: real, b: Reals)
    requires |a| == |b| > 0
    ensures Plus(a, c, b)[0] == a[0] + c * b[0] && Plus(a, c, b)[1..] == Plus(a[1..], c, b[1..])
  {
    hide Dot;
    var p, q := Plus(a, c, b), Plus(a[1..], c, b[1..]);
    forall i | 0 <= i < |q|
      ensures p[1..][i] == q[i]
    {
      assert a[1..][i] == a[i + 1] && b[1..][i] == b[i + 1];
    }
  }

  lemma Distribute(a: real, c: real, b: real, w: real, rest: real)
    ensures (a + c * b) * w == a * w + c * (b * w)
    ensures Times(c, b * w + rest) == c * (b * w) + Times(c, rest)
  {
  }

  lemma {:induction false} DotCommutes(a: Reals, b: Reals)
    requires |a| == |b|
    ensures Dot(a, b) == Dot(b, a)
  {
    if a != [] {
      DotCommutes(a[1..], b[1..]);
    }
  }

  lemma {:induction false} DotNonNegative(a: Reals)
    ensures Dot(a, a) >= 0.0
    ensures forall i | 0 <= i < |a| :: Dot(a, a) >= a[i] * a[i]
  {
    if a != [] {
      DotNonNegative(a[1..]);
      assert a[0] * a[0] >= 0.0;
      forall i | 0 <= i < |a|
        ensures Dot(a, a) >= a[i] * a[i]
      {
        if i > 0 {
          assert a[i] == a[1..][i - 1];
        }
      }
    }
  }

  lemma {:induction false} SumOfOnes(n: nat)
    ensures Dot(Ones(n), Ones(n)) == n as real
  {
    if n > 0 {
      assert Ones(n)[1..] == Ones(n - 1);
      SumOfOnes(n - 1);
    }
  }

  lemma {:induction false} SumAppend(a: Reals, b: Reals)
    ensures Sum(a + b) == Sum(a) + Sum(b)
  {
    if a == [] {
      assert a + b == b;
    } else {
      SumAppend(a[1..], b);
      assert (a + b)[1..] == a[1..] + b;
      assert Ones(|a|)[1..] == Ones(|a| - 1) && Ones(|a + b|)[1..] == Ones(|a + b| - 1);
    }
  }

  lemma {:induction false} DotAppend(a: Reals, b: Reals, c: Reals, d: Reals)
    requires |a| == |c| && |b| == |d|
    ensures Dot(a + b, c + d) == Dot(a, c) + Dot(b, d)
  {
    if a == [] {
      assert a + b == b && c + d == d;
    } else {
      DotAppend(a[1..], b, c[1..], d);
      assert (a + b)[1..] == a[1..] + b && (c + d)[1..] == c[1..] + d;
    }
  }

  /** Deviations from the mean sum to zero. */
  lemma CentredSum(s: Reals)
    requires s != []
    ensures Sum(Centred(s, Mean(s))) == 0.0
  {
    DotPlus(s, -Mean(s), Ones(|s|), Ones(|s|));
    SumOfOnes(|s|);
    MeanTimesCount(Sum(s), |s| as real);
  }

  lemma MeanTimesCount(sum: real, n: real)
    requires n > 0.0
    ensures Times(-(sum / n), n) == -sum
  {
  }

  lemma PlusDot(a: Reals, c: real, b: Reals, w: Reals)
    requires |a| == |b| == |w|
    ensures Dot(w, Plus(a, c, b)) == Dot(w, a) + Times(c, Dot(w, b))
  {
    hide Dot, Plus, Times;
    DotCommutes(w, Plus(a, c, b));
    DotCommutes(w, a);
    DotCommutes(w, b);
    DotPlus(a, c, b, w);
  }

  /** |a + c b|^2 */
  lemma SquarePlus(a: Reals, c: real, b: Reals)
    requires |a| == |b|
    ensures Dot(Plus(a, c, b), Plus(a, c, b)) == Dot(a, a) + 2.0 * Times(c, Dot(a, b)) + Times(Square(c), Dot(b, b))
  {
    hide Dot, Plus, Times, Square;
    var p := Plus(a, c, b);
    DotPlus(a, c, b, p);
    PlusDot(a, c, b, a);
    PlusDot(a, c, b, b);
    DotCommutes(a, b);
    Expand(c, Dot(b, p), Dot(a, b), Dot(b, b));
  }

  lemma Expand(c: real, bp: real, ab: real, bb: real)
    requires bp == ab + Times(c, bb)
    ensures Times(c, bp) == Times(c, ab) + Times(Square(c), bb)
  {
    assert c * (ab + c * bb) == c * ab + c * (c * bb);
  }

  /** Squares about any point: squares about the mean, plus the shift. */
  lemma Shift(s: Reals, c: real)
    requires s != []
    ensures SquaresAbout(s, c) == SquaresAbout(s, Mean(s)) + Times(|s| as real, Square(Mean(s) - c))
  {
    var n, d, u := |s| as real, Mean(s) - c, Centred(s, Mean(s));
    Recentred(s, Mean(s), c);
    CentredSum(s);
    SumOfOnes(|s|);
    hide Dot, Plus, Mean, Centred, Times, Square;
    SquarePlus(u, d, Ones(|s|));
    Vanish(d, Sum(u));
    Commute(Square(d), n);
  }

  lemma Recentred(s: Reals, m: real, c: real)
    ensures Centred(s, c) == Plus(Centred(s, m), m - c, Ones(|s|))
  {
  }

  lemma Vanish(x: real, y: real)
    requires y == 0.0
    ensures Times(x, y) == 0.0
  {
  }

  lemma Commute(x: real, y: real)
    ensures Times(x, y) == Times(y, x)
  {
  }

  lemma SquareTerms(x: real, weight: real)
    requires weight > 0.0
    ensures Square(x) >= 0.0 && Times(Square(x), weight) >= 0.0
    ensures x != 0.0 ==> Times(Square(x), weight) > 0.0
  {
    if x == 0.0 {
      assert Square(x) == 0.0;
    } else {
      hide Times;
      SquarePositive(x);
      Positive(Square(x), weight);
    }
  }

  lemma SquarePositive(x: real)
    requires x != 0.0
    ensures Times(x, x) > 0.0
  {
    if x > 0.0 {
      Positive(x, x);
    } else {
      Opposites(x);
      Positive(0.0 - x, 0.0 - x);
    }
  }

  lemma Opposites(x: real)
    ensures Times(x, x) == Times(0.0 - x, 0.0 - x)
  {
  }

  lemma Positive(x: real, y: real)
    requires x > 0.0 && y > 0.0
    ensures Times(x, y) > 0.0
  {
  }

  lemma ScaleOrder(a: real, b: real, d: real)
    requires d > 0.0
    ensures a <= b <==> d * a <= b * d
  {
    if a <= b {
      assert (b - a) * d >= 0.0;
    } else {
      assert (a - b) * d > 0.0;
    }
  }
}
