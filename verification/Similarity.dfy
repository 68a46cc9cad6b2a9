/** Cosine similarity of two embeddings (app/memory/embeddings.py), in exact arithmetic.
    The square root is a library function and enters as one that squares back. */
module Similarity {

  type Vector = seq<real>

  function Dot(a: Vector, b: Vector): real
    requires |a| == |b|
  {
    if a == [] then 0.0 else a[0] * b[0] + Dot(a[1..], b[1..])
  }

  ghost predicate IsSqrt(sqrt: real -> real) {
    forall x | x >= 0.0 :: sqrt(x) >= 0.0 && sqrt(x) * sqrt(x) == x
  }

  /** The code gets as far as the quotient: same length, not empty, no zero magnitude. */
  predicate Comparable(a: Vector, b: Vector, sqrt: real -> real) {
    a != [] && |a| == |b| && sqrt(Dot(a, a)) != 0.0 && sqrt(Dot(b, b)) != 0.0
  }

  /** The quotient before it is clamped. */
  function Cosine(a: Vector, b: Vector, sqrt: real -> real): (r: real)
    requires Comparable(a, b, sqrt)
    ensures r * (sqrt(Dot(a, a)) * sqrt(Dot(b, b))) == Dot(a, b)
  {
    var m, n := sqrt(Dot(a, a)), sqrt(Dot(b, b));
    NonZeroProduct(m, n);
    Quotient(Dot(a, b), m * n);
    Dot(a, b) / (m * n)
  }

  lemma Quotient(d: real, k: real)
    requires k != 0.0
    ensures (d / k) * k == d
  {
  }

  function ComputeSimilarity(a: Vector, b: Vector, sqrt: real -> real): real {
    if !Comparable(a, b, sqrt) then 0.0
    else
      var s := Cosine(a, b, sqrt);
      var upper := if s < 1.0 then s else 1.0;
      if upper > 0.0 then upper else 0.0
  }

  lemma NonZeroProduct(m: real, n: real)
    requires m != 0.0 && n != 0.0
    ensures m * n != 0.0
  {
  }

  lemma {:induction false} DotSelf(a: Vector)
    ensures Dot(a, a) >= 0.0
    ensures Dot(a, a) == 0.0 ==> forall i | 0 <= i < |a| :: a[i] == 0.0
  {
    if a != [] {
      DotSelf(a[1..]);
      Square(a[0]);
      if Dot(a, a) == 0.0 {
        SquareZero(a[0]);
        assert forall i | 1 <= i < |a| :: a[i] == a[1..][i - 1];
      }
    }
  }

  lemma Square(x: real)
    ensures x * x >= 0.0
  {
  }

  lemma SquareZero(x: real)
    requires x * x == 0.0
    ensures x == 0.0
  {
    SqrtUnique(if x < 0.0 then -x else x, 0.0);
  }

  /** A larger non-negative number has a larger square. */
  lemma SquareOrder(x: real, y: real)
    requires y >= 0.0 && x * x <= y * y
    ensures x <= y
  {
    if x > y {
      Positive(x - y, x + y);
      assert false;
    }
  }

  lemma Positive(x: real, y: real)
    requires x > 0.0 && y > 0.0
    ensures x * y > 0.0
  {
  }

  lemma MulSquares(u: real, v: real)
    ensures (u * v) * (u * v) == (u * u) * (v * v)
  {
  }

  lemma Binomial(u: real, v: real)
    ensures (u + v) * (u + v) == u * u + 2.0 * (u * v) + v * v
    ensures (u - v) * (u - v) == u * u - 2.0 * (u * v) + v * v
  {
  }

  lemma Cross(p: real, q: real, g: real, h: real)
    ensures (p * h) * (q * g) == (p * q) * (g * h)
    ensures (g + p) * (h + q) == g * h + p * h + q * g + p * q
  {
  }

  /** The mixed term is at most the mean of the other two. */
  lemma Mixed(d: real, e: real, s: real, t: real)
    requires s >= 0.0 && t >= 0.0 && (d * e) * (d * e) <= s * t
    ensures 2.0 * (d * e) <= s + t
  {
    var c := d * e;
    Square(s - t);
    Binomial(s, t);
    assert (2.0 * c) * (2.0 * c) == 4.0 * (c * c);
    SquareOrder(2.0 * c, s + t);
  }

  /** One coordinate more. */
  lemma CauchyStep(d: real, p: real, q: real, x: real, y: real)
    requires p >= 0.0 && q >= 0.0 && d * d <= p * q
    ensures (x * y + d) * (x * y + d) <= (x * x + p) * (y * y + q)
  {
    var e, g, h := x * y, x * x, y * y;
    Square(x);
    Square(y);
    Product(p, h);
    Product(q, g);
    MulSquares(x, y);
    MulSquares(d, e);
    Cross(p, q, g, h);
    Product(g, h);
    Monotone(d * d, p * q, g * h);
    Mixed(d, e, p * h, q * g);
    Binomial(e, d);
    assert e * d == d * e;
  }

  lemma Product(x: real, y: real)
    requires x >= 0.0 && y >= 0.0
    ensures x * y >= 0.0
  {
  }

  lemma Monotone(x: real, y: real, w: real)
    requires x <= y && w >= 0.0
    ensures x * w <= y * w
  {
  }

  lemma {:induction false} CauchySchwarz(a: Vector, b: Vector)
    requires |a| == |b|
    ensures Dot(a, b) * Dot(a, b) <= Dot(a, a) * Dot(b, b)
  {
    if a != [] {
      CauchySchwarz(a[1..], b[1..]);
      DotSelf(a[1..]);
      DotSelf(b[1..]);
      CauchyStep(Dot(a[1..], b[1..]), Dot(a[1..], a[1..]), Dot(b[1..], b[1..]), a[0], b[0]);
    }
  }

  // ---- what follows for the similarity ----------------------------------------------

  lemma Magnitude(a: Vector, sqrt: real -> real)
    requires IsSqrt(sqrt)
    ensures var m := sqrt(Dot(a, a)); m >= 0.0 && m * m == Dot(a, a)
  {
    DotSelf(a);
  }

  /** |d| <= m n, from the squares. */
  lemma DotWithinProduct(d: real, m: real, n: real)
    requires m >= 0.0 && n >= 0.0 && d * d <= (m * m) * (n * n)
    ensures -(m * n) <= d <= m * n
  {
    MulSquares(m, n);
    Product(m, n);
    SquareOrder(d, m * n);
    assert (-d) * (-d) == d * d;
    SquareOrder(-d, m * n);
  }

  lemma FactorWithin(r: real, d: real, k: real)
    requires k > 0.0 && r * k == d && -k <= d <= k
    ensures -1.0 <= r <= 1.0
  {
    if r > 1.0 {
      Positive(r - 1.0, k);
      assert false;
    }
    if r < -1.0 {
      Positive(-1.0 - r, k);
      assert false;
    }
  }

  lemma SameFactor(r: real, t: real, k: real)
    requires k != 0.0 && r * k == t * k
    ensures r == t
  {
    if r != t {
      NonZeroProduct(r - t, k);
      assert false;
    }
  }

  /** The quotient lies between -1 and 1 for vectors of any length, so the upper clamp never
      changes anything: the similarity is the quotient, or 0 where that is negative. */
  lemma UpperClampNeverFires(a: Vector, b: Vector, sqrt: real -> real)
    requires IsSqrt(sqrt) && Comparable(a, b, sqrt)
    ensures -1.0 <= Cosine(a, b, sqrt) <= 1.0
    ensures ComputeSimilarity(a, b, sqrt) == if Cosine(a, b, sqrt) > 0.0 then Cosine(a, b, sqrt) else 0.0
  {
    hide Cosine, Dot;
    var m, n := sqrt(Dot(a, a)), sqrt(Dot(b, b));
    Magnitude(a, sqrt);
    Magnitude(b, sqrt);
    CauchySchwarz(a, b);
    DotWithinProduct(Dot(a, b), m, n);
    Positive(m, n);
    FactorWithin(Cosine(a, b, sqrt), Dot(a, b), m * n);
  }

  lemma {:induction false} DotSymmetric(a: Vector, b: Vector)
    requires |a| == |b|
    ensures Dot(a, b) == Dot(b, a)
  {
    if a != [] {
      DotSymmetric(a[1..], b[1..]);
    }
  }

  lemma SimilaritySymmetric(a: Vector, b: Vector, sqrt: real -> real)
    ensures ComputeSimilarity(a, b, sqrt) == ComputeSimilarity(b, a, sqrt)
  {
    hide Cosine, Dot;
    if Comparable(a, b, sqrt) {
      DotSymmetric(a, b);
      var m, n := sqrt(Dot(a, a)), sqrt(Dot(b, b));
      NonZeroProduct(m, n);
      Commute(m, n);
      SameFactor(Cosine(a, b, sqrt), Cosine(b, a, sqrt), m * n);
    }
  }

  lemma Commute(m: real, n: real)
    ensures m * n == n * m
  {
  }

  function Scale(c: real, a: Vector): (r: Vector)
    ensures |r| == |a|
  {
    if a == [] then [] else [c * a[0]] + Scale(c, a[1..])
  }

  lemma {:induction false} DotScale(c: real, a: Vector, b: Vector)
    requires |a| == |b|
    ensures Dot(Scale(c, a), b) == c * Dot(a, b)
  {
    if a != [] {
      DotScale(c, a[1..], b[1..]);
      assert Scale(c, a)[1..] == Scale(c, a[1..]);
      Distribute(c, a[0], b[0], Dot(a[1..], b[1..]));
    }
  }

  lemma Distribute(c: real, x: real, y: real, d: real)
    ensures (c * x) * y + c * d == c * (x * y + d)
  {
  }

  /** A square root is unique among the numbers that are not negative. */
  lemma SqrtUnique(x: real, y: real)
    requires x >= 0.0 && y >= 0.0 && x * x == y * y
    ensures x == y
  {
    SquareOrder(x, y);
    SquareOrder(y, x);
  }

  lemma DotScaleBoth(c: real, a: Vector)
    ensures Dot(Scale(c, a), Scale(c, a)) == (c * c) * Dot(a, a)
  {
    hide Dot;
    var s := Scale(c, a);
    DotScale(c, a, s);
    DotSymmetric(a, s);
    DotScale(c, a, a);
    Associate(c, c, Dot(a, a));
  }

  lemma Associate(x: real, y: real, z: real)
    ensures x * (y * z) == (x * y) * z
  {
  }

  lemma MagnitudeScale(c: real, a: Vector, sqrt: real -> real)
    requires IsSqrt(sqrt) && c > 0.0
    ensures sqrt(Dot(Scale(c, a), Scale(c, a))) == c * sqrt(Dot(a, a))
  {
    hide Dot, Scale;
    var m := sqrt(Dot(a, a));
    DotScaleBoth(c, a);
    Magnitude(a, sqrt);
    Magnitude(Scale(c, a), sqrt);
    Product(c, m);
    MulSquares(c, m);
    SqrtUnique(sqrt(Dot(Scale(c, a), Scale(c, a))), c * m);
  }

  /** Stretching a vector changes nothing. */
  lemma SimilarityScale(c: real, a: Vector, b: Vector, sqrt: real -> real)
    requires IsSqrt(sqrt) && c > 0.0
    ensures ComputeSimilarity(Scale(c, a), b, sqrt) == ComputeSimilarity(a, b, sqrt)
  {
    hide Dot, Scale, Cosine;
    assert Scale(c, a) == [] <==> a == [];
    if a != [] && |a| == |b| {
      MagnitudeScale(c, a, sqrt);
      Vanishes(c, sqrt(Dot(a, a)));
      if Comparable(a, b, sqrt) {
        CosineScale(c, a, b, sqrt);
      }
    }
  }

  lemma Vanishes(c: real, m: real)
    requires c > 0.0
    ensures c * m == 0.0 <==> m == 0.0
  {
    if m != 0.0 {
      NonZeroProduct(c, m);
    }
  }

  lemma CosineScale(c: real, a: Vector, b: Vector, sqrt: real -> real)
    requires IsSqrt(sqrt) && c > 0.0 && Comparable(a, b, sqrt) && Comparable(Scale(c, a), b, sqrt)
    ensures Cosine(Scale(c, a), b, sqrt) == Cosine(a, b, sqrt)
  {
    hide Dot, Scale, Cosine, IsSqrt;
    var m, n, r := sqrt(Dot(a, a)), sqrt(Dot(b, b)), Cosine(a, b, sqrt);
    MagnitudeScale(c, a, sqrt);
    DotScale(c, a, b);
    NonZeroProduct(c * m, n);
    Rescale(r, c, m, n);
    SameFactor(Cosine(Scale(c, a), b, sqrt), r, (c * m) * n);
  }

  lemma Rescale(r: real, c: real, m: real, n: real)
    ensures r * ((c * m) * n) == c * (r * (m * n))
  {
  }

  /** A vector that is not all zero is wholly similar to itself. */
  lemma SimilaritySelf(a: Vector, sqrt: real -> real)
    requires IsSqrt(sqrt) && exists i :: 0 <= i < |a| && a[i] != 0.0
    ensures ComputeSimilarity(a, a, sqrt) == 1.0
  {
    hide Dot, Cosine;
    DotSelf(a);
    Magnitude(a, sqrt);
    var m := sqrt(Dot(a, a));
    assert m != 0.0;
    NonZeroProduct(m, m);
    SameFactor(Cosine(a, a, sqrt), 1.0, m * m);
  }

  // ---- the dot product is the sum of the products -----------------------------------------

  lemma DotOfOne(x: real, y: real)
    ensures Dot([x], [y]) == x * y && Dot([], []) == 0.0
  {
    assert [x][1..] == [] && [y][1..] == [];
  }

  lemma {:induction false} DotAdds(a: Vector, b: Vector, c: Vector, d: Vector)
    requires |a| == |b| && |c| == |d|
    ensures Dot(a + c, b + d) == Dot(a, b) + Dot(c, d)
  {
    if a == [] {
      assert a + c == c && b + d == d;
    } else {
      assert (a + c)[1..] == a[1..] + c && (b + d)[1..] == b[1..] + d;
      DotAdds(a[1..], b[1..], c, d);
    }
  }

  function Pairs(a: Vector, b: Vector): seq<(real, real)>
    requires |a| == |b|
  {
    if a == [] then [] else [(a[0], b[0])] + Pairs(a[1..], b[1..])
  }

  lemma {:induction false} PairsAt(a: Vector, b: Vector)
    requires |a| == |b|
    ensures |Pairs(a, b)| == |a| && forall i | 0 <= i < |a| :: Pairs(a, b)[i] == (a[i], b[i])
  {
    if a != [] {
      PairsAt(a[1..], b[1..]);
    }
  }

  lemma {:induction false} PairsAdd(a: Vector, b: Vector, c: Vector, d: Vector)
    requires |a| == |b| && |c| == |d|
    ensures Pairs(a + c, b + d) == Pairs(a, b) + Pairs(c, d)
  {
    if a == [] {
      assert a + c == c && b + d == d;
    } else {
      assert (a + c)[1..] == a[1..] + c && (b + d)[1..] == b[1..] + d;
      PairsAdd(a[1..], b[1..], c, d);
    }
  }

  function Without(a: Vector, k: nat): Vector
    requires k < |a|
  {
    a[..k] + a[k + 1..]
  }

  lemma Around(a: Vector, k: nat)
    requires k < |a|
    ensures a == a[..k] + ([a[k]] + a[k + 1..])
  {
  }

  /** One coordinate taken out. */
  lemma DotWithout(a: Vector, b: Vector, k: nat)
    requires |a| == |b| && k < |a|
    ensures Dot(a, b) == a[k] * b[k] + Dot(Without(a, k), Without(b, k))
  {
    hide Dot;
    Around(a, k);
    Around(b, k);
    DotAdds(a[..k], b[..k], [a[k]] + a[k + 1..], [b[k]] + b[k + 1..]);
    DotAdds([a[k]], [b[k]], a[k + 1..], b[k + 1..]);
    DotOfOne(a[k], b[k]);
    DotAdds(a[..k], b[..k], a[k + 1..], b[k + 1..]);
  }

  lemma PairsOfOne(x: real, y: real)
    ensures Pairs([x], [y]) == [(x, y)]
  {
    assert [x][1..] == [] && [y][1..] == [];
  }

  lemma PairsAround(a: Vector, b: Vector, k: nat)
    requires |a| == |b| && k < |a|
    ensures Pairs(a, b) == Pairs(a[..k], b[..k]) + ([(a[k], b[k])] + Pairs(a[k + 1..], b[k + 1..]))
    ensures Pairs(Without(a, k), Without(b, k)) == Pairs(a[..k], b[..k]) + Pairs(a[k + 1..], b[k + 1..])
  {
    hide Pairs;
    Around(a, k);
    Around(b, k);
    PairsAdd(a[..k], b[..k], [a[k]] + a[k + 1..], [b[k]] + b[k + 1..]);
    PairsAdd([a[k]], [b[k]], a[k + 1..], b[k + 1..]);
    PairsOfOne(a[k], b[k]);
    PairsAdd(a[..k], b[..k], a[k + 1..], b[k + 1..]);
  }

  lemma MiddleOut(x: seq<(real, real)>, e: (real, real), y: seq<(real, real)>)
    ensures multiset(x + y) == multiset(x + ([e] + y)) - multiset{e}
    ensures e in multiset(x + ([e] + y))
  {
    assert multiset(x + ([e] + y)) == multiset(x) + multiset{e} + multiset(y);
    assert multiset(x + y) == multiset(x) + multiset(y);
  }

  lemma PairsWithout(a: Vector, b: Vector, k: nat)
    requires |a| == |b| && k < |a|
    ensures multiset(Pairs(Without(a, k), Without(b, k))) == multiset(Pairs(a, b)) - multiset{(a[k], b[k])}
  {
    hide Pairs, Without;
    PairsAround(a, b, k);
    MiddleOut(Pairs(a[..k], b[..k]), (a[k], b[k]), Pairs(a[k + 1..], b[k + 1..]));
  }

  /** The coordinates of the two vectors are the same pairs, in whatever order. */
  ghost predicate ReorderedAlike(a: Vector, b: Vector, c: Vector, d: Vector) {
    |a| == |b| && |c| == |d| && multiset(Pairs(a, b)) == multiset(Pairs(c, d))
  }

  lemma {:induction false} DotReordered(a: Vector, b: Vector, c: Vector, d: Vector)
    requires ReorderedAlike(a, b, c, d)
    ensures |a| == |c|
    ensures Dot(a, b) == Dot(c, d) && Dot(a, a) == Dot(c, c) && Dot(b, b) == Dot(d, d)
    decreases |a|
  {
    hide Dot, Pairs, ReorderedAlike, Without;
    SameLength(a, b, c, d);
    if a != [] {
      var k := FirstElsewhere(a, b, c, d);
      DotReordered(Without(a, 0), Without(b, 0), Without(c, k), Without(d, k));
      DotWithout(a, b, 0);
      DotWithout(a, a, 0);
      DotWithout(b, b, 0);
      DotWithout(c, d, k);
      DotWithout(c, c, k);
      DotWithout(d, d, k);
    }
  }

  lemma SameLength(a: Vector, b: Vector, c: Vector, d: Vector)
    requires ReorderedAlike(a, b, c, d)
    ensures |a| == |b| == |c| == |d|
  {
    PairsAt(a, b);
    PairsAt(c, d);
    assert |multiset(Pairs(a, b))| == |multiset(Pairs(c, d))|;
  }

  lemma FirstElsewhere(a: Vector, b: Vector, c: Vector, d: Vector) returns (k: nat)
    requires ReorderedAlike(a, b, c, d) && a != []
    ensures |a| == |b| == |c| == |d| && k < |c| && c[k] == a[0] && d[k] == b[0]
    ensures |Without(a, 0)| == |Without(c, k)| == |a| - 1
    ensures ReorderedAlike(Without(a, 0), Without(b, 0), Without(c, k), Without(d, k))
  {
    SameLength(a, b, c, d);
    PairsAt(a, b);
    PairsAt(c, d);
    assert Pairs(a, b)[0] in multiset(Pairs(a, b));
    k :| k < |c| && Pairs(c, d)[k] == Pairs(a, b)[0];
    PairsWithout(a, b, 0);
    PairsWithout(c, d, k);
  }

  /** Reordering the coordinates of both vectors alike changes nothing. */
  lemma SimilarityReordered(a: Vector, b: Vector, c: Vector, d: Vector, sqrt: real -> real)
    requires ReorderedAlike(a, b, c, d)
    ensures ComputeSimilarity(a, b, sqrt) == ComputeSimilarity(c, d, sqrt)
  {
    DotReordered(a, b, c, d);
    hide Dot, Cosine;
    if Comparable(a, b, sqrt) {
      var m, n := sqrt(Dot(a, a)), sqrt(Dot(b, b));
      NonZeroProduct(m, n);
      SameFactor(Cosine(a, b, sqrt), Cosine(c, d, sqrt), m * n);
    }
  }

  /** The similarity is 0 for vectors that are empty, of different length, or zero, and for
      vectors whose products cancel out. */
  lemma SimilarityZero(a: Vector, b: Vector, sqrt: real -> real)
    requires IsSqrt(sqrt)
    ensures a == [] || |a| != |b| ==> ComputeSimilarity(a, b, sqrt) == 0.0
    ensures |a| == |b| && (Dot(a, a) == 0.0 || Dot(b, b) == 0.0 || Dot(a, b) == 0.0)
        ==> ComputeSimilarity(a, b, sqrt) == 0.0
  {
    hide Dot, Cosine;
    if Comparable(a, b, sqrt) {
      Magnitude(a, sqrt);
      Magnitude(b, sqrt);
      var m, n := sqrt(Dot(a, a)), sqrt(Dot(b, b));
      NonZeroProduct(m, m);
      NonZeroProduct(n, n);
      NonZeroProduct(m, n);
      if Dot(a, b) == 0.0 {
        SameFactor(Cosine(a, b, sqrt), 0.0, m * n);
      }
    }
  }
}
