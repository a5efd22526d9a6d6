/** The exact integer moments of a window and a template, the score built from them, and the loop that sums them up. */
module Ncc {
  import opened Bytes

  /** Largest number of pixels a decoded image may have. */
  const MAX_PIXELS := 32_000_000

  function Sum(s: seq<int>): int {
    if s == [] then 0 else Sum(s[..|s| - 1]) + s[|s| - 1]
  }

  function Dot(s: seq<int>, t: seq<int>): int
    requires |s| == |t|
  {
    if s == [] then 0 else Dot(s[..|s| - 1], t[..|s| - 1]) + s[|s| - 1] * t[|s| - 1]
  }

  /** n * sum(x * x) - sum(x) ^ 2, the variance scaled by n * n. */
  function Var(s: seq<int>): int {
    |s| * Dot(s, s) - Sum(s) * Sum(s)
  }

  /** n * sum(x * y) - sum(x) * sum(y), the covariance scaled by n * n. */
  function Cov(s: seq<int>, t: seq<int>): int
    requires |s| == |t|
  {
    |s| * Dot(s, t) - Sum(s) * Sum(t)
  }

  ghost predicate Uniform(s: seq<int>) {
    forall i, j :: 0 <= i < |s| && 0 <= j < |s| ==> s[i] == s[j]
  }

  /** `d * w == a * t + b` pixel by pixel. */
  ghost predicate Recolours(w: seq<int>, t: seq<int>, d: int, a: int, b: int) {
    |w| == |t| && forall i :: 0 <= i < |w| ==> d * w[i] == a * t[i] + b
  }

  /** The window shows the template with its grey levels stretched by a positive rational factor and shifted. */
  ghost predicate PositiveRecolouring(w: seq<int>, t: seq<int>) {
    exists d, a, b :: d > 0 && a > 0 && Recolours(w, t, d, a, b)
  }

  // ---- Algebra of the moments ----

  /** Sum of the squared distances from `a` to the elements of `s`. */
  function SquaredDistance(a: int, s: seq<int>): int {
    if s == [] then 0 else SquaredDistance(a, s[..|s| - 1]) + (a - s[|s| - 1]) * (a - s[|s| - 1])
  }

  lemma {:induction false} SquaredDistanceExpands(a: int, s: seq<int>)
    ensures SquaredDistance(a, s) == |s| * (a * a) - 2 * a * Sum(s) + Dot(s, s)
  {
    if s != [] {
      var p, x := s[..|s| - 1], s[|s| - 1];
      SquaredDistanceExpands(a, p);
      DistanceStep(|p|, a, x, Sum(p), Dot(p, p));
    }
  }

  lemma DistanceStep(n: int, a: int, x: int, sum: int, q: int)
    ensures n * (a * a) - 2 * a * sum + q + (a - x) * (a - x) == (n + 1) * (a * a) - 2 * a * (sum + x) + (q + x * x)
  {}

  lemma {:induction false} SquaredDistanceSign(a: int, s: seq<int>)
    ensures SquaredDistance(a, s) >= 0
    ensures SquaredDistance(a, s) == 0 <==> forall i :: 0 <= i < |s| ==> s[i] == a
  {
    if s != [] {
      var p, x := s[..|s| - 1], s[|s| - 1];
      SquaredDistanceSign(a, p);
      assert (a - x) * (a - x) >= 0;
      assert (a - x) * (a - x) == 0 <==> x == a;
      assert forall i :: 0 <= i < |p| ==> p[i] == s[i];
    }
  }

  lemma VarExtends(s: seq<int>)
    requires s != []
    ensures Var(s) == Var(s[..|s| - 1]) + SquaredDistance(s[|s| - 1], s[..|s| - 1])
  {
    var p, x := s[..|s| - 1], s[|s| - 1];
    SquaredDistanceExpands(x, p);
    ExtensionArithmetic(|p|, x, Sum(p), Dot(p, p));
  }

  lemma ExtensionArithmetic(n: int, x: int, a: int, q: int)
    ensures (n + 1) * (q + x * x) - (a + x) * (a + x) == (n * q - a * a) + (n * (x * x) - 2 * x * a + q)
  {}

  /** The subtraction in the template's variance never goes below zero, and reaches it exactly on one-colour images. */
  lemma {:induction false} VarSign(s: seq<int>)
    ensures Var(s) >= 0
    ensures Var(s) == 0 <==> Uniform(s)
  {
    if s != [] {
      var p, x := s[..|s| - 1], s[|s| - 1];
      VarSign(p);
      VarExtends(s);
      SquaredDistanceSign(x, p);
      assert forall i :: 0 <= i < |p| ==> p[i] == s[i];
      if Uniform(s) {
        assert forall i :: 0 <= i < |p| ==> p[i] == x;
      }
    }
  }

  function Combine(p: int, s: seq<int>, q: int, t: seq<int>): (r: seq<int>)
    requires |s| == |t|
    ensures |r| == |s|
  {
    seq(|s|, i requires 0 <= i < |s| => p * s[i] + q * t[i])
  }

  lemma {:induction false} CombineMoments(p: int, s: seq<int>, q: int, t: seq<int>)
    requires |s| == |t|
    ensures var c := Combine(p, s, q, t);
            && Sum(c) == p * Sum(s) + q * Sum(t)
            && Dot(c, t) == p * Dot(s, t) + q * Dot(t, t)
            && Dot(c, c) == p * p * Dot(s, s) + 2 * p * q * Dot(s, t) + q * q * Dot(t, t)
  {
    if s != [] {
      var m := |s| - 1;
      var c, c0 := Combine(p, s, q, t), Combine(p, s[..m], q, t[..m]);
      CombineMoments(p, s[..m], q, t[..m]);
      assert c[..m] == c0;
      var x, y := s[m], t[m];
      assert c[m] == p * x + q * y;
      LinearStep(p, Sum(s[..m]), x, q, Sum(t[..m]), y);
      MixedStep(p, x, q, y, Dot(s[..m], t[..m]), Dot(t[..m], t[..m]));
      SquareStep(p, x, q, y, Dot(s[..m], s[..m]), Dot(s[..m], t[..m]), Dot(t[..m], t[..m]));
    }
  }

  lemma LinearStep(p: int, a: int, x: int, q: int, b: int, y: int)
    ensures (p * a + q * b) + (p * x + q * y) == p * (a + x) + q * (b + y)
  {}

  lemma MixedStep(p: int, x: int, q: int, y: int, st: int, tt: int)
    ensures (p * st + q * tt) + (p * x + q * y) * y == p * (st + x * y) + q * (tt + y * y)
  {}

  lemma SquareStep(p: int, x: int, q: int, y: int, ss: int, st: int, tt: int)
    ensures (p * p * ss + 2 * p * q * st + q * q * tt) + (p * x + q * y) * (p * x + q * y)
         == p * p * (ss + x * x) + 2 * p * q * (st + x * y) + q * q * (tt + y * y)
  {
    SquareOfSum(p, x, q, y);
    assert p * p * (ss + x * x) == p * p * ss + p * p * (x * x);
    assert 2 * p * q * (st + x * y) == 2 * p * q * st + 2 * p * q * (x * y);
    assert q * q * (tt + y * y) == q * q * tt + q * q * (y * y);
  }

  lemma SquareOfSum(p: int, x: int, q: int, y: int)
    ensures (p * x + q * y) * (p * x + q * y) == p * p * (x * x) + 2 * p * q * (x * y) + q * q * (y * y)
  {
    var a, b := p * x, q * y;
    assert (a + b) * (a + b) == a * a + 2 * (a * b) + b * b;
    assert a * a == p * p * (x * x);
    assert a * b == p * q * (x * y);
    assert b * b == q * q * (y * y);
  }

  /** Variance and covariance of a combination, as for a quadratic form. */
  lemma CombineForm(p: int, s: seq<int>, q: int, t: seq<int>)
    requires |s| == |t|
    ensures Var(Combine(p, s, q, t)) == p * p * Var(s) + 2 * p * q * Cov(s, t) + q * q * Var(t)
    ensures Cov(Combine(p, s, q, t), t) == p * Cov(s, t) + q * Var(t)
  {
    CombineMoments(p, s, q, t);
    FormArithmetic(|s|, p, q, Sum(s), Sum(t), Dot(s, s), Dot(s, t), Dot(t, t));
  }

  lemma FormArithmetic(n: int, p: int, q: int, a: int, b: int, ss: int, st: int, tt: int)
    ensures n * (p * p * ss + 2 * p * q * st + q * q * tt) - (p * a + q * b) * (p * a + q * b)
         == p * p * (n * ss - a * a) + 2 * p * q * (n * st - a * b) + q * q * (n * tt - b * b)
    ensures n * (p * st + q * tt) - (p * a + q * b) * b == p * (n * st - a * b) + q * (n * tt - b * b)
  {
    SquareOfSum(p, a, q, b);
    assert n * (p * p * ss) == p * p * (n * ss);
    assert n * (2 * p * q * st) == 2 * p * q * (n * st);
    assert n * (q * q * tt) == q * q * (n * tt);
    assert n * (p * st) == p * (n * st);
    assert n * (q * tt) == q * (n * tt);
  }

  // ---- Cauchy-Schwarz and its equality case ----

  /** `Var(t) * w - Cov(w, t) * t`: the window with its template part removed. */
  function Residue(w: seq<int>, t: seq<int>): seq<int>
    requires |w| == |t|
  {
    Combine(Var(t), w, -Cov(w, t), t)
  }

  lemma ResidueVariance(w: seq<int>, t: seq<int>)
    requires |w| == |t|
    ensures Var(Residue(w, t)) == Var(t) * (Var(w) * Var(t) - Cov(w, t) * Cov(w, t))
  {
    CombineForm(Var(t), w, -Cov(w, t), t);
    ResidueArithmetic(Var(w), Cov(w, t), Var(t));
  }

  lemma ResidueArithmetic(u: int, c: int, v: int)
    ensures v * v * u + 2 * v * -c * c + -c * -c * v == v * (u * v - c * c)
  {
    assert v * v * u == v * (u * v);
    assert 2 * v * -c * c == -2 * (v * (c * c));
    assert -c * -c * v == v * (c * c);
  }

  lemma CauchySchwarz(w: seq<int>, t: seq<int>)
    requires |w| == |t|
    ensures Cov(w, t) * Cov(w, t) <= Var(w) * Var(t)
  {
    VarSign(t);
    if Var(t) == 0 {
      CovOfUniform(w, t);
    } else {
      ResidueVariance(w, t);
      VarSign(Residue(w, t));
      NonNegativeFactor(Var(t), Var(w) * Var(t) - Cov(w, t) * Cov(w, t));
    }
  }

  lemma NonNegativeFactor(v: int, x: int)
    requires v > 0 && v * x >= 0
    ensures x >= 0
  {}

  lemma {:induction false} UniformMoments(w: seq<int>, t: seq<int>, c: int)
    requires |w| == |t| && forall i :: 0 <= i < |t| ==> t[i] == c
    ensures Sum(t) == |t| * c && Dot(w, t) == c * Sum(w)
  {
    if t != [] {
      UniformMoments(w[..|t| - 1], t[..|t| - 1], c);
    }
  }

  lemma CovOfUniform(w: seq<int>, t: seq<int>)
    requires |w| == |t| && Uniform(t)
    ensures Cov(w, t) == 0
  {
    if t != [] {
      var c := t[0];
      UniformMoments(w, t, c);
      assert |w| * (c * Sum(w)) == Sum(w) * (|w| * c);
    }
  }

  lemma {:induction false} DotCommutes(s: seq<int>, t: seq<int>)
    requires |s| == |t|
    ensures Dot(s, t) == Dot(t, s)
  {
    if s != [] {
      DotCommutes(s[..|s| - 1], t[..|s| - 1]);
    }
  }

  /** With a template that is not one colour, the bound is reached with a positive covariance exactly by
      the positive recolourings of the template. */
  lemma EqualityIffRecolouring(w: seq<int>, t: seq<int>)
    requires |w| == |t| && !Uniform(t)
    ensures Cov(w, t) > 0 && Cov(w, t) * Cov(w, t) == Var(w) * Var(t) <==> PositiveRecolouring(w, t)
  {
    VarSign(t);
    if Cov(w, t) > 0 && Cov(w, t) * Cov(w, t) == Var(w) * Var(t) {
      var r := Residue(w, t);
      ResidueVariance(w, t);
      VarSign(r);
      assert forall i :: 0 <= i < |w| ==> r[i] == Var(t) * w[i] + -Cov(w, t) * t[i];
      forall i | 0 <= i < |w|
        ensures Var(t) * w[i] == Cov(w, t) * t[i] + r[0]
      {
        assert r[i] == r[0];
        assert -Cov(w, t) * t[i] == -(Cov(w, t) * t[i]);
      }
      assert Recolours(w, t, Var(t), Cov(w, t), r[0]);
    }
    if PositiveRecolouring(w, t) {
      var d, a, b :| d > 0 && a > 0 && Recolours(w, t, d, a, b);
      RecolouringReachesBound(w, t, d, a, b);
    }
  }

  lemma RecolouringReachesBound(w: seq<int>, t: seq<int>, d: int, a: int, b: int)
    requires d > 0 && a > 0 && Recolours(w, t, d, a, b) && Var(t) > 0
    ensures Cov(w, t) > 0 && Cov(w, t) * Cov(w, t) == Var(w) * Var(t)
  {
    var c := Combine(d, w, -a, t);
    forall i | 0 <= i < |c|
      ensures c[i] == b
    {
      assert c[i] == d * w[i] + -a * t[i];
      assert d * w[i] == a * t[i] + b;
      assert -a * t[i] == -(a * t[i]);
    }
    CombineForm(d, w, -a, t);
    VarSign(c);
    CovOfUniform(t, c);
    DotCommutes(t, c);
    assert Sum(t) * Sum(c) == Sum(c) * Sum(t);
    BoundArithmetic(d, a, Var(w), Cov(w, t), Var(t));
  }

  lemma BoundArithmetic(d: int, a: int, u: int, c: int, v: int)
    requires d > 0 && a > 0 && v > 0
    requires d * c + -a * v == 0
    requires d * d * u + 2 * d * -a * c + -a * -a * v == 0
    ensures c > 0 && c * c == u * v
  {
    assert -a * v == -(a * v);
    ProductPositive(a, v);
    FactorPositive(d, c);
    SquaresEqual(d, a, u, c, v);
    CrossedSquares(d, a, u, c, v);
    Cancelled(d * d, c * c, u * v);
  }

  lemma ProductPositive(a: int, b: int)
    requires a > 0 && b > 0
    ensures a * b > 0
  {}

  lemma FactorPositive(d: int, c: int)
    requires d > 0 && d * c > 0
    ensures c > 0 && d * d > 0
  {}

  lemma SquaresEqual(d: int, a: int, u: int, c: int, v: int)
    requires d * c == a * v && d * d * u + 2 * d * -a * c + -a * -a * v == 0
    ensures d * d * u == a * a * v
  {
    assert 2 * d * -a * c == -2 * (a * (d * c));
    assert a * (d * c) == a * (a * v) == a * a * v;
    assert -a * -a * v == a * a * v;
  }

  lemma CrossedSquares(d: int, a: int, u: int, c: int, v: int)
    requires d * c == a * v && d * d * u == a * a * v
    ensures d * d * (c * c) == d * d * (u * v)
  {
    assert d * d * (c * c) == (d * c) * (d * c) == (a * v) * (a * v);
    assert (a * v) * (a * v) == (a * a * v) * v;
    assert (d * d * u) * v == d * d * (u * v);
  }

  lemma Cancelled(k: int, x: int, y: int)
    requires k != 0 && k * x == k * y
    ensures x == y
  {
    assert k * (x - y) == 0;
  }

  // ---- The score ----

  /** A score is the sentinel -1, or the exact quantity cov / sqrt(iVar * tVar). */
  datatype Score = Rejected | Exact(cov: int, iVar: int, tVar: int)

  function Abs(x: int): int { if x < 0 then -x else x }

  /** |cov| / sqrt(iVar * tVar) > 1 + 1e-12, without the root. */
  predicate OutOfRange(cov: int, iVar: int, tVar: int) {
    1_000_000_000_000 * 1_000_000_000_000 * (cov * cov) > 1_000_000_000_001 * 1_000_000_000_001 * (iVar * tVar)
  }

  function ScoreOf(w: seq<int>, t: seq<int>): Score
    requires |w| == |t|
  {
    ScoreFrom(Var(w), Cov(w, t), Var(t))
  }

  function ScoreFrom(iVar: int, cov: int, tVar: int): Score {
    if iVar == 0 || tVar <= 0 || OutOfRange(cov, iVar, tVar) then Rejected else Exact(cov, iVar, tVar)
  }

  function Square(x: real): real
    requires x >= 0.0
  {
    x * x
  }

  function SignedSquare(x: real): real { if x < 0.0 then -Square(-x) else Square(x) }

  /** The signed square of a score, which orders scores without taking the root. */
  function Key(s: Score): real
    requires s.Exact? ==> s.iVar * s.tVar > 0
  {
    match s
    case Rejected => -1.0
    case Exact(cov, iVar, tVar) => (cov * Abs(cov)) as real / (iVar * tVar) as real
  }

  /** Comparing signed squares is comparing the numbers. */
  lemma SignedSquareOrder(x: real, y: real)
    ensures SignedSquare(x) < SignedSquare(y) <==> x < y
  {
    if x < y {
      SignedSquareGrows(x, y);
    } else if y < x {
      SignedSquareGrows(y, x);
    }
  }

  lemma SignedSquareGrows(x: real, y: real)
    requires x < y
    ensures SignedSquare(x) < SignedSquare(y)
  {
    assert Square(0.0) == 0.0;
    if x >= 0.0 {
      SquareGrows(x, y);
    } else if y < 0.0 {
      SquareGrows(-y, -x);
    } else {
      SquareGrows(0.0, -x);
      if y > 0.0 {
        SquareGrows(0.0, y);
      }
    }
  }

  lemma SquareGrows(x: real, y: real)
    requires 0.0 <= x < y
    ensures Square(x) < Square(y)
  {
    PositiveProduct(y - x, y + x);
    assert (y - x) * (y + x) == y * (y + x) - x * (y + x);
    assert y * (y + x) == y * y + y * x && x * (y + x) == x * y + x * x;
  }

  lemma PositiveProduct(x: real, y: real)
    requires x > 0.0 && y > 0.0
    ensures x * y > 0.0
  {}

  /** If `r` is the real number cov / sqrt(iVar * tVar), the key is its signed square. */
  lemma KeyIsSignedSquare(s: Score, r: real)
    requires s.Exact? && s.iVar * s.tVar > 0
    requires r * r * (s.iVar * s.tVar) as real == (s.cov * s.cov) as real
    requires s.cov < 0 <==> r < 0.0
    ensures Key(s) == SignedSquare(r)
  {
    var d := (s.iVar * s.tVar) as real;
    assert r * r == (s.cov * s.cov) as real / d;
    if s.cov < 0 {
      assert s.cov * Abs(s.cov) == -(s.cov * s.cov);
      assert -((s.cov * s.cov) as real) / d == -(r * r);
    }
  }

  /** Every pair has a score whose key lies in [-1, 1], the range check never fires, and only positive
      recolourings of a template that is not one colour have key 1. */
  lemma ScoreRange(w: seq<int>, t: seq<int>)
    requires |w| == |t|
    ensures var s := ScoreOf(w, t);
            && (s.Exact? ==> s.iVar * s.tVar > 0)
            && (s.Exact? <==> !Uniform(w) && !Uniform(t))
            && -1.0 <= Key(s) <= 1.0
            && (Key(s) == 1.0 <==> !Uniform(t) && PositiveRecolouring(w, t))
  {
    VarSign(w);
    VarSign(t);
    CauchySchwarz(w, t);
    if Var(t) > 0 {
      EqualityIffRecolouring(w, t);
      if Var(w) > 0 {
        ExactRange(Cov(w, t), Var(w), Var(t));
      } else {
        SquareBelowZero(Cov(w, t), Var(t));
      }
    }
  }

  lemma SquareBelowZero(c: int, v: int)
    requires c * c <= 0 * v
    ensures c <= 0
  {}

  lemma ExactRange(c: int, u: int, v: int)
    requires u > 0 && v > 0 && c * c <= u * v
    ensures u * v > 0 && !OutOfRange(c, u, v)
    ensures -1.0 <= Key(Exact(c, u, v)) <= 1.0
    ensures Key(Exact(c, u, v)) == 1.0 <==> c > 0 && c * c == u * v
  {
    var d, k := u * v, c * Abs(c);
    assert d > 0;
    if c > 0 {
      assert k == c * c;
    } else {
      assert k == -(c * c) <= 0;
    }
    QuotientRange(k, d);
  }

  lemma QuotientRange(k: int, d: int)
    requires d > 0 && -d <= k <= d
    ensures -1.0 <= k as real / d as real <= 1.0
    ensures k as real / d as real == 1.0 <==> k == d
  {
    var q, x, y := k as real / d as real, k as real, d as real;
    assert q * y == x;
    assert -y <= x <= y;
    assert q > 1.0 ==> q * y > y;
    assert q < -1.0 ==> q * y < -1.0 * y;
  }

  /** An exact copy of a template that is not one colour scores 1. */
  lemma ExactCopyScoresOne(t: seq<int>)
    requires !Uniform(t)
    ensures ScoreOf(t, t).Exact? && ScoreOf(t, t).iVar * ScoreOf(t, t).tVar > 0 && Key(ScoreOf(t, t)) == 1.0
  {
    assert Recolours(t, t, 1, 1, 0);
    ScoreRange(t, t);
  }

  // ---- Machine widths ----

  lemma {:induction false} MomentBounds(w: seq<Byte>, t: seq<Byte>)
    requires |w| == |t|
    ensures 0 <= Sum(w) <= 255 * |w|
    ensures 0 <= Dot(w, t) <= 65025 * |w|
  {
    if w != [] {
      MomentBounds(w[..|w| - 1], t[..|w| - 1]);
      ProductBound(w[|w| - 1], 255, t[|w| - 1], 255);
    }
  }

  /** Within the pixel budget no accumulator, product or difference leaves its machine type. */
  lemma AccumulatorsFit(w: seq<Byte>, t: seq<Byte>)
    requires |w| == |t| <= MAX_PIXELS
    ensures 0 <= Sum(w) < U64_LIMIT && 0 <= Dot(w, w) < U64_LIMIT && 0 <= Dot(w, t) < U64_LIMIT
    ensures 0 <= Sum(w) * Sum(w) <= |w| * Dot(w, w) < U128_LIMIT
    ensures 0 <= |w| * Dot(w, t) < I128_LIMIT && 0 <= Sum(w) * Sum(t) < I128_LIMIT
    ensures -I128_LIMIT <= Cov(w, t) < I128_LIMIT
  {
    MomentBounds(w, t);
    MomentBounds(w, w);
    MomentBounds(t, t);
    VarSign(w);
    ProductBound(|w|, MAX_PIXELS, Dot(w, w), 65025 * MAX_PIXELS);
    ProductBound(|w|, MAX_PIXELS, Dot(w, t), 65025 * MAX_PIXELS);
    ProductBound(Sum(w), 255 * MAX_PIXELS, Sum(t), 255 * MAX_PIXELS);
    assert Sum(w) * Sum(w) >= 0;
  }

  lemma ProductBound(a: int, x: int, b: int, y: int)
    requires 0 <= a <= x && 0 <= b <= y
    ensures 0 <= a * b <= x * y
  {
    assert a * b <= x * b <= x * y;
  }

  // ---- The window and the loop over it ----

  predicate Inside(len: nat, sW: nat, x0: nat, y0: nat, tW: nat, tH: nat) {
    x0 + tW <= sW && y0 + tH <= len / (if sW == 0 then 1 else sW)
  }

  lemma WholeRows(len: nat, sW: nat)
    requires sW > 0
    ensures len / sW * sW <= len
  {
    assert len == sW * (len / sW) + len % sW;
  }

  lemma ThreeRows(y: nat, gap: nat, sW: nat)
    ensures (y + 1 + gap) * sW == y * sW + sW + gap * sW && gap * sW >= 0
  {}

  lemma RowBefore(y: nat, h: nat, sW: nat)
    requires y < h
    ensures y * sW + sW <= h * sW
  {
    var gap: nat := h - y - 1;
    ThreeRows(y, gap, sW);
    assert y + 1 + gap == h;
  }

  /** Rows below the bottom of the image end before its raw data does. */
  lemma RowFits(len: nat, sW: nat, x0: nat, y: nat, tW: nat)
    requires x0 + tW <= sW && y < len / (if sW == 0 then 1 else sW)
    ensures y * sW + x0 + tW <= len
  {
    if sW > 0 {
      WholeRows(len, sW);
      RowBefore(y, len / sW, sW);
    }
  }

  /** The first `rows` rows of the window at (x0, y0), flattened row by row. */
  function Window(sRaw: seq<Byte>, sW: nat, x0: nat, y0: nat, tW: nat, rows: nat): (w: seq<Byte>)
    requires Inside(|sRaw|, sW, x0, y0, tW, rows)
    ensures |w| == rows * tW
  {
    if rows == 0 then []
    else
      RowFits(|sRaw|, sW, x0, y0 + rows - 1, tW);
      var row := (y0 + rows - 1) * sW + x0;
      assert rows * tW == (rows - 1) * tW + tW;
      Window(sRaw, sW, x0, y0, tW, rows - 1) + sRaw[row..row + tW]
  }

  function ScoreAt(sRaw: seq<Byte>, sW: nat, tData: seq<Byte>, tW: nat, tH: nat, x0: nat, y0: nat): Score
    requires |tData| == tH * tW
  {
    if Inside(|sRaw|, sW, x0, y0, tW, tH) then ScoreOf(Window(sRaw, sW, x0, y0, tW, tH), tData) else Rejected
  }

  /** The three accumulators hold the moments of the pixels seen so far. */
  ghost predicate Accumulated(seen: seq<Byte>, t: seq<Byte>, sumI: int, sumI2: int, sumIT: int) {
    |seen| == |t| && sumI == Sum(seen) && sumI2 == Dot(seen, seen) && sumIT == Dot(seen, t)
  }

  lemma AccumulateOne(seen: seq<Byte>, t: seq<Byte>, sRow: seq<Byte>, tRow: seq<Byte>, tx: nat, sumI: int, sumI2: int, sumIT: int)
    requires tx < |sRow| == |tRow| && |seen| + tx < MAX_PIXELS
    requires Accumulated(seen + sRow[..tx], t + tRow[..tx], sumI, sumI2, sumIT)
    ensures var iv: int, tv: int := sRow[tx], tRow[tx];
            && Accumulated(seen + sRow[..tx + 1], t + tRow[..tx + 1], sumI + iv, sumI2 + iv * iv, sumIT + iv * tv)
            && sumI + iv < U64_LIMIT && sumI2 + iv * iv < U64_LIMIT && sumIT + iv * tv < U64_LIMIT
  {
    var a, b := seen + sRow[..tx + 1], t + tRow[..tx + 1];
    assert a[..|a| - 1] == seen + sRow[..tx];
    assert b[..|b| - 1] == t + tRow[..tx];
    AccumulatorsFit(a, b);
  }

  /** One row of the window is added to the accumulators. */
  method AccumulateRow(sRow: seq<Byte>, tRow: seq<Byte>, sumI: int, sumI2: int, sumIT: int,
                       ghost seen: seq<Byte>, ghost t: seq<Byte>)
    returns (outI: int, outI2: int, outIT: int)
    requires |sRow| == |tRow| && |seen| + |sRow| <= MAX_PIXELS
    requires Accumulated(seen, t, sumI, sumI2, sumIT)
    ensures Accumulated(seen + sRow, t + tRow, outI, outI2, outIT)
  {
    outI, outI2, outIT := sumI, sumI2, sumIT;
    assert seen + sRow[..0] == seen && t + tRow[..0] == t;
    for tx := 0 to |sRow|
      invariant Accumulated(seen + sRow[..tx], t + tRow[..tx], outI, outI2, outIT)
    {
      AccumulateOne(seen, t, sRow, tRow, tx, outI, outI2, outIT);
      var iv: int, tv: int := sRow[tx], tRow[tx];
      outI, outI2, outIT := outI + iv, outI2 + iv * iv, outIT + iv * tv;
      assert outI < U64_LIMIT && outI2 < U64_LIMIT && outIT < U64_LIMIT;
    }
    assert sRow[..|sRow|] == sRow && tRow[..|tRow|] == tRow;
  }

  lemma RowWithin(ty: nat, tH: nat, tW: nat)
    requires ty < tH
    ensures (ty + 1) * tW == ty * tW + tW <= tH * tW
  {}

  lemma WindowGrows(sRaw: seq<Byte>, sW: nat, x0: nat, y0: nat, tW: nat, ty: nat, row: nat)
    requires Inside(|sRaw|, sW, x0, y0, tW, ty + 1) && row == (y0 + ty) * sW + x0
    ensures row + tW <= |sRaw|
    ensures Window(sRaw, sW, x0, y0, tW, ty + 1) == Window(sRaw, sW, x0, y0, tW, ty) + sRaw[row..row + tW]
  {
    RowFits(|sRaw|, sW, x0, y0 + ty, tW);
  }

  /** Two nested loops in the source; the inner one is AccumulateRow. */
  method AccumulateWindow(sRaw: seq<Byte>, sW: nat, tData: seq<Byte>, tW: nat, tH: nat, x0: nat, y0: nat)
    returns (sumI: int, sumI2: int, sumIT: int)
    requires |tData| == tH * tW <= MAX_PIXELS && Inside(|sRaw|, sW, x0, y0, tW, tH)
    ensures Accumulated(Window(sRaw, sW, x0, y0, tW, tH), tData, sumI, sumI2, sumIT)
  {
    sumI, sumI2, sumIT := 0, 0, 0;
    for ty := 0 to tH
      invariant ty * tW <= |tData|
      invariant Accumulated(Window(sRaw, sW, x0, y0, tW, ty), tData[..ty * tW], sumI, sumI2, sumIT)
    {
      RowWithin(ty, tH, tW);
      var row, tRow := (y0 + ty) * sW + x0, ty * tW;
      WindowGrows(sRaw, sW, x0, y0, tW, ty, row);
      sumI, sumI2, sumIT := AccumulateRow(sRaw[row..row + tW], tData[tRow..tRow + tW], sumI, sumI2, sumIT,
                                          Window(sRaw, sW, x0, y0, tW, ty), tData[..tRow]);
      assert tData[..tRow] + tData[tRow..tRow + tW] == tData[..tRow + tW];
    }
    assert tData[..tH * tW] == tData;
  }

  method NccAt(sRaw: seq<Byte>, sW: nat, tData: seq<Byte>, tW: nat, tH: nat, x0: nat, y0: nat, tSum: int, tVar: int)
    returns (score: Score)
    requires |tData| == tH * tW <= MAX_PIXELS
    requires tSum == Sum(tData) && tVar == Var(tData)
    ensures score == ScoreAt(sRaw, sW, tData, tW, tH, x0, y0)
  {
    if x0 + tW > sW || y0 + tH > |sRaw| / (if sW == 0 then 1 else sW) {
      return Rejected;
    }
    var n := tW * tH;
    var sumI, sumI2, sumIT := AccumulateWindow(sRaw, sW, tData, tW, tH, x0, y0);
    assert n == |tData|;
    score := ScoreFrom(n * sumI2 - sumI * sumI, n * sumIT - sumI * tSum, tVar);
  }
}
