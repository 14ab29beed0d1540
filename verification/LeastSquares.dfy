/** The line fit of trendline_estimator.cpp over the reals: its slope is the least squares slope. */
module LeastSquares {
  import opened Options

  datatype Point = Point(x: real, y: real)

  /** Named, so that proofs about sums need not look into products. */
  function Product(x: real, y: real): real {
    x * y
  }

  function Square(x: real): real {
    Product(x, x)
  }

  function Quotient(x: real, d: real): real
    requires d != 0.0
  {
    x / d
  }

  function SumX(ps: seq<Point>): real {
    if ps == [] then 0.0 else SumX(ps[..|ps| - 1]) + ps[|ps| - 1].x
  }

  function SumY(ps: seq<Point>): real {
    if ps == [] then 0.0 else SumY(ps[..|ps| - 1]) + ps[|ps| - 1].y
  }

  /** The sum of products of deviations from `mx` and `my`. */
  function Numerator(ps: seq<Point>, mx: real, my: real): real {
    if ps == [] then 0.0
    else var p := ps[|ps| - 1]; Numerator(ps[..|ps| - 1], mx, my) + Product(p.x - mx, p.y - my)
  }

  function Denominator(ps: seq<Point>, mx: real): real {
    if ps == [] then 0.0
    else Denominator(ps[..|ps| - 1], mx) + Square(ps[|ps| - 1].x - mx)
  }

  function MeanX(ps: seq<Point>): real
    requires ps != []
  {
    Quotient(SumX(ps), |ps| as real)
  }

  function MeanY(ps: seq<Point>): real
    requires ps != []
  {
    Quotient(SumY(ps), |ps| as real)
  }

  /** The slope of the fitted line, if the points do not all lie above each other. */
  function Slope(ps: seq<Point>): Option<real>
    requires ps != []
  {
    var d := Denominator(ps, MeanX(ps));
    if d == 0.0 then None else Some(Quotient(Numerator(ps, MeanX(ps), MeanY(ps)), d))
  }

  method LinearFitSlope(packets: seq<Point>) returns (slope: Option<real>)
    requires packets != []
    ensures slope == Slope(packets)
  {
    hide Product, Quotient;
    var sumX, sumY := 0.0, 0.0;
    var i := 0;
    while i < |packets|
      invariant 0 <= i <= |packets| && sumX == SumX(packets[..i]) && sumY == SumY(packets[..i])
    {
      assert packets[..i + 1][..i] == packets[..i];
      sumX := sumX + packets[i].x;
      sumY := sumY + packets[i].y;
      i := i + 1;
    }
    assert packets[..i] == packets;
    var xAvg, yAvg := Quotient(sumX, |packets| as real), Quotient(sumY, |packets| as real);
    var numerator, denominator := 0.0, 0.0;
    i := 0;
    while i < |packets|
      invariant 0 <= i <= |packets|
      invariant numerator == Numerator(packets[..i], xAvg, yAvg) && denominator == Denominator(packets[..i], xAvg)
    {
      assert packets[..i + 1][..i] == packets[..i];
      var x, y := packets[i].x, packets[i].y;
      numerator := numerator + Product(x - xAvg, y - yAvg);
      denominator := denominator + Product(x - xAvg, x - xAvg);
      i := i + 1;
    }
    assert packets[..i] == packets;
    if denominator == 0.0 {
      return None;
    }
    return Some(Quotient(numerator, denominator));
  }

  // ----- the best line

  /** How far a point lies above the line of slope `a` that crosses the y axis at `c`. */
  function Above(p: Point, a: real, c: real): real {
    p.y - Product(a, p.x) - c
  }

  /** The squared distances from a line. */
  function Residual(ps: seq<Point>, a: real, c: real): real {
    if ps == [] then 0.0 else Residual(ps[..|ps| - 1], a, c) + Square(Above(ps[|ps| - 1], a, c))
  }

  /** The sums that a line's residuals are made of: those of the line of slope `k` through `(mx, my)`, the deviations
      from the means, the products of residuals and deviations, and the squared deviations. */
  datatype Sums = Sums(residual: real, n: real, devX: real, devY: real, cross: real, squares: real)

  function SumsOf(ps: seq<Point>, mx: real, my: real, k: real): Sums {
    var n := |ps| as real;
    Sums(Residual(ps, k, my - Product(k, mx)), n, SumX(ps) - Product(n, mx), SumY(ps) - Product(n, my),
         Numerator(ps, mx, my) - Product(k, Denominator(ps, mx)), Denominator(ps, mx))
  }

  /** The residuals about the line whose slope is `b` larger and which passes `e` above `(mx, my)`. */
  function Shifted(s: Sums, k: real, b: real, e: real): real {
    s.residual - 2.0 * (Product(b, s.cross) + Product(e, s.devY - Product(k, s.devX)))
    + Product(Square(b), s.squares) + 2.0 * Product(Product(b, e), s.devX) + Product(s.n, Square(e))
  }

  /** How far a point at deviations `u` and `v` lies above the shifted line. */
  function Gap(k: real, u: real, v: real, b: real, e: real): real {
    v - Product(k, u) - (Product(b, u) + e)
  }

  /** How far the line of slope `a` through `(0, c)` passes above `(mx, my)`. */
  function Offset(a: real, c: real, mx: real, my: real): real {
    Product(a, mx) + c - my
  }

  /** The sums with one more point, at deviations `u` and `v`. */
  function OneMore(s: Sums, k: real, u: real, v: real): Sums {
    var r := v - Product(k, u);
    Sums(s.residual + Square(r), s.n + 1.0, s.devX + u, s.devY + v, s.cross + Product(r, u), s.squares + Square(u))
  }

  lemma SquareOfDifference(r: real, u: real, b: real, e: real)
    ensures Square(r - (Product(b, u) + e))
            == Square(r) - 2.0 * (Product(b, Product(r, u)) + Product(e, r))
               + Product(Square(b), Square(u)) + 2.0 * Product(Product(b, e), u) + Square(e)
  {
    hide Square, Product;
    var bu := Product(b, u);
    SquareOfSum(r, bu + e);
    SquareOfSum(bu, e);
    Distributes(r, bu, e);
    ProductsRegroup(b, u, r);
    ProductsRegroup(b, u, e);
    ProductCommutes(e, r);
    ProductCommutes(e, bu);
    ProductCommutes(u, e);
    ProductsRegroup(u, e, b);
    SquareOfProduct(b, u);
  }

  lemma SquareOfSum(x: real, y: real)
    ensures Square(x - y) == Square(x) - 2.0 * Product(x, y) + Square(y)
    ensures Square(x + y) == Square(x) + 2.0 * Product(x, y) + Square(y)
  {
  }

  lemma ProductsRegroup(b: real, u: real, r: real)
    ensures Product(r, Product(b, u)) == Product(b, Product(r, u)) == Product(Product(b, r), u)
  {
  }

  lemma SquareOfProduct(b: real, u: real)
    ensures Square(Product(b, u)) == Product(Square(b), Square(u))
  {
  }

  lemma Distributes(a: real, x: real, y: real)
    ensures Product(a, x + y) == Product(a, x) + Product(a, y)
  {
  }

  lemma OnceMore(n: real, x: real)
    ensures Product(n + 1.0, x) == Product(n, x) + x
  {
  }

  /** One more point adds its own squared distance. */
  lemma ShiftOneMore(s: Sums, k: real, u: real, v: real, b: real, e: real)
    ensures Shifted(OneMore(s, k, u, v), k, b, e) == Shifted(s, k, b, e) + Square(Gap(k, u, v, b, e))
  {
    hide Square, Product;
    var r := v - Product(k, u);
    SquareOfDifference(r, u, b, e);
    Distributes(b, s.cross, Product(r, u));
    Distributes(k, s.devX, u);
    Distributes(e, s.devY - Product(k, s.devX), r);
    assert s.devY + v - Product(k, s.devX + u) == (s.devY - Product(k, s.devX)) + r;
    Distributes(Square(b), s.squares, Square(u));
    Distributes(Product(b, e), s.devX, u);
    OnceMore(s.n, Square(e));
  }

  lemma MeansStep(sum: real, n: real, x: real, m: real)
    ensures (sum + x) - Product(n + 1.0, m) == (sum - Product(n, m)) + (x - m)
  {
  }

  lemma CrossStep(num: real, den: real, k: real, u: real, v: real)
    ensures (num + Product(u, v)) - Product(k, den + Square(u)) == (num - Product(k, den)) + Product(v - Product(k, u), u)
  {
    assert k * (den + u * u) == k * den + k * (u * u);
    assert (v - k * u) * u == u * v - k * (u * u);
  }

  lemma AboveStep(p: Point, k: real, mx: real, my: real)
    ensures Above(p, k, my - Product(k, mx)) == (p.y - my) - Product(k, p.x - mx)
  {
  }

  lemma AboveShifted(p: Point, k: real, a: real, c: real, mx: real, my: real)
    ensures Above(p, a, c) == Gap(k, p.x - mx, p.y - my, a - k, Offset(a, c, mx, my))
  {
  }

  lemma SumsOfOneMore(rest: seq<Point>, p: Point, mx: real, my: real, k: real)
    ensures SumsOf(rest + [p], mx, my, k) == OneMore(SumsOf(rest, mx, my, k), k, p.x - mx, p.y - my)
  {
    hide Product, Above;
    var ps, n := rest + [p], |rest| as real;
    assert ps[..|rest|] == rest && |ps| as real == n + 1.0;
    MeansStep(SumX(rest), n, p.x, mx);
    MeansStep(SumY(rest), n, p.y, my);
    CrossStep(Numerator(rest, mx, my), Denominator(rest, mx), k, p.x - mx, p.y - my);
    AboveStep(p, k, mx, my);
  }

  lemma ResidualOneMore(rest: seq<Point>, p: Point, a: real, c: real)
    ensures Residual(rest + [p], a, c) == Residual(rest, a, c) + Square(Above(p, a, c))
  {
    hide Product, Above;
    assert (rest + [p])[..|rest|] == rest;
  }

  lemma NoSums(ps: seq<Point>, mx: real, my: real, k: real, b: real, e: real, a: real, c: real)
    requires ps == []
    ensures Shifted(SumsOf(ps, mx, my, k), k, b, e) == 0.0 == Residual(ps, a, c)
  {
  }

  lemma {:induction false} ResidualShifts(ps: seq<Point>, mx: real, my: real, k: real, a: real, c: real)
    ensures Residual(ps, a, c) == Shifted(SumsOf(ps, mx, my, k), k, a - k, Offset(a, c, mx, my))
  {
    hide SumsOf, OneMore, Shifted, Product, Square, Above, Gap, Offset;
    var b, e := a - k, Offset(a, c, mx, my);
    if ps == [] {
      NoSums(ps, mx, my, k, b, e, a, c);
    } else {
      var rest, p := ps[..|ps| - 1], ps[|ps| - 1];
      assert ps == rest + [p];
      ResidualShifts(rest, mx, my, k, a, c);
      SumsOfOneMore(rest, p, mx, my, k);
      ShiftOneMore(SumsOf(rest, mx, my, k), k, p.x - mx, p.y - my, b, e);
      AboveShifted(p, k, a, c, mx, my);
      ResidualOneMore(rest, p, a, c);
    }
  }

  lemma PositiveProduct(x: real, y: real)
    ensures x >= 0.0 && y >= 0.0 ==> Product(x, y) >= 0.0
    ensures x > 0.0 && y > 0.0 ==> Product(x, y) > 0.0
  {
  }

  lemma NegatedFactors(x: real, y: real)
    ensures Product(-x, -y) == Product(x, y)
  {
  }

  lemma SquareIsNonNegative(x: real)
    ensures Square(x) >= 0.0 && (x != 0.0 ==> Square(x) > 0.0)
  {
    hide Product;
    PositiveProduct(x, x);
    PositiveProduct(-x, -x);
    NegatedFactors(x, x);
  }

  lemma {:induction false} DenominatorIsNonNegative(ps: seq<Point>, mx: real)
    ensures Denominator(ps, mx) >= 0.0
  {
    hide Product, Square;
    if ps != [] {
      DenominatorIsNonNegative(ps[..|ps| - 1], mx);
      SquareIsNonNegative(ps[|ps| - 1].x - mx);
    }
  }

  lemma QuotientTimes(x: real, d: real)
    requires d != 0.0
    ensures Product(Quotient(x, d), d) == x && Product(d, Quotient(x, d)) == x
  {
  }

  /** About the means the deviations cancel, and for the fitted slope so do the products with the residuals. */
  lemma SumsCancel(ps: seq<Point>)
    requires ps != [] && Slope(ps).Some?
    ensures var s := SumsOf(ps, MeanX(ps), MeanY(ps), Slope(ps).value);
            && s.residual == Residual(ps, Slope(ps).value, MeanY(ps) - Product(Slope(ps).value, MeanX(ps)))
            && s.devX == 0.0 && s.devY == 0.0 && s.cross == 0.0 && s.squares > 0.0 && s.n > 0.0
  {
    hide Product, Quotient, Square, Numerator, Denominator, SumX, SumY, Residual;
    DenominatorIsNonNegative(ps, MeanX(ps));
    QuotientTimes(Numerator(ps, MeanX(ps), MeanY(ps)), Denominator(ps, MeanX(ps)));
    QuotientTimes(SumX(ps), |ps| as real);
    QuotientTimes(SumY(ps), |ps| as real);
    ProductCommutes(Slope(ps).value, Denominator(ps, MeanX(ps)));
  }

  lemma ProductCommutes(x: real, y: real)
    ensures Product(x, y) == Product(y, x)
  {
  }

  lemma ShiftedIsMore(s: Sums, k: real, b: real, e: real)
    requires s.devX == 0.0 && s.devY == 0.0 && s.cross == 0.0 && s.squares > 0.0 && s.n > 0.0
    ensures Shifted(s, k, b, e) >= s.residual && (b != 0.0 ==> Shifted(s, k, b, e) > s.residual)
  {
    ShiftedAtMeans(s, k, b, e);
    hide Product, Square, Shifted;
    SquareIsNonNegative(b);
    SquareIsNonNegative(e);
    PositiveProduct(Square(b), s.squares);
    PositiveProduct(s.n, Square(e));
  }

  lemma ShiftedAtMeans(s: Sums, k: real, b: real, e: real)
    requires s.devX == 0.0 && s.devY == 0.0 && s.cross == 0.0
    ensures Shifted(s, k, b, e) == s.residual + Product(Square(b), s.squares) + Product(s.n, Square(e))
  {
  }

  /** No other line is closer to the points, and none with another slope is as close. */
  lemma FitIsOptimal(ps: seq<Point>, a: real, c: real)
    requires ps != [] && Slope(ps).Some?
    ensures var k := Slope(ps).value;
            var intercept := MeanY(ps) - Product(k, MeanX(ps));
            && Residual(ps, k, intercept) <= Residual(ps, a, c)
            && (a != k ==> Residual(ps, k, intercept) < Residual(ps, a, c))
  {
    hide Slope, SumsOf, MeanX, MeanY, Residual, Shifted, Product, Offset;
    var k, mx, my := Slope(ps).value, MeanX(ps), MeanY(ps);
    var s := SumsOf(ps, mx, my, k);
    SumsCancel(ps);
    ResidualShifts(ps, mx, my, k, a, c);
    var e := Offset(a, c, mx, my);
    assert Residual(ps, a, c) == Shifted(s, k, a - k, e);
    ShiftedIsMore(s, k, a - k, e);
    assert s.residual == Residual(ps, k, my - Product(k, mx));
  }
}
