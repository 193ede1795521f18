/**
 From a georeferenced position back to a position in the geolocation array: the
 exact inverse of the bilinear formula of one grid cell.
 */
module Geoloc {
  import opened RealFacts
  import opened Basics

  const CUT_OFF := 0.000000000001

  /** The corners of a cell: 0 and 2 on its line, 1 and 3 on the next line. */
  datatype Cell = Cell(x0: real, y0: real, x1: real, y1: real, x2: real, y2: real, x3: real, y3: real)

  /** The forward formula along one axis, `t` columns and `s` lines into the cell. */
  function Forward(g0: real, g1: real, g2: real, g3: real, t: real, s: real): real {
    (1.0 - s) * (g0 + t * (g2 - g0)) + s * (g1 + t * (g3 - g1))
  }

  function ForwardX(c: Cell, t: real, s: real): real {
    Forward(c.x0, c.x1, c.x2, c.x3, t, s)
  }

  function ForwardY(c: Cell, t: real, s: real): real {
    Forward(c.y0, c.y1, c.y2, c.y3, t, s)
  }

  /** From `a` to `b`, at `s`. */
  function Mix(a: real, b: real, s: real): real {
    (1.0 - s) * a + s * b
  }

  function CrossProduct(ax: real, ay: real, bx: real, bY: real): real {
    ax * bY - ay * bx
  }

  function CoefA(c: Cell, x: real, y: real): real {
    CrossProduct(c.x0 - x, c.y0 - y, c.x0 - c.x2, c.y0 - c.y2)
  }

  function CoefB(c: Cell, x: real, y: real): real {
    (CrossProduct(c.x0 - x, c.y0 - y, c.x1 - c.x3, c.y1 - c.y3) + CrossProduct(c.x1 - x, c.y1 - y, c.x0 - c.x2, c.y0 - c.y2)) / 2.0
  }

  function CoefC(c: Cell, x: real, y: real): real {
    CrossProduct(c.x1 - x, c.y1 - y, c.x1 - c.x3, c.y1 - c.y3)
  }

  function Ratio(n: real, d: real): real
    requires d != 0.0
  {
    n / d
  }

  // ----------------------------------------------------------------- the equations

  /** Going `t` of the way misses the target by the difference of two mixes. */
  lemma ForwardMisses(g: real, g0: real, g1: real, g2: real, g3: real, t: real, s: real)
    ensures Forward(g0, g1, g2, g3, t, s) - g == Mix(g0 - g, g1 - g, s) - t * Mix(g0 - g2, g1 - g3, s)
  {
    var a, b := (1.0 - s) * (g2 - g0), s * (g3 - g1);
    assert (1.0 - s) * (g0 + t * (g2 - g0)) == (1.0 - s) * g0 + t * a;
    assert s * (g1 + t * (g3 - g1)) == s * g1 + t * b;
    assert Mix(g0 - g2, g1 - g3, s) == -a - b;
    assert t * (-a - b) == -(t * a) - t * b;
    assert Mix(g0 - g, g1 - g, s) == (1.0 - s) * g0 + s * g1 - g;
  }

  lemma MixesMultiply(a: real, b: real, e: real, f: real, s: real)
    ensures Mix(a, b, s) * Mix(e, f, s) == a * e - s * (2.0 * (a * e) - (a * f + b * e)) + s * s * (a * e - (a * f + b * e) + b * f)
  {
    assert Mix(a, b, s) == a + s * (b - a);
    assert Mix(e, f, s) == e + s * (f - e);
    var p, q := b - a, f - e;
    assert (a + s * p) * (e + s * q) == a * e + s * (a * q) + s * (p * e) + s * s * (p * q);
    assert a * q + p * e == -(2.0 * (a * e) - (a * f + b * e));
    assert p * q == a * e - (a * f + b * e) + b * f;
    assert s * (a * q) + s * (p * e) == s * (a * q + p * e);
  }

  /** The cross product of the two mixes; it vanishes where one `t` serves both axes. */
  function Cross(c: Cell, x: real, y: real, s: real): real {
    CrossProduct(Mix(c.x0 - x, c.x1 - x, s), Mix(c.y0 - y, c.y1 - y, s), Mix(c.x0 - c.x2, c.x1 - c.x3, s), Mix(c.y0 - c.y2, c.y1 - c.y3, s))
  }

  function Quadratic(a: real, b: real, c: real, s: real): real {
    a - s * (2.0 * (a - b)) + s * s * (a - 2.0 * b + c)
  }

  lemma QuadraticIsLinear(a: real, b: real, c: real, a': real, b': real, c': real, s: real)
    ensures Quadratic(a - a', b - b', c - c', s) == Quadratic(a, b, c, s) - Quadratic(a', b', c', s)
  {
    var p, p' := 2.0 * (a - b), 2.0 * (a' - b');
    var q, q' := a - 2.0 * b + c, a' - 2.0 * b' + c';
    assert 2.0 * ((a - a') - (b - b')) == p - p';
    assert (a - a') - 2.0 * (b - b') + (c - c') == q - q';
    assert s * (p - p') == s * p - s * p';
    assert s * s * (q - q') == s * s * q - s * s * q';
  }

  lemma MixesAreQuadratic(a: real, b: real, e: real, f: real, s: real)
    ensures Mix(a, b, s) * Mix(e, f, s) == Quadratic(a * e, (a * f + b * e) / 2.0, b * f, s)
  {
    MixesMultiply(a, b, e, f, s);
    var p := a * f + b * e;
    assert 2.0 * (a * e - p / 2.0) == 2.0 * (a * e) - p;
    assert a * e - 2.0 * (p / 2.0) + b * f == a * e - p + b * f;
  }

  /** The cross product of two mixes is a quadratic in `s`. */
  lemma MixedCross(a: real, a': real, b: real, b': real, e: real, e': real, f: real, f': real, s: real)
    ensures CrossProduct(Mix(a, b, s), Mix(a', b', s), Mix(e', f', s), Mix(e, f, s)) ==
      Quadratic(CrossProduct(a, a', e', e), (CrossProduct(a, a', f', f) + CrossProduct(b, b', e', e)) / 2.0, CrossProduct(b, b', f', f), s)
  {
    hide Quadratic;
    hide Mix;
    MixesAreQuadratic(a, b, e, f, s);
    MixesAreQuadratic(a', b', e', f', s);
    QuadraticIsLinear(a * e, (a * f + b * e) / 2.0, b * f, a' * e', (a' * f' + b' * e') / 2.0, b' * f', s);
    CoefBIs(a, b, e, f, a', b', e', f');
  }

  /** The parameter `s` is wanted where a quadratic with the coefficients A, B and C vanishes. */
  lemma CrossIsQuadratic(c: Cell, x: real, y: real, s: real)
    ensures Cross(c, x, y, s) == Quadratic(CoefA(c, x, y), CoefB(c, x, y), CoefC(c, x, y), s)
  {
    hide Quadratic;
    hide Mix;
    hide CrossProduct;
    MixedCross(c.x0 - x, c.y0 - y, c.x1 - x, c.y1 - y, c.y0 - c.y2, c.x0 - c.x2, c.y1 - c.y3, c.x1 - c.x3, s);
  }

  lemma CoefBIs(a: real, b: real, e: real, f: real, a': real, b': real, e': real, f': real)
    ensures ((a * f - a' * f') + (b * e - b' * e')) / 2.0 == (a * f + b * e) / 2.0 - (a' * f' + b' * e') / 2.0
  {
  }

  /** Both solutions by the formula are roots. */
  lemma FormulaGivesRoots(a: real, b: real, c: real, root: real, s: real)
    requires a - 2.0 * b + c != 0.0 && root * root == b * b - a * c
    requires s == Ratio((a - b) + root, a - 2.0 * b + c) || s == Ratio((a - b) - root, a - 2.0 * b + c)
    ensures Quadratic(a, b, c, s) == 0.0
  {
    var d := a - 2.0 * b + c;
    Divide((a - b) + root, d);
    Divide((a - b) - root, d);
    var w := s * d;
    assert w - (a - b) == root || w - (a - b) == -root;
    assert (w - (a - b)) * (w - (a - b)) == root * root;
    Completed(a, b, c, w, d);
    assert d * Quadratic(a, b, c, s) == d * a - 2.0 * (a - b) * w + w * w by {
      Scaled(a, b, c, s, w, d);
    }
    Cancel(d, Quadratic(a, b, c, s), 0.0);
  }

  lemma Scaled(a: real, b: real, c: real, s: real, w: real, d: real)
    requires d == a - 2.0 * b + c && w == s * d
    ensures d * Quadratic(a, b, c, s) == d * a - 2.0 * (a - b) * w + w * w
  {
    var p := 2.0 * (a - b);
    assert d * (s * p) == p * w;
    assert d * (s * s * d) == w * w;
    assert d * (a - s * p + s * s * d) == d * a - d * (s * p) + d * (s * s * d);
  }

  lemma Completed(a: real, b: real, c: real, w: real, d: real)
    requires d == a - 2.0 * b + c
    ensures d * a - 2.0 * (a - b) * w + w * w == (w - (a - b)) * (w - (a - b)) - (b * b - a * c)
  {
    assert (w - (a - b)) * (w - (a - b)) == w * w - 2.0 * (a - b) * w + (a - b) * (a - b);
    assert (a - b) * (a - b) == a * a - 2.0 * (a * b) + b * b;
    assert d * a == a * a - 2.0 * (a * b) + a * c;
  }

  /** What the straight-line solution leaves over. */
  lemma StraightLineLeaves(a: real, b: real, c: real, s: real)
    requires a != c && s == Ratio(a, a - c)
    ensures Quadratic(a, b, c, s) == (a - 2.0 * b + c) * (s * (s - 1.0))
    ensures Quadratic(a, b, c, s) == 0.0 <==> a - 2.0 * b + c == 0.0 || a == 0.0 || c == 0.0
  {
    var d := a - 2.0 * b + c;
    Divide(a, a - c);
    assert s * (a - c) == a;
    assert s * (2.0 * (a - b)) == s * (a - c) + s * d;
    assert s * s * d - s * d == d * (s * (s - 1.0));
    assert s * (s - 1.0) == 0.0 <==> s == 0.0 || s == 1.0;
    assert s == 0.0 <==> a == 0.0;
    assert s == 1.0 <==> c == 0.0;
    if d != 0.0 && s * (s - 1.0) != 0.0 {
      if d * (s * (s - 1.0)) == 0.0 {
        Cancel(d, s * (s - 1.0), 0.0);
      }
    }
  }

  // -------------------------------------------------------------------- the inverse

  function Denom(c: Cell, x: real, y: real): real {
    CoefA(c, x, y) - 2.0 * CoefB(c, x, y) + CoefC(c, x, y)
  }

  function CutOff(c: Cell, x: real, y: real): real {
    CUT_OFF * (Abs(CoefA(c, x, y)) + Abs(CoefB(c, x, y)) + Abs(CoefC(c, x, y)))
  }

  /** The quadratic term is taken for zero. */
  predicate Straight(c: Cell, x: real, y: real) {
    Abs(Denom(c, x, y)) <= CutOff(c, x, y)
  }

  /** Where the formulas of the inverse have a value: `root` is the square root it takes. */
  predicate Solvable(c: Cell, x: real, y: real, root: real) {
    if Straight(c, x, y) then CoefA(c, x, y) != CoefC(c, x, y)
    else root * root == CoefB(c, x, y) * CoefB(c, x, y) - CoefA(c, x, y) * CoefC(c, x, y)
  }

  lemma BentIsNotZero(c: Cell, x: real, y: real)
    requires !Straight(c, x, y)
    ensures Denom(c, x, y) != 0.0
  {
  }

  /** How many lines into the cell. */
  function InverseS(c: Cell, x: real, y: real, root: real): real
    requires Solvable(c, x, y, root)
  {
    var a, b := CoefA(c, x, y), CoefB(c, x, y);
    if Straight(c, x, y) then Ratio(a, a - CoefC(c, x, y))
    else
      BentIsNotZero(c, x, y);
      var s1, s2 := Ratio((a - b) + root, Denom(c, x, y)), Ratio((a - b) - root, Denom(c, x, y));
      if s1 < 0.0 || s1 > 1.0 then s2 else s1
  }

  function DenomX(c: Cell, s: real): real {
    Mix(c.x0 - c.x2, c.x1 - c.x3, s)
  }

  function DenomY(c: Cell, s: real): real {
    Mix(c.y0 - c.y2, c.y1 - c.y3, s)
  }

  lemma CutOffIsNotNegative(c: Cell, x: real, y: real)
    ensures CutOff(c, x, y) >= 0.0
  {
  }

  /** How many columns into the cell, once the line is known. */
  function InverseT(c: Cell, x: real, y: real, s: real): real {
    CutOffIsNotNegative(c, x, y);
    if Abs(DenomX(c, s)) > CutOff(c, x, y) then Ratio(Mix(c.x0 - x, c.x1 - x, s), DenomX(c, s))
    else if Abs(DenomY(c, s)) > CutOff(c, x, y) then Ratio(Mix(c.y0 - y, c.y1 - y, s), DenomY(c, s))
    else 0.0
  }

  function Discriminant(c: Cell, x: real, y: real): real {
    CoefB(c, x, y) * CoefB(c, x, y) - CoefA(c, x, y) * CoefC(c, x, y)
  }

  /** The formulas divide by zero or take the root of a negative number. */
  predicate Undefined(c: Cell, x: real, y: real) {
    if Straight(c, x, y) then CoefA(c, x, y) == CoefC(c, x, y) else Discriminant(c, x, y) < 0.0
  }

  /** The forward formula takes a place in the cell, t columns and s lines into it, to the target. */
  predicate Reaches(c: Cell, x: real, y: real, t: real, s: real) {
    0.0 <= t <= 1.0 && 0.0 <= s <= 1.0 && ForwardX(c, t, s) == x && ForwardY(c, t, s) == y
  }

  /** Nothing is lost by the cut-off of the quadratic term. */
  predicate NothingCutOff(c: Cell, x: real, y: real) {
    !Straight(c, x, y) || Denom(c, x, y) == 0.0
  }

  /** A column can be computed for line s. */
  predicate ColumnKnown(c: Cell, x: real, y: real, s: real) {
    Abs(DenomX(c, s)) > CutOff(c, x, y) || Abs(DenomY(c, s)) > CutOff(c, x, y)
  }

  /**
   Moves a position from corner 0 of the cell to the place that maps to (x, y);
   None stands for a line that is infinite or not a number.
   */
  method InverseBilinearInterpolation(c: Cell, x: real, y: real, sqrt: real -> real, i0: real, j0: real)
    returns (res: Option<(real, real)>)
    requires IsSqrt(sqrt)
    ensures res == None <==> Undefined(c, x, y)
    ensures res.Some? ==>
      && Solvable(c, x, y, sqrt(Discriminant(c, x, y)))
      && var s := InverseS(c, x, y, sqrt(Discriminant(c, x, y))); res.value == (i0 + InverseT(c, x, y, s), j0 + s)
    ensures res.Some? ==>
      var t, s := res.value.0 - i0, res.value.1 - j0;
      (ForwardX(c, t, s) == x && ForwardY(c, t, s) == y) <==> ExactAt(c, x, y, s)
    ensures NothingCutOff(c, x, y) && (exists t, s :: Reaches(c, x, y, t, s)) ==>
      && (res == None ==> Straight(c, x, y))
      && (res.Some? ==>
            var t, s := res.value.0 - i0, res.value.1 - j0;
            && 0.0 <= s <= 1.0
            && (ColumnKnown(c, x, y, s) ==> ForwardX(c, t, s) == x && ForwardY(c, t, s) == y))
  {
    if NothingCutOff(c, x, y) && exists t, s :: Reaches(c, x, y, t, s) {
      ghost var t', s' :| Reaches(c, x, y, t', s');
      TargetIsFound(c, x, y, t', s', sqrt);
    }
    if Undefined(c, x, y) {
      return None;
    }
    var root := sqrt(Discriminant(c, x, y));
    var s := InverseS(c, x, y, root);
    var t := InverseT(c, x, y, s);
    res := Some((i0 + t, j0 + s));
    InverseThenForward(c, x, y, root);
  }

  // ---------------------------------------------------- the root that is chosen

  lemma ZeroProduct(a: real, b: real)
    requires a * b == 0.0
    ensures a == 0.0 || b == 0.0
  {
    if a != 0.0 {
      Cancel(a, b, 0.0);
    }
  }

  /** A place that maps to the target lies on a line where the quadratic vanishes. */
  lemma PlaceIsRoot(c: Cell, x: real, y: real, t: real, s: real)
    requires ForwardX(c, t, s) == x && ForwardY(c, t, s) == y
    ensures Quadratic(CoefA(c, x, y), CoefB(c, x, y), CoefC(c, x, y), s) == 0.0
  {
    hide Mix;
    hide Forward;
    hide Quadratic;
    hide CoefA;
    hide CoefB;
    hide CoefC;
    ForwardMisses(x, c.x0, c.x1, c.x2, c.x3, t, s);
    ForwardMisses(y, c.y0, c.y1, c.y2, c.y3, t, s);
    CrossIsQuadratic(c, x, y, s);
    Parallel(Mix(c.x0 - c.x2, c.x1 - c.x3, s), Mix(c.y0 - c.y2, c.y1 - c.y3, s), t);
  }

  lemma Parallel(vx: real, vy: real, t: real)
    ensures CrossProduct(t * vx, t * vy, vx, vy) == 0.0
  {
  }

  /** Every root of the quadratic is one of the two that the formula gives, and the discriminant is not negative. */
  lemma RootsComeFromFormula(a: real, b: real, c: real, s: real)
    requires a - 2.0 * b + c != 0.0 && Quadratic(a, b, c, s) == 0.0
    ensures b * b - a * c >= 0.0
    ensures forall root :: Sq(root) == b * b - a * c ==>
      s == Ratio((a - b) + root, a - 2.0 * b + c) || s == Ratio((a - b) - root, a - 2.0 * b + c)
  {
    hide Quadratic;
    hide Ratio;
    var d := a - 2.0 * b + c;
    var w := s * d;
    var p := w - (a - b);
    Scaled(a, b, c, s, w, d);
    Completed(a, b, c, w, d);
    assert p * p == b * b - a * c;
    SqZero(p);
    forall root | Sq(root) == b * b - a * c
      ensures s == Ratio((a - b) + root, d) || s == Ratio((a - b) - root, d)
    {
      assert (p - root) * (p + root) == p * p - root * root;
      ZeroProduct(p - root, p + root);
      if p == root {
        QuotientIs(s, d, (a - b) + root);
      } else {
        QuotientIs(s, d, (a - b) - root);
      }
    }
  }

  lemma QuotientIs(s: real, d: real, n: real)
    requires d != 0.0 && s * d == n
    ensures s == Ratio(n, d)
  {
  }

  /** Without a quadratic term there is one root, if any. */
  lemma StraightRoot(a: real, b: real, c: real, s: real)
    requires a - 2.0 * b + c == 0.0 && Quadratic(a, b, c, s) == 0.0 && a != c
    ensures s == Ratio(a, a - c)
  {
    assert 2.0 * (a - b) == a - c;
    QuotientIs(s, a - c, a);
  }

  /** Which root is chosen: the first one if it lies in the cell, else the second. */
  lemma ChosenRoot(c: Cell, x: real, y: real, root: real)
    requires !Straight(c, x, y) && Solvable(c, x, y, root)
    ensures Denom(c, x, y) != 0.0
    ensures var a, b, s := CoefA(c, x, y), CoefB(c, x, y), InverseS(c, x, y, root);
      var s1, s2 := Ratio((a - b) + root, Denom(c, x, y)), Ratio((a - b) - root, Denom(c, x, y));
      if 0.0 <= s1 <= 1.0 then s == s1 else s == s2
  {
    hide CoefA;
    hide CoefB;
    hide CoefC;
    hide Ratio;
    hide CutOff;
    BentIsNotZero(c, x, y);
  }

  lemma RootOfDiscriminant(c: Cell, x: real, y: real, sqrt: real -> real)
    requires IsSqrt(sqrt) && !Straight(c, x, y) && Discriminant(c, x, y) >= 0.0
    ensures !Undefined(c, x, y) && Solvable(c, x, y, sqrt(Discriminant(c, x, y)))
    ensures Sq(sqrt(Discriminant(c, x, y))) == Discriminant(c, x, y)
  {
    hide CoefA;
    hide CoefB;
    hide CoefC;
    hide Straight;
  }

  /** If some place in the cell maps to the target, the line that is chosen lies in the cell. */
  lemma TargetIsFound(c: Cell, x: real, y: real, t: real, s: real, sqrt: real -> real)
    requires IsSqrt(sqrt) && Reaches(c, x, y, t, s) && NothingCutOff(c, x, y)
    ensures Undefined(c, x, y) ==> Straight(c, x, y)
    ensures !Undefined(c, x, y) ==> Solvable(c, x, y, sqrt(Discriminant(c, x, y)))
    ensures !Undefined(c, x, y) ==> 0.0 <= InverseS(c, x, y, sqrt(Discriminant(c, x, y))) <= 1.0
  {
    hide CoefA;
    hide CoefB;
    hide CoefC;
    hide Ratio;
    hide Straight;
    hide ForwardX;
    hide ForwardY;
    hide Quadratic;
    PlaceIsRoot(c, x, y, t, s);
    if Straight(c, x, y) {
      if !Undefined(c, x, y) {
        StraightRoot(CoefA(c, x, y), CoefB(c, x, y), CoefC(c, x, y), s);
      }
    } else {
      BentTargetIsFound(c, x, y, s, sqrt);
    }
  }

  lemma BentTargetIsFound(c: Cell, x: real, y: real, s: real, sqrt: real -> real)
    requires IsSqrt(sqrt) && !Straight(c, x, y) && 0.0 <= s <= 1.0
    requires Quadratic(CoefA(c, x, y), CoefB(c, x, y), CoefC(c, x, y), s) == 0.0
    ensures !Undefined(c, x, y) && Solvable(c, x, y, sqrt(Discriminant(c, x, y)))
    ensures 0.0 <= InverseS(c, x, y, sqrt(Discriminant(c, x, y))) <= 1.0
  {
    hide CoefA;
    hide CoefB;
    hide CoefC;
    hide Ratio;
    hide Straight;
    hide Quadratic;
    hide InverseS;
    hide Solvable;
    hide Undefined;
    hide IsSqrt;
    hide Sq;
    BentIsNotZero(c, x, y);
    RootsComeFromFormula(CoefA(c, x, y), CoefB(c, x, y), CoefC(c, x, y), s);
    RootOfDiscriminant(c, x, y, sqrt);
    ChosenRoot(c, x, y, sqrt(Discriminant(c, x, y)));
  }

  /** The corners of the cell are reached at its corners: 0 at the start, 2 along the line, 1 and 3 on the next line. */
  lemma ForwardAtCorners(c: Cell)
    ensures ForwardX(c, 0.0, 0.0) == c.x0 && ForwardY(c, 0.0, 0.0) == c.y0
    ensures ForwardX(c, 1.0, 0.0) == c.x2 && ForwardY(c, 1.0, 0.0) == c.y2
    ensures ForwardX(c, 0.0, 1.0) == c.x1 && ForwardY(c, 0.0, 1.0) == c.y1
    ensures ForwardX(c, 1.0, 1.0) == c.x3 && ForwardY(c, 1.0, 1.0) == c.y3
  {
  }

  /** When the inverse is exact: the condition on the cell and on the target that the theorem below is about. */
  predicate ExactAt(c: Cell, x: real, y: real, s: real) {
    if Abs(DenomX(c, s)) > CutOff(c, x, y) || Abs(DenomY(c, s)) > CutOff(c, x, y)
    then !Straight(c, x, y) || Denom(c, x, y) == 0.0 || CoefA(c, x, y) == 0.0 || CoefC(c, x, y) == 0.0
    else Mix(c.x0 - x, c.x1 - x, s) == 0.0 && Mix(c.y0 - y, c.y1 - y, s) == 0.0
  }

  function Miss(u: real, t: real, v: real): real {
    u - t * v
  }

  /** One `t` that hits the target on the axis it was computed for hits the other one exactly if the cross product vanishes. */
  lemma OtherAxis(u: real, v: real, u': real, v': real)
    requires v != 0.0
    ensures Miss(u, Ratio(u, v), v) == 0.0
    ensures Miss(u', Ratio(u, v), v') == 0.0 <==> CrossProduct(u, u', v, v') == 0.0
    ensures CrossProduct(u', u, v', v) == -CrossProduct(u, u', v, v')
  {
    var t := Ratio(u, v);
    Divide(u, v);
    assert v * (u' - t * v') == u' * v - (t * v) * v';
    if u * v' - u' * v == 0.0 {
      Cancel(v, u' - t * v', 0.0);
    }
  }

  lemma SolvesQuadratic(c: Cell, x: real, y: real, root: real)
    requires Solvable(c, x, y, root)
    ensures var s := InverseS(c, x, y, root);
      Cross(c, x, y, s) == 0.0 <==> !Straight(c, x, y) || Denom(c, x, y) == 0.0 || CoefA(c, x, y) == 0.0 || CoefC(c, x, y) == 0.0
  {
    hide *;
    InverseSIs(c, x, y, root);
    var s := InverseS(c, x, y, root);
    CrossIsQuadratic(c, x, y, s);
    if Straight(c, x, y) {
      StraightLineLeaves(CoefA(c, x, y), CoefB(c, x, y), CoefC(c, x, y), s);
    } else {
      FormulaGivesRoots(CoefA(c, x, y), CoefB(c, x, y), CoefC(c, x, y), root, s);
    }
  }

  lemma InverseSIs(c: Cell, x: real, y: real, root: real)
    requires Solvable(c, x, y, root)
    ensures var a, b, d, s := CoefA(c, x, y), CoefB(c, x, y), CoefC(c, x, y), InverseS(c, x, y, root);
      && Denom(c, x, y) == a - 2.0 * b + d
      && if Straight(c, x, y) then a != d && s == Ratio(a, a - d)
         else a - 2.0 * b + d != 0.0 && root * root == b * b - a * d &&
              (s == Ratio((a - b) + root, a - 2.0 * b + d) || s == Ratio((a - b) - root, a - 2.0 * b + d))
  {
    hide CoefA;
    hide CoefB;
    hide CoefC;
    hide Ratio;
    hide CutOff;
    if !Straight(c, x, y) {
      BentIsNotZero(c, x, y);
    }
  }

  /**
   The inverse followed by the forward formula returns the target, for either root
   and either way to `t`, exactly if the quadratic term was not cut off, or was zero
   anyway, or the target lies on the line through corners 0 and 2 or 1 and 3. When
   no `t` can be computed, it does so only for a target on the line mix itself.
   */
  lemma InverseThenForward(c: Cell, x: real, y: real, root: real)
    requires Solvable(c, x, y, root)
    ensures var s := InverseS(c, x, y, root);
      var t := InverseT(c, x, y, s);
      (ForwardX(c, t, s) == x && ForwardY(c, t, s) == y) <==> ExactAt(c, x, y, s)
  {
    hide InverseS;
    hide Solvable;
    hide Straight;
    hide Denom;
    hide CoefA;
    hide CoefC;
    hide CutOff;
    hide Forward;
    hide Mix;
    hide Cross;
    hide DenomX;
    hide DenomY;
    hide Miss;
    hide Ratio;
    hide CrossProduct;
    var s := InverseS(c, x, y, root);
    var t := InverseT(c, x, y, s);
    SolvesQuadratic(c, x, y, root);
    Misses(c, x, y, t, s);
    CutOffIsNotNegative(c, x, y);
    var ux, uy := Mix(c.x0 - x, c.x1 - x, s), Mix(c.y0 - y, c.y1 - y, s);
    if Abs(DenomX(c, s)) > CutOff(c, x, y) {
      OtherAxis(ux, DenomX(c, s), uy, DenomY(c, s));
    } else if Abs(DenomY(c, s)) > CutOff(c, x, y) {
      OtherAxis(uy, DenomY(c, s), ux, DenomX(c, s));
    }
  }

  lemma Misses(c: Cell, x: real, y: real, t: real, s: real)
    ensures ForwardX(c, t, s) - x == Miss(Mix(c.x0 - x, c.x1 - x, s), t, DenomX(c, s))
    ensures ForwardY(c, t, s) - y == Miss(Mix(c.y0 - y, c.y1 - y, s), t, DenomY(c, s))
    ensures Miss(Mix(c.x0 - x, c.x1 - x, s), 0.0, DenomX(c, s)) == Mix(c.x0 - x, c.x1 - x, s)
    ensures Miss(Mix(c.y0 - y, c.y1 - y, s), 0.0, DenomY(c, s)) == Mix(c.y0 - y, c.y1 - y, s)
    ensures Cross(c, x, y, s) == CrossProduct(Mix(c.x0 - x, c.x1 - x, s), Mix(c.y0 - y, c.y1 - y, s), DenomX(c, s), DenomY(c, s))
  {
    hide Mix;
    hide Forward;
    ForwardMisses(x, c.x0, c.x1, c.x2, c.x3, t, s);
    ForwardMisses(y, c.y0, c.y1, c.y2, c.y3, t, s);
  }

  const NEAR_PARALLELOGRAM := Cell(0.0, 0.0, 0.0, 1.0, 1.0, 0.0, 1.0000000000001, 1.0)

  lemma NearCoefficients()
    ensures CoefA(NEAR_PARALLELOGRAM, 0.5, 0.5) == -0.5
    ensures CoefB(NEAR_PARALLELOGRAM, 0.5, 0.5) == -0.000000000000025
    ensures CoefC(NEAR_PARALLELOGRAM, 0.5, 0.5) == 0.50000000000005
  {
  }

  /** A cell that is not quite a parallelogram, and a target for which the quadratic term is lost. */
  lemma NearParallelogramMisses()
    ensures Solvable(NEAR_PARALLELOGRAM, 0.5, 0.5, 0.0)
    ensures var s := InverseS(NEAR_PARALLELOGRAM, 0.5, 0.5, 0.0);
      ForwardY(NEAR_PARALLELOGRAM, InverseT(NEAR_PARALLELOGRAM, 0.5, 0.5, s), s) != 0.5
  {
    NearCoefficients();
    hide CoefA;
    hide CoefB;
    hide CoefC;
    hide InverseT;
    assert Straight(NEAR_PARALLELOGRAM, 0.5, 0.5);
    var s := InverseS(NEAR_PARALLELOGRAM, 0.5, 0.5, 0.0);
    Divide(-0.5, -1.00000000000005);
    UnitForward(InverseT(NEAR_PARALLELOGRAM, 0.5, 0.5, s), s);
    hide Forward;
  }

  lemma UnitForward(t: real, s: real)
    ensures Forward(0.0, 1.0, 0.0, 1.0, t, s) == s
  {
  }
}
