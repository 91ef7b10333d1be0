/** What point addition computes: the addition law of the curve, and points on the curve stay on it. */
module EdwardsLaw {
  import opened Edwards

  // --- congruence modulo P ---------------------------------------------------------------

  /** `a` and `b` differ by a multiple of P. */
  predicate Eqv(a: int, b: int) {
    a % P == b % P
  }

  lemma EqvMod(a: int)
    ensures Eqv(a % P, a)
  {
  }

  lemma EqvMul(a: int, a': int, b: int, b': int)
    requires Eqv(a, a') && Eqv(b, b')
    ensures Eqv(a * b, a' * b')
  {
    hide *;
    EqvIs(a, a');
    EqvIs(b, b');
    ModMul(a, b, P);
    ModMul(a', b', P);
    EqvFrom(a * b, a' * b');
  }

  lemma EqvIs(a: int, b: int)
    requires Eqv(a, b)
    ensures a % P == b % P && P > 0
  {
  }

  lemma EqvFrom(a: int, b: int)
    requires a % P == b % P
    ensures Eqv(a, b)
  {
  }

  lemma EqvAdd(a: int, a': int, b: int, b': int)
    requires Eqv(a, a') && Eqv(b, b')
    ensures Eqv(a + b, a' + b') && Eqv(a - b, a' - b')
  {
    hide *;
    EqvIs(a, a');
    EqvIs(b, b');
    ModSum(a, b, P);
    ModSum(a', b', P);
    EqvFrom(a + b, a' + b');
    EqvFrom(a - b, a' - b');
  }

  lemma ModSum(a: int, b: int, m: int)
    requires m > 0
    ensures (a + b) % m == (a % m + b % m) % m && (a - b) % m == (a % m - b % m) % m
  {
    SumOfRests(a, a / m, a % m, b, b / m, b % m, m);
  }

  lemma SumOfRests(a: int, qa: int, ra: int, b: int, qb: int, rb: int, m: int)
    requires m > 0 && a == m * qa + ra && b == m * qb + rb
    ensures (a + b) % m == (ra + rb) % m && (a - b) % m == (ra - rb) % m
  {
    Regrouped(m, qa, ra, qb, rb);
    ModAddMultiple(ra + rb, qa + qb, m);
    ModAddMultiple(ra - rb, qa - qb, m);
  }

  lemma Regrouped(m: int, qa: int, ra: int, qb: int, rb: int)
    ensures m * (qa + qb) + (ra + rb) == m * qa + ra + (m * qb + rb)
    ensures m * (qa - qb) + (ra - rb) == m * qa + ra - (m * qb + rb)
  {
  }

  /** The numerators and denominators of the addition law: x = e/g, y = h/f. */
  function CrossSum(p: Point, q: Point): int {
    p.X * q.Y + p.Y * q.X
  }

  function PlainSum(p: Point, q: Point): int {
    p.Y * q.Y + p.X * q.X
  }

  function Plus(p: Point, q: Point): int {
    p.Z * q.Z + D * (p.T * q.T)
  }

  function Minus(p: Point, q: Point): int {
    p.Z * q.Z - D * (p.T * q.T)
  }

  /** A sum is made of four factors, twice a numerator or denominator each. */
  lemma Factors(p: Point, q: Point) returns (E: int, F: int, G: int, H: int)
    ensures EdwardsAdd(p, q) == Point(E * F % P, G * H % P, F * G % P, E * H % P)
    ensures Eqv(E, 2 * CrossSum(p, q)) && Eqv(F, 2 * Minus(p, q))
    ensures Eqv(G, 2 * Plus(p, q)) && Eqv(H, 2 * PlainSum(p, q))
  {
    hide Eqv, CrossSum, PlainSum, Plus, Minus;
    var a, b := (p.Y - p.X) * (q.Y - q.X), (p.Y + p.X) * (q.Y + q.X);
    var c, d := p.T * 2 * D * q.T, p.Z * 2 * q.Z;
    E, F := (b % P - a % P) % P, (d % P - c % P) % P;
    G, H := (d % P + c % P) % P, (b % P + a % P) % P;
    Products(p, q);
    Reduced(a, b);
    Reduced(c, d);
  }

  lemma Products(p: Point, q: Point)
    ensures (p.Y + p.X) * (q.Y + q.X) - (p.Y - p.X) * (q.Y - q.X) == 2 * CrossSum(p, q)
    ensures (p.Y + p.X) * (q.Y + q.X) + (p.Y - p.X) * (q.Y - q.X) == 2 * PlainSum(p, q)
    ensures p.Z * 2 * q.Z - p.T * 2 * D * q.T == 2 * Minus(p, q)
    ensures p.Z * 2 * q.Z + p.T * 2 * D * q.T == 2 * Plus(p, q)
  {
    Spread(p.X, p.Y, q.X, q.Y);
    Doubled(p.T, q.T, p.Z, q.Z, D);
  }

  lemma Spread(x: int, y: int, u: int, v: int)
    ensures (y + x) * (v + u) - (y - x) * (v - u) == 2 * (x * v + y * u)
    ensures (y + x) * (v + u) + (y - x) * (v - u) == 2 * (y * v + x * u)
  {
  }

  lemma Doubled(t: int, u: int, z: int, w: int, d: int)
    ensures t * 2 * d * u == 2 * (d * (t * u)) && z * 2 * w == 2 * (z * w)
  {
    assert t * 2 * d * u == 2 * d * (t * u);
  }

  lemma Reduced(a: int, b: int)
    ensures Eqv((b % P - a % P) % P, b - a) && Eqv((b % P + a % P) % P, b + a)
  {
    EqvMod(a);
    EqvMod(b);
    EqvAdd(b % P, b, a % P, a);
    EqvMod(b % P - a % P);
    EqvMod(b % P + a % P);
  }

  /** The four coordinates of a sum, as products of the numerators and denominators. */
  lemma SumCoordinates(p: Point, q: Point)
    ensures var s := EdwardsAdd(p, q);
            && Eqv(s.X, 4 * (CrossSum(p, q) * Minus(p, q))) && Eqv(s.Y, 4 * (Plus(p, q) * PlainSum(p, q)))
            && Eqv(s.Z, 4 * (Minus(p, q) * Plus(p, q))) && Eqv(s.T, 4 * (CrossSum(p, q) * PlainSum(p, q)))
  {
    hide *;
    var E, F, G, H := Factors(p, q);
    FourProducts(EdwardsAdd(p, q), E, F, G, H, CrossSum(p, q), Minus(p, q), Plus(p, q), PlainSum(p, q));
  }

  lemma FourProducts(s: Point, E: int, F: int, G: int, H: int, e: int, f: int, g: int, h: int)
    requires s == Point(E * F % P, G * H % P, F * G % P, E * H % P)
    requires Eqv(E, 2 * e) && Eqv(F, 2 * f) && Eqv(G, 2 * g) && Eqv(H, 2 * h)
    ensures Eqv(s.X, 4 * (e * f)) && Eqv(s.Y, 4 * (g * h)) && Eqv(s.Z, 4 * (f * g)) && Eqv(s.T, 4 * (e * h))
  {
    hide Eqv;
    Quadruple(E, e, F, f);
    Quadruple(G, g, H, h);
    Quadruple(F, f, G, g);
    Quadruple(E, e, H, h);
  }

  lemma Quadruple(A: int, a: int, B: int, b: int)
    requires Eqv(A, 2 * a) && Eqv(B, 2 * b)
    ensures Eqv(A * B % P, 4 * (a * b))
  {
    hide Eqv;
    EqvMul(A, 2 * a, B, 2 * b);
    EqvMod(A * B);
    EqvTrans(A * B % P, A * B, 2 * a * (2 * b));
    assert 2 * a * (2 * b) == 4 * (a * b);
  }

  lemma EqvTrans(a: int, b: int, c: int)
    requires Eqv(a, b) && Eqv(b, c)
    ensures Eqv(a, c) && Eqv(c, a)
  {
  }

  lemma EqvRefl(a: int)
    ensures Eqv(a, a)
  {
  }

  /**
   * The addition law of section 5.1.4 of RFC 8032, denominators multiplied out: the sum of (x1, y1) and
   * (x2, y2) is x = (x1*y2 + y1*x2) / (1 + d*x1*x2*y1*y2), y = (y1*y2 + x1*x2) / (1 - d*x1*x2*y1*y2).
   */
  lemma AdditionLaw(p: Point, q: Point)
    ensures var s := EdwardsAdd(p, q);
            && Eqv(s.X * (p.Z * q.Z + D * (p.T * q.T)), s.Z * (p.X * q.Y + p.Y * q.X))
            && Eqv(s.Y * (p.Z * q.Z - D * (p.T * q.T)), s.Z * (p.Y * q.Y + p.X * q.X))
            && Eqv(s.Z, 4 * ((p.Z * q.Z - D * (p.T * q.T)) * (p.Z * q.Z + D * (p.T * q.T))))
            && Eqv(s.T, 4 * ((p.X * q.Y + p.Y * q.X) * (p.Y * q.Y + p.X * q.X)))
            && 0 <= s.X < P && 0 <= s.Y < P && 0 <= s.Z < P && 0 <= s.T < P
  {
    hide Eqv;
    SumCoordinates(p, q);
    Ranges(p, q);
    hide EdwardsAdd;
    var s, e, f, g, h := EdwardsAdd(p, q), CrossSum(p, q), Minus(p, q), Plus(p, q), PlainSum(p, q);
    Quotient(s.X, s.Z, e, f, g);
    assert f * g == g * f;
    assert g * h == h * g;
    Quotient(s.Y, s.Z, h, g, f);
  }

  lemma Ranges(p: Point, q: Point)
    ensures var s := EdwardsAdd(p, q); 0 <= s.X < P && 0 <= s.Y < P && 0 <= s.Z < P && 0 <= s.T < P
  {
  }

  lemma Quotient(x: int, z: int, e: int, f: int, g: int)
    requires Eqv(x, 4 * (e * f)) && Eqv(z, 4 * (f * g))
    ensures Eqv(x * g, z * e)
  {
    hide Eqv;
    EqvRefl(g);
    EqvRefl(e);
    EqvMul(x, 4 * (e * f), g, g);
    EqvMul(z, 4 * (f * g), e, e);
    assert 4 * (e * f) * g == 4 * (f * g) * e by { Shuffle(e, f, g); }
    EqvTrans(z * e, 4 * (e * f) * g, 4 * (e * f) * g);
    EqvTrans(x * g, 4 * (e * f) * g, z * e);
  }

  lemma Shuffle(e: int, f: int, g: int)
    ensures 4 * (e * f) * g == 4 * (f * g) * e
  {
    assert (e * f) * g == (f * g) * e;
  }

  // --- staying on the curve -----------------------------------------------------------------

  /** The curve equation -x^2 + y^2 = 1 + d*x^2*y^2 on extended coordinates. */
  predicate OnCurve(p: Point) {
    Extended(p) && Eqv(p.Y * p.Y - p.X * p.X, p.Z * p.Z + D * (p.T * p.T))
  }

  /** The sum of two points that satisfy the curve equation satisfies it. */
  lemma SumOnCurve(p: Point, q: Point)
    requires OnCurve(p) && OnCurve(q)
    ensures OnCurve(EdwardsAdd(p, q))
  {
    AddIsExtended(p, q);
    SumCoordinates(p, q);
    hide EdwardsAdd, Eqv, Extended;
    var e, f, g, h := CrossSum(p, q), Minus(p, q), Plus(p, q), PlainSum(p, q);
    Equation(p, q);
    Scaled16(EdwardsAdd(p, q), e, f, g, h);
  }

  lemma Scaled16(s: Point, e: int, f: int, g: int, h: int)
    requires Eqv(s.X, 4 * (e * f)) && Eqv(s.Y, 4 * (g * h)) && Eqv(s.Z, 4 * (f * g)) && Eqv(s.T, 4 * (e * h))
    requires Eqv(g * h * (g * h) - e * f * (e * f), f * g * (f * g) + D * (e * h * (e * h)))
    ensures Eqv(s.Y * s.Y - s.X * s.X, s.Z * s.Z + D * (s.T * s.T))
  {
    hide *;
    Square4(s.X, e * f);
    Square4(s.Y, g * h);
    Square4(s.Z, f * g);
    Square4(s.T, e * h);
    Sixteenfold(s.X * s.X, s.Y * s.Y, s.Z * s.Z, s.T * s.T,
                e * f * (e * f), g * h * (g * h), f * g * (f * g), e * h * (e * h));
  }

  lemma Sixteenfold(x: int, y: int, z: int, t: int, x': int, y': int, z': int, t': int)
    requires Eqv(x, 16 * x') && Eqv(y, 16 * y') && Eqv(z, 16 * z') && Eqv(t, 16 * t')
    requires Eqv(y' - x', z' + D * t')
    ensures Eqv(y - x, z + D * t)
  {
    hide *;
    EqvRefl(D);
    EqvRefl(16);
    EqvMul(D, D, t, 16 * t');
    EqvAdd(y, 16 * y', x, 16 * x');
    EqvAdd(z, 16 * z', D * t, D * (16 * t'));
    EqvMul(16, 16, y' - x', z' + D * t');
    var dt := D * t';
    assert D * (16 * t') == 16 * dt;
    EqvTrans(z + D * t, 16 * (z' + dt), 16 * (z' + dt));
    EqvTrans(y - x, 16 * (y' - x'), 16 * (z' + dt));
    EqvTrans(y - x, 16 * (z' + dt), z + D * t);
  }

  lemma Square4(a: int, b: int)
    requires Eqv(a, 4 * b)
    ensures Eqv(a * a, 16 * (b * b))
  {
    hide Eqv;
    EqvMul(a, 4 * b, a, 4 * b);
    assert 4 * b * (4 * b) == 16 * (b * b);
  }

  /** The identity behind it, for numerators and denominators. */
  lemma Equation(p: Point, q: Point)
    requires OnCurve(p) && OnCurve(q)
    ensures var e, f, g, h := CrossSum(p, q), Minus(p, q), Plus(p, q), PlainSum(p, q);
            Eqv(g * h * (g * h) - e * f * (e * f), f * g * (f * g) + D * (e * h * (e * h)))
  {
    var u1, u2 := p.Y * p.Y - p.X * p.X, q.Y * q.Y - q.X * q.X;
    var v1, v2 := p.Y * p.Y + p.X * p.X, q.Y * q.Y + q.X * q.X;
    var w1, w2, c1, c2 := p.X * p.Y, q.X * q.Y, p.Z * p.T, q.Z * q.T;
    var a1, a2, b1, b2 := p.Z * p.Z, q.Z * q.Z, D * (p.T * p.T), D * (q.T * q.T);
    assert Eqv(w1, c1) && Eqv(w2, c2);
    hide Eqv;
    var m, n := a1 * a2 + b1 * b2, 2 * (D * (c1 * c2));
    Norms(p.X, p.Y);
    Norms(q.X, q.Y);
    ExactLeft(p, q);
    ExactRight(p, q);
    LeftSide(u1, u2, a1 + b1, a2 + b2, w1, w2, c1, c2, m, n, v1 * v2);
    RightSide(u1, u2, a1 + b1, a2 + b2, w1, w2, c1, c2, v1, v2);
    Rest(p.Z, p.T);
    Rest(q.Z, q.T);
    Balanced(a1, a2, b1, b2, c1, c2, D, v1 * v2);
    var k := (a1 * a2 - b1 * b2) * (a1 * a2 - b1 * b2);
    var l := (a1 + b1) * (a2 + b2) * m + n * (v1 * v2 + 4 * (c1 * c2));
    EqvRefl(k);
    EqvAdd(k, k, D * ((w1 * v2 + w2 * v1) * (w1 * v2 + w2 * v1)),
           Mixed(a1 + b1, a2 + b2, c1, c2, v1 * v2));
    var r := k + D * ((w1 * v2 + w2 * v1) * (w1 * v2 + w2 * v1));
    EqvTrans(r, l, l);
    EqvTrans(u1 * u2 * m + n * (v1 * v2 + 4 * (w1 * w2)), l, r);
  }

  function Mixed(s1: int, s2: int, c1: int, c2: int, vv: int): int {
    D * (c1 * c1 * (s2 * s2 + 4 * (c2 * c2)) + c2 * c2 * (s1 * s1 + 4 * (c1 * c1)) + 2 * (c1 * c2 * vv))
  }

  lemma Norms(x: int, y: int)
    ensures (y * y + x * x) * (y * y + x * x) == (y * y - x * x) * (y * y - x * x) + 4 * (x * y * (x * y))
  {
    var a, b := y * y, x * x;
    assert (a + b) * (a + b) == (a - b) * (a - b) + 4 * (b * a);
    assert x * y * (x * y) == b * a;
  }

  lemma Rest(z: int, t: int)
    ensures D * (z * t * (z * t)) == z * z * (D * (t * t))
  {
    assert z * t * (z * t) == z * z * (t * t);
    assert D * (z * z * (t * t)) == z * z * (D * (t * t));
  }

  /** The left side by the invariants of both points. */
  lemma ExactLeft(p: Point, q: Point)
    ensures var e, f, g, h := CrossSum(p, q), Minus(p, q), Plus(p, q), PlainSum(p, q);
            var m := p.Z * p.Z * (q.Z * q.Z) + D * (p.T * p.T) * (D * (q.T * q.T));
            var n := 2 * (D * (p.Z * p.T * (q.Z * q.T)));
            g * h * (g * h) - e * f * (e * f)
            == (p.Y * p.Y - p.X * p.X) * (q.Y * q.Y - q.X * q.X) * m
               + n * ((p.Y * p.Y + p.X * p.X) * (q.Y * q.Y + q.X * q.X) + 4 * (p.X * p.Y * (q.X * q.Y)))
  {
    var e, f, g, h := CrossSum(p, q), Minus(p, q), Plus(p, q), PlainSum(p, q);
    var m := p.Z * p.Z * (q.Z * q.Z) + D * (p.T * p.T) * (D * (q.T * q.T));
    var n := 2 * (D * (p.Z * p.T * (q.Z * q.T)));
    SumSquares(p.X, p.Y, q.X, q.Y);
    Denominators(p.Z, p.T, q.Z, q.T, D);
    Squares(e, f, g, h, m, n);
  }

  lemma SumSquares(x: int, y: int, u: int, v: int)
    ensures var e, h := x * v + y * u, y * v + x * u;
            && h * h - e * e == (y * y - x * x) * (v * v - u * u)
            && h * h + e * e == (y * y + x * x) * (v * v + u * u) + 4 * (x * y * (u * v))
            && e * h == x * y * (v * v + u * u) + u * v * (y * y + x * x)
  {
    var e, h := x * v + y * u, y * v + x * u;
    SquareOfSum(y, v, x, u);
    SquareOfSum(x, v, y, u);
    Crossed(x, y, u, v);
    Expanded(x * x, y * y, u * u, v * v);
    assert y * x * (v * u) == x * y * (u * v) == x * y * (v * u);
  }

  lemma SquareOfSum(a: int, b: int, c: int, d: int)
    ensures (a * b + c * d) * (a * b + c * d) == a * a * (b * b) + c * c * (d * d) + 2 * (a * c * (b * d))
  {
    var m, n := a * b, c * d;
    assert (m + n) * (m + n) == m * m + n * n + 2 * (m * n);
    assert m * m == a * a * (b * b) && n * n == c * c * (d * d) && m * n == a * c * (b * d);
  }

  lemma Expanded(a: int, b: int, c: int, d: int)
    ensures (b - a) * (d - c) == b * d + a * c - a * d - b * c
    ensures (b + a) * (d + c) == b * d + a * c + a * d + b * c
  {
  }

  lemma Crossed(x: int, y: int, u: int, v: int)
    ensures (x * v + y * u) * (y * v + x * u) == x * y * (v * v + u * u) + u * v * (y * y + x * x)
  {
    var a, b, c, d := x * v, y * u, y * v, x * u;
    assert (a + b) * (c + d) == a * c + b * d + a * d + b * c;
    assert a * c == x * y * (v * v) && b * d == x * y * (u * u);
    assert a * d == u * v * (x * x) && b * c == u * v * (y * y);
    assert x * y * (v * v + u * u) == x * y * (v * v) + x * y * (u * u);
    assert u * v * (y * y + x * x) == u * v * (y * y) + u * v * (x * x);
  }

  lemma Denominators(z: int, t: int, w: int, r: int, d: int)
    ensures var g, f := z * w + d * (t * r), z * w - d * (t * r);
            var m, n := z * z * (w * w) + d * (t * t) * (d * (r * r)), 2 * (d * (z * t * (w * r)));
            && g * g == m + n && f * f == m - n
            && f * g == z * z * (w * w) - d * (t * t) * (d * (r * r))
  {
    var a, b := z * w, d * (t * r);
    assert a * a == z * z * (w * w);
    assert b * b == d * (t * t) * (d * (r * r)) by { Pairs(d, t, r); }
    assert a * b == d * (z * t * (w * r));
    assert (a + b) * (a + b) == a * a + b * b + 2 * (a * b);
    assert (a - b) * (a - b) == a * a + b * b - 2 * (a * b);
    assert (a - b) * (a + b) == a * a - b * b;
  }

  lemma Pairs(d: int, t: int, r: int)
    ensures d * (t * r) * (d * (t * r)) == d * (t * t) * (d * (r * r))
  {
    assert t * r * (t * r) == t * t * (r * r);
    assert d * (t * r) * (d * (t * r)) == d * d * (t * r * (t * r));
    assert d * (t * t) * (d * (r * r)) == d * d * (t * t * (r * r));
  }

  lemma Squares(e: int, f: int, g: int, h: int, m: int, n: int)
    requires g * g == m + n && f * f == m - n
    ensures g * h * (g * h) - e * f * (e * f) == (h * h - e * e) * m + n * (h * h + e * e)
  {
    assert g * h * (g * h) == g * g * (h * h) && e * f * (e * f) == f * f * (e * e);
    assert (m + n) * (h * h) == m * (h * h) + n * (h * h);
    assert (m - n) * (e * e) == m * (e * e) - n * (e * e);
  }

  lemma ExactRight(p: Point, q: Point)
    ensures var e, f, g, h := CrossSum(p, q), Minus(p, q), Plus(p, q), PlainSum(p, q);
            var k := p.Z * p.Z * (q.Z * q.Z) - D * (p.T * p.T) * (D * (q.T * q.T));
            var w := p.X * p.Y * (q.Y * q.Y + q.X * q.X) + q.X * q.Y * (p.Y * p.Y + p.X * p.X);
            f * g * (f * g) + D * (e * h * (e * h)) == k * k + D * (w * w)
  {
    SumSquares(p.X, p.Y, q.X, q.Y);
    Denominators(p.Z, p.T, q.Z, q.T, D);
  }

  lemma LeftSide(u1: int, u2: int, s1: int, s2: int, w1: int, w2: int, c1: int, c2: int, m: int, n: int, vv: int)
    requires Eqv(u1, s1) && Eqv(u2, s2) && Eqv(w1, c1) && Eqv(w2, c2)
    ensures Eqv(u1 * u2 * m + n * (vv + 4 * (w1 * w2)), s1 * s2 * m + n * (vv + 4 * (c1 * c2)))
  {
    hide Eqv;
    EqvRefl(m);
    EqvRefl(n);
    EqvRefl(vv);
    EqvRefl(4);
    EqvMul(u1, s1, u2, s2);
    EqvMul(u1 * u2, s1 * s2, m, m);
    EqvMul(w1, c1, w2, c2);
    EqvMul(4, 4, w1 * w2, c1 * c2);
    EqvAdd(vv, vv, 4 * (w1 * w2), 4 * (c1 * c2));
    EqvMul(n, n, vv + 4 * (w1 * w2), vv + 4 * (c1 * c2));
    EqvAdd(u1 * u2 * m, s1 * s2 * m, n * (vv + 4 * (w1 * w2)), n * (vv + 4 * (c1 * c2)));
  }

  lemma RightSide(u1: int, u2: int, s1: int, s2: int, w1: int, w2: int, c1: int, c2: int, v1: int, v2: int)
    requires Eqv(u1, s1) && Eqv(u2, s2) && Eqv(w1, c1) && Eqv(w2, c2)
    requires v1 * v1 == u1 * u1 + 4 * (w1 * w1) && v2 * v2 == u2 * u2 + 4 * (w2 * w2)
    ensures Eqv(D * ((w1 * v2 + w2 * v1) * (w1 * v2 + w2 * v1)), Mixed(s1, s2, c1, c2, v1 * v2))
  {
    hide Eqv;
    SquareOfSum(w1, v2, w2, v1);
    assert w1 * w2 * (v2 * v1) == w1 * w2 * (v1 * v2);
    OneTerm(u1, s1, w1, c1, w2, c2);
    OneTerm(u2, s2, w2, c2, w1, c1);
    EqvRefl(v1 * v2);
    EqvRefl(2);
    EqvRefl(D);
    EqvMul(w1, c1, w2, c2);
    EqvMul(w1 * w2, c1 * c2, v1 * v2, v1 * v2);
    EqvMul(2, 2, w1 * w2 * (v1 * v2), c1 * c2 * (v1 * v2));
    var x, x' := w1 * w1 * (v2 * v2), c1 * c1 * (s2 * s2 + 4 * (c2 * c2));
    var y, y' := w2 * w2 * (v1 * v1), c2 * c2 * (s1 * s1 + 4 * (c1 * c1));
    EqvAdd(x, x', y, y');
    EqvAdd(x + y, x' + y', 2 * (w1 * w2 * (v1 * v2)), 2 * (c1 * c2 * (v1 * v2)));
    EqvMul(D, D, x + y + 2 * (w1 * w2 * (v1 * v2)), x' + y' + 2 * (c1 * c2 * (v1 * v2)));
  }

  lemma OneTerm(u: int, s: int, w: int, c: int, x: int, y: int)
    requires Eqv(u, s) && Eqv(w, c) && Eqv(x, y)
    ensures Eqv(x * x * (u * u + 4 * (w * w)), y * y * (s * s + 4 * (c * c)))
  {
    hide Eqv;
    EqvRefl(4);
    EqvMul(u, s, u, s);
    EqvMul(w, c, w, c);
    EqvMul(x, y, x, y);
    EqvMul(4, 4, w * w, c * c);
    EqvAdd(u * u, s * s, 4 * (w * w), 4 * (c * c));
    EqvMul(x * x, y * y, u * u + 4 * (w * w), s * s + 4 * (c * c));
  }

  /** With a_i = z_i^2, b_i = d*t_i^2 and c_i = z_i*t_i, so that d*c_i^2 = a_i*b_i, both sides are one number. */
  lemma Balanced(a1: int, a2: int, b1: int, b2: int, c1: int, c2: int, d: int, vv: int)
    requires d == D && d * (c1 * c1) == a1 * b1 && d * (c2 * c2) == a2 * b2
    ensures (a1 + b1) * (a2 + b2) * (a1 * a2 + b1 * b2) + 2 * (d * (c1 * c2)) * (vv + 4 * (c1 * c2))
            == (a1 * a2 - b1 * b2) * (a1 * a2 - b1 * b2) + Mixed(a1 + b1, a2 + b2, c1, c2, vv)
  {
    var s1, s2, cc := a1 + b1, a2 + b2, c1 * c2;
    var z := d * (cc * cc);
    assert z == d * (c1 * c1) * (c2 * c2) == a1 * b1 * (c2 * c2);
    Distributed(d, c1, c2, s1, s2, vv, a1 * b1, a2 * b2);
    assert 2 * (d * cc) * (vv + 4 * cc) == 2 * (d * (cc * vv)) + 8 * z by { Twice(d, cc, vv); }
    Quartic(a1, a2, b1, b2);
  }

  lemma Twice(d: int, cc: int, vv: int)
    ensures 2 * (d * cc) * (vv + 4 * cc) == 2 * (d * (cc * vv)) + 8 * (d * (cc * cc))
  {
    assert (d * cc) * vv == d * (cc * vv) && (d * cc) * cc == d * (cc * cc);
  }

  lemma Distributed(d: int, c1: int, c2: int, s1: int, s2: int, vv: int, k1: int, k2: int)
    requires d == D && d * (c1 * c1) == k1 && d * (c2 * c2) == k2
    ensures Mixed(s1, s2, c1, c2, vv)
            == k1 * (s2 * s2) + k2 * (s1 * s1) + 8 * (d * (c1 * c2 * (c1 * c2))) + 2 * (d * (c1 * c2 * vv))
  {
    var q1, q2 := c1 * c1, c2 * c2;
    assert c1 * c2 * (c1 * c2) == q1 * q2;
    var x, y := q1 * (s2 * s2 + 4 * q2), q2 * (s1 * s1 + 4 * q1);
    assert x == q1 * (s2 * s2) + 4 * (q1 * q2) && y == q2 * (s1 * s1) + 4 * (q1 * q2);
    assert d * (q1 * (s2 * s2)) == k1 * (s2 * s2) && d * (q2 * (s1 * s1)) == k2 * (s1 * s1);
    assert d * (x + y + 2 * (c1 * c2 * vv)) == d * x + d * y + 2 * (d * (c1 * c2 * vv));
  }

  lemma Quartic(a1: int, a2: int, b1: int, b2: int)
    ensures (a1 + b1) * (a2 + b2) * (a1 * a2 + b1 * b2)
            == (a1 * a2 - b1 * b2) * (a1 * a2 - b1 * b2)
               + a1 * b1 * ((a2 + b2) * (a2 + b2)) + a2 * b2 * ((a1 + b1) * (a1 + b1))
  {
    var A, B, C, E := a1 * a2, b1 * b2, a1 * b2, b1 * a2;
    assert (a1 + b1) * (a2 + b2) == A + B + C + E;
    Corners(a1, a2, b1, b2);
    FourTerms(A, B, C, E);
    TermSquare(a1 * b1, a2, b2, A, E, C, B);
    TermSquare(a2 * b2, a1, b1, A, C, E, B);
  }

  lemma Corners(a1: int, a2: int, b1: int, b2: int)
    ensures var A, B, C, E := a1 * a2, b1 * b2, a1 * b2, b1 * a2;
            && a1 * b1 * (a2 * a2) == E * A && a1 * b1 * (b2 * b2) == C * B && a1 * b1 * (a2 * b2) == A * B == C * E
            && a2 * b2 * (a1 * a1) == C * A && a2 * b2 * (b1 * b1) == E * B && a2 * b2 * (a1 * b1) == A * B
  {
    Swapped(a1, b1, a2, a2);
    Swapped(a1, b1, b2, b2);
    Swapped(a1, b1, a2, b2);
    Swapped(a2, b2, a1, a1);
    Swapped(a2, b2, b1, b1);
    Swapped(a2, b2, a1, b1);
  }

  lemma Swapped(a: int, b: int, c: int, d: int)
    ensures a * b * (c * d) == a * c * (b * d) == a * d * (b * c)
  {
  }

  lemma FourTerms(A: int, B: int, C: int, E: int)
    ensures (A + B + C + E) * (A + B) == (A - B) * (A - B) + 4 * (A * B) + C * A + E * A + C * B + E * B
  {
    assert (A + B) * (A + B) == (A - B) * (A - B) + 4 * (A * B);
    assert (C + E) * (A + B) == C * A + E * A + C * B + E * B;
  }

  lemma TermSquare(k: int, a: int, b: int, A: int, E: int, C: int, B: int)
    requires k * (a * a) == E * A && k * (b * b) == C * B && k * (a * b) == A * B
    ensures k * ((a + b) * (a + b)) == E * A + 2 * (A * B) + C * B
  {
    assert (a + b) * (a + b) == a * a + 2 * (a * b) + b * b;
    assert k * (a * a + 2 * (a * b) + b * b) == k * (a * a) + 2 * (k * (a * b)) + k * (b * b);
  }

  // --- identity, inverse, multiples ------------------------------------------------------------

  /** Two points with the same quotients X/Z and Y/Z. */
  predicate SamePoint(p: Point, q: Point) {
    Eqv(p.X * q.Z, q.X * p.Z) && Eqv(p.Y * q.Z, q.Y * p.Z)
  }

  /** Adding the identity gives the same point, whatever the point. */
  lemma IdentityAdds(p: Point)
    ensures SamePoint(EdwardsAdd(p, IDENTITY), p) && OnCurve(IDENTITY)
  {
    SumCoordinates(p, IDENTITY);
    assert CrossSum(p, IDENTITY) == p.X && PlainSum(p, IDENTITY) == p.Y;
    assert Plus(p, IDENTITY) == p.Z == Minus(p, IDENTITY);
    hide EdwardsAdd, Eqv;
    var s := EdwardsAdd(p, IDENTITY);
    assert p.Y * p.Z == p.Z * p.Y;
    Quotient(s.X, s.Z, p.X, p.Z, p.Z);
    Quotient(s.Y, s.Z, p.Y, p.Z, p.Z);
    assert s.Z * p.X == p.X * s.Z && s.Z * p.Y == p.Y * s.Z;
  }

  /** The order of the operands does not matter, not even to the coordinates. */
  lemma AddCommutes(p: Point, q: Point)
    ensures EdwardsAdd(p, q) == EdwardsAdd(q, p)
  {
    Swap(p.Y - p.X, q.Y - q.X);
    Swap(p.Y + p.X, q.Y + q.X);
    Doubled(p.T, q.T, p.Z, q.Z, D);
    Doubled(q.T, p.T, q.Z, p.Z, D);
    Swap(p.T, q.T);
    Swap(p.Z, q.Z);
  }

  lemma Swap(a: int, b: int)
    ensures a * b == b * a
  {
  }

  /** A point of the curve and its mirror image add up to the identity. */
  lemma MirrorAdds(p: Point)
    requires OnCurve(p)
    ensures SamePoint(EdwardsAdd(p, Point(-p.X, p.Y, p.Z, -p.T)), IDENTITY)
  {
    var q := Point(-p.X, p.Y, p.Z, -p.T);
    SumCoordinates(p, q);
    hide EdwardsAdd;
    var s := EdwardsAdd(p, q);
    assert CrossSum(p, q) == 0;
    assert PlainSum(p, q) == p.Y * p.Y - p.X * p.X && Minus(p, q) == p.Z * p.Z + D * (p.T * p.T);
    hide Eqv;
    var f, g, h := Minus(p, q), Plus(p, q), PlainSum(p, q);
    EqvRefl(4);
    EqvRefl(g);
    EqvMul(h, f, g, g);
    assert h * g == g * h;
    EqvMul(4, 4, g * h, f * g);
    EqvTrans(4 * (f * g), 4 * (g * h), 4 * (f * g));
    EqvTrans(s.Y, 4 * (g * h), 4 * (f * g));
    EqvTrans(s.Z, 4 * (f * g), s.Z);
    EqvTrans(s.Y, 4 * (f * g), s.Z);
  }

  /** Every multiple of a point of the curve satisfies the curve equation. */
  lemma {:induction false} MultipleOnCurve(p: Point, e: nat)
    requires OnCurve(p)
    ensures OnCurve(ScalarMul(p, e))
  {
    hide EdwardsAdd, OnCurve;
    IdentityAdds(p);
    if e > 0 {
      var q := ScalarMul(p, e / 2);
      MultipleOnCurve(p, e / 2);
      SumOnCurve(q, q);
      SumOnCurve(EdwardsAdd(q, q), p);
    }
  }

  /** So are all the points a signature is made of. */
  lemma BaseMultiplesOnCurve(e: nat)
    ensures OnCurve(BASE) && OnCurve(ScalarMul(BASE, e))
  {
    BaseOnCurve();
    MultipleOnCurve(BASE, e);
  }

  lemma BaseOnCurve()
    ensures OnCurve(BASE)
  {
    Constants();
    var k := BaseProduct(P, D, BX, BY, BT);
    Difference(BY * BY - BX * BX, 1 * 1 + D * (BT * BT), k);
  }

  /** On the curve, x*y may be replaced by its residue. */
  lemma BaseProduct(m: nat, d: int, x: int, y: int, t: int) returns (k: int)
    requires m > 0 && (y * y - x * x - 1 - d * (x * x) * (y * y)) % m == 0 && t == x * y % m
    ensures y * y - x * x - (1 * 1 + d * (t * t)) == m * k
  {
    var u, q := x * y, x * y / m;
    var r := (y * y - x * x - 1 - d * (x * x) * (y * y)) / m;
    Fourfold(d, x, y);
    k := r + d * (q * (u + t));
    ResidueSquared(m, d, u, t, q);
    assert m * k == m * r + m * (d * (q * (u + t)));
  }

  lemma ResidueSquared(m: int, d: int, u: int, t: int, q: int)
    requires u == m * q + t
    ensures d * (u * u) - d * (t * t) == m * (d * (q * (u + t)))
  {
    assert u * u - t * t == m * q * (u + t);
    assert d * (m * q * (u + t)) == m * (d * (q * (u + t)));
  }

  lemma Fourfold(d: int, x: int, y: int)
    ensures d * (x * y * (x * y)) == d * (x * x) * (y * y)
  {
    assert x * y * (x * y) == x * x * (y * y);
  }

  lemma Difference(a: int, b: int, k: int)
    requires a - b == P * k
    ensures Eqv(a, b)
  {
    assert a == P * k + b;
    ModAddMultiple(b, k, P);
  }
}
