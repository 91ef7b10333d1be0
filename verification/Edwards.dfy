/** Edwards-curve point arithmetic on extended coordinates, by doubling and adding. */
module Edwards {
  const P: int := 57896044618658097711785492504343953926634992332820282019728792003956564819949
  const L: int := 7237005577332262213973186563042994240857116359379907606001950938285454250989
  const D: int := 37095705934669439343138083508754565189542113879843219016388785533085940283555
  const BX: int := 15112221349535400772501151409588531511454012693041857206046113283949847762202
  const BY: int := 46316835694926478169428394003475163141307993866256225615783033603165251855960
  const BT: int := 46827403850823179245072216630277197565144205554125654976674165829533817101731

  /** Extended coordinates: x = X/Z, y = Y/Z and x*y = T/Z. */
  datatype Point = Point(X: int, Y: int, Z: int, T: int)

  const BASE := Point(BX, BY, 1, BT)
  const IDENTITY := Point(0, 1, 1, 0)

  /** The curve constant is -121665/121666, and the base point has y = 4/5, an even x, and is on the curve. */
  lemma Constants()
    ensures P == 0x8000000000000000000000000000000000000000000000000000000000000000 - 19
    ensures 0 < L < 0x2000000000000000000000000000000000000000000000000000000000000000
    ensures (D * 121666 + 121665) % P == 0 && (5 * BY - 4) % P == 0
    ensures BX % 2 == 0
    ensures (BY * BY - BX * BX - 1 - D * (BX * BX) * (BY * BY)) % P == 0
    ensures BT == BX * BY % P && Extended(BASE)
  {
  }

  function EdwardsAdd(p: Point, q: Point): Point {
    var A := (p.Y - p.X) * (q.Y - q.X) % P;
    var B := (p.Y + p.X) * (q.Y + q.X) % P;
    var C := p.T * 2 * D * q.T % P;
    var D_ := p.Z * 2 * q.Z % P;
    var E := (B - A) % P;
    var F := (D_ - C) % P;
    var G := (D_ + C) % P;
    var H := (B + A) % P;
    Point(E * F % P, G * H % P, F * G % P, E * H % P)
  }

  function ScalarMul(p: Point, e: nat): Point {
    if e == 0 then IDENTITY
    else
      var q := ScalarMul(p, e / 2);
      var d := EdwardsAdd(q, q);
      if e % 2 == 1 then EdwardsAdd(d, p) else d
  }

  // --- the product coordinate ----------------------------------------------------------

  lemma ModMul(a: int, b: int, m: int)
    requires m > 0
    ensures (a % m) * (b % m) % m == a * b % m
  {
    var qa, qb := a / m, b / m;
    var ra, rb := a % m, b % m;
    calc {
      a * b;
      (m * qa + ra) * (m * qb + rb);
      m * (qa * (m * qb + rb)) + m * (ra * qb) + ra * rb;
      m * (qa * (m * qb + rb) + ra * qb) + ra * rb;
    }
    ModAddMultiple(ra * rb, qa * (m * qb + rb) + ra * qb, m);
  }

  lemma ModAddMultiple(x: int, k: int, m: int)
    requires m > 0
    ensures (m * k + x) % m == x % m
  {
    var q, r := x / m, x % m;
    assert m * k + x == m * (k + q) + r;
    ModUnique(m * k + x, k + q, r, m);
  }

  lemma ModUnique(x: int, q: int, r: int, m: int)
    requires m > 0 && x == m * q + r && 0 <= r < m
    ensures x % m == r && x / m == q
  {
    var q', r' := x / m, x % m;
    assert x == m * q' + r';
    Quotients(q, r, q', r', m);
  }

  lemma Quotients(q: int, r: int, q': int, r': int, m: int)
    requires 0 <= r < m && 0 <= r' < m && m * q + r == m * q' + r'
    ensures q == q' && r == r'
  {
    assert m * (q - q') == r' - r;
    if q > q' {
      AtLeast(m, q - q');
    } else if q < q' {
      assert m * (q' - q) == r - r';
      AtLeast(m, q' - q);
    }
  }

  lemma AtLeast(m: int, k: int)
    requires m > 0 && k >= 1
    ensures m * k >= m
  {
  }

  /** X*Y and Z*T agree modulo P. */
  predicate Extended(p: Point) {
    p.X * p.Y % P == p.Z * p.T % P
  }

  lemma ProductsAgree(e: int, f: int, g: int, h: int, m: int)
    requires m > 0
    ensures (e * f % m) * (g * h % m) % m == (f * g % m) * (e * h % m) % m
  {
    ModMul(e * f, g * h, m);
    ModMul(f * g, e * h, m);
    assert (e * f) * (g * h) == (f * g) * (e * h);
  }

  /** Every sum is a well-formed extended point, whatever its operands. */
  lemma AddIsExtended(p: Point, q: Point)
    ensures Extended(EdwardsAdd(p, q))
  {
    var A := (p.Y - p.X) * (q.Y - q.X) % P;
    var B := (p.Y + p.X) * (q.Y + q.X) % P;
    var C := p.T * 2 * D * q.T % P;
    var D_ := p.Z * 2 * q.Z % P;
    ProductsAgree((B - A) % P, (D_ - C) % P, (D_ + C) % P, (B + A) % P, P);
  }

  /** So is every multiple the double-and-add ladder builds. */
  lemma ScalarMulIsExtended(p: Point, e: nat)
    ensures Extended(ScalarMul(p, e))
  {
    hide EdwardsAdd;
    if e > 0 {
      var q := ScalarMul(p, e / 2);
      AddIsExtended(q, q);
      AddIsExtended(EdwardsAdd(q, q), p);
    }
  }

  // --- multiples ------------------------------------------------------------------------------

  /**
   * The group structure the ladder relies on, over the points `curve` accepts and up to the
   * equality `same` of the points they stand for: closure, congruence, associativity, identity.
   */
  datatype Group = Group(curve: Point -> bool, same: (Point, Point) -> bool) {
    ghost predicate Laws() {
      && curve(IDENTITY)
      && (forall p, q {:trigger curve(EdwardsAdd(p, q))} :: curve(p) && curve(q) ==> curve(EdwardsAdd(p, q)))
      && (forall p :: same(p, p))
      && (forall p, q :: same(p, q) ==> same(q, p))
      && (forall p, q, r :: same(p, q) && same(q, r) ==> same(p, r))
      && (forall p, q, r, t {:trigger same(EdwardsAdd(p, r), EdwardsAdd(q, t))} ::
            curve(p) && curve(q) && curve(r) && curve(t) && same(p, q) && same(r, t)
            ==> same(EdwardsAdd(p, r), EdwardsAdd(q, t)))
      && (forall p, q, r {:trigger same(EdwardsAdd(EdwardsAdd(p, q), r), EdwardsAdd(p, EdwardsAdd(q, r)))} ::
            curve(p) && curve(q) && curve(r)
            ==> same(EdwardsAdd(EdwardsAdd(p, q), r), EdwardsAdd(p, EdwardsAdd(q, r))))
      && (forall p {:trigger same(EdwardsAdd(p, IDENTITY), p)} :: curve(p) ==> same(EdwardsAdd(p, IDENTITY), p))
      && (forall p {:trigger same(EdwardsAdd(IDENTITY, p), p)} :: curve(p) ==> same(EdwardsAdd(IDENTITY, p), p))
    }

    lemma Closed(p: Point, q: Point)
      requires Laws() && curve(p) && curve(q)
      ensures curve(EdwardsAdd(p, q))
    {
      hide EdwardsAdd;
    }

    lemma Refl(p: Point)
      requires Laws()
      ensures same(p, p) && curve(IDENTITY)
    {
      hide EdwardsAdd;
    }

    lemma Symm(p: Point, q: Point)
      requires Laws() && same(p, q)
      ensures same(q, p)
    {
      hide EdwardsAdd;
    }

    lemma Trans(p: Point, q: Point, r: Point)
      requires Laws() && same(p, q) && same(q, r)
      ensures same(p, r)
    {
      hide EdwardsAdd;
    }

    lemma Cong(p: Point, q: Point, r: Point, t: Point)
      requires Laws() && curve(p) && curve(q) && curve(r) && curve(t) && same(p, q) && same(r, t)
      ensures same(EdwardsAdd(p, r), EdwardsAdd(q, t))
    {
      hide EdwardsAdd;
    }

    lemma Assoc(p: Point, q: Point, r: Point)
      requires Laws() && curve(p) && curve(q) && curve(r)
      ensures same(EdwardsAdd(EdwardsAdd(p, q), r), EdwardsAdd(p, EdwardsAdd(q, r)))
      ensures same(EdwardsAdd(p, EdwardsAdd(q, r)), EdwardsAdd(EdwardsAdd(p, q), r))
    {
      hide EdwardsAdd;
    }

    lemma Ident(p: Point)
      requires Laws() && curve(p)
      ensures same(EdwardsAdd(p, IDENTITY), p) && same(EdwardsAdd(IDENTITY, p), p)
    {
      hide EdwardsAdd;
    }
  }

  /** `e` copies of a point added up one by one. */
  function Fold(p: Point, e: nat): Point {
    if e == 0 then IDENTITY else EdwardsAdd(Fold(p, e - 1), p)
  }

  lemma {:induction false} FoldOnCurve(g: Group, p: Point, e: nat)
    requires g.Laws() && g.curve(p)
    ensures g.curve(Fold(p, e))
  {
    hide EdwardsAdd, Group.Laws;
    g.Refl(p);
    if e > 0 {
      FoldOnCurve(g, p, e - 1);
      g.Closed(Fold(p, e - 1), p);
    }
  }

  lemma {:induction false} FoldAdds(g: Group, p: Point, m: nat, n: nat)
    requires g.Laws() && g.curve(p)
    ensures g.same(EdwardsAdd(Fold(p, m), Fold(p, n)), Fold(p, m + n))
    decreases n
  {
    hide EdwardsAdd, Group.Laws;
    var fm := Fold(p, m);
    FoldOnCurve(g, p, m);
    if n == 0 {
      g.Ident(fm);
    } else {
      var fn, fs := Fold(p, n - 1), Fold(p, m + n - 1);
      FoldOnCurve(g, p, n - 1);
      FoldOnCurve(g, p, m + n - 1);
      FoldAdds(g, p, m, n - 1);
      g.Refl(p);
      g.Closed(fm, fn);
      g.Cong(EdwardsAdd(fm, fn), fs, p, p);
      g.Assoc(fm, fn, p);
      g.Trans(EdwardsAdd(fm, EdwardsAdd(fn, p)), EdwardsAdd(EdwardsAdd(fm, fn), p), EdwardsAdd(fs, p));
    }
  }

  /** The product, by repeated addition. */
  function Times(m: nat, n: nat): nat {
    if n == 0 then 0 else Times(m, n - 1) + m
  }

  lemma {:induction false} TimesIsProduct(m: nat, n: nat)
    ensures Times(m, n) == m * n
  {
    if n > 0 {
      TimesIsProduct(m, n - 1);
    }
  }

  lemma {:induction false} FoldMultiplies(g: Group, p: Point, m: nat, n: nat)
    requires g.Laws() && g.curve(p)
    ensures g.same(Fold(Fold(p, m), n), Fold(p, Times(m, n)))
    decreases n
  {
    hide EdwardsAdd, Group.Laws;
    var fm := Fold(p, m);
    FoldOnCurve(g, p, m);
    g.Refl(fm);
    if n == 0 {
      g.Refl(IDENTITY);
    } else {
      var before := Times(m, n - 1);
      FoldMultiplies(g, p, m, n - 1);
      FoldOnCurve(g, fm, n - 1);
      FoldOnCurve(g, p, before);
      FoldAdds(g, p, before, m);
      g.Cong(Fold(fm, n - 1), Fold(p, before), fm, fm);
      g.Trans(Fold(fm, n), EdwardsAdd(Fold(p, before), fm), Fold(p, Times(m, n)));
    }
  }

  lemma {:induction false} FoldCongruent(g: Group, p: Point, q: Point, n: nat)
    requires g.Laws() && g.curve(p) && g.curve(q) && g.same(p, q)
    ensures g.same(Fold(p, n), Fold(q, n))
  {
    hide EdwardsAdd, Group.Laws;
    if n == 0 {
      g.Refl(IDENTITY);
    } else {
      FoldCongruent(g, p, q, n - 1);
      FoldOnCurve(g, p, n - 1);
      FoldOnCurve(g, q, n - 1);
      g.Cong(Fold(p, n - 1), Fold(q, n - 1), p, q);
    }
  }

  /** Double-and-add is e-fold addition, for every e. */
  lemma {:induction false} ScalarMulIsFold(g: Group, p: Point, e: nat)
    requires g.Laws() && g.curve(p)
    ensures g.curve(ScalarMul(p, e)) && g.same(ScalarMul(p, e), Fold(p, e))
  {
    hide EdwardsAdd, Group.Laws;
    g.Refl(IDENTITY);
    if e > 0 {
      var h := e / 2;
      var q, f := ScalarMul(p, h), Fold(p, h);
      ScalarMulIsFold(g, p, h);
      FoldOnCurve(g, p, h);
      FoldAdds(g, p, h, h);
      var d := EdwardsAdd(q, q);
      g.Closed(q, q);
      g.Cong(q, f, q, f);
      g.Trans(d, EdwardsAdd(f, f), Fold(p, h + h));
      if e % 2 == 1 {
        assert h + h == e - 1;
        FoldOnCurve(g, p, e - 1);
        g.Refl(p);
        g.Closed(d, p);
        g.Cong(d, Fold(p, e - 1), p, p);
      } else {
        assert h + h == e;
      }
    }
  }

  lemma {:induction false} IdentityFold(g: Group, n: nat)
    requires g.Laws()
    ensures g.same(Fold(IDENTITY, n), IDENTITY)
  {
    hide EdwardsAdd, Group.Laws;
    g.Refl(IDENTITY);
    if n > 0 {
      IdentityFold(g, n - 1);
      FoldOnCurve(g, IDENTITY, n - 1);
      g.Ident(Fold(IDENTITY, n - 1));
      g.Trans(Fold(IDENTITY, n), Fold(IDENTITY, n - 1), IDENTITY);
    }
  }

  lemma OrderMultiples(g: Group, p: Point, order: nat, q: nat)
    requires g.Laws() && g.curve(p) && g.same(Fold(p, order), IDENTITY)
    ensures g.same(Fold(p, Times(order, q)), IDENTITY)
  {
    hide EdwardsAdd, Group.Laws, Fold;
    var fo, fm := Fold(p, order), Fold(p, Times(order, q));
    FoldMultiplies(g, p, order, q);
    g.Symm(Fold(fo, q), fm);
    FoldOnCurve(g, p, order);
    g.Refl(IDENTITY);
    FoldCongruent(g, fo, IDENTITY, q);
    IdentityFold(g, q);
    g.Trans(fm, Fold(fo, q), Fold(IDENTITY, q));
    g.Trans(fm, Fold(IDENTITY, q), IDENTITY);
  }

  /** Whole turns of the order do not change a multiple. */
  lemma FoldPeriodic(g: Group, p: Point, order: nat, q: nat, s: nat)
    requires g.Laws() && g.curve(p) && g.same(Fold(p, order), IDENTITY)
    ensures g.same(Fold(p, s), Fold(p, Times(order, q) + s))
  {
    hide EdwardsAdd, Group.Laws, Fold;
    var m := Times(order, q);
    var fm, fs := Fold(p, m), Fold(p, s);
    OrderMultiples(g, p, order, q);
    FoldOnCurve(g, p, m);
    FoldOnCurve(g, p, s);
    g.Refl(fs);
    g.Ident(fs);
    g.Cong(fm, IDENTITY, fs, fs);
    g.Trans(EdwardsAdd(fm, fs), EdwardsAdd(IDENTITY, fs), fs);
    g.Symm(EdwardsAdd(fm, fs), fs);
    FoldAdds(g, p, m, s);
    g.Trans(fs, EdwardsAdd(fm, fs), Fold(p, m + s));
  }

  /** The verification equation: with s = (r + k*a) mod order, s*B is R + k*A. */
  lemma SignatureEquation(g: Group, b: Point, order: nat, r: nat, k: nat, a: nat, s: nat)
    requires order > 0 && s == (r + k * a) % order
    requires g.Laws() && g.curve(b) && g.same(Fold(b, order), IDENTITY)
    ensures g.same(ScalarMul(b, s), EdwardsAdd(ScalarMul(b, r), ScalarMul(ScalarMul(b, a), k)))
  {
    hide *;
    var q := WholeTurns(order, r, k, a, s);
    SignatureSum(g, b, order, r, a, k, q, s);
  }

  lemma WholeTurns(order: nat, r: nat, k: nat, a: nat, s: nat) returns (q: nat)
    requires order > 0 && s == (r + k * a) % order
    ensures r + Times(a, k) == Times(order, q) + s
  {
    TimesIsProduct(a, k);
    var n := r + Times(a, k);
    assert n == r + k * a;
    q := n / order;
    TimesIsProduct(order, q);
  }

  lemma SignatureSum(g: Group, b: Point, order: nat, r: nat, a: nat, k: nat, q: nat, s: nat)
    requires g.Laws() && g.curve(b) && g.same(Fold(b, order), IDENTITY)
    requires r + Times(a, k) == Times(order, q) + s
    ensures g.same(ScalarMul(b, s), EdwardsAdd(ScalarMul(b, r), ScalarMul(ScalarMul(b, a), k)))
  {
    hide *;
    var sum, A := r + Times(a, k), ScalarMul(b, a);
    ScalarMulIsFold(g, b, s);
    FoldPeriodic(g, b, order, q, s);
    g.Trans(ScalarMul(b, s), Fold(b, s), Fold(b, sum));
    SumOfParts(g, b, r, a, k);
    g.Trans(ScalarMul(b, s), Fold(b, sum), EdwardsAdd(ScalarMul(b, r), ScalarMul(A, k)));
  }

  lemma KeyMultiple(g: Group, b: Point, a: nat, k: nat)
    requires g.Laws() && g.curve(b)
    ensures g.same(ScalarMul(ScalarMul(b, a), k), Fold(b, Times(a, k))) && g.curve(ScalarMul(ScalarMul(b, a), k))
  {
    hide EdwardsAdd, Group.Laws, ScalarMul, Fold, Times;
    var A, fa := ScalarMul(b, a), Fold(b, a);
    ScalarMulIsFold(g, b, a);
    ScalarMulIsFold(g, A, k);
    FoldOnCurve(g, b, a);
    FoldCongruent(g, A, fa, k);
    FoldMultiplies(g, b, a, k);
    g.Trans(ScalarMul(A, k), Fold(A, k), Fold(fa, k));
    g.Trans(ScalarMul(A, k), Fold(fa, k), Fold(b, Times(a, k)));
  }

  lemma SumOfParts(g: Group, b: Point, r: nat, a: nat, k: nat)
    requires g.Laws() && g.curve(b)
    ensures g.same(Fold(b, r + Times(a, k)), EdwardsAdd(ScalarMul(b, r), ScalarMul(ScalarMul(b, a), k)))
  {
    hide EdwardsAdd, Group.Laws, ScalarMul, Fold, Times;
    var ka := Times(a, k);
    var kA, fr, fk := ScalarMul(ScalarMul(b, a), k), Fold(b, r), Fold(b, ka);
    KeyMultiple(g, b, a, k);
    ScalarMulIsFold(g, b, r);
    FoldOnCurve(g, b, r);
    FoldOnCurve(g, b, ka);
    FoldAdds(g, b, r, ka);
    g.Cong(ScalarMul(b, r), fr, kA, fk);
    g.Trans(EdwardsAdd(ScalarMul(b, r), kA), EdwardsAdd(fr, fk), Fold(b, r + ka));
    g.Symm(EdwardsAdd(ScalarMul(b, r), kA), Fold(b, r + ka));
  }
}
