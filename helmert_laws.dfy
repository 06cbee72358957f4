/** What the forward and reverse Helmert maps satisfy: the forward map is
    affine and a similarity; the reverse map undoes it exactly, but hands
    the two coordinates back exchanged; rounding moves each coordinate by
    at most half a unit of the third decimal and is stable. */
module HelmertLaws {
  import opened FixedPoint
  import opened Helmert

  function Add(p: Point, q: Point): Point {
    Point(p.x + q.x, p.y + q.y)
  }

  function Sub(p: Point, q: Point): Point {
    Point(p.x - q.x, p.y - q.y)
  }

  function Scale(k: real, p: Point): Point {
    Point(k * p.x, k * p.y)
  }

  function SqDist(p: Point, q: Point): real {
    (p.x - q.x) * (p.x - q.x) + (p.y - q.y) * (p.y - q.y)
  }

  /** The translation part of the forward map, as a point. */
  function Offset(t: Transformer): Point {
    Point(t.x0, t.y0)
  }

  // ---------------------------------------------------------------------
  // Non-degeneracy

  /** a^2 + o^2 is never negative, and positive unless a = o = 0. */
  lemma Scale2Sign(t: Transformer)
    ensures 0.0 <= t.Scale2()
    ensures (t.a != 0.0 || t.o != 0.0) ==> 0.0 < t.Scale2()
  {
    SumOfSquaresSign(t.a, t.o);
    calc {
      t.Scale2();
    ==
      t.a * t.a + t.o * t.o;
    >=
      0.0;
    }
    if t.a != 0.0 || t.o != 0.0 {
      calc {
        t.Scale2();
      ==
        t.a * t.a + t.o * t.o;
      >
        0.0;
      }
    }
  }

  lemma SumOfSquaresSign(a: real, o: real)
    ensures 0.0 <= a * a + o * o
    ensures (a != 0.0 || o != 0.0) ==> 0.0 < a * a + o * o
  {
  }

  /** a^2 + o^2 vanishes exactly when both a and o are zero. */
  lemma InvertibleIff(t: Transformer)
    ensures t.Invertible() <==> (t.a != 0.0 || t.o != 0.0)
  {
    Scale2Sign(t);
  }

  /** With a = o = 0 the forward map sends every point to the translation,
      so no reverse map can exist: the requirement of
      DoReverseTransformation excludes only transformers that have none. */
  lemma DegenerateCollapses(t: Transformer, p: Point)
    requires !t.Invertible()
    ensures t.Forward(p) == Offset(t)
  {
    InvertibleIff(t);
  }

  // ---------------------------------------------------------------------
  // The forward map

  /** Parameters (0, 0, 0, 1) give the identity. */
  lemma IdentityTransformer(x: real, y: real, round: RoundArg)
    requires !Rounds(round)
    ensures Transformer(0.0, 0.0, 0.0, 1.0).DoTransformation(x, y, round) == Point(x, y)
  {
  }

  /** With o = 0 and a = 1 the forward map is a pure translation. */
  lemma PureTranslation(t: Transformer, x: real, y: real, round: RoundArg)
    requires t.o == 0.0 && t.a == 1.0 && !Rounds(round)
    ensures t.DoTransformation(x, y, round) == Point(x + t.x0, y + t.y0)
  {
  }

  /** Parameters (5, 7, 0, 1) map (3, 4) to {x: 10, y: 9}. */
  lemma TranslationExample()
    ensures Transformer(5.0, 7.0, 0.0, 1.0).DoTransformation(3.0, 4.0, Undefined) == Point(10.0, 9.0)
  {
  }

  /** The forward map minus its translation is linear. */
  lemma ForwardAffine(t: Transformer, p: Point, q: Point, k: real)
    ensures Sub(t.Forward(Add(p, q)), Offset(t))
            == Add(Sub(t.Forward(p), Offset(t)), Sub(t.Forward(q), Offset(t)))
    ensures Sub(t.Forward(Scale(k, p)), Offset(t)) == Scale(k, Sub(t.Forward(p), Offset(t)))
  {
    ForwardIsOffsetLinear(t, p);
    ForwardIsOffsetLinear(t, q);
    ForwardIsOffsetLinear(t, Add(p, q));
    ForwardIsOffsetLinear(t, Scale(k, p));
    LinearAdditive(t.a, t.o, p, q);
    LinearHomogeneous(t.a, t.o, p, k);
  }

  lemma ForwardIsOffsetLinear(t: Transformer, p: Point)
    ensures Sub(t.Forward(p), Offset(t)) == Linear(t.a, t.o, p)
  {
  }

  /** The rotation and scaling by (a, o), without the translation. */
  function Linear(a: real, o: real, p: Point): Point {
    Point(a * p.x - o * p.y, o * p.x + a * p.y)
  }

  lemma LinearAdditive(a: real, o: real, p: Point, q: Point)
    ensures Linear(a, o, Add(p, q)) == Add(Linear(a, o, p), Linear(a, o, q))
  {
    assert a * (p.x + q.x) == a * p.x + a * q.x;
    assert a * (p.y + q.y) == a * p.y + a * q.y;
    assert o * (p.x + q.x) == o * p.x + o * q.x;
    assert o * (p.y + q.y) == o * p.y + o * q.y;
  }

  lemma LinearHomogeneous(a: real, o: real, p: Point, k: real)
    ensures Linear(a, o, Scale(k, p)) == Scale(k, Linear(a, o, p))
  {
    assert a * (k * p.x) == k * (a * p.x);
    assert a * (k * p.y) == k * (a * p.y);
    assert o * (k * p.x) == k * (o * p.x);
    assert o * (k * p.y) == k * (o * p.y);
  }

  /** The forward map is a similarity: it multiplies every squared
      distance by a^2 + o^2. */
  lemma ForwardSimilarity(t: Transformer, p: Point, q: Point)
    ensures SqDist(t.Forward(p), t.Forward(q)) == t.Scale2() * SqDist(p, q)
  {
    var dx, dy := p.x - q.x, p.y - q.y;
    var a, o := t.a, t.o;
    var fp, fq := t.Forward(p), t.Forward(q);
    assert fp.x - fq.x == a * dx - o * dy;
    assert fp.y - fq.y == o * dx + a * dy;
    calc {
      (a * dx - o * dy) * (a * dx - o * dy) + (o * dx + a * dy) * (o * dx + a * dy);
      (a * a * dx * dx - 2.0 * a * o * dx * dy + o * o * dy * dy)
        + (o * o * dx * dx + 2.0 * a * o * dx * dy + a * a * dy * dy);
      (a * a + o * o) * (dx * dx + dy * dy);
    }
  }

  // ---------------------------------------------------------------------
  // The reverse map

  /** The values the reverse operation computes undo the forward map
      exactly. */
  lemma ReverseValuesUndoForward(t: Transformer, p: Point)
    requires t.Invertible()
    ensures t.ReverseValues(t.Forward(p)) == p
  {
    var aT, oT := t.a / t.Scale2(), t.o / t.Scale2();
    InverseCoefficients(t);
    var f := t.Forward(p);
    var r := t.ReverseValues(f);
    calc {
      r.x;
      -(t.x0 * aT + t.y0 * oT) + aT * f.x + oT * f.y;
      -(t.x0 * aT + t.y0 * oT) + aT * (t.x0 + t.a * p.x - t.o * p.y) + oT * (t.y0 + t.o * p.x + t.a * p.y);
      (aT * t.a + oT * t.o) * p.x + (oT * t.a - aT * t.o) * p.y;
      p.x;
    }
    calc {
      r.y;
      -(-t.x0 * oT + t.y0 * aT) + aT * f.y - oT * f.x;
      -(-t.x0 * oT + t.y0 * aT) + aT * (t.y0 + t.o * p.x + t.a * p.y) - oT * (t.x0 + t.a * p.x - t.o * p.y);
      (aT * t.o - oT * t.a) * p.x + (aT * t.a + oT * t.o) * p.y;
      p.y;
    }
  }

  /** Reversing a forward result gives the original point with its two
      coordinates exchanged, because the reverse operation returns its
      computed y in the field x and its computed x in the field y. */
  lemma ReverseAfterForward(t: Transformer, x: real, y: real, r1: RoundArg, r2: RoundArg)
    requires t.Invertible() && !Rounds(r1) && !Rounds(r2)
    ensures var p := t.DoTransformation(x, y, r1);
            t.DoReverseTransformation(p.x, p.y, r2) == Point(y, x)
  {
    ReverseValuesUndoForward(t, Point(x, y));
  }

  /** Conversely, feeding the reverse result back with its coordinates
      exchanged into the forward operation gives the starting point. */
  lemma ForwardAfterReverse(t: Transformer, x: real, y: real, r1: RoundArg, r2: RoundArg)
    requires t.Invertible() && !Rounds(r1) && !Rounds(r2)
    ensures var r := t.DoReverseTransformation(x, y, r1);
            t.DoTransformation(r.y, r.x, r2) == Point(x, y)
  {
    assert t.Forward(t.ReverseValues(Point(x, y))) == Point(x, y);
  }

  /** Reverse after forward returns the starting point exactly when its
      two coordinates are equal. */
  lemma RoundTripIffDiagonal(t: Transformer, x: real, y: real, r1: RoundArg, r2: RoundArg)
    requires t.Invertible() && !Rounds(r1) && !Rounds(r2)
    ensures var p := t.DoTransformation(x, y, r1);
            t.DoReverseTransformation(p.x, p.y, r2) == Point(x, y) <==> x == y
  {
    ReverseAfterForward(t, x, y, r1, r2);
  }

  /** With the identity parameters, (1, 2) comes back as {x: 2, y: 1}. */
  lemma CrossedRoundTripExample()
    ensures var t := Transformer(0.0, 0.0, 0.0, 1.0);
            var p := t.DoTransformation(1.0, 2.0, Undefined);
            t.DoReverseTransformation(p.x, p.y, Undefined) == Point(2.0, 1.0)
  {
    ReverseAfterForward(Transformer(0.0, 0.0, 0.0, 1.0), 1.0, 2.0, Undefined, Undefined);
  }

  /** The forward map is one-to-one exactly when the transformer is
      invertible (the other direction is DegenerateCollapses). */
  lemma ForwardInjective(t: Transformer, p: Point, q: Point)
    requires t.Invertible() && t.Forward(p) == t.Forward(q)
    ensures p == q
  {
    ReverseValuesUndoForward(t, p);
    ReverseValuesUndoForward(t, q);
  }

  // ---------------------------------------------------------------------
  // The round flag

  /** An absent or null flag behaves as false in both operations. */
  lemma AbsentRoundIsFalse(t: Transformer, x: real, y: real)
    ensures t.DoTransformation(x, y, Undefined) == t.DoTransformation(x, y, Flag(false))
    ensures t.DoTransformation(x, y, Null) == t.DoTransformation(x, y, Flag(false))
    ensures t.Invertible() ==>
              t.DoReverseTransformation(x, y, Undefined) == t.DoReverseTransformation(x, y, Flag(false))
    ensures t.Invertible() ==>
              t.DoReverseTransformation(x, y, Null) == t.DoReverseTransformation(x, y, Flag(false))
  {
  }

  /** A rounded result of either operation has at most three decimals
      (below the 10^21 bound of toFixed), and rounding it again leaves it
      unchanged. */
  lemma RoundedForwardIsStable(t: Transformer, x: real, y: real)
    ensures var r := t.DoTransformation(x, y, Flag(true));
            && (Abs(t.Forward(Point(x, y)).x) < Limit ==> IsMilli(r.x))
            && (Abs(t.Forward(Point(x, y)).y) < Limit ==> IsMilli(r.y))
            && RoundPoint(r) == r
  {
    var f := t.Forward(Point(x, y));
    ToFixed3Idempotent(f.x);
    ToFixed3Idempotent(f.y);
  }

  /** The same for the reverse operation, whose fields are crossed. */
  lemma RoundedReverseIsStable(t: Transformer, x: real, y: real)
    requires t.Invertible()
    ensures var r := t.DoReverseTransformation(x, y, Flag(true));
            && (Abs(t.ReverseValues(Point(x, y)).y) < Limit ==> IsMilli(r.x))
            && (Abs(t.ReverseValues(Point(x, y)).x) < Limit ==> IsMilli(r.y))
            && RoundPoint(r) == r
  {
    var v := t.ReverseValues(Point(x, y));
    ToFixed3Idempotent(v.x);
    ToFixed3Idempotent(v.y);
  }
}
