/** The 4-parameter Helmert (2-D similarity) transformation.

    A transformer holds the translation (y0, x0) and the two rotation/scale
    coefficients o and a. The forward map takes a point of the origin system
    (for example a local grid) to the destination system (a national grid);
    the reverse map goes back. Both may round their result to three
    decimals. */
module Helmert {
  import opened FixedPoint

  /** A point as the operations return it: the plain object {x, y}. */
  datatype Point = Point(x: real, y: real)

  /** The optional `round` argument: absent, null, or a boolean. */
  datatype RoundArg = Undefined | Null | Flag(value: bool)

  /** Whether the operation rounds: an absent or null flag is replaced by
      false, and a boolean flag is used as it is. */
  predicate Rounds(round: RoundArg): (b: bool)
    ensures (round == Undefined || round == Null) ==> !b
    ensures round.Flag? ==> (b <==> round.value)
  {
    round.Flag? && round.value
  }

  /** Each coordinate independently through `parseFloat(toFixed(3))`. */
  function RoundPoint(p: Point): (r: Point)
    ensures Abs(r.x - p.x) <= HalfUnit && Abs(r.y - p.y) <= HalfUnit
  {
    Point(ToFixed3(p.x), ToFixed3(p.y))
  }

  /** The last step of both operations: round when asked to. */
  function Finish(p: Point, round: RoundArg): (r: Point)
    ensures !Rounds(round) ==> r == p
    ensures Abs(r.x - p.x) <= HalfUnit && Abs(r.y - p.y) <= HalfUnit
    // a rounded result is left as it is by rounding it once more
    ensures Rounds(round) ==> RoundPoint(r) == r
  {
    if Rounds(round) then
      ToFixed3Idempotent(p.x);
      ToFixed3Idempotent(p.y);
      RoundPoint(p)
    else p
  }

  /** A transformer: four numbers stored as given and never changed. */
  datatype Transformer = Transformer(y0: real, x0: real, o: real, a: real) {

    /** a^2 + o^2, the divisor of the inverse coefficients (the square of
        the scale factor). */
    function Scale2(): real {
      a * a + o * o
    }

    /** The inverse coefficients exist only when a^2 + o^2 is not zero. */
    predicate Invertible() {
      Scale2() != 0.0
    }

    /** The unrounded forward map: a rotation and scaling by (a, o)
        followed by the translation (x0, y0). */
    function Forward(p: Point): (r: Point)
      ensures p == Point(0.0, 0.0) ==> r == Point(x0, y0)
      // the displacement d = r - (x0, y0) has dot product a |p|^2 and
      // cross product o |p|^2 with p
      ensures (r.x - x0) * p.x + (r.y - y0) * p.y == a * (p.x * p.x + p.y * p.y)
      ensures p.x * (r.y - y0) - p.y * (r.x - x0) == o * (p.x * p.x + p.y * p.y)
    {
      Point(x0 + a * p.x - o * p.y, y0 + o * p.x + a * p.y)
    }

    /** The two values the reverse operation computes before it rounds and
        returns them: `x` is the one assigned to the variable x, `y` the one
        assigned to y. */
    function ReverseValues(p: Point): (r: Point)
      requires Invertible()
      // they are the point the forward map sends to p
      ensures Forward(r) == p
    {
      var aT := a / Scale2();
      var oT := o / Scale2();
      var y0Rev := -x0 * oT + y0 * aT;
      var x0Rev := x0 * aT + y0 * oT;
      var r := Point(-x0Rev + aT * p.x + oT * p.y, -y0Rev + aT * p.y - oT * p.x);
      InverseCoefficients(this);
      UndoRotation(a, o, aT, oT, x0, y0, p);
      r
    }

    /** `doTransformation(x, y, round)`. */
    function DoTransformation(x: real, y: real, round: RoundArg): (r: Point)
      ensures !Rounds(round) ==> r == Forward(Point(x, y))
      ensures Rounds(round) ==> r == RoundPoint(Forward(Point(x, y)))
      // a rounded result is within half a unit of the third decimal
      ensures Abs(r.x - (x0 + a * x - o * y)) <= HalfUnit
      ensures Abs(r.y - (y0 + o * x + a * y)) <= HalfUnit
    {
      var f := Forward(Point(x, y));
      assert f == Point(x0 + a * x - o * y, y0 + o * x + a * y);
      Finish(f, round)
    }

    /** `doReverseTransformation(x, y, round)`. The returned object carries
        the value computed for y in its field x and the value computed for
        x in its field y. */
    function DoReverseTransformation(x: real, y: real, round: RoundArg): (r: Point)
      requires Invertible()
      ensures !Rounds(round) ==> r.x == ReverseValues(Point(x, y)).y && r.y == ReverseValues(Point(x, y)).x
      ensures Rounds(round) ==> r.x == ToFixed3(ReverseValues(Point(x, y)).y) && r.y == ToFixed3(ReverseValues(Point(x, y)).x)
    {
      var v := Finish(ReverseValues(Point(x, y)), round);
      Point(v.y, v.x)
    }
  }

  /** The inverse coefficients aT = a / d and oT = o / d, d = a^2 + o^2. */
  lemma InverseCoefficients(t: Transformer)
    requires t.Invertible()
    ensures (t.a / t.Scale2()) * t.a + (t.o / t.Scale2()) * t.o == 1.0
    ensures (t.a / t.Scale2()) * t.o == (t.o / t.Scale2()) * t.a
  {
    var d := t.Scale2();
    calc {
      (t.a / d) * t.a + (t.o / d) * t.o;
      (t.a * t.a) / d + (t.o * t.o) / d;
      (t.a * t.a + t.o * t.o) / d;
      d / d;
      1.0;
    }
    calc {
      (t.a / d) * t.o;
      (t.a * t.o) / d;
      (t.o * t.a) / d;
      (t.o / d) * t.a;
    }
  }

  /** The algebra behind the reverse map: with aT a + oT o = 1 and
      aT o = oT a, applying the forward formulas to the reverse formulas
      gives the starting point back. */
  lemma UndoRotation(a: real, o: real, aT: real, oT: real, x0: real, y0: real, p: Point)
    requires aT * a + oT * o == 1.0 && aT * o == oT * a
    ensures var x0Rev := x0 * aT + y0 * oT;
            var y0Rev := -x0 * oT + y0 * aT;
            && x0 + a * (-x0Rev + aT * p.x + oT * p.y) - o * (-y0Rev + aT * p.y - oT * p.x) == p.x
            && y0 + o * (-x0Rev + aT * p.x + oT * p.y) + a * (-y0Rev + aT * p.y - oT * p.x) == p.y
  {
    var x0Rev := x0 * aT + y0 * oT;
    var y0Rev := -x0 * oT + y0 * aT;
    calc {
      x0 + a * (-x0Rev + aT * p.x + oT * p.y) - o * (-y0Rev + aT * p.y - oT * p.x);
      x0 - x0 * (aT * a + oT * o) + (aT * a + oT * o) * p.x + (oT * a - aT * o) * p.y;
      p.x;
    }
    calc {
      y0 + o * (-x0Rev + aT * p.x + oT * p.y) + a * (-y0Rev + aT * p.y - oT * p.x);
      y0 - y0 * (aT * a + oT * o) + (aT * o - oT * a) * p.x + (aT * a + oT * o) * p.y;
      p.y;
    }
  }
}
