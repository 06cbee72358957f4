/** Decimal rounding to three places as JavaScript performs it with
    `parseFloat(v.toFixed(3))`, stated over exact reals.

    `Number.prototype.toFixed` (section 21.1.3.3 of ECMA-262) takes the
    magnitude of its argument, picks the integer n for which n / 1000 is
    nearest to it (the larger n when two are equally near), and puts the
    sign back in front; a magnitude of 10^21 or more is printed as it is,
    so `parseFloat` gives the argument back unchanged. */
module FixedPoint {

  /** 10^21: from this magnitude on, toFixed does not round. */
  const Limit: real := 1000000000000000000000.0

  /** Half of the last kept decimal place. */
  const HalfUnit: real := 0.0005

  function Abs(v: real): real {
    if v < 0.0 then -v else v
  }

  /** v has at most three digits after the decimal point. */
  predicate IsMilli(v: real) {
    (v * 1000.0).Floor as real == v * 1000.0
  }

  /** The value of `parseFloat(v.toFixed(3))`. */
  function ToFixed3(v: real): (r: real)
    ensures Limit <= Abs(v) ==> r == v
    ensures Abs(v) < Limit ==> IsMilli(r)
    ensures Abs(r - v) <= HalfUnit
    // a tie goes away from zero
    ensures Abs(r - v) == HalfUnit ==> Abs(v) < Abs(r)
    // the sign is kept (a negative value rounding to zero gives -0, which is 0 here)
    ensures 0.0 <= v ==> 0.0 <= r
    ensures v <= 0.0 ==> r <= 0.0
  {
    var m := Abs(v);
    if Limit <= m then v
    else
      var n := (m * 1000.0 + 0.5).Floor;
      var q := n as real / 1000.0;
      assert q * 1000.0 == n as real;
      assert (-q) * 1000.0 == (-n) as real;
      if v < 0.0 then -q else q
  }

  /** A value that already has at most three decimals is left as it is. */
  lemma ToFixed3KeepsMilli(v: real)
    requires IsMilli(v)
    ensures ToFixed3(v) == v
  {
    if Abs(v) < Limit {
      var k := (v * 1000.0).Floor;
      var m := Abs(v) * 1000.0;
      var j := if v < 0.0 then -k else k;
      assert m == j as real;
      assert (m + 0.5).Floor == j;
    }
  }

  /** Rounding a rounded value changes nothing. */
  lemma ToFixed3Idempotent(v: real)
    ensures ToFixed3(ToFixed3(v)) == ToFixed3(v)
  {
    if Abs(v) < Limit {
      ToFixed3KeepsMilli(ToFixed3(v));
    }
  }

  /** No multiple of 1/1000 is nearer to v than ToFixed3(v), and one that
      is as near is the one on the side of zero. */
  lemma ToFixed3Nearest(v: real, k: int)
    requires Abs(v) < Limit
    ensures Abs(ToFixed3(v) - v) <= Abs(k as real / 1000.0 - v)
    ensures k as real / 1000.0 != ToFixed3(v) && Abs(k as real / 1000.0 - v) == Abs(ToFixed3(v) - v)
            ==> Abs(k as real / 1000.0) < Abs(ToFixed3(v))
  {
    var r := ToFixed3(v);
    var c := k as real / 1000.0;
    var j := (r * 1000.0).Floor;
    assert r == j as real / 1000.0;
    if c != r {
      assert k != j;
      assert Abs(c - r) >= 0.001 by {
        if k < j { assert k as real <= j as real - 1.0; }
        else { assert k as real >= j as real + 1.0; }
      }
    }
  }

  /** toFixed rounds magnitudes, so rounding commutes with negation. */
  lemma ToFixed3Negate(v: real)
    ensures ToFixed3(-v) == -ToFixed3(v)
  {
  }
}
