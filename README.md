# Helmert transformation, modelled in Dafny

The system is a 4-parameter Helmert (two-dimensional similarity)
transformation. It is written twice with the same formulas:
`HelmertTransformation4Js.js` uses a prototype-based constructor and
`helmert-trafo.js` uses an ES6 class. A transformer stores four numbers,
given in this order:

- `y0`: the y translation;
- `x0`: the x translation;
- `o` and `a`: the two rotation and scale coefficients.

A transformer offers two operations:

- `doTransformation(x, y, round)` maps a point of the origin system, such as
  a local grid, to the destination system, such as a national grid.
- `doReverseTransformation(x, y, round)` maps it back, using the inverse
  coefficients `aT = a / (a² + o²)` and `oT = o / (a² + o²)`.

Both operations return a plain object `{x, y}`. When `round` is true, each
coordinate goes through `parseFloat(v.toFixed(3))`. An absent or `null`
flag means false.

The project has three modules:

- `FixedPoint` (`fixed_point.dfy`) models `parseFloat(v.toFixed(3))` over
  exact reals, following `Number.prototype.toFixed` in section 21.1.3.3 of
  ECMA-262:
  - it takes the magnitude, picks the integer n for which n/1000 is nearest
    (the larger n on a tie) and puts the sign back;
  - a magnitude of 10^21 or more is returned unchanged.
- `Helmert` (`helmert.dfy`) holds:
  - `Point`;
  - `RoundArg` (the optional flag: `Undefined`, `Null` or `Flag(b)`);
  - the `Transformer` datatype. Its constructor `Transformer(y0, x0, o, a)`
    stands for both JavaScript constructors, which store their four
    arguments as given and validate nothing. No operation changes them.
  - `Forward` and `ReverseValues`, the unrounded formulas;
  - `DoTransformation` and `DoReverseTransformation`, the two operations.
- `HelmertLaws` (`helmert_laws.dfy`) proves what the operations satisfy.

The reverse operation returns the value it computed for `y` in the field
`x`, and the value it computed for `x` in the field `y`. The code does this
in `HelmertTransformation4Js.js:122-125` and `helmert-trafo.js:87-90`. One
might expect the exchange to make `reverse(forward(x, y))` give back
`(x, y)`. With the code as written, it gives back `(y, x)`. The model
follows the code:

- `ReverseAfterForward` and `ForwardAfterReverse` prove the exact,
  exchanged round trip.
- `RoundTripIffDiagonal` proves that the uncrossed round trip holds exactly
  when `x == y`.

## Model

| member | source | states |
|---|---|---|
| FixedPoint.ToFixed3 | HelmertTransformation4Js.js:78-81 | the rounded value is a multiple of 1/1000 below 10^21 and the argument itself from 10^21 on; it lies within 1/2000 of the argument; at exactly 1/2000 it is the one farther from zero; it keeps the sign |
| FixedPoint.ToFixed3Nearest | helmert-trafo.js:46-49 | no multiple of 1/1000 is nearer to the argument than the rounded value, and one equally near lies on the side of zero, so the tie goes away from zero |
| FixedPoint.ToFixed3KeepsMilli | HelmertTransformation4Js.js:117-120 | a value with at most three decimals is returned unchanged |
| FixedPoint.ToFixed3Idempotent | helmert-trafo.js:82-85 | rounding a rounded value changes nothing |
| FixedPoint.ToFixed3Negate | HelmertTransformation4Js.js:79-80 | rounding a negated value gives the negated rounding, since toFixed rounds the magnitude and puts the sign back |
| Helmert.Rounds | HelmertTransformation4Js.js:71-73 | an absent or null flag means no rounding, and a boolean flag rounds exactly when it is true (also HelmertTransformation4Js.js:103-105 and :78, helmert-trafo.js:39-41 and :46) |
| Helmert.RoundPoint | HelmertTransformation4Js.js:78-81 | rounding moves each coordinate by at most half a unit of the third decimal |
| Helmert.Finish | HelmertTransformation4Js.js:117-120 | without rounding the point is returned as it is; with rounding each coordinate moves by at most 1/2000 and the result is left unchanged by rounding it again (also HelmertTransformation4Js.js:78-81, helmert-trafo.js:46-49 and 82-85) |
| Helmert.Transformer.Forward | helmert-trafo.js:43-44 | the origin goes to (x0, y0), and the displacement from (x0, y0) has dot product a·(p.x² + p.y²) and cross product o·(p.x² + p.y²) with p: a rotation and scaling by (a, o) (also HelmertTransformation4Js.js:75-76) |
| Helmert.Transformer.ReverseValues | HelmertTransformation4Js.js:107-115 | requires a² + o² ≠ 0; the two values the reverse operation computes are the point that the forward map sends to its input (also helmert-trafo.js:72-80) |
| Helmert.InverseCoefficients | helmert-trafo.js:72-75 | aT·a + oT·o = 1 and aT·o = oT·a |
| Helmert.UndoRotation | HelmertTransformation4Js.js:109-115 | for any aT, oT with aT·a + oT·o = 1 and aT·o = oT·a, the forward formulas applied to the reverse formulas (with x0Rev, y0Rev as the source builds them) give the starting point |
| Helmert.Transformer.DoTransformation | HelmertTransformation4Js.js:66-87 | returns x = x0 + a·x − o·y and y = y0 + o·x + a·y; rounded only when the flag is true, and then each field is within 1/2000 of the exact value |
| Helmert.Transformer.DoReverseTransformation | helmert-trafo.js:67-91 | requires a² + o² ≠ 0; returns in field x the computed −y0Rev + aT·y − oT·x and in field y the computed −x0Rev + aT·x + oT·y, each rounded only when the flag is true |
| HelmertLaws.AbsentRoundIsFalse | HelmertTransformation4Js.js:71-73 | an absent or null flag gives the same result as false, in both operations (also HelmertTransformation4Js.js:103-105, helmert-trafo.js:39-41 and 68-70) |
| HelmertLaws.IdentityTransformer | helmert-trafo.js:43-44 | unrounded, parameters (0, 0, 0, 1) map every point to itself |
| HelmertLaws.PureTranslation | HelmertTransformation4Js.js:75-76 | unrounded, with o = 0 and a = 1 the forward map adds (x0, y0) |
| HelmertLaws.TranslationExample | HelmertTransformation4Js.js:75-76 | parameters (5, 7, 0, 1) map (3, 4) to {x: 10, y: 9} |
| HelmertLaws.ForwardAffine | helmert-trafo.js:43-44 | the forward map minus its translation is additive and homogeneous |
| HelmertLaws.ForwardIsOffsetLinear | HelmertTransformation4Js.js:75-76 | the forward map is the translation (x0, y0) added to the rotation and scaling by (a, o) |
| HelmertLaws.LinearAdditive | helmert-trafo.js:43-44 | the rotation and scaling by (a, o) maps a sum of points to the sum of their images |
| HelmertLaws.LinearHomogeneous | helmert-trafo.js:43-44 | the rotation and scaling by (a, o) commutes with multiplying a point by a number |
| HelmertLaws.ForwardSimilarity | HelmertTransformation4Js.js:75-76 | the forward map multiplies every squared distance by a² + o² |
| HelmertLaws.Scale2Sign | helmert-trafo.js:72-73 | a² + o² is never negative, and it is positive unless a = o = 0 |
| HelmertLaws.InvertibleIff | HelmertTransformation4Js.js:107-108 | the divisor a² + o² is nonzero if and only if a or o is nonzero |
| HelmertLaws.DegenerateCollapses | helmert-trafo.js:72-73 | when the divisor is zero the forward map sends every point to (x0, y0), so no inverse exists |
| HelmertLaws.ReverseValuesUndoForward | helmert-trafo.js:72-80 | the two values the reverse operation computes, applied to a forward result, are the original x and y |
| HelmertLaws.ReverseAfterForward | HelmertTransformation4Js.js:107-125 | unrounded, reverse(forward(x, y)) is {x: y, y: x} |
| HelmertLaws.ForwardAfterReverse | helmert-trafo.js:72-90 | unrounded, forward applied to (R.y, R.x), where R = reverse(X, Y), is {x: X, y: Y} |
| HelmertLaws.RoundTripIffDiagonal | HelmertTransformation4Js.js:122-125 | unrounded, reverse(forward(x, y)) equals {x: x, y: y} if and only if x = y |
| HelmertLaws.CrossedRoundTripExample | helmert-trafo.js:87-90 | with the identity parameters, (1, 2) comes back as {x: 2, y: 1} |
| HelmertLaws.ForwardInjective | HelmertTransformation4Js.js:75-76 | with a nonzero divisor, two points with the same forward image are equal |
| HelmertLaws.RoundedForwardIsStable | helmert-trafo.js:46-49 | a rounded forward result has at most three decimals, below 10^21, and rounding it again changes nothing |
| HelmertLaws.RoundedReverseIsStable | helmert-trafo.js:82-85 | the same for the reverse operation, whose two fields are exchanged |

## Left out

- Arithmetic is over exact reals, not IEEE-754 doubles. The model does not
  capture:
  - rounding error in the formulas, so round trips are exact here and only
    close in the source;
  - the binary representation behind `toFixed`;
  - overflow to `Infinity`;
  - `NaN` inputs.
- Helmert.Transformer.DoReverseTransformation requires `a² + o² ≠ 0`. In the
  source, a zero divisor produces `Infinity` or `NaN` without an error.
  `DegenerateCollapses` shows that no inverse exists in that case.
- `Math.pow(v, 2)` is modelled as `v * v`.
- `parseFloat` of the string that `toFixed(3)` produces is modelled as the
  decimal value of that string.
- The `round` flag covers three cases: absent, `null` and a boolean. The
  source tests other values by JavaScript truthiness (a string such as
  `"yes"` rounds), and the model does not cover those.
- Non-numeric inputs are not modelled. The source does not validate its
  arguments.
- The `module.exports` guard (`helmert-trafo.js:94-96`) is not modelled. It
  is module plumbing with no behaviour.
- The demo script `demo-node.js`, which only writes to the console, is not
  modelled.
