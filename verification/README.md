# curves: polynomial splines, SE(3) coefficients and slerp SE(2) curves in Dafny

This project models the core of the `curves` trajectory library and proves properties of the model. The library maps a query time to a value on a trajectory. It has two backends.

- **Scalar trajectories.** A chain of polynomial segments is evaluated by inner products with the basis vectors τ(t), τ′(t) and τ″(t).
- **Rigid-transform trajectories.** A time-ordered store of (time, key, coefficient) entries is interpolated by slerp in a Lie group.

The modules:

- `CurveErrors` (`errors.dfy`): the failure signals. A fatal `CHECK` that a caller can reach with well-typed input becomes an error value, not a precondition.
- `LieGroups` (`lie_group.dfy`): composition, inverse, Exp and Log as function values. `Lawful` states the group identities the curves rely on.
- `PolynomialSplines` (`polynomial_spline.dfy`):
  - one segment of order n, stored as `[a_n … a_0]`;
  - evaluation by inner product with τ, τ′ and τ″, proved equal to Horner evaluation of the polynomial and of its formal derivatives;
  - the `PolynomialSpline` class, whose coefficient array, duration and clock are updated in place.
- `SE3Coefficients` (`se3_coefficient.dfy`): the 7-element SE(3) coefficient, with translation in elements 0..2 and quaternion in 3..6. It covers quaternion sign canonicalisation (in place, on an array), `localCoordinates`, `retract`, `equals` and `makeValue`.
- `PolynomialSplineScalarCurves` (`scalar_curve.dfy`): the scalar curve, made of a segment container plus the time offset `minTime`.
- `CoefficientManagers` (`coefficient_manager.dfy`): the strictly time-ordered entry store behind the slerp curve. It covers:
  - insert-or-replace by time, with keys that are never reused;
  - bulk insertion;
  - bracket queries;
  - key-to-time lookups.
- `SlerpSE2Curves` (`slerp_se2_curve.dfy`):
  - `evaluate` with its three-way case split;
  - `getValueExpression` and the expression it hands to the optimizer;
  - the `SlerpSE2Curve` class (fit, set, clear, transform), whose store is updated in place.

Doubles are modelled as reals. The slerp curve's times are 64-bit nanosecond integers; the scalar curve's times are reals (see "## Left out"). The segment container and the coefficient manager are not part of the shown source. The coefficient manager follows its documented behaviour. For the segment container, the behaviour below consists of modelling choices. Its documented interface instead fails with TimeOutOfBounds outside [0, total duration], and it documents no junction rule and no value for an empty container:

- **Segment container.** Segments lie end to end from container time 0. A time at a junction belongs to the earlier segment. Times outside the span extrapolate the first or last segment. An empty container evaluates to 0.
- **Coefficient manager.** A single-entry bracket is that entry twice. At the last time the bracket is the last two entries.

## Model

| member | source | states |
|---|---|---|
| PolynomialSplines.DotTau | curves/include/curves/PolynomialSpline.hpp:63-65 | the inner product of `[a_n … a_0]` with τ(t) = [tⁿ … t 1] is the polynomial a_n·tⁿ + … + a_0 (Horner form), per the coefficient order of lines 101-105 |
| PolynomialSplines.DotDTau | curves/include/curves/PolynomialSpline.hpp:67-69 | the inner product with τ′(t) is the polynomial's derivative; the constant term contributes nothing |
| PolynomialSplines.DotDDTau | curves/include/curves/PolynomialSpline.hpp:71-73 | the inner product with τ″(t) is the second derivative; the linear and constant terms contribute nothing |
| PolynomialSplines.Position | curves/include/curves/PolynomialSpline.hpp:63-65 | the position is the polynomial at t, and at t = 0 it is the last coefficient a_0 |
| PolynomialSplines.Velocity | curves/include/curves/PolynomialSpline.hpp:67-69 | the velocity is the derivative polynomial at t, and at t = 0 it is a_1 (0 for a constant) |
| PolynomialSplines.Acceleration | curves/include/curves/PolynomialSpline.hpp:71-73 | the acceleration is the second-derivative polynomial at t, and at t = 0 it is 2·a_2 |
| PolynomialSplines.VelocityIgnoresConstant | curves/include/curves/PolynomialSpline.hpp:67-69 | changing a_0 never changes the velocity |
| PolynomialSplines.AccelerationIgnoresLinear | curves/include/curves/PolynomialSpline.hpp:71-73 | changing a_0 and a_1 never changes the acceleration |
| PolynomialSplines.PolynomialSpline.constructor | curves/include/curves/PolynomialSpline.hpp:28-35 | a new segment has order+1 zero coefficients, clock 0, duration 0, and coefficients not yet evaluated |
| PolynomialSplines.PolynomialSpline.ComputeCoefficients | curves/include/curves/PolynomialSpline.hpp:45-49 | always returns true; the coefficients are the solver's; the duration becomes the options' tf; the clock and the evaluated flag are unchanged |
| PolynomialSplines.PolynomialSpline.SetCoefficientsAndDuration | curves/include/curves/PolynomialSpline.hpp:51-54 | the coefficients and duration are replaced by the given ones; the size stays order+1 |
| PolynomialSplines.PolynomialSpline.SetCoefficientsAndDurationFromVector | curves/include/curves/PolynomialSpline.hpp:56-61 | coefficient k equals input element k for every k, and the reported duration is the given one |
| PolynomialSplines.PolynomialSpline.GetPositionAtTime | curves/include/curves/PolynomialSpline.hpp:63-65 | the stored polynomial at tk, read from the coefficients only (no clamping to the duration, no use of the clock); the constant coefficient at 0 |
| PolynomialSplines.PolynomialSpline.GetVelocityAtTime | curves/include/curves/PolynomialSpline.hpp:67-69 | the derivative of the stored polynomial at tk |
| PolynomialSplines.PolynomialSpline.GetAccelerationAtTime | curves/include/curves/PolynomialSpline.hpp:71-73 | the second derivative of the stored polynomial at tk |
| PolynomialSplines.PolynomialSpline.AdvanceTime | curves/include/curves/PolynomialSpline.hpp:75-77 | the clock grows by exactly dt; nothing else may change |
| PolynomialSplines.PolynomialSpline.ResetTime | curves/include/curves/PolynomialSpline.hpp:79-81 | the clock is 0; nothing else may change |
| SE3Coefficients.FromPoseToPose | curves/src/SE3CoefficientImplementation.cpp:58-62 | writing a pose as position then quaternion gives 7 elements that decode to the same pose |
| SE3Coefficients.Canonical | curves/src/SE3CoefficientImplementation.cpp:24-29 | elements 3..6 are negated exactly when element 3 is negative; afterwards element 3 is ≥ 0; the translation and anything beyond element 6 are unchanged |
| SE3Coefficients.MakeUniqueInPlace | curves/src/SE3CoefficientImplementation.cpp:24-29 | the caller's array afterwards holds the canonical form of what it held |
| SE3Coefficients.MakeUnique | curves/src/SE3CoefficientImplementation.cpp:31-36 | the output is the canonical form of the input (copy, then in place); element 3 ≥ 0; translation kept |
| SE3Coefficients.CanonicalIdempotent | curves/src/SE3CoefficientImplementation.cpp:24-29 | making a coefficient unique twice equals making it unique once |
| SE3Coefficients.CanonicalSamePose | curves/src/SE3CoefficientImplementation.cpp:24-29 | the sign flip does not change the encoded pose (q and −q are one rotation) |
| SE3Coefficients.LocalCoordinates | curves/src/SE3CoefficientImplementation.cpp:65-77 | Log(y ∘ x⁻¹), a 6-element tangent vector |
| SE3Coefficients.Retract | curves/src/SE3CoefficientImplementation.cpp:52-63 | Exp(δ[0..6]) ∘ x written back as a 7-element coefficient |
| SE3Coefficients.MaxAbs | curves/src/SE3CoefficientImplementation.cpp:21 | the largest absolute element: at least every element and attained by one |
| SE3Coefficients.Equals | curves/src/SE3CoefficientImplementation.cpp:16-22 | true exactly when every local-coordinate element is strictly below tol in absolute value; never for tol ≤ 0 |
| SE3Coefficients.RetractLocalCoordinates | curves/src/SE3CoefficientImplementation.cpp:52-77 | retract(x, localCoordinates(x, y)) is y's pose, and is y itself when y is in written form |
| SE3Coefficients.LocalCoordinatesRetract | curves/src/SE3CoefficientImplementation.cpp:52-77 | localCoordinates(x, retract(x, δ)) is δ for every δ on which Log undoes Exp |
| SE3Coefficients.EqualsReflexive | curves/src/SE3CoefficientImplementation.cpp:16-22 | every coefficient equals itself for any positive tolerance |
| SE3Coefficients.EqualsCanonical | curves/src/SE3CoefficientImplementation.cpp:16-29 | a coefficient equals its unique form for any positive tolerance |
| SE3Coefficients.MakeValue | curves/src/SE3CoefficientImplementation.cpp:43-48 | fails with DimensionMismatch, writing nothing, unless the output holds 7 elements; otherwise writes position then quaternion of the matrix's pose, with elements 0..2 the translation column |
| PolynomialSplineScalarCurves.LocateInRange | curves/include/curves/PolynomialSplineScalarCurve.hpp:74-79 | within the container's span, a query resolves to a segment and a local time in [0, duration] that add up to the query |
| PolynomialSplineScalarCurves.LocateOnSegment | curves/include/curves/PolynomialSplineScalarCurve.hpp:74-79 | conversely, every local time of a segment (a segment's start belongs to the previous one) resolves back to that segment |
| PolynomialSplineScalarCurves.TotalDurationAppend | curves/include/curves/PolynomialSplineScalarCurve.hpp:129 | appending segments adds their durations to the container's duration |
| PolynomialSplineScalarCurves.ContainerPosition | curves/include/curves/PolynomialSplineScalarCurve.hpp:77 | the located segment's polynomial at the local time; 0 for an empty container |
| PolynomialSplineScalarCurves.ContainerVelocity | curves/include/curves/PolynomialSplineScalarCurve.hpp:86 | the located segment's derivative at the local time |
| PolynomialSplineScalarCurves.ContainerAcceleration | curves/include/curves/PolynomialSplineScalarCurve.hpp:90 | the located segment's second derivative at the local time |
| PolynomialSplineScalarCurves.PolynomialSplineScalarCurve.constructor | curves/include/curves/PolynomialSplineScalarCurve.hpp:32-36 | an empty container and minTime 0 |
| PolynomialSplineScalarCurves.PolynomialSplineScalarCurve.GetMinTime | curves/include/curves/PolynomialSplineScalarCurve.hpp:64-67 | returns minTime; when no duration is negative, a non-empty curve takes the first segment's constant coefficient a_0 there |
| PolynomialSplineScalarCurves.PolynomialSplineScalarCurve.GetMaxTime | curves/include/curves/PolynomialSplineScalarCurve.hpp:69-72 | minTime plus the sum of the segment durations; never before getMinTime when no duration is negative |
| PolynomialSplineScalarCurves.PolynomialSplineScalarCurve.Evaluate | curves/include/curves/PolynomialSplineScalarCurve.hpp:74-79 | always returns true, with the container's polynomial at time − minTime |
| PolynomialSplineScalarCurves.PolynomialSplineScalarCurve.EvaluateDerivative | curves/include/curves/PolynomialSplineScalarCurve.hpp:81-98 | returns true exactly for orders 1 and 2, giving the first or second derivative at time − minTime; any other order returns false with the value unchanged |
| PolynomialSplineScalarCurves.PolynomialSplineScalarCurve.FitCurve | curves/include/curves/PolynomialSplineScalarCurve.hpp:106-111 | the container is refitted with zero boundary velocities and accelerations; minTime is the first sample time (times must be non-empty) |
| PolynomialSplineScalarCurves.PolynomialSplineScalarCurve.FitCurveWithBoundary | curves/include/curves/PolynomialSplineScalarCurve.hpp:113-121 | the container is refitted with the given boundary conditions in the order v0, a0, vT, aT; minTime is the first sample time |
| PolynomialSplineScalarCurves.PolynomialSplineScalarCurve.FitCurveFromOptions | curves/include/curves/PolynomialSplineScalarCurve.hpp:123-132 | one quintic segment per option is appended, in order, after the existing ones (no reset); minTime is 0, so the old segments now start at curve time 0; getMaxTime is the old container duration plus the options' durations |
| PolynomialSplineScalarCurves.PolynomialSplineScalarCurve.Clear | curves/include/curves/PolynomialSplineScalarCurve.hpp:134-138 | empty container, minTime 0, max time 0 |
| PolynomialSplineScalarCurves.PolynomialSplineScalarCurve.Extend | curves/include/curves/PolynomialSplineScalarCurve.hpp:100-104 | always fails as unimplemented |
| PolynomialSplineScalarCurves.PolynomialSplineScalarCurve.TransformCurve | curves/include/curves/PolynomialSplineScalarCurve.hpp:140-143 | always fails as unimplemented |
| PolynomialSplineScalarCurves.EvaluateAtMinTime | curves/include/curves/PolynomialSplineScalarCurve.hpp:74-79 | at getMinTime a non-empty curve is the first segment's constant coefficient a_0 |
| PolynomialSplineScalarCurves.EvaluateOnSegment | curves/include/curves/PolynomialSplineScalarCurve.hpp:74-98 | at minTime + (start of segment i) + local the curve and its velocity are segment i's polynomial and derivative at local |
| PolynomialSplineScalarCurves.FitFromOptionsEvaluates | curves/include/curves/PolynomialSplineScalarCurve.hpp:123-132 | after fitting an empty curve from options, the curve inside option i's span is the polynomial solved from option i |
| CoefficientManagers.InsertTimes | curves/src/SlerpSE2Curve.cpp:322 | insertCoefficient adds its time to the stored times and nothing else, grows the store by one exactly when the time is new, and uses no key but the existing ones and the next key |
| CoefficientManagers.InsertLookup | curves/src/SlerpSE2Curve.cpp:322 | afterwards the time holds the new coefficient under its old key (the next key if it was new), and every other time holds what it held |
| CoefficientManagers.InsertSorted | curves/src/SlerpSE2Curve.cpp:322 | inserting keeps times strictly increasing |
| CoefficientManagers.InsertKeysUnique | curves/src/SlerpSE2Curve.cpp:322 | inserting a new time with the next key keeps keys unique and below the advanced counter |
| CoefficientManagers.InsertAtStoredTime | curves/src/SlerpSE2Curve.cpp:322 | re-inserting at a stored time rewrites that entry's coefficient only, in place |
| CoefficientManagers.NextKeyAfter | curves/src/SlerpSE2Curve.cpp:322 | the key counter advances by one exactly when the time was not stored |
| CoefficientManagers.InsertWellFormed | curves/src/SlerpSE2Curve.cpp:322 | insertCoefficient preserves the store invariant (ordered, unique keys, keys below the counter) |
| CoefficientManagers.InsertAll | curves/src/SlerpSE2Curve.cpp:76 | the key counter never decreases over a bulk insertion |
| CoefficientManagers.InsertAllWellFormed | curves/src/SlerpSE2Curve.cpp:76 | insertCoefficients preserves the store invariant |
| CoefficientManagers.InsertAllTimes | curves/src/SlerpSE2Curve.cpp:76 | the stored times afterwards are the old ones plus the inserted ones |
| CoefficientManagers.InsertAllSorted | curves/src/SlerpSE2Curve.cpp:76 | bulk insertion keeps times strictly increasing |
| CoefficientManagers.InsertAllUntouched | curves/src/SlerpSE2Curve.cpp:84 | a time not among the inserted ones keeps its entry |
| CoefficientManagers.InsertAllLastWins | curves/src/SlerpSE2Curve.cpp:76 | each inserted time holds the value given last for it |
| CoefficientManagers.InsertKeepsKeys | curves/src/SlerpSE2Curve.cpp:76 | inserting never changes the key stored at any time |
| CoefficientManagers.Bracket | curves/src/SlerpSE2Curve.cpp:186-188 | succeeds exactly for a non-empty store and min ≤ t ≤ max (NotFound when empty); the indices are adjacent, or one entry twice for a single-entry store; in an ordered store they enclose t |
| CoefficientManagers.BracketAtStoredTime | curves/src/SlerpSE2Curve.cpp:186-188 | at a stored time other than the last, the bracket starts at that entry |
| CoefficientManagers.BracketBetween | curves/src/SlerpSE2Curve.cpp:186-188 | strictly between neighbouring times, the bracket is that pair |
| CoefficientManagers.BracketIsTight | curves/src/SlerpSE2Curve.cpp:186-188 | the bracket encloses t and no stored time lies strictly inside it |
| CoefficientManagers.SortedCount | curves/src/SlerpSE2Curve.cpp:66-68 | an ordered store holds as many entries as distinct times |
| CoefficientManagers.TimeOfKey | curves/src/SlerpSE2Curve.cpp:326-328 | a found time belongs to an entry with that key; the lookup fails exactly when no entry has the key |
| CoefficientManagers.TimeOfKeyAt | curves/src/SlerpSE2Curve.cpp:326-328 | with unique keys, an entry's key finds that entry's time |
| CoefficientManagers.CoefficientOfKey | curves/src/SlerpSE2Curve.cpp:158-159 | the lookup of a leaf's key fails exactly when no entry has the key |
| CoefficientManagers.CoefficientOfKeyAt | curves/src/SlerpSE2Curve.cpp:158-159 | with unique keys, an entry's key finds that entry's coefficient |
| SlerpSE2Curves.Slerp | curves/src/SlerpSE2Curve.cpp:193-198 | the interpolation law A ∘ Exp(α·Log(A⁻¹ ∘ B)); its endpoints are proved by SlerpAtZero and SlerpAtOne |
| SlerpSE2Curves.SlerpAtZero | curves/src/SlerpSE2Curve.cpp:193-198 | at α = 0 the slerp A ∘ Exp(α·Log(A⁻¹ ∘ B)) is A |
| SlerpSE2Curves.SlerpAtOne | curves/src/SlerpSE2Curve.cpp:193-198 | at α = 1 the slerp is B |
| SlerpSE2Curves.Alpha | curves/src/SlerpSE2Curve.cpp:191 | the fraction is 0 at a, 1 at b, and strictly between 0 and 1 strictly between them |
| SlerpSE2Curves.Evaluate | curves/src/SlerpSE2Curve.cpp:177-201 | succeeds exactly for a non-empty curve and a time within [min, max]; an empty curve fails with NotFound |
| SlerpSE2Curves.EvaluateAtStoredTime | curves/src/SlerpSE2Curve.cpp:177-201 | under the group laws, at every stored time the curve is that stored coefficient: the single-time case, the last time, and α = 0 otherwise |
| SlerpSE2Curves.EvaluateAtMaxTime | curves/src/SlerpSE2Curve.cpp:179-184 | with no group laws assumed: at the last stored time the curve is exactly the last coefficient, and a curve with a single time is its one coefficient at that time |
| SlerpSE2Curves.EvaluateBetween | curves/src/SlerpSE2Curve.cpp:186-198 | strictly between neighbouring times the curve is the slerp of the neighbours with 0 < α < 1 |
| SlerpSE2Curves.EvaluateReadsSuffix | curves/src/SlerpSE2Curve.cpp:177-201 | evaluating at the k-th stored time depends only on the times and on coefficients k onward |
| SlerpSE2Curves.ValueExpressionAsWritten | curves/src/SlerpSE2Curve.cpp:151-169 | as written: defined exactly where evaluate is (non-empty curve, time within [min, max]); the fraction is computed before the special cases, so a single-entry bracket carries 0/0 |
| SlerpSE2Curves.ValueExpression | curves/src/SlerpSE2Curve.cpp:151-169 | corrected: defined exactly where evaluate is, and a slerp node always carries a real fraction |
| SlerpSE2Curves.ValueExpressionSingleTimeIsNaN | curves/src/SlerpSE2Curve.cpp:160-167 | on a one-coefficient curve at its time, the expression as written is slerp(leaf, leaf, NaN); the corrected one is the leaf |
| SlerpSE2Curves.ValueExpressionAgreesOnLongerCurves | curves/src/SlerpSE2Curve.cpp:151-169 | with two or more stored times, the expression as written and the corrected one coincide |
| SlerpSE2Curves.ValueExpressionMatchesEvaluate | curves/src/SlerpSE2Curve.cpp:151-201 | the corrected expression, evaluated on the stored coefficients by key, is the value evaluate computes, at every time the curve is defined |
| SlerpSE2Curves.EvaluateDerivative | curves/src/SlerpSE2Curve.cpp:97-100 | always fails as unimplemented |
| SlerpSE2Curves.TransformationPower | curves/src/SlerpSE2Curve.cpp:124-125 | always fails as unimplemented |
| SlerpSE2Curves.DerivativeExpression | curves/src/SlerpSE2Curve.cpp:171-175 | always fails as unimplemented |
| SlerpSE2Curves.FitThenEvaluate | curves/src/SlerpSE2Curve.cpp:70-78 | a curve fitted to samples passes through every sample, with the value given last for a repeated time |
| SlerpSE2Curves.TransformStep | curves/src/SlerpSE2Curve.cpp:320-323 | one transform step still reads the original curve's value and rewrites exactly entry i, keeping the key counter |
| SlerpSE2Curves.SlerpSE2Curve.constructor | curves/src/SlerpSE2Curve.cpp:17 | an empty store |
| SlerpSE2Curves.SlerpSE2Curve.GetMinTime | curves/src/SlerpSE2Curve.cpp:58-60 | a stored time no later than any stored time |
| SlerpSE2Curves.SlerpSE2Curve.GetMaxTime | curves/src/SlerpSE2Curve.cpp:54-56 | a stored time no earlier than any stored time |
| SlerpSE2Curves.SlerpSE2Curve.IsEmpty | curves/src/SlerpSE2Curve.cpp:62-64 | true exactly when no time is stored |
| SlerpSE2Curves.SlerpSE2Curve.Size | curves/src/SlerpSE2Curve.cpp:66-68 | the number of distinct stored times |
| SlerpSE2Curves.SlerpSE2Curve.GetTimeAtKey | curves/src/SlerpSE2Curve.cpp:326-328 | the time of the entry with that key; fails exactly when no entry has it |
| SlerpSE2Curves.SlerpSE2Curve.EvaluateAt | curves/src/SlerpSE2Curve.cpp:177-201 | succeeds exactly for a non-empty curve and getMinTime ≤ time ≤ getMaxTime |
| SlerpSE2Curves.SlerpSE2Curve.InsertCoefficient | curves/src/SlerpSE2Curve.cpp:322 | the store invariant holds; the time maps to the new coefficient under its old key or the next key; other times are unchanged |
| SlerpSE2Curves.SlerpSE2Curve.InsertCoefficients | curves/src/SlerpSE2Curve.cpp:76 | the samples are inserted one after the other, preserving the invariant; the returned keys are the keys at the sample times |
| SlerpSE2Curves.SlerpSE2Curve.FitCurve | curves/src/SlerpSE2Curve.cpp:70-78 | mismatched sizes fail with SizeMismatch and change nothing; empty input changes nothing; otherwise the store is cleared and its times are exactly the sample times, with the returned keys |
| SlerpSE2Curves.SlerpSE2Curve.SetCurve | curves/src/SlerpSE2Curve.cpp:80-86 | mismatched sizes fail and change nothing; otherwise the samples are inserted without clearing, so entries at other times survive and the times are the union |
| SlerpSE2Curves.SlerpSE2Curve.Clear | curves/src/SlerpSE2Curve.cpp:287-289 | the store is empty; keys already handed out are not reused |
| SlerpSE2Curves.SlerpSE2Curve.TransformCurve | curves/src/SlerpSE2Curve.cpp:317-324 | times, keys and the key counter are unchanged; each coefficient becomes T ∘ (the original curve at its time), which is T ∘ the old coefficient for a lawful group |
| SlerpSE2Curves.SlerpSE2Curve.SetTimeRange | curves/src/SlerpSE2Curve.cpp:203-206 | always fails as unimplemented |
| SlerpSE2Curves.SlerpSE2Curve.SaveCurveTimesAndValues | curves/src/SlerpSE2Curve.cpp:330-331 | always fails as unimplemented |

## Left out

- Printing (`print` of the slerp curve, the scalar curve and the SE(3) adapter) is output only.
- The GTSAM integration is a foreign optimizer framework. This covers `initializeGTSAMValues`, `updateFromGTSAMValues`, `addPriorFactors`, noise models and the internals of `gtsam::Expression`. Only the leaf-versus-slerp choice of `getValueExpression` is modelled, as the `Expression` datatype.
- `SlerpSE2Curve::extend`, `setMinSamplingPeriod` and `setSamplingRatio` are not modelled. They delegate to the slerp policy, which is not part of this model.
- `composeTransformations` and `inverseTransformation` have no members of their own. They are the group's `compose` and `inverse` functions.
- Exp, Log, composition, inversion and the quaternion and rotation-matrix conversions are floating-point library routines. They are function values, constrained only by `Lawful` and `ValidAlgebra`.
- Floating point in general is not modelled: doubles are reals. The one exception is the NaN of 0/0 in `getValueExpression`, modelled explicitly as `Fraction.NotANumber`.
- The int64-to-double conversion of times is exact here.
- `PolynomialSplineContainer` is not part of this model. Its segment walk, its 0 for an empty container, and its extrapolation outside [0, duration] are modelled choices. Its documented TimeOutOfBounds failure outside [0, total duration] is not modelled: the scalar curve's `evaluate` and `evaluateDerivative` promise success there, and the container's failure would not reach them. Its `setData` boundary-value solve is a function parameter.
- `spline_traits::compute` (the boundary-value solve for one segment) is a function parameter.
- PolynomialSplineScalarCurves.PolynomialSplineScalarCurve: the scalar curve's `Time` (`minTime`, `getMinTime`, `getMaxTime`, `evaluate`, the fit times) is taken as a double and modelled as `real`. The reason is its double literals for `minTime_` (PolynomialSplineScalarCurve.hpp lines 34 and 131) and the real-valued container durations it adds to it. If `Time` is the library's 64-bit integer time, two effects are not modelled. `getMaxTime` (line 71) would truncate `getContainerDuration() + minTime_` back to an integer. `time -= minTime_` in `evaluate` and `evaluateDerivative` (lines 76 and 83) would be integer arithmetic.
- `PolynomialSplineQuintic::evalCoeffs` is not part of this model. `FitCurveFromOptions` takes it to solve the coefficients and set the duration, as `computeCoefficients` does.
- The coefficient manager is not part of this model. Keys are modelled as a counter that advances only when a new time is inserted.
- Several library `CHECK`s abort the process. They are modelled as error results, not as aborts:
  - `CHECK_EQ(times.size(), values.size())` in `fitCurve` and `setCurve` becomes `Failed(SizeMismatch)`.
  - The bracket `CHECK` of `evaluate` and `getValueExpression` becomes an `Err` result.
  - The `CHECK(false)` of the unimplemented operations becomes `Unimplemented`.
  - `CHECK_EQ(7, outValue->size())` in `makeValue` becomes `Failed(DimensionMismatch)`, and nothing is written.
  - The throw of the scalar `extend` also becomes `Unimplemented`.
- SlerpSE2Curves.SlerpSE2Curve.GetMinTime, SlerpSE2Curves.SlerpSE2Curve.GetMaxTime: require a non-empty curve. The manager's answer on an empty store is not part of this model.
- PolynomialSplineScalarCurves.PolynomialSplineScalarCurve.FitCurve and PolynomialSplineScalarCurves.PolynomialSplineScalarCurve.FitCurveWithBoundary require non-empty times, because the source reads `times.front()`. They also require the external fit to produce quintic segments.
- SlerpSE2Curves.EvaluateAtStoredTime, SlerpSE2Curves.SlerpAtZero and SlerpSE2Curves.SlerpAtOne hold in exact arithmetic under the group laws. These laws are needed only at interior stored times, where `evaluate` computes the slerp at α = 0; in doubles that need not return the coefficient bit for bit. The single-time and last-time cases read the coefficient directly and are stated without group laws by SlerpSE2Curves.EvaluateAtMaxTime.
- `outKeys` of `fitCurve` is always returned, never optional. `getCoefficients`, `getTime` and `getSplineDuration` are plain field reads without contracts.

## Findings

| source | as written | input that shows it | evidently intended | confidence | as-written member | corrected member |
|---|---|---|---|---|---|---|
| curves/src/SlerpSE2Curve.cpp:160-167 | α is computed as (t − a)/(b − a) before any special case, and a one-entry bracket makes it 0/0 | a curve holding one coefficient at time t₀, queried at t₀: α is NaN, which equals neither 0 nor 1, so the expression is slerp(leaf, leaf, NaN) | the single stored coefficient, as `evaluate` returns at lines 179-180 | not executed | SlerpSE2Curves.ValueExpressionAsWritten (shown by SlerpSE2Curves.ValueExpressionSingleTimeIsNaN) | SlerpSE2Curves.ValueExpression (proved by SlerpSE2Curves.ValueExpressionMatchesEvaluate) |
