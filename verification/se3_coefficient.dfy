/** The coefficient adapter for rigid transforms (SE3CoefficientImplementation).
    A coefficient is a vector whose elements 0..2 hold the translation and
    3..6 the rotation quaternion, scalar part first. The pose type and its
    conversions are the kinematics library's; they are taken as function
    values with the identities in `ValidAlgebra`. */
module SE3Coefficients {
  import opened LieGroups
  import opened CurveErrors

  /** Number of elements of an SE(3) coefficient. */
  const CoefficientSize: nat := 7
  /** Degrees of freedom of SE(3): the size of a tangent vector. */
  const TangentSize: nat := 6

  /** The pose library as the adapter uses it:
      fromParts(t, q)   — SE3(SO3(Vector4 q), t)
      position(p)       — p.getPosition()
      quaternion(p)     — p.getRotation().vector()
      fromMatrix(R, t)  — SE3(SO3(RotationMatrix R), t) */
  datatype Se3Algebra<!Pose> = Se3Algebra(
    group: LieGroup<Pose>,
    fromParts: (seq<real>, seq<real>) -> Pose,
    position: Pose -> seq<real>,
    quaternion: Pose -> seq<real>,
    fromMatrix: (seq<seq<real>>, seq<real>) -> Pose)

  function Negated(v: seq<real>): (r: seq<real>)
    ensures |r| == |v| && forall i :: 0 <= i < |v| ==> r[i] == -v[i]
  {
    seq(|v|, i requires 0 <= i < |v| => -v[i])
  }

  function Abs(x: real): real
  {
    if x < 0.0 then -x else x
  }

  /** The identities the adapter relies on: a lawful group of dimension 6, a
      pose is determined by its position and quaternion, q and −q are the same
      rotation, and building a pose from a matrix keeps its translation column. */
  ghost predicate ValidAlgebra<Pose(!new)>(a: Se3Algebra<Pose>) {
    && Lawful(a.group) && a.group.dim == TangentSize
    && (forall p :: |a.position(p)| == 3)
    && (forall p :: |a.quaternion(p)| == 4)
    && (forall p :: a.fromParts(a.position(p), a.quaternion(p)) == p)
    && (forall t, q :: a.fromParts(t, Negated(q)) == a.fromParts(t, q))
    && (forall r, t :: |t| == 3 ==> a.position(a.fromMatrix(r, t)) == t)
  }

  /** The pose a coefficient encodes. */
  function ToPose<Pose>(a: Se3Algebra<Pose>, c: seq<real>): Pose
    requires |c| >= CoefficientSize
  {
    a.fromParts(c[..3], c[3..7])
  }

  /** The coefficient the adapter writes for a pose: position, then quaternion. */
  function FromPose<Pose>(a: Se3Algebra<Pose>, p: Pose): seq<real>
  {
    a.position(p) + a.quaternion(p)
  }

  lemma FromPoseToPose<Pose(!new)>(a: Se3Algebra<Pose>, p: Pose)
    requires ValidAlgebra(a)
    ensures |FromPose(a, p)| == CoefficientSize
    ensures ToPose(a, FromPose(a, p)) == p
  {
    var c := FromPose(a, p);
    assert c[..3] == a.position(p);
    assert c[3..7] == a.quaternion(p);
  }

  // ---------------------------------------------------------------------
  // makeUnique
  // ---------------------------------------------------------------------

  /** The canonical representative: the quaternion's sign flipped when its
      scalar part is negative; everything else as it was. */
  function Canonical(c: seq<real>): (r: seq<real>)
    requires |c| >= CoefficientSize
    ensures |r| == |c|
    ensures r[3] >= 0.0
    ensures r[..3] == c[..3] && r[7..] == c[7..]
    ensures c[3] < 0.0 ==> r[3..7] == Negated(c[3..7])
    ensures c[3] >= 0.0 ==> r == c
  {
    if c[3] < 0.0 then c[..3] + Negated(c[3..7]) + c[7..] else c
  }

  /** makeUniqueInPlace on the caller's vector. */
  method MakeUniqueInPlace(c: array<real>)
    requires c.Length >= CoefficientSize
    modifies c
    ensures c[..] == Canonical(old(c[..]))
  {
    if c[3] < 0.0 {
      c[3], c[4], c[5], c[6] := -c[3], -c[4], -c[5], -c[6];
    }
  }

  /** makeUnique: a copy of the input, made unique; the input is a value and
      stays as it was. */
  method MakeUnique(c: seq<real>) returns (u: seq<real>)
    requires |c| >= CoefficientSize
    ensures |u| == |c| && u[3] >= 0.0 && u[..3] == c[..3]
    ensures u == Canonical(c)
  {
    var out := new real[|c|](i requires 0 <= i < |c| => c[i]);
    assert out[..] == c;
    MakeUniqueInPlace(out);
    u := out[..];
  }

  lemma CanonicalIdempotent(c: seq<real>)
    requires |c| >= CoefficientSize
    ensures Canonical(Canonical(c)) == Canonical(c)
  {
  }

  /** Canonicalizing does not change the pose a coefficient encodes. */
  lemma CanonicalSamePose<Pose(!new)>(a: Se3Algebra<Pose>, c: seq<real>)
    requires ValidAlgebra(a) && |c| >= CoefficientSize
    ensures ToPose(a, Canonical(c)) == ToPose(a, c)
  {
    var r := Canonical(c);
    if c[3] < 0.0 {
      assert r[3..7] == Negated(c[3..7]);
      assert a.fromParts(c[..3], Negated(c[3..7])) == a.fromParts(c[..3], c[3..7]);
    }
  }

  // ---------------------------------------------------------------------
  // retract, localCoordinates, equals
  // ---------------------------------------------------------------------

  /** localCoordinates(x, y) = Log(y ∘ x⁻¹): the increment on the left of x. */
  function LocalCoordinates<Pose(!new)>(a: Se3Algebra<Pose>, x: seq<real>, y: seq<real>): (delta: Tangent)
    requires ValidAlgebra(a) && |x| >= CoefficientSize && |y| >= CoefficientSize
    ensures |delta| == TangentSize
  {
    a.group.log(a.group.compose(ToPose(a, y), a.group.inverse(ToPose(a, x))))
  }

  /** retract(x, δ) = Exp(δ) ∘ x, written back as a coefficient. Only the
      first six elements of δ are used. */
  function Retract<Pose(!new)>(a: Se3Algebra<Pose>, x: seq<real>, delta: Tangent): (r: seq<real>)
    requires ValidAlgebra(a) && |x| >= CoefficientSize && |delta| >= TangentSize
    ensures |r| == CoefficientSize
  {
    FromPose(a, a.group.compose(a.group.exp(delta[..6]), ToPose(a, x)))
  }

  /** Largest absolute element (Eigen's abs().maxCoeff()). */
  function MaxAbs(v: seq<real>): (m: real)
    requires |v| > 0
    ensures forall i :: 0 <= i < |v| ==> Abs(v[i]) <= m
    ensures exists i :: 0 <= i < |v| && Abs(v[i]) == m
  {
    if |v| == 1 then Abs(v[0])
    else
      var rest := MaxAbs(v[1..]);
      if Abs(v[0]) >= rest then Abs(v[0]) else rest
  }

  /** equals: every element of the local coordinates is strictly below tol in
      absolute value; never true for tol ≤ 0. */
  function Equals<Pose(!new)>(a: Se3Algebra<Pose>, x: seq<real>, y: seq<real>, tol: real): (r: bool)
    requires ValidAlgebra(a) && |x| >= CoefficientSize && |y| >= CoefficientSize
    ensures r <==> forall i :: 0 <= i < TangentSize ==> Abs(LocalCoordinates(a, x, y)[i]) < tol
    ensures tol <= 0.0 ==> !r
  {
    MaxAbs(LocalCoordinates(a, x, y)) < tol
  }

  /** Retracting by the local coordinates of y lands on the pose of y, and on
      y itself when y is in the form the adapter writes. */
  lemma RetractLocalCoordinates<Pose(!new)>(a: Se3Algebra<Pose>, x: seq<real>, y: seq<real>)
    requires ValidAlgebra(a) && |x| >= CoefficientSize && |y| >= CoefficientSize
    ensures ToPose(a, Retract(a, x, LocalCoordinates(a, x, y))) == ToPose(a, y)
    ensures y == FromPose(a, ToPose(a, y)) ==> Retract(a, x, LocalCoordinates(a, x, y)) == y
  {
    var g := a.group;
    var X, Y := ToPose(a, x), ToPose(a, y);
    var delta := LocalCoordinates(a, x, y);
    assert delta[..6] == delta;
    calc {
      g.compose(g.exp(delta[..6]), X);
      g.compose(g.compose(Y, g.inverse(X)), X);
      { CancelRight(g, X, Y); }
      Y;
    }
    FromPoseToPose(a, Y);
  }

  /** Local coordinates undo a retraction by any δ on which Log undoes Exp
      (in exact arithmetic, δ within the injectivity radius). */
  lemma LocalCoordinatesRetract<Pose(!new)>(a: Se3Algebra<Pose>, x: seq<real>, delta: Tangent)
    requires ValidAlgebra(a) && |x| >= CoefficientSize && |delta| >= TangentSize
    requires a.group.log(a.group.exp(delta[..6])) == delta[..6]
    ensures LocalCoordinates(a, x, Retract(a, x, delta)) == delta[..6]
  {
    var g := a.group;
    var X, E := ToPose(a, x), g.exp(delta[..6]);
    FromPoseToPose(a, g.compose(E, X));
    CancelInverseRight(g, E, X);
  }

  /** Every coefficient equals itself within any positive tolerance. */
  lemma EqualsReflexive<Pose(!new)>(a: Se3Algebra<Pose>, x: seq<real>, tol: real)
    requires ValidAlgebra(a) && |x| >= CoefficientSize && tol > 0.0
    ensures Equals(a, x, x, tol)
  {
    var g := a.group;
    var X := ToPose(a, x);
    assert g.compose(X, g.inverse(X)) == g.identity;
    assert LocalCoordinates(a, x, x) == Zeros(TangentSize);
  }

  /** A coefficient equals its canonical form within any positive tolerance. */
  lemma EqualsCanonical<Pose(!new)>(a: Se3Algebra<Pose>, x: seq<real>, tol: real)
    requires ValidAlgebra(a) && |x| >= CoefficientSize && tol > 0.0
    ensures Equals(a, x, Canonical(x), tol)
  {
    CanonicalSamePose(a, x);
    var g := a.group;
    var X := ToPose(a, x);
    assert g.compose(X, g.inverse(X)) == g.identity;
    assert LocalCoordinates(a, x, Canonical(x)) == Zeros(TangentSize);
  }

  // ---------------------------------------------------------------------
  // makeValue
  // ---------------------------------------------------------------------

  /** The upper-left 3×3 block of a 4×4 matrix. */
  function RotationBlock(m: seq<seq<real>>): seq<seq<real>>
    requires |m| == 4 && forall i :: 0 <= i < 4 ==> |m[i]| == 4
  {
    seq(3, i requires 0 <= i < 3 => m[i][..3])
  }

  /** The upper-right 3×1 column of a 4×4 matrix. */
  function TranslationColumn(m: seq<seq<real>>): (t: seq<real>)
    requires |m| == 4 && forall i :: 0 <= i < 4 ==> |m[i]| == 4
    ensures |t| == 3
  {
    [m[0][3], m[1][3], m[2][3]]
  }

  /** makeValue: builds the pose of a homogeneous matrix and writes its
      position and quaternion into the caller's vector, which must already
      hold seven elements. */
  method MakeValue<Pose(!new)>(a: Se3Algebra<Pose>, m: seq<seq<real>>, out: array<real>)
    returns (status: Status)
    requires ValidAlgebra(a)
    requires |m| == 4 && forall i :: 0 <= i < 4 ==> |m[i]| == 4
    modifies out
    ensures out.Length != CoefficientSize ==> status == Failed(DimensionMismatch) && out[..] == old(out[..])
    ensures out.Length == CoefficientSize ==> status == Done
    ensures out.Length == CoefficientSize ==>
      out[..] == FromPose(a, a.fromMatrix(RotationBlock(m), TranslationColumn(m)))
    ensures out.Length == CoefficientSize ==> out[..3] == TranslationColumn(m)
  {
    if out.Length != CoefficientSize {
      return Failed(DimensionMismatch);
    }
    var pose := a.fromMatrix(RotationBlock(m), TranslationColumn(m));
    var v := FromPose(a, pose);
    forall i | 0 <= i < CoefficientSize {
      out[i] := v[i];
    }
    assert out[..] == v;
    status := Done;
  }
}
