/** One polynomial segment of a scalar trajectory (curves/PolynomialSpline.hpp).
    A segment of order n stores n+1 coefficients, highest degree first,
    [a_n … a_1 a_0], so that s(t) = a_n·t^n + … + a_1·t + a_0. Position,
    velocity and acceleration are inner products of the coefficients with the
    basis vectors τ(t), τ′(t) and τ″(t). Doubles are modelled as reals. */
module PolynomialSplines {

  /** Boundary conditions of one segment: duration tf, and position, velocity
      and acceleration at t = 0 and at t = tf. */
  datatype SplineOptions = SplineOptions(
    tf: real,
    pos0: real, posT: real,
    vel0: real, velT: real,
    acc0: real, accT: real)

  // ---------------------------------------------------------------------
  // Basis vectors and the inner product
  // ---------------------------------------------------------------------

  /** t^n */
  function Pow(t: real, n: nat): real
  {
    if n == 0 then 1.0 else t * Pow(t, n - 1)
  }

  /** Position basis τ(t) = [t^n, …, t, 1]. */
  function Tau(n: nat, t: real): (tau: seq<real>)
    ensures |tau| == n + 1
  {
    seq(n + 1, k requires 0 <= k <= n => Pow(t, n - k))
  }

  /** Velocity basis τ′(t), termwise d/dt t^i = i·t^(i−1); the constant term
      contributes 0. */
  function DTau(n: nat, t: real): (tau: seq<real>)
    ensures |tau| == n + 1
  {
    seq(n + 1, k requires 0 <= k <= n =>
      if k < n then (n - k) as real * Pow(t, n - k - 1) else 0.0)
  }

  /** Acceleration basis τ″(t); the linear and constant terms contribute 0. */
  function DDTau(n: nat, t: real): (tau: seq<real>)
    ensures |tau| == n + 1
  {
    seq(n + 1, k requires 0 <= k <= n =>
      if k + 1 < n then (n - k) as real * (n - k - 1) as real * Pow(t, n - k - 2) else 0.0)
  }

  /** std::inner_product with initial value 0. */
  function Dot(a: seq<real>, b: seq<real>): real
    requires |a| == |b|
  {
    if |a| == 0 then 0.0 else a[0] * b[0] + Dot(a[1..], b[1..])
  }

  // ---------------------------------------------------------------------
  // Independent reference definitions
  // ---------------------------------------------------------------------

  /** Horner's scheme for [a_n … a_1 a_0]: ((a_n·t + a_(n−1))·t + …)·t + a_0. */
  function Horner(c: seq<real>, t: real): real
  {
    if |c| == 0 then 0.0 else Horner(c[..|c| - 1], t) * t + c[|c| - 1]
  }

  /** The formal derivative of [a_n … a_1 a_0], that is [n·a_n, …, 2·a_2, 1·a_1]. */
  function Derivative(c: seq<real>): (d: seq<real>)
    ensures |d| == if |c| == 0 then 0 else |c| - 1
  {
    if |c| == 0 then []
    else seq(|c| - 1, k requires 0 <= k < |c| - 1 => (|c| - 1 - k) as real * c[k])
  }

  // ---------------------------------------------------------------------
  // Lemmas relating the inner products to the reference definitions
  // ---------------------------------------------------------------------

  lemma {:induction false} DotDropLast(a: seq<real>, b: seq<real>)
    requires |a| == |b| > 0
    ensures Dot(a, b) == Dot(a[..|a| - 1], b[..|b| - 1]) + a[|a| - 1] * b[|b| - 1]
  {
    if |a| > 1 {
      DotDropLast(a[1..], b[1..]);
      assert a[1..][..|a| - 2] == a[..|a| - 1][1..];
      assert b[1..][..|b| - 2] == b[..|b| - 1][1..];
    }
  }

  lemma {:induction false} DotTermwise(a: seq<real>, b: seq<real>, c: seq<real>, d: seq<real>)
    requires |a| == |b| == |c| == |d|
    requires forall k :: 0 <= k < |a| ==> a[k] * b[k] == c[k] * d[k]
    ensures Dot(a, b) == Dot(c, d)
  {
    if |a| > 0 {
      DotTermwise(a[1..], b[1..], c[1..], d[1..]);
    }
  }

  /** Dropping a last term that is zero and matching the remaining terms one by
      one: Σ c[k]·b[k] over all k equals Σ e[k]·d[k] over the first |c| − 1. */
  lemma DropLastTermwise(c: seq<real>, b: seq<real>, e: seq<real>, d: seq<real>)
    requires |c| == |b| > 0 && |e| == |d| == |c| - 1
    requires c[|c| - 1] * b[|b| - 1] == 0.0
    requires forall k :: 0 <= k < |e| ==> c[k] * b[k] == e[k] * d[k]
    ensures Dot(c, b) == Dot(e, d)
  {
    var m := |c| - 1;
    DotTermwise(c[..m], b[..m], e, d);
    DotDropLast(c, b);
  }

  lemma {:induction false} HornerHead(c: seq<real>, t: real)
    requires |c| > 0
    ensures Horner(c, t) == c[0] * Pow(t, |c| - 1) + Horner(c[1..], t)
  {
    var m := |c| - 1;
    if m > 0 {
      HornerHead(c[..m], t);
      assert c[..m][1..] == c[1..][..m - 1];
      var h, p := Horner(c[1..][..m - 1], t), Pow(t, m - 1);
      assert Horner(c[..m], t) == c[0] * p + h;
      assert Horner(c[1..], t) == h * t + c[m];
      Distribute(c[0], p, h, t);
    }
  }

  lemma MulZero(x: real)
    ensures x * 0.0 == 0.0
  {
  }

  lemma Distribute(x: real, p: real, h: real, t: real)
    ensures (x * p + h) * t == x * (t * p) + h * t
  {
  }

  /** The position inner product is Horner evaluation. */
  lemma {:induction false} DotTau(c: seq<real>, t: real)
    requires |c| > 0
    ensures Dot(c, Tau(|c| - 1, t)) == Horner(c, t)
  {
    var n := |c| - 1;
    HornerHead(c, t);
    if n > 0 {
      assert Tau(n, t)[1..] == Tau(n - 1, t);
      DotTau(c[1..], t);
    }
  }

  /** The velocity inner product is Horner evaluation of the derivative. */
  lemma DotDTau(c: seq<real>, t: real)
    requires |c| > 0
    ensures Dot(c, DTau(|c| - 1, t)) == Horner(Derivative(c), t)
  {
    var n := |c| - 1;
    if n == 0 {
      assert Dot(c, DTau(0, t)) == c[0] * 0.0 + Dot([], []);
    } else {
      var b, d, dc := DTau(n, t), Tau(n - 1, t), Derivative(c);
      forall k | 0 <= k < n
        ensures c[k] * b[k] == dc[k] * d[k]
      {
        assert b[k] == (n - k) as real * Pow(t, n - k - 1);
        assert dc[k] == (n - k) as real * c[k];
        assert d[k] == Pow(t, n - 1 - k);
      }
      MulZero(c[n]);
      DropLastTermwise(c, b, dc, d);
      DotTau(dc, t);
    }
  }

  /** The acceleration inner product is Horner evaluation of the second derivative. */
  lemma DotDDTau(c: seq<real>, t: real)
    requires |c| > 0
    ensures Dot(c, DDTau(|c| - 1, t)) == Horner(Derivative(Derivative(c)), t)
  {
    var n := |c| - 1;
    if n == 0 {
      assert Dot(c, DDTau(0, t)) == c[0] * 0.0 + Dot([], []);
    } else {
      var b, d, dc := DDTau(n, t), DTau(n - 1, t), Derivative(c);
      forall k | 0 <= k < n
        ensures c[k] * b[k] == dc[k] * d[k]
      {
        assert dc[k] == (n - k) as real * c[k];
        if k + 1 < n {
          assert b[k] == (n - k) as real * (n - k - 1) as real * Pow(t, n - k - 2);
          assert d[k] == (n - 1 - k) as real * Pow(t, n - 1 - k - 1);
        } else {
          assert b[k] == 0.0 && d[k] == 0.0;
        }
      }
      MulZero(c[n]);
      DropLastTermwise(c, b, dc, d);
      DotDTau(dc, t);
    }
  }

  // ---------------------------------------------------------------------
  // Evaluation of a coefficient vector
  // ---------------------------------------------------------------------

  /** Position: ⟨c, τ(t)⟩. Equals the polynomial s(t) and, at t = 0, the
      constant coefficient a_0. */
  function Position(c: seq<real>, t: real): (x: real)
    requires |c| > 0
    ensures x == Horner(c, t)
    ensures t == 0.0 ==> x == c[|c| - 1]
  {
    DotTau(c, t);
    Dot(c, Tau(|c| - 1, t))
  }

  /** Velocity: ⟨c, τ′(t)⟩. Equals the derivative polynomial s′(t) and, at
      t = 0, the linear coefficient a_1 (0 for a constant). */
  function Velocity(c: seq<real>, t: real): (v: real)
    requires |c| > 0
    ensures v == Horner(Derivative(c), t)
    ensures t == 0.0 ==> v == if |c| >= 2 then c[|c| - 2] else 0.0
  {
    DotDTau(c, t);
    Dot(c, DTau(|c| - 1, t))
  }

  /** Acceleration: ⟨c, τ″(t)⟩. Equals s″(t) and, at t = 0, 2·a_2 (0 below
      order 2). */
  function Acceleration(c: seq<real>, t: real): (a: real)
    requires |c| > 0
    ensures a == Horner(Derivative(Derivative(c)), t)
    ensures t == 0.0 ==> a == if |c| >= 3 then 2.0 * c[|c| - 3] else 0.0
  {
    DotDDTau(c, t);
    Dot(c, DDTau(|c| - 1, t))
  }

  /** The constant coefficient a_0 does not contribute to velocity. */
  lemma VelocityIgnoresConstant(c: seq<real>, x: real, t: real)
    requires |c| > 0
    ensures Velocity(c[|c| - 1 := x], t) == Velocity(c, t)
  {
    var c' := c[|c| - 1 := x];
    forall k | 0 <= k < |c| - 1
      ensures Derivative(c')[k] == Derivative(c)[k]
    {
      assert c'[k] == c[k];
    }
    assert Derivative(c') == Derivative(c);
  }

  /** Neither a_0 nor a_1 contributes to acceleration. */
  lemma AccelerationIgnoresLinear(c: seq<real>, x0: real, x1: real, t: real)
    requires |c| > 1
    ensures Acceleration(c[|c| - 1 := x0][|c| - 2 := x1], t) == Acceleration(c, t)
  {
    var c' := c[|c| - 1 := x0][|c| - 2 := x1];
    var d, d' := Derivative(c), Derivative(c');
    forall k | 0 <= k < |c| - 2
      ensures d'[k] == d[k]
    {
      assert c'[k] == c[k];
    }
    forall k | 0 <= k < |c| - 2
      ensures Derivative(d')[k] == Derivative(d)[k]
    {
      assert d'[k] == d[k];
    }
    assert Derivative(d') == Derivative(d);
  }

  // ---------------------------------------------------------------------
  // The segment object
  // ---------------------------------------------------------------------

  /** PolynomialSpline<order>: the coefficient array, the duration and a
      helper clock, updated in place by the setters. */
  class PolynomialSpline {
    const order: nat
    var currentTime: real
    var duration: real
    var didEvaluateCoeffs: bool
    var coefficients: array<real>

    /** The array always holds order + 1 coefficients. */
    ghost predicate Valid()
      reads this
    {
      coefficients.Length == order + 1
    }

    /** A new segment: clock and duration 0, coefficients value-initialised
        to 0, coefficients not yet evaluated. */
    constructor (order: nat)
      ensures Valid() && fresh(coefficients) && this.order == order
      ensures currentTime == 0.0 && duration == 0.0 && !didEvaluateCoeffs
      ensures forall k :: 0 <= k <= order ==> coefficients[k] == 0.0
    {
      this.order := order;
      currentTime := 0.0;
      duration := 0.0;
      didEvaluateCoeffs := false;
      coefficients := new real[order + 1](k => 0.0);
    }

    function GetCoefficients(): seq<real>
      reads this, coefficients
    {
      coefficients[..]
    }

    function GetTime(): real
      reads this
    {
      currentTime
    }

    function GetSplineDuration(): real
      reads this
    {
      duration
    }

    /** Solves for the coefficients with the external boundary-condition
        solver `compute` and takes the duration from the options. Always
        succeeds; the evaluation flag is left as it was. */
    method ComputeCoefficients(options: SplineOptions, compute: SplineOptions -> seq<real>)
      returns (ok: bool)
      requires Valid() && |compute(options)| == order + 1
      modifies this`duration, coefficients
      ensures Valid() && ok
      ensures coefficients[..] == compute(options)
      ensures duration == options.tf
      ensures currentTime == old(currentTime) && didEvaluateCoeffs == old(didEvaluateCoeffs)
    {
      var solved := compute(options);
      forall k | 0 <= k < coefficients.Length {
        coefficients[k] := solved[k];
      }
      duration := options.tf;
      ok := true;
    }

    /** The overload taking the coefficient array: copies it whole. */
    method SetCoefficientsAndDuration(c: seq<real>, d: real)
      requires Valid() && |c| == order + 1
      modifies this`duration, coefficients
      ensures Valid()
      ensures coefficients[..] == c && duration == d
      ensures currentTime == old(currentTime) && didEvaluateCoeffs == old(didEvaluateCoeffs)
    {
      forall k | 0 <= k < coefficients.Length {
        coefficients[k] := c[k];
      }
      duration := d;
    }

    /** The overload taking a column vector: copies it element by element. */
    method SetCoefficientsAndDurationFromVector(c: seq<real>, d: real)
      requires Valid() && |c| == order + 1
      modifies this`duration, coefficients
      ensures Valid()
      ensures forall k :: 0 <= k <= order ==> coefficients[k] == c[k]
      ensures GetSplineDuration() == d
      ensures currentTime == old(currentTime) && didEvaluateCoeffs == old(didEvaluateCoeffs)
    {
      for k := 0 to coefficients.Length
        invariant forall j :: 0 <= j < k ==> coefficients[j] == c[j]
      {
        coefficients[k] := c[k];
      }
      duration := d;
    }

    /** Position at tk: the polynomial itself, with no clamping of tk to
        [0, duration] and no dependence on the clock. */
    function GetPositionAtTime(tk: real): (x: real)
      reads this, coefficients
      requires Valid()
      ensures x == Horner(coefficients[..], tk)
      ensures tk == 0.0 ==> x == coefficients[order]
    {
      Position(coefficients[..], tk)
    }

    /** Velocity at tk: the derivative polynomial. */
    function GetVelocityAtTime(tk: real): (v: real)
      reads this, coefficients
      requires Valid()
      ensures v == Horner(Derivative(coefficients[..]), tk)
    {
      Velocity(coefficients[..], tk)
    }

    /** Acceleration at tk: the second derivative polynomial. */
    function GetAccelerationAtTime(tk: real): (a: real)
      reads this, coefficients
      requires Valid()
      ensures a == Horner(Derivative(Derivative(coefficients[..])), tk)
    {
      Acceleration(coefficients[..], tk)
    }

    method AdvanceTime(dt: real)
      modifies this`currentTime
      ensures currentTime == old(currentTime) + dt
    {
      currentTime := currentTime + dt;
    }

    method ResetTime()
      modifies this`currentTime
      ensures currentTime == 0.0
    {
      currentTime := 0.0;
    }
  }
}
