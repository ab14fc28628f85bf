/** A scalar trajectory made of quintic polynomial segments
    (PolynomialSplineScalarCurve): a chain of segments plus a time offset
    `minTime`, so that curve time t is container time t − minTime.

    The segment container itself (PolynomialSplineContainer) is not part of
    this model. It is modelled as a sequence of (coefficients, duration)
    segments laid end to end from container time 0: a container time is
    resolved by walking the accumulated durations, a time at a junction
    belongs to the earlier segment, and times outside [0, total duration]
    extrapolate the first or last segment. An empty container evaluates to 0. */
module PolynomialSplineScalarCurves {
  import opened PolynomialSplines
  import opened CurveErrors

  /** The curve's SplineType is the quintic segment: six coefficients. */
  const QuinticSize: nat := 6

  /** One segment as the container stores it: a copy of its coefficients
      (highest degree first) and its duration. */
  datatype Segment = Segment(coefficients: seq<real>, duration: real)

  predicate AllQuintic(segs: seq<Segment>)
  {
    forall i :: 0 <= i < |segs| ==> |segs[i].coefficients| == QuinticSize
  }

  predicate NonNegativeDurations(segs: seq<Segment>)
  {
    forall i :: 0 <= i < |segs| ==> segs[i].duration >= 0.0
  }

  /** The container's duration: the sum of its segments' durations. */
  function TotalDuration(segs: seq<Segment>): real
  {
    if |segs| == 0 then 0.0 else segs[0].duration + TotalDuration(segs[1..])
  }

  /** Container time at which segment i begins. */
  function StartTime(segs: seq<Segment>, i: nat): real
    requires i <= |segs|
  {
    TotalDuration(segs[..i])
  }

  lemma {:induction false} TotalDurationNonNegative(segs: seq<Segment>)
    requires NonNegativeDurations(segs)
    ensures TotalDuration(segs) >= 0.0
  {
    if |segs| > 0 {
      TotalDurationNonNegative(segs[1..]);
    }
  }

  /** Appending segments adds their durations. */
  lemma {:induction false} TotalDurationAppend(a: seq<Segment>, b: seq<Segment>)
    ensures TotalDuration(a + b) == TotalDuration(a) + TotalDuration(b)
  {
    if |a| == 0 {
      assert a + b == b;
    } else {
      assert (a + b)[1..] == a[1..] + b;
      TotalDurationAppend(a[1..], b);
    }
  }

  /** Resolves a container time to (segment index, local time). */
  function Locate(segs: seq<Segment>, t: real): (r: (nat, real))
    requires |segs| > 0
    ensures r.0 < |segs|
  {
    if |segs| == 1 || t <= segs[0].duration then (0, t)
    else
      var inner := Locate(segs[1..], t - segs[0].duration);
      (inner.0 + 1, inner.1)
  }

  /** Within the container's time span the walk lands in a segment's own
      domain [0, duration], at the offset that makes up the query time. */
  lemma {:induction false} LocateInRange(segs: seq<Segment>, t: real)
    requires |segs| > 0 && NonNegativeDurations(segs)
    requires 0.0 <= t <= TotalDuration(segs)
    ensures var (i, local) := Locate(segs, t);
      0.0 <= local <= segs[i].duration && t == StartTime(segs, i) + local
  {
    if |segs| == 1 {
      assert TotalDuration(segs[1..]) == 0.0;
      assert segs[..0] == [];
    } else if t <= segs[0].duration {
      assert segs[..0] == [];
    } else {
      var rest := segs[1..];
      LocateInRange(rest, t - segs[0].duration);
      var (j, local) := Locate(rest, t - segs[0].duration);
      assert segs[..j + 1][1..] == rest[..j];
    }
  }

  /** Conversely, every point of a segment's domain is found by the walk,
      except a segment's start, which belongs to the previous segment. */
  lemma {:induction false} LocateOnSegment(segs: seq<Segment>, i: nat, local: real)
    requires NonNegativeDurations(segs) && i < |segs|
    requires 0.0 <= local <= segs[i].duration
    requires i == 0 || 0.0 < local
    ensures Locate(segs, StartTime(segs, i) + local) == (i, local)
  {
    if i == 0 {
      assert segs[..0] == [];
    } else {
      var rest := segs[1..];
      assert segs[..i][1..] == rest[..i - 1];
      assert StartTime(segs, i) == segs[0].duration + StartTime(rest, i - 1);
      TotalDurationNonNegative(rest[..i - 1]);
      LocateOnSegment(rest, i - 1, local);
    }
  }

  /** getPositionAtTime of the container. */
  function ContainerPosition(segs: seq<Segment>, t: real): (x: real)
    requires AllQuintic(segs)
    ensures |segs| == 0 ==> x == 0.0
    ensures |segs| > 0 ==> x == Horner(segs[Locate(segs, t).0].coefficients, Locate(segs, t).1)
  {
    if |segs| == 0 then 0.0
    else
      var (i, local) := Locate(segs, t);
      Position(segs[i].coefficients, local)
  }

  /** getVelocityAtTime of the container. */
  function ContainerVelocity(segs: seq<Segment>, t: real): (v: real)
    requires AllQuintic(segs)
    ensures |segs| == 0 ==> v == 0.0
    ensures |segs| > 0 ==> v == Horner(Derivative(segs[Locate(segs, t).0].coefficients), Locate(segs, t).1)
  {
    if |segs| == 0 then 0.0
    else
      var (i, local) := Locate(segs, t);
      Velocity(segs[i].coefficients, local)
  }

  /** getAccelerationAtTime of the container. */
  function ContainerAcceleration(segs: seq<Segment>, t: real): (a: real)
    requires AllQuintic(segs)
    ensures |segs| == 0 ==> a == 0.0
    ensures |segs| > 0 ==>
      a == Horner(Derivative(Derivative(segs[Locate(segs, t).0].coefficients)), Locate(segs, t).1)
  {
    if |segs| == 0 then 0.0
    else
      var (i, local) := Locate(segs, t);
      Acceleration(segs[i].coefficients, local)
  }

  /** The segment a quintic spline contributes once its coefficients are
      solved from boundary options. */
  function SegmentOf(option: SplineOptions, solve: SplineOptions -> seq<real>): Segment
  {
    Segment(solve(option), option.tf)
  }

  function SegmentsOf(options: seq<SplineOptions>, solve: SplineOptions -> seq<real>): (segs: seq<Segment>)
    ensures |segs| == |options|
    ensures forall i :: 0 <= i < |options| ==> segs[i] == SegmentOf(options[i], solve)
  {
    seq(|options|, i requires 0 <= i < |options| => SegmentOf(options[i], solve))
  }

  /** A boundary-condition fit as the container's setData performs it:
      (times, values, v0, a0, vT, aT) to a chain of segments. The solve is
      external to this model. */
  type SetData = (seq<real>, seq<real>, real, real, real, real) -> seq<Segment>

  class PolynomialSplineScalarCurve {
    var container: seq<Segment>
    var minTime: real

    ghost predicate Valid()
      reads this
    {
      AllQuintic(container)
    }

    /** An empty container and no time offset. */
    constructor ()
      ensures Valid() && container == [] && minTime == 0.0
    {
      container := [];
      minTime := 0.0;
    }

    /** The start of the curve: the time offset, where a non-empty curve
        takes its first segment's constant coefficient when no duration is
        negative. */
    function GetMinTime(): (t: real)
      reads this
      ensures t == minTime
      ensures Valid() && |container| > 0 && NonNegativeDurations(container) ==>
        Evaluate(t) == (true, container[0].coefficients[QuinticSize - 1])
    {
      minTime
    }

    /** The end of the curve: its start plus the container's duration, never
        before its start when no segment has a negative duration. */
    function GetMaxTime(): (t: real)
      reads this
      ensures t - minTime == TotalDuration(container)
      ensures NonNegativeDurations(container) ==> t >= GetMinTime()
    {
      TotalDurationNonNegativeIf(container);
      TotalDuration(container) + minTime
    }

    /** evaluate: always succeeds, with the container's position at container
        time `time − minTime`. */
    function Evaluate(time: real): (r: (bool, real))
      reads this
      requires Valid()
      ensures r.0
      ensures |container| > 0 ==>
        r.1 == Horner(container[Locate(container, time - minTime).0].coefficients,
                      Locate(container, time - minTime).1)
    {
      (true, ContainerPosition(container, time - minTime))
    }

    /** evaluateDerivative: order 1 gives the velocity and order 2 the
        acceleration at container time `time − minTime`; any other order
        fails and hands `value` back unchanged. */
    function EvaluateDerivative(value: real, time: real, order: nat): (r: (bool, real))
      reads this
      requires Valid()
      ensures r.0 <==> order == 1 || order == 2
      ensures !r.0 ==> r.1 == value
      ensures order == 1 && |container| > 0 ==>
        r.1 == Horner(Derivative(container[Locate(container, time - minTime).0].coefficients),
                      Locate(container, time - minTime).1)
      ensures order == 2 && |container| > 0 ==>
        r.1 == Horner(Derivative(Derivative(container[Locate(container, time - minTime).0].coefficients)),
                      Locate(container, time - minTime).1)
    {
      if order == 1 then (true, ContainerVelocity(container, time - minTime))
      else if order == 2 then (true, ContainerAcceleration(container, time - minTime))
      else (false, value)
    }

    /** fitCurve(times, values): the container is refitted with zero boundary
        velocities and accelerations, and the curve starts at the first
        sample time. */
    method FitCurve(times: seq<real>, values: seq<real>, setData: SetData)
      requires Valid() && |times| > 0
      requires AllQuintic(setData(times, values, 0.0, 0.0, 0.0, 0.0))
      modifies this
      ensures Valid()
      ensures container == setData(times, values, 0.0, 0.0, 0.0, 0.0)
      ensures GetMinTime() == times[0]
    {
      container := setData(times, values, 0.0, 0.0, 0.0, 0.0);
      minTime := times[0];
    }

    /** fitCurve with boundary conditions, passed to the container in the
        order initial velocity, initial acceleration, final velocity, final
        acceleration. */
    method FitCurveWithBoundary(times: seq<real>, values: seq<real>,
                                initialVelocity: real, initialAcceleration: real,
                                finalVelocity: real, finalAcceleration: real,
                                setData: SetData)
      requires Valid() && |times| > 0
      requires AllQuintic(setData(times, values, initialVelocity, initialAcceleration,
                                  finalVelocity, finalAcceleration))
      modifies this
      ensures Valid()
      ensures container == setData(times, values, initialVelocity, initialAcceleration,
                                   finalVelocity, finalAcceleration)
      ensures GetMinTime() == times[0]
    {
      container := setData(times, values, initialVelocity, initialAcceleration,
                           finalVelocity, finalAcceleration);
      minTime := times[0];
    }

    /** fitCurve(options): one quintic segment per option is solved and
        appended, in order, to whatever the container already holds; the
        curve then starts at time 0. */
    method FitCurveFromOptions(options: seq<SplineOptions>, solve: SplineOptions -> seq<real>)
      requires Valid()
      requires forall i :: 0 <= i < |options| ==> |solve(options[i])| == QuinticSize
      modifies this
      ensures Valid()
      ensures container == old(container) + SegmentsOf(options, solve)
      ensures GetMinTime() == 0.0
      ensures GetMaxTime() == old(TotalDuration(container)) + TotalDuration(SegmentsOf(options, solve))
    {
      var i := 0;
      while i < |options|
        invariant 0 <= i <= |options|
        invariant container == old(container) + SegmentsOf(options[..i], solve)
        invariant Valid()
      {
        var spline := new PolynomialSpline(5);
        var ok := spline.ComputeCoefficients(options[i], solve);
        container := container + [Segment(spline.GetCoefficients(), spline.GetSplineDuration())];
        assert SegmentsOf(options[..i + 1], solve)
            == SegmentsOf(options[..i], solve) + [SegmentOf(options[i], solve)];
        i := i + 1;
      }
      assert options[..i] == options;
      minTime := 0.0;
      TotalDurationAppend(old(container), SegmentsOf(options, solve));
    }

    /** clear: an empty container and no time offset. */
    method Clear()
      modifies this
      ensures Valid() && container == [] && GetMinTime() == 0.0 && GetMaxTime() == 0.0
    {
      container := [];
      minTime := 0.0;
    }

    /** extend is not implemented: it always fails and changes nothing. */
    method Extend(times: seq<real>, values: seq<real>) returns (status: Status)
      ensures status == Failed(Unimplemented)
    {
      status := Failed(Unimplemented);
    }

    /** transformCurve is not implemented: it always fails. */
    method TransformCurve(T: real) returns (status: Status)
      ensures status == Failed(Unimplemented)
    {
      status := Failed(Unimplemented);
    }
  }

  lemma TotalDurationNonNegativeIf(segs: seq<Segment>)
    ensures NonNegativeDurations(segs) ==> TotalDuration(segs) >= 0.0
  {
    if NonNegativeDurations(segs) {
      TotalDurationNonNegative(segs);
    }
  }

  /** At its start time a non-empty curve takes the value of the first
      segment's constant coefficient a_0. */
  lemma EvaluateAtMinTime(curve: PolynomialSplineScalarCurve)
    requires curve.Valid() && |curve.container| > 0 && NonNegativeDurations(curve.container)
    ensures curve.Evaluate(curve.GetMinTime()) == (true, curve.container[0].coefficients[QuinticSize - 1])
  {
    assert Locate(curve.container, 0.0) == (0, 0.0);
  }

  /** A curve time inside segment i evaluates segment i's polynomial at the
      offset from that segment's start. */
  lemma EvaluateOnSegment(curve: PolynomialSplineScalarCurve, i: nat, local: real)
    requires curve.Valid() && NonNegativeDurations(curve.container) && i < |curve.container|
    requires 0.0 <= local <= curve.container[i].duration && (i == 0 || 0.0 < local)
    ensures curve.Evaluate(curve.GetMinTime() + StartTime(curve.container, i) + local)
      == (true, Horner(curve.container[i].coefficients, local))
    ensures curve.EvaluateDerivative(0.0, curve.GetMinTime() + StartTime(curve.container, i) + local, 1)
      == (true, Horner(Derivative(curve.container[i].coefficients), local))
  {
    var t := curve.GetMinTime() + StartTime(curve.container, i) + local;
    assert t - curve.minTime == StartTime(curve.container, i) + local;
    LocateOnSegment(curve.container, i, local);
  }

  /** Fitting from options into an empty curve: at the offset `local` into
      the i-th option's segment the curve has the polynomial solved from that
      option. */
  lemma FitFromOptionsEvaluates(options: seq<SplineOptions>, solve: SplineOptions -> seq<real>,
                                curve: PolynomialSplineScalarCurve, i: nat, local: real)
    requires curve.Valid() && curve.container == SegmentsOf(options, solve) && curve.minTime == 0.0
    requires forall k :: 0 <= k < |options| ==> options[k].tf >= 0.0
    requires i < |options| && 0.0 <= local <= options[i].tf && (i == 0 || 0.0 < local)
    ensures curve.Evaluate(StartTime(curve.container, i) + local) == (true, Horner(solve(options[i]), local))
  {
    EvaluateOnSegment(curve, i, local);
  }
}
