/** A rigid-transform trajectory interpolated by slerp between stored
    coefficients (SlerpSE2Curve). Between two stored poses A at time a and B
    at time b the curve is
        T(t) = A ∘ Exp(α · Log(A⁻¹ ∘ B)),   α = (t − a) / (b − a),
    the constant-velocity geodesic from A to B. The group routines are the
    `LieGroup` function values; times are integer nanoseconds and α is
    computed over the reals. */
module SlerpSE2Curves {
  import opened LieGroups
  import opened CurveErrors
  import opened CoefficientManagers

  // ---------------------------------------------------------------------
  // The interpolation law
  // ---------------------------------------------------------------------

  /** A ∘ Exp(α · Log(A⁻¹ ∘ B)) */
  function Slerp<Pose>(g: LieGroup<Pose>, a: Pose, b: Pose, alpha: real): Pose
  {
    g.compose(a, g.exp(Scale(alpha, g.log(g.compose(g.inverse(a), b)))))
  }

  /** The slerp starts at A (α = 0). */
  lemma SlerpAtZero<Pose(!new)>(g: LieGroup<Pose>, a: Pose, b: Pose)
    requires Lawful(g)
    ensures Slerp(g, a, b, 0.0) == a
  {
    var d := g.log(g.compose(g.inverse(a), b));
    assert |d| == g.dim;
    ScaleByZero(d);
    assert g.exp(Scale(0.0, d)) == g.identity;
  }

  /** The slerp ends at B (α = 1). */
  lemma SlerpAtOne<Pose(!new)>(g: LieGroup<Pose>, a: Pose, b: Pose)
    requires Lawful(g)
    ensures Slerp(g, a, b, 1.0) == b
  {
    var x := g.compose(g.inverse(a), b);
    ScaleByOne(g.log(x));
    assert g.exp(Scale(1.0, g.log(x))) == x;
    CancelLeft(g, a, b);
  }

  /** The interpolation fraction between stored times a and b. */
  function Alpha(a: Time, b: Time, t: Time): (alpha: real)
    requires a != b
    ensures t == a ==> alpha == 0.0
    ensures t == b ==> alpha == 1.0
    ensures a < t < b ==> 0.0 < alpha < 1.0
  {
    (t - a) as real / (b - a) as real
  }

  // ---------------------------------------------------------------------
  // evaluate
  // ---------------------------------------------------------------------

  /** evaluate: a curve with a single time returns its one coefficient; the
      last time returns the last coefficient; any other time slerps between
      the bracketing pair. A time outside the stored range, or an empty
      curve, is the library's fatal failure. */
  function Evaluate<Pose>(g: LieGroup<Pose>, es: seq<Entry<Pose>>, time: Time): (r: Result<Pose>)
    requires StrictlySorted(es)
    ensures r.Ok? <==> |es| > 0 && MinTime(es) <= time <= MaxTime(es)
    ensures |es| == 0 ==> r == Err(NotFound)
  {
    if |es| > 0 && MaxTime(es) == time && MinTime(es) == time then Ok(es[0].coefficient)
    else if |es| > 0 && time == MaxTime(es) then Ok(es[|es| - 1].coefficient)
    else
      match Bracket(es, time)
      case Err(e) => Err(e)
      case Ok((i, j)) =>
        Ok(Slerp(g, es[i].coefficient, es[j].coefficient, Alpha(es[i].time, es[j].time, time)))
  }

  /** The curve passes through every stored coefficient at its time. */
  lemma EvaluateAtStoredTime<Pose(!new)>(g: LieGroup<Pose>, es: seq<Entry<Pose>>, k: nat)
    requires Lawful(g) && StrictlySorted(es) && k < |es|
    ensures Evaluate(g, es, es[k].time) == Ok(es[k].coefficient)
  {
    if k + 1 < |es| {
      BracketAtStoredTime(es, k);
      SlerpAtZero(g, es[k].coefficient, es[k + 1].coefficient);
    }
  }

  /** At the last stored time the curve is the last coefficient, read
      directly with no group arithmetic; for a single stored time this is
      the one-coefficient case. */
  lemma EvaluateAtMaxTime<Pose>(g: LieGroup<Pose>, es: seq<Entry<Pose>>)
    requires StrictlySorted(es) && |es| > 0
    ensures Evaluate(g, es, MaxTime(es)) == Ok(es[|es| - 1].coefficient)
    ensures |es| == 1 ==> Evaluate(g, es, es[0].time) == Ok(es[0].coefficient)
  {
  }

  /** Strictly between neighbouring stored times the curve is the slerp of the
      two neighbours with a fraction strictly between 0 and 1. */
  lemma EvaluateBetween<Pose>(g: LieGroup<Pose>, es: seq<Entry<Pose>>, k: nat, t: Time)
    requires StrictlySorted(es) && k + 1 < |es|
    requires es[k].time < t < es[k + 1].time
    ensures var alpha := Alpha(es[k].time, es[k + 1].time, t);
      0.0 < alpha < 1.0 &&
      Evaluate(g, es, t) == Ok(Slerp(g, es[k].coefficient, es[k + 1].coefficient, alpha))
  {
    BracketBetween(es, k, t);
  }

  /** Evaluating at the k-th stored time reads only entries k onward, and of
      them only times and coefficients. */
  lemma EvaluateReadsSuffix<Pose>(g: LieGroup<Pose>, e1: seq<Entry<Pose>>, e2: seq<Entry<Pose>>, k: nat)
    requires StrictlySorted(e1) && Times(e1) == Times(e2) && k < |e1|
    requires forall j :: k <= j < |e1| ==> e1[j].coefficient == e2[j].coefficient
    ensures StrictlySorted(e2)
    ensures Evaluate(g, e1, e1[k].time) == Evaluate(g, e2, e2[k].time)
  {
    assert forall j :: 0 <= j < |e1| ==> e1[j].time == Times(e1)[j] == e2[j].time;
    if k + 1 < |e1| {
      BracketAtStoredTime(e1, k);
      BracketAtStoredTime(e2, k);
    }
  }

  // ---------------------------------------------------------------------
  // getValueExpression
  // ---------------------------------------------------------------------

  /** The interpolation fraction as a double: a quotient, or NaN (0/0). */
  datatype Fraction = Real(value: real) | NotANumber

  /** The expression handed to the optimizer: a coefficient addressed by key,
      or the slerp of two keyed coefficients with a bound fraction. */
  datatype Expression =
    | Leaf(key: Key)
    | SlerpNode(from: Key, to: Key, alpha: Fraction)

  /** getValueExpression as written: the fraction is computed before any
      special case, so on a curve with a single time the bracket is that
      entry twice and the fraction is 0/0, which is NaN and equals neither 0
      nor 1. */
  function ValueExpressionAsWritten<C>(es: seq<Entry<C>>, time: Time): (r: Result<Expression>)
    requires StrictlySorted(es)
    ensures r.Ok? <==> |es| > 0 && MinTime(es) <= time <= MaxTime(es)
  {
    match Bracket(es, time)
    case Err(e) => Err(e)
    case Ok((i, j)) =>
      var alpha := if es[i].time == es[j].time then NotANumber
                   else Real(Alpha(es[i].time, es[j].time, time));
      if alpha == Real(0.0) then Ok(Leaf(es[i].key))
      else if alpha == Real(1.0) then Ok(Leaf(es[j].key))
      else Ok(SlerpNode(es[i].key, es[j].key, alpha))
  }

  /** getValueExpression with the single-time case handled as evaluate
      handles it: the one stored coefficient. */
  function ValueExpression<C>(es: seq<Entry<C>>, time: Time): (r: Result<Expression>)
    requires StrictlySorted(es)
    ensures r.Ok? <==> |es| > 0 && MinTime(es) <= time <= MaxTime(es)
    ensures r.Ok? && r.value.SlerpNode? ==> r.value.alpha.Real?
  {
    match Bracket(es, time)
    case Err(e) => Err(e)
    case Ok((i, j)) =>
      if es[i].time == es[j].time then Ok(Leaf(es[i].key))
      else
        var alpha := Alpha(es[i].time, es[j].time, time);
        if alpha == 0.0 then Ok(Leaf(es[i].key))
        else if alpha == 1.0 then Ok(Leaf(es[j].key))
        else Ok(SlerpNode(es[i].key, es[j].key, Real(alpha)))
  }

  /** The discrepancy: on a one-coefficient curve, at its only time, the
      expression as written slerps the coefficient with itself at NaN, where
      the corrected expression is the coefficient itself. */
  lemma ValueExpressionSingleTimeIsNaN<C>(t: Time, key: Key, c: C)
    ensures ValueExpressionAsWritten([Entry(t, key, c)], t) == Ok(SlerpNode(key, key, NotANumber))
    ensures ValueExpression([Entry(t, key, c)], t) == Ok(Leaf(key))
  {
  }

  /** With two or more stored times the expression as written and the
      corrected one agree. */
  lemma ValueExpressionAgreesOnLongerCurves<C>(es: seq<Entry<C>>, time: Time)
    requires StrictlySorted(es) && |es| >= 2
    ensures ValueExpressionAsWritten(es, time) == ValueExpression(es, time)
  {
  }

  /** The value of an expression given the stored coefficients; a NaN
      fraction has no value. */
  function EvalExpression<Pose>(g: LieGroup<Pose>, es: seq<Entry<Pose>>, e: Expression): Option<Pose>
  {
    match e
    case Leaf(k) => CoefficientOfKey(es, k)
    case SlerpNode(ka, kb, Real(alpha)) =>
      (match (CoefficientOfKey(es, ka), CoefficientOfKey(es, kb))
       case (Some(a), Some(b)) => Some(Slerp(g, a, b, alpha))
       case _ => None)
    case SlerpNode(_, _, NotANumber) => None
  }

  /** The corrected expression has, for the optimizer's current values, the
      value evaluate computes, at every time the curve is defined. */
  lemma ValueExpressionMatchesEvaluate<Pose(!new)>(g: LieGroup<Pose>, es: seq<Entry<Pose>>, next: Key, time: Time)
    requires Lawful(g) && WellFormed(es, next)
    requires Evaluate(g, es, time).Ok?
    ensures ValueExpression(es, time).Ok?
    ensures EvalExpression(g, es, ValueExpression(es, time).value) == Some(Evaluate(g, es, time).value)
  {
    var n := |es|;
    var (i, j) := Bracket(es, time).value;
    if n == 1 {
      CoefficientOfKeyAt(es, 0);
    } else if time == MaxTime(es) {
      CoefficientOfKeyAt(es, n - 1);
    } else {
      assert j == i + 1 && es[i].time <= time < es[j].time;
      CoefficientOfKeyAt(es, i);
      CoefficientOfKeyAt(es, j);
      if time == es[i].time {
        SlerpAtZero(g, es[i].coefficient, es[j].coefficient);
      }
    }
  }

  // ---------------------------------------------------------------------
  // Unimplemented operations
  // ---------------------------------------------------------------------

  /** evaluateDerivative is not implemented: it always fails. */
  function EvaluateDerivative(time: Time, order: nat): (r: Result<Tangent>)
    ensures r.Err? && r.error == Unimplemented
  {
    Err(Unimplemented)
  }

  /** transformationPower (T^α) is not implemented: it always fails. */
  function TransformationPower<Pose>(t: Pose, alpha: real): (r: Result<Pose>)
    ensures r.Err? && r.error == Unimplemented
  {
    Err(Unimplemented)
  }

  /** getDerivativeExpression is not implemented: it always fails. */
  function DerivativeExpression(time: Time, order: nat): (r: Result<Expression>)
    ensures r.Err? && r.error == Unimplemented
  {
    Err(Unimplemented)
  }

  // ---------------------------------------------------------------------
  // Fitting then evaluating
  // ---------------------------------------------------------------------

  /** A curve fitted to samples passes through each sample, taking for a
      repeated time the value given last. */
  lemma FitThenEvaluate<Pose(!new)>(g: LieGroup<Pose>, next: Key, times: seq<Time>, values: seq<Pose>, k: nat)
    requires Lawful(g) && |times| == |values| && k < |times|
    requires forall j :: k < j < |times| ==> times[j] != times[k]
    ensures StrictlySorted(InsertAll([], next, times, values).0)
    ensures Evaluate(g, InsertAll([], next, times, values).0, times[k]) == Ok(values[k])
  {
    var es := InsertAll([], next, times, values).0;
    InsertAllSorted([], next, times, values);
    InsertAllLastWins([], next, times, values, k);
    var e := Lookup(es, times[k]).value;
    var m :| 0 <= m < |es| && es[m] == e;
    EvaluateAtStoredTime(g, es, m);
  }

  /** T composed on the left with the curve's value at the j-th stored time. */
  function TransformedCoefficient<Pose>(g: LieGroup<Pose>, es: seq<Entry<Pose>>, t: Pose, j: nat): Pose
    requires StrictlySorted(es) && j < |es|
  {
    StoredTimeInRange(es, j);
    g.compose(t, Evaluate(g, es, es[j].time).value)
  }

  /** The state of transformCurve after its first i steps: entries before i
      hold their transformed coefficient, the rest are as they were, and no
      time or key has moved. */
  ghost predicate TransformedUpTo<Pose>(g: LieGroup<Pose>, original: seq<Entry<Pose>>, t: Pose,
                                        es: seq<Entry<Pose>>, i: nat)
    requires StrictlySorted(original)
  {
    && |es| == |original| && i <= |es|
    && Times(es) == Times(original) && Keys(es) == Keys(original)
    && (forall j :: i <= j < |es| ==> es[j] == original[j])
    && (forall j :: 0 <= j < i ==> es[j].coefficient == TransformedCoefficient(g, original, t, j))
  }

  /** One step of transformCurve: the value at the i-th time is still the
      original curve's, and re-inserting it transformed rewrites entry i only. */
  lemma TransformStep<Pose>(g: LieGroup<Pose>, original: seq<Entry<Pose>>, t: Pose,
                            es: seq<Entry<Pose>>, i: nat, next: Key)
    requires StrictlySorted(original) && WellFormed(es, next) && i < |es|
    requires TransformedUpTo(g, original, t, es, i)
    ensures Evaluate(g, es, es[i].time) == Evaluate(g, original, original[i].time)
    ensures Evaluate(g, es, es[i].time).Ok?
    ensures var c := g.compose(t, Evaluate(g, es, es[i].time).value);
      var r := Insert(es, es[i].time, c, next);
      NextKeyAfter(es, es[i].time, next) == next &&
      TransformedUpTo(g, original, t, r, i + 1)
  {
    EvaluateReadsSuffix(g, es, original, i);
    StoredTimeInRange(es, i);
    var c := g.compose(t, Evaluate(g, es, es[i].time).value);
    InsertAtStoredTime(es, i, c, next);
    LookupAt(es, i);
    ReplaceCoefficient(es, i, c, next);
    assert es[i].time == original[i].time;
  }

  // ---------------------------------------------------------------------
  // The curve object
  // ---------------------------------------------------------------------

  class SlerpSE2Curve<Pose(!new)> {
    const group: LieGroup<Pose>
    /** The manager's entries, in time order. */
    var entries: seq<Entry<Pose>>
    /** The next key the manager hands out; keys are never reused. */
    var nextKey: Key

    ghost predicate Valid()
      reads this
    {
      WellFormed(entries, nextKey)
    }

    constructor (group: LieGroup<Pose>)
      ensures Valid() && this.group == group && entries == []
    {
      this.group := group;
      entries := [];
      nextKey := 0;
    }

    /** The earliest stored time. */
    function GetMinTime(): (t: Time)
      reads this
      requires Valid() && |entries| > 0
      ensures t in TimeSet(entries)
      ensures forall i :: 0 <= i < |entries| ==> t <= entries[i].time
    {
      MinTime(entries)
    }

    /** The latest stored time. */
    function GetMaxTime(): (t: Time)
      reads this
      requires Valid() && |entries| > 0
      ensures t in TimeSet(entries)
      ensures forall i :: 0 <= i < |entries| ==> entries[i].time <= t
    {
      MaxTime(entries)
    }

    function IsEmpty(): (b: bool)
      reads this
      requires Valid()
      ensures b <==> TimeSet(entries) == {}
    {
      assert |entries| > 0 ==> entries[0].time in TimeSet(entries);
      |entries| == 0
    }

    /** The number of coefficients: one per distinct stored time. */
    function Size(): (n: nat)
      reads this
      requires Valid()
      ensures n == |TimeSet(entries)|
    {
      SortedCount(entries);
      |entries|
    }

    /** getTimeAtKey: the time of the coefficient with that key. */
    function GetTimeAtKey(key: Key): (r: Result<Time>)
      reads this
      requires Valid()
      ensures r.Ok? ==> exists i :: 0 <= i < |entries| && entries[i].key == key && entries[i].time == r.value
      ensures r.Err? <==> key !in KeySet(entries)
    {
      TimeOfKey(entries, key)
    }

    function EvaluateAt(time: Time): (r: Result<Pose>)
      reads this
      requires Valid()
      ensures r.Ok? <==> |entries| > 0 && GetMinTime() <= time <= GetMaxTime()
    {
      Evaluate(group, entries, time)
    }

    /** insertCoefficient: stores c at time (replacing any coefficient there)
        and returns the key now at that time. */
    method InsertCoefficient(time: Time, c: Pose) returns (key: Key)
      requires Valid()
      modifies this
      ensures Valid()
      ensures entries == Insert(old(entries), time, c, old(nextKey))
      ensures nextKey == NextKeyAfter(old(entries), time, old(nextKey))
      ensures Lookup(entries, time) == Some(Entry(time, key, c))
      ensures time in TimeSet(old(entries)) ==> key == Lookup(old(entries), time).value.key
      ensures time !in TimeSet(old(entries)) ==> key == old(nextKey)
      ensures forall u :: u != time ==> Lookup(entries, u) == Lookup(old(entries), u)
    {
      var found := Lookup(entries, time);
      key := if found.Some? then found.value.key else nextKey;
      InsertWellFormed(entries, time, c, nextKey);
      InsertLookup(entries, time, c, nextKey);
      entries, nextKey := Insert(entries, time, c, nextKey), NextKeyAfter(entries, time, nextKey);
    }

    /** insertCoefficients: the samples inserted one after the other; the
        returned keys are the keys now at the sample times. */
    method InsertCoefficients(times: seq<Time>, values: seq<Pose>) returns (keys: seq<Key>)
      requires Valid() && |times| == |values|
      modifies this
      ensures Valid()
      ensures (entries, nextKey) == InsertAll(old(entries), old(nextKey), times, values)
      ensures KeysAt(entries, times, keys)
    {
      keys := [];
      for i := 0 to |times|
        invariant Valid()
        invariant (entries, nextKey) == InsertAll(old(entries), old(nextKey), times[..i], values[..i])
        invariant KeysAt(entries, times[..i], keys)
      {
        InsertAllStep(old(entries), old(nextKey), times, values, i);
        InsertKeepsKeys(entries, times[i], values[i], nextKey, times[..i], keys);
        var key := InsertCoefficient(times[i], values[i]);
        KeysAtSnoc(entries, times[..i], keys, times[i], key);
        PrefixSnoc(times, i);
        keys := keys + [key];
      }
      assert times[..|times|] == times && values[..|values|] == values;
    }

    /** fitCurve: mismatched sizes fail; an empty sample set changes nothing;
        otherwise the curve is cleared and holds exactly the samples. */
    method FitCurve(times: seq<Time>, values: seq<Pose>) returns (status: Status, keys: seq<Key>)
      requires Valid()
      modifies this
      ensures Valid()
      ensures status == Done <==> |times| == |values|
      ensures status.Failed? ==> status.error == SizeMismatch
      ensures (status.Failed? || |times| == 0) ==> entries == old(entries) && nextKey == old(nextKey)
      ensures status == Done && |times| > 0 ==>
        (entries, nextKey) == InsertAll([], old(nextKey), times, values) &&
        TimeSet(entries) == (set k | 0 <= k < |times| :: times[k]) &&
        KeysAt(entries, times, keys)
    {
      keys := [];
      if |times| != |values| {
        status := Failed(SizeMismatch);
        return;
      }
      status := Done;
      if |times| > 0 {
        Clear();
        keys := InsertCoefficients(times, values);
        InsertAllTimes([], old(nextKey), times, values);
        assert TimeSet<Pose>([]) == {};
      }
    }

    /** setCurve: like fitCurve but without clearing, so stored coefficients
        at other times remain. */
    method SetCurve(times: seq<Time>, values: seq<Pose>) returns (status: Status)
      requires Valid()
      modifies this
      ensures Valid()
      ensures status == Done <==> |times| == |values|
      ensures status.Failed? ==> status.error == SizeMismatch
      ensures status.Failed? ==> entries == old(entries) && nextKey == old(nextKey)
      ensures status == Done ==>
        (entries, nextKey) == InsertAll(old(entries), old(nextKey), times, values) &&
        TimeSet(entries) == TimeSet(old(entries)) + (set k | 0 <= k < |times| :: times[k]) &&
        forall u :: u !in times ==> Lookup(entries, u) == Lookup(old(entries), u)
    {
      if |times| != |values| {
        status := Failed(SizeMismatch);
        return;
      }
      status := Done;
      ghost var before := entries;
      if |times| > 0 {
        var _ := InsertCoefficients(times, values);
      }
      InsertAllTimes(before, old(nextKey), times, values);
      forall u | u !in times
        ensures Lookup(entries, u) == Lookup(before, u)
      {
        InsertAllUntouched(before, old(nextKey), times, values, u);
      }
    }

    /** clear: no coefficients; keys already handed out stay used. */
    method Clear()
      modifies this
      ensures Valid() && entries == [] && nextKey == old(nextKey)
    {
      entries := [];
    }

    /** transformCurve: every coefficient, in time order, is replaced by T
        composed on the left with the curve's value at its time. Times and
        keys are unchanged. */
    method TransformCurve(t: Pose)
      requires Valid()
      modifies this
      ensures Valid() && nextKey == old(nextKey)
      ensures Times(entries) == Times(old(entries)) && Keys(entries) == Keys(old(entries))
      ensures |entries| == |old(entries)|
      ensures forall i :: 0 <= i < |entries| ==>
        entries[i].coefficient == TransformedCoefficient(group, old(entries), t, i)
      ensures Lawful(group) ==> forall i :: 0 <= i < |entries| ==>
        entries[i].coefficient == group.compose(t, old(entries)[i].coefficient)
    {
      var coefTimes := Times(entries);
      ghost var original := entries;
      for i := 0 to |coefTimes|
        invariant Valid() && nextKey == old(nextKey)
        invariant Times(entries) == coefTimes
        invariant TransformedUpTo(group, original, t, entries, i)
      {
        TransformStep(group, original, t, entries, i, nextKey);
        var value := Evaluate(group, entries, coefTimes[i]);
        var _ := InsertCoefficient(coefTimes[i], group.compose(t, value.value));
      }
      if Lawful(group) {
        forall i | 0 <= i < |entries|
          ensures entries[i].coefficient == group.compose(t, original[i].coefficient)
        {
          EvaluateAtStoredTime(group, original, i);
        }
      }
    }

    /** setTimeRange is not implemented: it always fails and changes nothing. */
    method SetTimeRange(minTime: Time, maxTime: Time) returns (status: Status)
      ensures status == Failed(Unimplemented)
    {
      status := Failed(Unimplemented);
    }

    /** saveCurveTimesAndValues is not implemented: it always fails. */
    method SaveCurveTimesAndValues(filename: string) returns (status: Status)
      ensures status == Failed(Unimplemented)
    {
      status := Failed(Unimplemented);
    }
  }
}
