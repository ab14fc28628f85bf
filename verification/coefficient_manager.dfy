/** The time-ordered store of (time, key, coefficient) entries behind the
    slerp curve (its coefficient manager). The manager's own source is not
    part of this model; its behaviour is taken from its documented interface:
    entries are kept in strictly increasing time order, inserting at a stored
    time replaces the coefficient and keeps the key, inserting at a new time
    takes the next unused key, and a bracket query returns the two adjacent
    entries around a time. */
module CoefficientManagers {
  import opened CurveErrors

  /** Time in nanoseconds (an integral type). */
  type Time = int
  /** The stable identifier the optimizer uses for a coefficient. */
  type Key = nat

  datatype Option<T> = None | Some(value: T)

  datatype Entry<C> = Entry(time: Time, key: Key, coefficient: C)

  predicate StrictlySorted<C>(es: seq<Entry<C>>)
  {
    forall i, j :: 0 <= i < j < |es| ==> es[i].time < es[j].time
  }

  predicate KeysUnique<C>(es: seq<Entry<C>>)
  {
    forall i, j :: 0 <= i < j < |es| ==> es[i].key != es[j].key
  }

  predicate KeysBelow<C>(es: seq<Entry<C>>, next: Key)
  {
    forall i :: 0 <= i < |es| ==> es[i].key < next
  }

  /** The store's invariant: time-ordered, one key per entry, and every key
      below the next one to hand out. */
  predicate WellFormed<C>(es: seq<Entry<C>>, next: Key)
  {
    StrictlySorted(es) && KeysUnique(es) && KeysBelow(es, next)
  }

  function Times<C>(es: seq<Entry<C>>): (ts: seq<Time>)
    ensures |ts| == |es| && forall i :: 0 <= i < |es| ==> ts[i] == es[i].time
  {
    seq(|es|, i requires 0 <= i < |es| => es[i].time)
  }

  function Keys<C>(es: seq<Entry<C>>): (ks: seq<Key>)
    ensures |ks| == |es| && forall i :: 0 <= i < |es| ==> ks[i] == es[i].key
  {
    seq(|es|, i requires 0 <= i < |es| => es[i].key)
  }

  ghost function TimeSet<C>(es: seq<Entry<C>>): set<Time>
  {
    set i | 0 <= i < |es| :: es[i].time
  }

  ghost function KeySet<C>(es: seq<Entry<C>>): set<Key>
  {
    set i | 0 <= i < |es| :: es[i].key
  }

  /** The entry stored at time t, if any. */
  function Lookup<C>(es: seq<Entry<C>>, t: Time): (r: Option<Entry<C>>)
    ensures r.Some? ==> r.value.time == t && r.value in es
    ensures r.None? <==> t !in TimeSet(es)
  {
    if |es| == 0 then None
    else if es[0].time == t then Some(es[0])
    else
      assert TimeSet(es) == {es[0].time} + TimeSet(es[1..]);
      Lookup(es[1..], t)
  }

  lemma LookupAt<C>(es: seq<Entry<C>>, k: nat)
    requires StrictlySorted(es) && k < |es|
    ensures Lookup(es, es[k].time) == Some(es[k])
  {
    if k > 0 {
      LookupAt(es[1..], k - 1);
    }
  }

  lemma SetsOfCons<C>(e: Entry<C>, es: seq<Entry<C>>)
    ensures TimeSet([e] + es) == {e.time} + TimeSet(es)
    ensures KeySet([e] + es) == {e.key} + KeySet(es)
  {
    var s := [e] + es;
    assert s[0] == e;
    forall i | 0 <= i < |es|
      ensures s[i + 1] == es[i]
    {
    }
  }

  /** insertCoefficient: replaces the coefficient at a stored time (keeping its
      key and position) or inserts a new entry with key `newKey` in time order. */
  function Insert<C>(es: seq<Entry<C>>, t: Time, c: C, newKey: Key): (r: seq<Entry<C>>)
    ensures |r| > 0
  {
    if |es| == 0 then [Entry(t, newKey, c)]
    else if t < es[0].time then [Entry(t, newKey, c)] + es
    else if t == es[0].time then [Entry(t, es[0].key, c)] + es[1..]
    else [es[0]] + Insert(es[1..], t, c, newKey)
  }

  /** Inserting adds t to the stored times and nothing else; the store grows
      by one entry exactly when t was not stored. */
  lemma {:induction false} InsertTimes<C>(es: seq<Entry<C>>, t: Time, c: C, newKey: Key)
    ensures TimeSet(Insert(es, t, c, newKey)) == TimeSet(es) + {t}
    ensures StrictlySorted(es) ==>
      |Insert(es, t, c, newKey)| == if t in TimeSet(es) then |es| else |es| + 1
    ensures KeySet(Insert(es, t, c, newKey)) <= KeySet(es) + {newKey}
  {
    var r := Insert(es, t, c, newKey);
    if |es| == 0 {
      SetsOfCons(Entry(t, newKey, c), es);
    } else {
      assert es == [es[0]] + es[1..];
      SetsOfCons(es[0], es[1..]);
      if t < es[0].time {
        SetsOfCons(Entry(t, newKey, c), es);
        if StrictlySorted(es) {
          assert forall i :: 0 <= i < |es| ==> es[i].time != t;
        }
      } else if t == es[0].time {
        SetsOfCons(Entry(t, es[0].key, c), es[1..]);
      } else {
        InsertTimes(es[1..], t, c, newKey);
        SetsOfCons(es[0], Insert(es[1..], t, c, newKey));
      }
    }
  }

  /** After inserting, t maps to the new coefficient under its old key (or
      `newKey` if t was new), and every other time maps to what it did. */
  lemma {:induction false} InsertLookup<C>(es: seq<Entry<C>>, t: Time, c: C, newKey: Key)
    requires StrictlySorted(es)
    ensures Lookup(Insert(es, t, c, newKey), t)
      == Some(Entry(t, if Lookup(es, t).Some? then Lookup(es, t).value.key else newKey, c))
    ensures forall u :: u != t ==> Lookup(Insert(es, t, c, newKey), u) == Lookup(es, u)
  {
    if |es| > 0 && t < es[0].time {
      assert forall i :: 0 <= i < |es| ==> es[i].time != t;
    } else if |es| > 0 && t > es[0].time {
      InsertLookup(es[1..], t, c, newKey);
    }
  }

  /** Inserting keeps the store in strictly increasing time order. */
  lemma {:induction false} InsertSorted<C>(es: seq<Entry<C>>, t: Time, c: C, newKey: Key)
    requires StrictlySorted(es)
    ensures StrictlySorted(Insert(es, t, c, newKey))
  {
    if |es| > 0 && t > es[0].time {
      var tail := Insert(es[1..], t, c, newKey);
      InsertSorted(es[1..], t, c, newKey);
      InsertTimes(es[1..], t, c, newKey);
      forall j | 0 <= j < |tail|
        ensures es[0].time < tail[j].time
      {
        assert tail[j].time in TimeSet(tail);
      }
    }
  }

  lemma {:induction false} InsertKeysUnique<C>(es: seq<Entry<C>>, t: Time, c: C, newKey: Key)
    requires KeysUnique(es) && KeysBelow(es, newKey)
    ensures KeysUnique(Insert(es, t, c, newKey)) && KeysBelow(Insert(es, t, c, newKey), newKey + 1)
  {
    var r := Insert(es, t, c, newKey);
    if |es| == 0 {
    } else if t < es[0].time {
      assert forall i :: 1 <= i < |r| ==> r[i] == es[i - 1];
    } else if t == es[0].time {
      assert forall i :: 1 <= i < |r| ==> r[i] == es[i];
    } else {
      var tail := Insert(es[1..], t, c, newKey);
      InsertKeysUnique(es[1..], t, c, newKey);
      InsertTimes(es[1..], t, c, newKey);
      forall j | 0 <= j < |tail|
        ensures es[0].key != tail[j].key
      {
        assert tail[j].key in KeySet(tail);
        if tail[j].key != newKey {
          var m :| 0 <= m < |es[1..]| && es[1..][m].key == tail[j].key;
          assert es[m + 1].key == tail[j].key;
        }
      }
      assert forall i :: 1 <= i < |r| ==> r[i] == tail[i - 1];
    }
  }

  /** Re-inserting at a stored time rewrites that one coefficient in place. */
  lemma {:induction false} InsertAtStoredTime<C>(es: seq<Entry<C>>, k: nat, c: C, newKey: Key)
    requires StrictlySorted(es) && k < |es|
    ensures Insert(es, es[k].time, c, newKey) == es[k := Entry(es[k].time, es[k].key, c)]
  {
    var e := Entry(es[k].time, es[k].key, c);
    if k == 0 {
      assert Insert(es, es[0].time, c, newKey) == [e] + es[1..];
      assert [e] + es[1..] == es[0 := e];
    } else {
      assert es[0].time < es[k].time;
      var tail := es[1..];
      assert tail[k - 1] == es[k];
      InsertAtStoredTime(tail, k - 1, c, newKey);
      assert Insert(es, es[k].time, c, newKey) == [es[0]] + tail[k - 1 := e];
      assert [es[0]] + tail[k - 1 := e] == es[k := e];
    }
  }

  /** Rewriting one coefficient in place keeps every time, every key and the
      store's invariant. */
  lemma ReplaceCoefficient<C>(es: seq<Entry<C>>, k: nat, c: C, next: Key)
    requires k < |es|
    ensures var r := es[k := Entry(es[k].time, es[k].key, c)];
      Times(r) == Times(es) && Keys(r) == Keys(es) && (WellFormed(es, next) ==> WellFormed(r, next))
  {
  }

  /** The next unused key after inserting at t: unchanged when t was stored. */
  function NextKeyAfter<C>(es: seq<Entry<C>>, t: Time, next: Key): (n: Key)
    ensures n == next || n == next + 1
    ensures n == next <==> t in TimeSet(es)
  {
    if Lookup(es, t).Some? then next else next + 1
  }

  /** insertCoefficient keeps the store's invariant together with its key
      counter. */
  lemma InsertWellFormed<C>(es: seq<Entry<C>>, t: Time, c: C, next: Key)
    requires WellFormed(es, next)
    ensures WellFormed(Insert(es, t, c, next), NextKeyAfter(es, t, next))
  {
    InsertSorted(es, t, c, next);
    var found := Lookup(es, t);
    if found.Some? {
      var k :| 0 <= k < |es| && es[k] == found.value;
      InsertAtStoredTime(es, k, c, next);
    } else {
      InsertKeysUnique(es, t, c, next);
    }
  }

  /** insertCoefficients: the entries inserted one after the other, in the
      order given; returns the new entries and the next unused key. */
  function InsertAll<C>(es: seq<Entry<C>>, next: Key, times: seq<Time>, values: seq<C>)
    : (r: (seq<Entry<C>>, Key))
    requires |times| == |values|
    ensures r.1 >= next
    decreases |times|
  {
    if |times| == 0 then (es, next)
    else
      var n := |times| - 1;
      var prefix := InsertAll(es, next, times[..n], values[..n]);
      (Insert(prefix.0, times[n], values[n], prefix.1), NextKeyAfter(prefix.0, times[n], prefix.1))
  }

  /** One more sample inserted after a prefix of the samples. */
  lemma InsertAllStep<C>(es: seq<Entry<C>>, next: Key, times: seq<Time>, values: seq<C>, i: nat)
    requires |times| == |values| && i < |times|
    ensures var prefix := InsertAll(es, next, times[..i], values[..i]);
      InsertAll(es, next, times[..i + 1], values[..i + 1])
        == (Insert(prefix.0, times[i], values[i], prefix.1), NextKeyAfter(prefix.0, times[i], prefix.1))
  {
    assert times[..i + 1][..i] == times[..i];
    assert values[..i + 1][..i] == values[..i];
  }

  lemma {:induction false} InsertAllWellFormed<C>(es: seq<Entry<C>>, next: Key, times: seq<Time>, values: seq<C>)
    requires |times| == |values| && WellFormed(es, next)
    ensures WellFormed(InsertAll(es, next, times, values).0, InsertAll(es, next, times, values).1)
    decreases |times|
  {
    if |times| > 0 {
      var n := |times| - 1;
      InsertAllWellFormed(es, next, times[..n], values[..n]);
      var prefix := InsertAll(es, next, times[..n], values[..n]);
      InsertWellFormed(prefix.0, times[n], values[n], prefix.1);
    }
  }

  /** The stored times afterwards are the old ones plus the inserted ones. */
  lemma {:induction false} InsertAllTimes<C>(es: seq<Entry<C>>, next: Key, times: seq<Time>, values: seq<C>)
    requires |times| == |values|
    ensures TimeSet(InsertAll(es, next, times, values).0) == TimeSet(es) + set k | 0 <= k < |times| :: times[k]
    decreases |times|
  {
    if |times| > 0 {
      var n := |times| - 1;
      InsertAllTimes(es, next, times[..n], values[..n]);
      var prefix := InsertAll(es, next, times[..n], values[..n]);
      InsertTimes(prefix.0, times[n], values[n], prefix.1);
      assert (set k | 0 <= k < |times| :: times[k])
          == (set k | 0 <= k < n :: times[..n][k]) + {times[n]};
    }
  }

  lemma {:induction false} InsertAllSorted<C>(es: seq<Entry<C>>, next: Key, times: seq<Time>, values: seq<C>)
    requires |times| == |values| && StrictlySorted(es)
    ensures StrictlySorted(InsertAll(es, next, times, values).0)
    decreases |times|
  {
    if |times| > 0 {
      var n := |times| - 1;
      InsertAllSorted(es, next, times[..n], values[..n]);
      var prefix := InsertAll(es, next, times[..n], values[..n]);
      InsertSorted(prefix.0, times[n], values[n], prefix.1);
    }
  }

  /** Times that were not inserted keep their entries. */
  lemma {:induction false} InsertAllUntouched<C>(es: seq<Entry<C>>, next: Key, times: seq<Time>, values: seq<C>, u: Time)
    requires |times| == |values| && StrictlySorted(es) && u !in times
    ensures Lookup(InsertAll(es, next, times, values).0, u) == Lookup(es, u)
    decreases |times|
  {
    if |times| > 0 {
      var n := |times| - 1;
      assert u !in times[..n];
      InsertAllUntouched(es, next, times[..n], values[..n], u);
      InsertAllSorted(es, next, times[..n], values[..n]);
      var prefix := InsertAll(es, next, times[..n], values[..n]);
      InsertLookup(prefix.0, times[n], values[n], prefix.1);
    }
  }

  /** At each inserted time the stored value is the one given last for that
      time. */
  lemma {:induction false} InsertAllLastWins<C>(es: seq<Entry<C>>, next: Key, times: seq<Time>, values: seq<C>, k: nat)
    requires |times| == |values| && StrictlySorted(es) && k < |times|
    requires forall j :: k < j < |times| ==> times[j] != times[k]
    ensures Lookup(InsertAll(es, next, times, values).0, times[k]).Some?
    ensures Lookup(InsertAll(es, next, times, values).0, times[k]).value.coefficient == values[k]
    decreases |times|
  {
    var n := |times| - 1;
    InsertAllSorted(es, next, times[..n], values[..n]);
    var prefix := InsertAll(es, next, times[..n], values[..n]);
    InsertLookup(prefix.0, times[n], values[n], prefix.1);
    if k < n {
      assert times[n] != times[k];
      assert times[..n][k] == times[k];
      InsertAllLastWins(es, next, times[..n], values[..n], k);
    }
  }

  lemma PrefixSnoc<T>(s: seq<T>, i: nat)
    requires i < |s|
    ensures s[..i] + [s[i]] == s[..i + 1]
  {
  }

  /** ks[k] is the key stored at time ts[k], for every k. */
  predicate KeysAt<C>(es: seq<Entry<C>>, ts: seq<Time>, ks: seq<Key>)
  {
    |ts| == |ks| &&
    forall k :: 0 <= k < |ts| ==> Lookup(es, ts[k]).Some? && Lookup(es, ts[k]).value.key == ks[k]
  }

  /** Inserting never changes the key stored at a time. */
  lemma InsertKeepsKeys<C>(es: seq<Entry<C>>, t: Time, c: C, newKey: Key, ts: seq<Time>, ks: seq<Key>)
    requires StrictlySorted(es) && KeysAt(es, ts, ks)
    ensures KeysAt(Insert(es, t, c, newKey), ts, ks)
  {
    InsertLookup(es, t, c, newKey);
  }

  lemma KeysAtSnoc<C>(es: seq<Entry<C>>, ts: seq<Time>, ks: seq<Key>, t: Time, key: Key)
    requires KeysAt(es, ts, ks)
    requires Lookup(es, t).Some? && Lookup(es, t).value.key == key
    ensures KeysAt(es, ts + [t], ks + [key])
  {
  }

  function MinTime<C>(es: seq<Entry<C>>): Time
    requires |es| > 0
  {
    es[0].time
  }

  function MaxTime<C>(es: seq<Entry<C>>): Time
    requires |es| > 0
  {
    es[|es| - 1].time
  }

  lemma StoredTimeInRange<C>(es: seq<Entry<C>>, k: nat)
    requires StrictlySorted(es) && k < |es|
    ensures MinTime(es) <= es[k].time <= MaxTime(es)
  {
  }

  /** The last index whose time is at or before t. */
  function LastAtOrBefore(times: seq<Time>, t: Time): (i: nat)
    requires |times| > 0 && times[0] <= t
    ensures i < |times| && times[i] <= t
    ensures forall j :: i < j < |times| ==> times[j] > t
  {
    if times[|times| - 1] <= t then |times| - 1
    else LastAtOrBefore(times[..|times| - 1], t)
  }

  /** getCoefficientsAt: the indices of the two stored entries around t. With
      one entry both indices are that entry; at the last time they are the
      last two entries. */
  function Bracket<C>(es: seq<Entry<C>>, t: Time): (r: Result<(nat, nat)>)
    ensures r.Ok? <==> |es| > 0 && MinTime(es) <= t <= MaxTime(es)
    ensures |es| == 0 ==> r == Err(NotFound)
    ensures r.Ok? ==> r.value.0 <= r.value.1 < |es|
    ensures r.Ok? ==> r.value.1 == r.value.0 + 1 || (|es| == 1 && r.value.0 == r.value.1 == 0)
    ensures r.Ok? && StrictlySorted(es) ==> es[r.value.0].time <= t <= es[r.value.1].time
  {
    if |es| == 0 then Err(NotFound)
    else if t < MinTime(es) || t > MaxTime(es) then Err(TimeOutOfBounds)
    else if |es| == 1 then Ok((0, 0))
    else if t == MaxTime(es) then Ok((|es| - 2, |es| - 1))
    else
      var i := LastAtOrBefore(Times(es), t);
      Ok((i, i + 1))
  }

  /** At a stored time other than the last, the bracket starts at that entry. */
  lemma BracketAtStoredTime<C>(es: seq<Entry<C>>, k: nat)
    requires StrictlySorted(es) && k + 1 < |es|
    ensures Bracket(es, es[k].time) == Ok((k, k + 1))
  {
    var t := es[k].time;
    assert MinTime(es) <= t < MaxTime(es);
  }

  /** Strictly between two neighbouring entries, the bracket is that pair. */
  lemma BracketBetween<C>(es: seq<Entry<C>>, k: nat, t: Time)
    requires StrictlySorted(es) && k + 1 < |es|
    requires es[k].time < t < es[k + 1].time
    ensures Bracket(es, t) == Ok((k, k + 1))
  {
    assert MinTime(es) <= es[k].time && es[k + 1].time <= MaxTime(es);
  }

  /** No stored time lies strictly inside a bracket. */
  lemma BracketIsTight<C>(es: seq<Entry<C>>, t: Time)
    requires StrictlySorted(es)
    requires Bracket(es, t).Ok?
    ensures var (i, j) := Bracket(es, t).value;
      es[i].time <= t <= es[j].time &&
      forall m :: 0 <= m < |es| ==> !(es[i].time < es[m].time < es[j].time)
  {
  }

  /** With distinct times the store holds as many entries as distinct times. */
  lemma {:induction false} SortedCount<C>(es: seq<Entry<C>>)
    requires StrictlySorted(es)
    ensures |TimeSet(es)| == |es|
  {
    if |es| > 0 {
      SortedCount(es[1..]);
      assert TimeSet(es) == {es[0].time} + TimeSet(es[1..]);
      assert es[0].time !in TimeSet(es[1..]);
    }
  }

  /** getCoefficientTimeByKey. */
  function TimeOfKey<C>(es: seq<Entry<C>>, key: Key): (r: Result<Time>)
    ensures r.Ok? ==> exists i :: 0 <= i < |es| && es[i].key == key && es[i].time == r.value
    ensures r.Err? <==> key !in KeySet(es)
  {
    if |es| == 0 then Err(NotFound)
    else if es[0].key == key then Ok(es[0].time)
    else
      assert KeySet(es) == {es[0].key} + KeySet(es[1..]);
      var r := TimeOfKey(es[1..], key);
      if r.Ok? then
        assert exists i :: 0 <= i < |es| - 1 && es[1..][i].key == key && es[1..][i].time == r.value;
        r
      else r
  }

  /** getCoefficientByKey. */
  function CoefficientOfKey<C>(es: seq<Entry<C>>, key: Key): (r: Option<C>)
    ensures r.None? <==> key !in KeySet(es)
  {
    if |es| == 0 then None
    else if es[0].key == key then Some(es[0].coefficient)
    else
      assert KeySet(es) == {es[0].key} + KeySet(es[1..]);
      CoefficientOfKey(es[1..], key)
  }

  /** With unique keys, a key finds its own entry. */
  lemma CoefficientOfKeyAt<C>(es: seq<Entry<C>>, k: nat)
    requires KeysUnique(es) && k < |es|
    ensures CoefficientOfKey(es, es[k].key) == Some(es[k].coefficient)
  {
    if k > 0 {
      assert es[0].key != es[k].key;
      CoefficientOfKeyAt(es[1..], k - 1);
    }
  }

  /** With unique keys, a key finds the time of its own entry. */
  lemma TimeOfKeyAt<C>(es: seq<Entry<C>>, k: nat)
    requires KeysUnique(es) && k < |es|
    ensures TimeOfKey(es, es[k].key) == Ok(es[k].time)
  {
    if k > 0 {
      assert es[0].key != es[k].key;
      TimeOfKeyAt(es[1..], k - 1);
    }
  }
}
