/** The running bounds kept by the aggregation loop of `process_images`:
    `deg_max` is replaced whenever it is None or a temperature exceeds it,
    `deg_min` likewise from below. The loop itself is
    `Pipeline.TimeLapse.ProcessImages`; these functions are what it computes. */
module Aggregation {
  import opened Outcomes

  /** One step of `if self.deg_max is None or temp > self.deg_max`. */
  function MaxStep(cur: Option<int>, t: int): Option<int>
  {
    if cur.None? || t > cur.value then Some(t) else cur
  }

  /** One step of `if self.deg_min is None or temp < self.deg_min`. */
  function MinStep(cur: Option<int>, t: int): Option<int>
  {
    if cur.None? || t < cur.value then Some(t) else cur
  }

  /** `deg_max` after the loop has seen `ts`, starting from `init`. */
  function RunningMax(init: Option<int>, ts: seq<int>): Option<int>
  {
    if ts == [] then init else MaxStep(RunningMax(init, ts[..|ts| - 1]), ts[|ts| - 1])
  }

  /** `deg_min` after the loop has seen `ts`, starting from `init`. */
  function RunningMin(init: Option<int>, ts: seq<int>): Option<int>
  {
    if ts == [] then init else MinStep(RunningMin(init, ts[..|ts| - 1]), ts[|ts| - 1])
  }

  /** The running maximum is set once anything has been seen, bounds every
      temperature and the starting value, and is one of them. */
  lemma {:induction false} RunningMaxIsMaximum(init: Option<int>, ts: seq<int>)
    ensures RunningMax(init, ts).Some? <==> init.Some? || ts != []
    ensures RunningMax(init, ts).Some? ==>
      var m := RunningMax(init, ts).value;
      && (forall i :: 0 <= i < |ts| ==> ts[i] <= m)
      && (init.Some? ==> init.value <= m)
      && ((exists i :: 0 <= i < |ts| && ts[i] == m) || init == Some(m))
  {
    if ts != [] {
      var prefix := ts[..|ts| - 1];
      RunningMaxIsMaximum(init, prefix);
      assert forall i :: 0 <= i < |prefix| ==> prefix[i] == ts[i];
      var prev := RunningMax(init, prefix);
      if prev.Some? && ts[|ts| - 1] <= prev.value {
        if init != prev {
          var i :| 0 <= i < |prefix| && prefix[i] == prev.value;
          assert ts[i] == prev.value;
        }
      }
    }
  }

  /** The running minimum, symmetrically. */
  lemma {:induction false} RunningMinIsMinimum(init: Option<int>, ts: seq<int>)
    ensures RunningMin(init, ts).Some? <==> init.Some? || ts != []
    ensures RunningMin(init, ts).Some? ==>
      var m := RunningMin(init, ts).value;
      && (forall i :: 0 <= i < |ts| ==> m <= ts[i])
      && (init.Some? ==> m <= init.value)
      && ((exists i :: 0 <= i < |ts| && ts[i] == m) || init == Some(m))
  {
    if ts != [] {
      var prefix := ts[..|ts| - 1];
      RunningMinIsMinimum(init, prefix);
      assert forall i :: 0 <= i < |prefix| ==> prefix[i] == ts[i];
      var prev := RunningMin(init, prefix);
      if prev.Some? && ts[|ts| - 1] >= prev.value {
        if init != prev {
          var i :| 0 <= i < |prefix| && prefix[i] == prev.value;
          assert ts[i] == prev.value;
        }
      }
    }
  }

  /** From a fresh object (both bounds None) a non-empty series leaves
      `deg_min` and `deg_max` at its least and greatest temperature: every
      temperature lies between them and both are attained. An empty series
      leaves both None. */
  lemma SeriesRange(ts: seq<int>)
    ensures ts == [] ==> RunningMin(None, ts).None? && RunningMax(None, ts).None?
    ensures ts != [] ==>
      && RunningMin(None, ts).Some? && RunningMax(None, ts).Some?
      && var lo, hi := RunningMin(None, ts).value, RunningMax(None, ts).value;
      && (forall i :: 0 <= i < |ts| ==> lo <= ts[i] <= hi)
      && (exists i :: 0 <= i < |ts| && ts[i] == lo)
      && (exists j :: 0 <= j < |ts| && ts[j] == hi)
  {
    RunningMinIsMinimum(None, ts);
    RunningMaxIsMaximum(None, ts);
  }

  /** The bounds of a fresh run depend only on which temperatures occur, not
      on the order the series puts them in. */
  lemma RangeIndependentOfOrder(ts: seq<int>, us: seq<int>)
    requires multiset(ts) == multiset(us)
    ensures RunningMin(None, ts) == RunningMin(None, us)
    ensures RunningMax(None, ts) == RunningMax(None, us)
  {
    assert |ts| == |multiset(ts)| == |multiset(us)| == |us|;
    if ts != [] {
      MinBelowPermutation(ts, us);
      MinBelowPermutation(us, ts);
      MaxAbovePermutation(ts, us);
      MaxAbovePermutation(us, ts);
    } else {
      assert us == [];
    }
  }

  /** The minimum of a permutation `b` of `a` is at most that of `a`, since
      the latter occurs in `b`. */
  lemma MinBelowPermutation(a: seq<int>, b: seq<int>)
    requires multiset(a) == multiset(b) && a != [] && b != []
    ensures RunningMin(None, b).Some? && RunningMin(None, a).Some?
    ensures RunningMin(None, b).value <= RunningMin(None, a).value
  {
    RunningMinIsMinimum(None, a);
    RunningMinIsMinimum(None, b);
    var i :| 0 <= i < |a| && a[i] == RunningMin(None, a).value;
    var k := Member(a, b, i);
  }

  /** The maximum of a permutation `b` of `a` is at least that of `a`. */
  lemma MaxAbovePermutation(a: seq<int>, b: seq<int>)
    requires multiset(a) == multiset(b) && a != [] && b != []
    ensures RunningMax(None, b).Some? && RunningMax(None, a).Some?
    ensures RunningMax(None, a).value <= RunningMax(None, b).value
  {
    RunningMaxIsMaximum(None, a);
    RunningMaxIsMaximum(None, b);
    var i :| 0 <= i < |a| && a[i] == RunningMax(None, a).value;
    var k := Member(a, b, i);
  }

  /** An element of `a` is an element of a permutation `b` of it. */
  lemma Member(a: seq<int>, b: seq<int>, i: int) returns (k: int)
    requires multiset(a) == multiset(b) && 0 <= i < |a|
    ensures 0 <= k < |b| && b[k] == a[i]
  {
    assert a[i] in multiset(a);
    assert a[i] in b;
    k :| 0 <= k < |b| && b[k] == a[i];
  }
}
