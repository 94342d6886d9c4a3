/** Lateness reported by the min-max model once it is solved: the per-stop
    delay list `delay_times`, and how it relates to the model's objective
    variable `max_atraso` (the maximum lateness). Arrival times are the
    solver's values of the `y` variables and are taken as parameters. */
module Lateness {

  /** Python's `max(0, x)`. */
  function Max0(x: real): real {
    if 0.0 >= x then 0.0 else x
  }

  /** The deadline of a location record `[x, y, service, deadline]`. */
  function Deadline(row: seq<int>): real
    requires |row| >= 4
  {
    row[3] as real
  }

  /** `[max(0, y[i] - deadline_i) if i > 0 else 0 for i in range(count)]`.
      The depot's record is never read. */
  function DelayTimes(arrival: seq<real>, data: seq<seq<int>>): (delays: seq<real>)
    requires |arrival| == |data|
    requires forall i :: 0 < i < |data| ==> |data[i]| >= 4
    ensures |delays| == |data|
    ensures |delays| > 0 ==> delays[0] == 0.0
    ensures forall i :: 0 <= i < |delays| ==> delays[i] >= 0.0
    ensures forall i :: 0 < i < |delays| ==>
      delays[i] >= arrival[i] - Deadline(data[i]) &&
      (delays[i] == 0.0 || delays[i] == arrival[i] - Deadline(data[i]))
  {
    seq(|data|, i requires 0 <= i < |data| =>
      if i > 0 then Max0(arrival[i] - Deadline(data[i])) else 0.0)
  }

  /** A stop's delay is the least non-negative amount that covers its
      lateness `y[i] - deadline_i`. */
  lemma DelayIsLeastCover(arrival: seq<real>, data: seq<seq<int>>, i: nat, m: real)
    requires |arrival| == |data|
    requires forall k :: 0 < k < |data| ==> |data[k]| >= 4
    requires 0 < i < |data|
    ensures m >= DelayTimes(arrival, data)[i] <==> m >= 0.0 && m >= arrival[i] - Deadline(data[i])
  {
  }

  /** The model's constraints on `max_atraso`: `lb=0` and
      `max_atraso >= y[i] - deadline_i` for every stop `i >= 1`. */
  predicate MaxLatenessFeasible(arrival: seq<real>, data: seq<seq<int>>, m: real)
    requires |arrival| == |data|
    requires forall k :: 0 < k < |data| ==> |data[k]| >= 4
  {
    m >= 0.0 && forall i :: 0 < i < |data| ==> m >= arrival[i] - Deadline(data[i])
  }

  /** The constraints on `max_atraso` hold exactly when it bounds every
      reported delay. */
  lemma MaxLatenessBoundsDelays(arrival: seq<real>, data: seq<seq<int>>, m: real)
    requires |arrival| == |data| && |data| > 0
    requires forall k :: 0 < k < |data| ==> |data[k]| >= 4
    ensures MaxLatenessFeasible(arrival, data, m)
        <==> (forall i :: 0 <= i < |data| ==> m >= DelayTimes(arrival, data)[i])
  {
    var delays := DelayTimes(arrival, data);
    if forall i :: 0 <= i < |data| ==> m >= delays[i] {
      assert m >= delays[0];
    }
  }

  /** So the optimum of `minimize max_atraso` is the largest entry of
      `delay_times`: that entry satisfies the constraints and every value
      that satisfies them is at least as large. */
  lemma LargestDelayIsOptimal(arrival: seq<real>, data: seq<seq<int>>, k: nat)
    requires |arrival| == |data| && k < |data|
    requires forall j :: 0 < j < |data| ==> |data[j]| >= 4
    requires forall i :: 0 <= i < |data| ==> DelayTimes(arrival, data)[k] >= DelayTimes(arrival, data)[i]
    ensures MaxLatenessFeasible(arrival, data, DelayTimes(arrival, data)[k])
    ensures forall m :: MaxLatenessFeasible(arrival, data, m) ==> m >= DelayTimes(arrival, data)[k]
  {
    MaxLatenessBoundsDelays(arrival, data, DelayTimes(arrival, data)[k]);
    forall m | MaxLatenessFeasible(arrival, data, m)
      ensures m >= DelayTimes(arrival, data)[k]
    {
      MaxLatenessBoundsDelays(arrival, data, m);
    }
  }
}
