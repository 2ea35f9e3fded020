/** The Carrigan tires (tires/carrigan_tires.py): due for service once the
    most worn tire has reached a wear ratio of 0.9. Wear ratios are exact
    reals. */
module Tires {
  import opened Outcomes

  /** The inclusive wear threshold. */
  const WornOutRatio: real := 0.9

  /** Why `max` raises `ValueError`: it was given no values. */
  datatype TireError = EmptyWearList

  /** Python's `max` over a non-empty list, scanning left to right. */
  function Max(s: seq<real>): (m: real)
    requires |s| > 0
    ensures exists i :: 0 <= i < |s| && s[i] == m
    ensures forall i :: 0 <= i < |s| ==> s[i] <= m
  {
    if |s| == 1 then s[0]
    else
      var m := Max(s[..|s| - 1]);
      if m < s[|s| - 1] then s[|s| - 1] else m
  }

  class CarriganTires {
    var tireWear: seq<real>

    /** Stores the list as given: no check of its length or of the range of
        its values. */
    constructor (tireWear: seq<real>)
      ensures this.tireWear == tireWear
    {
      this.tireWear := tireWear;
    }

    /** A function of the stored list: it reads it and changes nothing. */
    function NeedsService(): (r: Result<bool, TireError>)
      reads this
      ensures r.Failure? <==> tireWear == []
      ensures r.Success? ==>
                (r.value <==> exists i :: 0 <= i < |tireWear| && tireWear[i] >= WornOutRatio)
    {
      if tireWear == [] then Failure(EmptyWearList)
      else Success(Max(tireWear) >= WornOutRatio)
    }
  }

  /** The maximum reaches a bound exactly when some element does. */
  lemma MaxAtLeast(s: seq<real>, bound: real)
    requires |s| > 0
    ensures Max(s) >= bound <==> exists i :: 0 <= i < |s| && s[i] >= bound
  {
  }

  /** The maximum depends only on the multiset of values, not their order. */
  lemma MaxOfPermutation(s: seq<real>, t: seq<real>)
    requires |s| > 0
    requires multiset(s) == multiset(t)
    ensures |t| == |s|
    ensures Max(s) == Max(t)
  {
    assert |t| == |multiset(t)| == |multiset(s)| == |s|;
    var ms, mt := Max(s), Max(t);
    assert ms in multiset(t) && mt in multiset(s);
    var i :| 0 <= i < |t| && t[i] == ms;
    var j :| 0 <= j < |s| && s[j] == mt;
  }

  /** Reordering the wear list never changes the verdict. */
  lemma NeedsServiceIgnoresOrder(a: CarriganTires, b: CarriganTires)
    requires multiset(a.tireWear) == multiset(b.tireWear)
    ensures a.NeedsService() == b.NeedsService()
  {
    if a.tireWear != [] {
      MaxOfPermutation(a.tireWear, b.tireWear);
    } else {
      assert |b.tireWear| == |multiset(b.tireWear)| == 0;
    }
  }

  /** Raising one value never lowers the maximum. */
  lemma MaxGrowsWhenRaised(s: seq<real>, k: int, v: real)
    requires 0 <= k < |s|
    requires s[k] <= v
    ensures Max(s) <= Max(s[k := v])
  {
    var i :| 0 <= i < |s| && s[i] == Max(s);
    assert s[i] <= s[k := v][i];
  }

  /** Raising the wear of one tire never turns "due" into "not due". */
  lemma RaisingWearKeepsDue(a: CarriganTires, b: CarriganTires, k: int, v: real)
    requires 0 <= k < |a.tireWear|
    requires a.tireWear[k] <= v
    requires b.tireWear == a.tireWear[k := v]
    requires a.NeedsService() == Success(true)
    ensures b.NeedsService() == Success(true)
  {
  }

  /** The threshold is inclusive: a largest wear of exactly 0.9 is due. */
  lemma ExactlyAtThresholdIsDue(a: CarriganTires)
    requires a.tireWear == [0.1, 0.0, 0.0, 0.9]
    ensures a.NeedsService() == Success(true)
  {
  }

  /** Every tire below 0.9 is not due. */
  lemma AllBelowThresholdIsNotDue(a: CarriganTires)
    requires a.tireWear == [0.8, 0.89, 0.7, 0.6]
    ensures a.NeedsService() == Success(false)
  {
  }
}
