/** The nearest sample search of a value history. */
module Histories {

  function Dist(x: real, y: real): real { if x < y then y - x else x - y }

  predicate Ascending(t: seq<real>, l: nat, r: nat) {
    r <= |t| && forall i, j :: l <= i < j < r ==> t[i] < t[j]
  }

  /** The best approximation so far; none in the beginning, when the error is maximal. */
  datatype Diff = Maximal | Error(d: real)

  predicate Improves(d: real, diff: Diff) { diff.Maximal? || d < diff.d }

  /** The error belongs to the sample idx. */
  predicate Tracks(t: seq<real>, tval: real, idx: int, diff: Diff) {
    diff.Error? ==> 0 <= idx < |t| && diff.d == Dist(t[idx], tval)
  }

  /** Sample k is among [l, r) or the previous best, and nothing of both is nearer. */
  ghost predicate IsNearest(t: seq<real>, tval: real, l: nat, r: nat, idx: int, diff: Diff, k: int) {
    && r <= |t| && 0 <= k < |t| && (l <= k < r || (diff.Error? && k == idx))
    && (forall j :: l <= j < r ==> Dist(t[k], tval) <= Dist(t[j], tval))
    && (diff.Error? ==> Dist(t[k], tval) <= diff.d)
  }

  class History {
    var t: seq<real>
    var values: seq<real>
    var sign: bool

    /** Left-most valid index into the time value vector. */
    function LeftIdx(): nat
      reads this
    {
      if |t| > |values| then |t| - |values| else 0
    }

    /** Finds the nearest sample in [l, r) by a binary search that drops the farther half. */
    method Seek(tval: real, l: nat, r: nat, diff0: Diff, idx0: int) returns (k: int, diff: Diff)
      requires l <= r < |t| && Ascending(t, l, r + 1) && Tracks(t, tval, idx0, diff0)
      requires diff0.Error? ==> sign == (t[idx0] < tval)
      requires l == r ==> diff0.Maximal? || idx0 == l
      modifies this`sign
      ensures l == r ==> k == l && diff == diff0 && sign == old(sign)
      ensures l < r ==>
        IsNearest(t, tval, l, r, idx0, diff0, k) && diff == Error(Dist(t[k], tval)) && sign == (t[k] < tval)
      decreases r - l, if l < r && Improves(Dist(t[l], tval), diff0) then 1 else 0
    {
      diff := diff0;
      var idx := idx0;
      var i := (l + r) / 2;
      if l == r { return i, diff; }
      var d := t[i] - tval;
      if Improves(Dist(t[i], tval), diff) {
        diff := Error(Dist(t[i], tval));
        sign := d < 0.0;
        idx := i;
      } else if i == l {
        return idx, diff;
      }
      if d < 0.0 {
        k, diff := Seek(tval, i, r, diff, idx);
      } else if d > 0.0 {
        k, diff := Seek(tval, l, i, diff, idx);
      } else {
        k := idx;
      }
    }

    /** Interpolates with two samples on the left side and two on the right side if there are
        as many. */
    method Interpol(tval: real, idx: nat, left: bool, spline: (seq<real>, seq<real>, real) -> real) returns (v: real)
      requires idx < |values| <= |t| - LeftIdx()
      ensures v == Interpolated(t, values, LeftIdx(), tval, idx, left, spline)
    {
      var n := if left then idx + 1 else idx;
      v := values[idx];
      if n > 1 && n + 2 < |values| {
        var x, y: seq<real>, l := [], [], LeftIdx();
        for i := n - 2 to n + 2
          invariant x == t[n - 2 + l..i + l] && y == values[n - 2..i]
        {
          x, y := x + [t[i + l]], y + [values[i]];
        }
        v := spline(y, x, tval);
      }
    }

    /** The value nearest to the given time, or interpolated around it; the youngest sample is
        left out unless it is the only one. */
    method Nearest(tval: real, interpolate: bool,
                   spline: (seq<real>, seq<real>, real) -> real) returns (v: real, ghost k: nat)
      requires Ascending(t, LeftIdx(), |t|)
      requires t != [] ==> |values| > 0 && (interpolate ==> |values| <= |t|)
      modifies this`sign
      ensures t == [] ==> v == 0.0
      ensures t != [] ==> LeftIdx() <= k < |t|
      ensures t != [] && !interpolate ==> v == values[k - LeftIdx()]
      ensures t != [] && interpolate ==> v == Interpolated(t, values, LeftIdx(), tval, k - LeftIdx(), sign, spline)
      ensures LeftIdx() + 1 == |t| ==> k == LeftIdx() && sign
      ensures LeftIdx() + 1 < |t| ==>
        && k < |t| - 1 && (forall j :: LeftIdx() <= j < |t| - 1 ==> Dist(t[k], tval) <= Dist(t[j], tval))
        && sign == (t[k] < tval)
      ensures interpolate && LeftIdx() + 1 < |t| ==>
        var n := k - LeftIdx() + if t[k] < tval then 1 else 0;
        if n > 1 && n + 2 < |values| then
          exists x, y :: IsAround(t, values, LeftIdx(), tval, n - 2, y, x) && v == spline(y, x, tval)
        else v == values[k - LeftIdx()]
    {
      hide IsAround, Interpolated;
      k := 0;
      if |t| == 0 { return 0.0, 0; }
      var l, r := LeftIdx(), |t| - 1;
      sign := true;
      var i, diff := Seek(tval, l, r, Maximal, -1);
      k := i;
      if interpolate {
        v := Interpol(tval, i - l, sign, spline);
        if l < r { AroundNearest(t, values, l, tval, k, spline); }
      } else {
        v := values[i - l];
      }
    }
  }

  /** The spline through the samples n - 2 to n + 1, or the sample idx if there are too few. */
  function Interpolated(t: seq<real>, values: seq<real>, l: nat, tval: real, idx: nat, left: bool,
                        spline: (seq<real>, seq<real>, real) -> real): real
    requires idx < |values| <= |t| - l
  {
    var n := if left then idx + 1 else idx;
    if n > 1 && n + 2 < |values| then spline(values[n - 2..n + 2], t[n - 2 + l..n + 2 + l], tval) else values[idx]
  }

  /** Around the nearest sample, two of the four samples are before the time and two after. */
  lemma Enclosed(t: seq<real>, tval: real, l: nat, k: nat, n: nat)
    requires Ascending(t, l, |t|) && l <= k < |t| - 1
    requires forall j :: l <= j < |t| - 1 ==> Dist(t[k], tval) <= Dist(t[j], tval)
    requires n == if t[k] < tval then k + 1 else k
    requires l + 1 < n && n + 2 < |t|
    ensures t[n - 2] < t[n - 1] <= tval <= t[n] < t[n + 1]
  {
    assert Dist(t[k], tval) <= Dist(t[n], tval) && Dist(t[k], tval) <= Dist(t[n - 1], tval);
  }

  /** Four samples, two before the time and two after it, with their values. */
  predicate IsAround(t: seq<real>, values: seq<real>, l: nat, tval: real, p: nat, y: seq<real>, x: seq<real>) {
    && p + 4 <= |values| && l + p + 4 <= |t| && x == t[l + p..l + p + 4] && y == values[p..p + 4]
    && x[0] < x[1] <= tval <= x[2] < x[3]
  }

  /** What the interpolation around the nearest sample hands to the spline. */
  lemma AroundNearest(t: seq<real>, values: seq<real>, l: nat, tval: real, k: nat,
                      spline: (seq<real>, seq<real>, real) -> real)
    requires |values| == |t| - l && Ascending(t, l, |t|) && l <= k < |t| - 1
    requires forall j :: l <= j < |t| - 1 ==> Dist(t[k], tval) <= Dist(t[j], tval)
    ensures var n := k - l + if t[k] < tval then 1 else 0;
      var v := Interpolated(t, values, l, tval, k - l, t[k] < tval, spline);
      if n > 1 && n + 2 < |values| then
        exists x, y :: IsAround(t, values, l, tval, n - 2, y, x) && v == spline(y, x, tval)
      else v == values[k - l]
  {
    hide Ascending, Dist, IsAround;
    var n := k - l + if t[k] < tval then 1 else 0;
    if n > 1 && n + 2 < |values| {
      Enclosed(t, tval, l, k, l + n);
      SlicesAround(t, values, l, tval, n);
      var x, y := t[n - 2 + l..n + 2 + l], values[n - 2..n + 2];
      assert Interpolated(t, values, l, tval, k - l, t[k] < tval, spline) == spline(y, x, tval);
    }
  }

  lemma SlicesAround(t: seq<real>, values: seq<real>, l: nat, tval: real, n: nat)
    requires 1 < n && n + 2 < |values| == |t| - l
    requires t[l + n - 2] < t[l + n - 1] <= tval <= t[l + n] < t[l + n + 1]
    ensures IsAround(t, values, l, tval, n - 2, values[n - 2..n + 2], t[n - 2 + l..n + 2 + l])
  {
    var x := t[n - 2 + l..n + 2 + l];
    assert x[0] == t[l + n - 2] && x[1] == t[l + n - 1] && x[2] == t[l + n] && x[3] == t[l + n + 1];
  }

  /** The sample found is the nearest one of all, the youngest included, if and only if the
      time is not beyond the middle of the last two samples. */
  lemma NearestOfAll(t: seq<real>, tval: real, l: nat, r: nat, k: nat)
    requires l < r < |t| && Ascending(t, l, r + 1) && l <= k < r
    requires forall j :: l <= j < r ==> Dist(t[k], tval) <= Dist(t[j], tval)
    ensures (forall j :: l <= j <= r ==> Dist(t[k], tval) <= Dist(t[j], tval)) <==> tval - t[r - 1] <= t[r] - tval
  {
    assert Dist(t[k], tval) <= Dist(t[r - 1], tval);
    if tval - t[r - 1] > t[r] - tval {
      assert t[k] <= t[r - 1];
    }
  }

  /** Beyond the middle of the last two samples the youngest one is nearer, and missed. */
  lemma YoungestMissed()
    ensures var t := [0.0, 1.0];
      && Ascending(t, 0, 2) && 0.75 - t[0] > t[1] - 0.75
      && (forall j :: 0 <= j < 1 ==> Dist(t[0], 0.75) <= Dist(t[j], 0.75)) && Dist(t[1], 0.75) < Dist(t[0], 0.75)
  {}
}
