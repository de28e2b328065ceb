/** `process_plot_qm` and `process_plot_mm` without the plot: the relative
    energies of a scan, measured from its lowest point. */
module Relative {
  import opened Wrappers
  import opened PyErrors
  import opened Catalog
  import opened Restraint

  /** `ang[np.nonzero(ene)]`, `ene[np.nonzero(ene)]`: the scan points whose
      energy is not zero, in order, each angle still next to its energy. */
  function Nonzero(angles: seq<real>, energies: seq<real>): (r: Scan)
    requires |angles| == |energies|
    ensures |r.angles| == |r.energies| <= |energies|
    ensures forall k :: 0 <= k < |r.energies| ==> r.energies[k] != 0.0
    decreases |energies|
  {
    if |energies| == 0 then Scan([], [])
    else
      var rest := Nonzero(angles[1..], energies[1..]);
      if energies[0] != 0.0 then Scan([angles[0]] + rest.angles, [energies[0]] + rest.energies) else rest
  }

  /** Filtering a concatenation filters each part. */
  lemma {:induction false} NonzeroAppend(a1: seq<real>, e1: seq<real>, a2: seq<real>, e2: seq<real>)
    requires |a1| == |e1| && |a2| == |e2|
    ensures var l := Nonzero(a1, e1); var r := Nonzero(a2, e2);
      Nonzero(a1 + a2, e1 + e2) == Scan(l.angles + r.angles, l.energies + r.energies)
    decreases |e1|
  {
    if |e1| > 0 {
      assert (a1 + a2)[1..] == a1[1..] + a2;
      assert (e1 + e2)[1..] == e1[1..] + e2;
      NonzeroAppend(a1[1..], e1[1..], a2, e2);
      var l := Nonzero(a1[1..], e1[1..]);
      var r := Nonzero(a2, e2);
      assert [a1[0]] + l.angles + r.angles == [a1[0]] + (l.angles + r.angles);
      assert [e1[0]] + l.energies + r.energies == [e1[0]] + (l.energies + r.energies);
    } else {
      assert a1 + a2 == a2 && e1 + e2 == e2;
    }
  }

  /** A scan without zero energies passes the filter unchanged. */
  lemma {:induction false} NonzeroKeepsAll(angles: seq<real>, energies: seq<real>)
    requires |angles| == |energies|
    requires forall k :: 0 <= k < |energies| ==> energies[k] != 0.0
    ensures Nonzero(angles, energies) == Scan(angles, energies)
    decreases |energies|
  {
    if |energies| > 0 {
      NonzeroKeepsAll(angles[1..], energies[1..]);
      assert [angles[0]] + angles[1..] == angles;
      assert [energies[0]] + energies[1..] == energies;
    }
  }

  /** Filtering twice is filtering once. */
  lemma NonzeroIdempotent(angles: seq<real>, energies: seq<real>)
    requires |angles| == |energies|
    ensures var r := Nonzero(angles, energies); Nonzero(r.angles, r.energies) == r
  {
    var r := Nonzero(angles, energies);
    NonzeroKeepsAll(r.angles, r.energies);
  }

  /** The filter keeps nothing exactly when every energy is zero. */
  lemma {:induction false} NonzeroEmpty(angles: seq<real>, energies: seq<real>)
    requires |angles| == |energies|
    ensures |Nonzero(angles, energies).energies| == 0 <==> forall k :: 0 <= k < |energies| ==> energies[k] == 0.0
    decreases |energies|
  {
    if |energies| > 0 {
      NonzeroEmpty(angles[1..], energies[1..]);
      assert forall k :: 1 <= k < |energies| ==> energies[k] == energies[1..][k - 1];
    }
  }

  /** The scan as (angle, energy) points. */
  function Points(angles: seq<real>, energies: seq<real>): (p: seq<(real, real)>)
    requires |angles| == |energies|
    ensures |p| == |energies| && forall k :: 0 <= k < |p| ==> p[k] == (angles[k], energies[k])
  {
    seq(|energies|, k requires 0 <= k < |energies| => (angles[k], energies[k]))
  }

  lemma PointsTail(angles: seq<real>, energies: seq<real>)
    requires |angles| == |energies| > 0
    ensures Points(angles, energies) == [(angles[0], energies[0])] + Points(angles[1..], energies[1..])
  {
  }

  /** Every kept point is a scan point with a non-zero energy. */
  lemma {:induction false} NonzeroSound(angles: seq<real>, energies: seq<real>)
    requires |angles| == |energies|
    ensures forall k :: 0 <= k < |Nonzero(angles, energies).energies| ==>
      Points(Nonzero(angles, energies).angles, Nonzero(angles, energies).energies)[k] in Points(angles, energies)
    decreases |energies|
  {
    if |energies| > 0 {
      var rest := Nonzero(angles[1..], energies[1..]);
      var r := Nonzero(angles, energies);
      var p, t := Points(angles, energies), Points(angles[1..], energies[1..]);
      var q := Points(rest.angles, rest.energies);
      assert forall x :: x in t ==> x in p by {
        PointsTail(angles, energies);
      }
      assert forall k :: 0 <= k < |q| ==> q[k] in t by {
        NonzeroSound(angles[1..], energies[1..]);
      }
      if energies[0] != 0.0 {
        assert Points(r.angles, r.energies) == [p[0]] + q;
        forall k | 0 <= k < |r.energies| ensures Points(r.angles, r.energies)[k] in p {
          if k > 0 {
            assert q[k - 1] in t;
          }
        }
      } else {
        assert r == rest;
      }
    }
  }

  /** Every scan point with a non-zero energy is kept. */
  lemma {:induction false} NonzeroComplete(angles: seq<real>, energies: seq<real>)
    requires |angles| == |energies|
    ensures var r := Nonzero(angles, energies);
      forall j :: 0 <= j < |energies| && energies[j] != 0.0 ==> Points(angles, energies)[j] in Points(r.angles, r.energies)
    decreases |energies|
  {
    if |energies| > 0 {
      NonzeroComplete(angles[1..], energies[1..]);
      PointsTail(angles, energies);
      var rest := Nonzero(angles[1..], energies[1..]);
      var r := Nonzero(angles, energies);
      if energies[0] != 0.0 {
        assert Points(r.angles, r.energies) == [Points(angles, energies)[0]] + Points(rest.angles, rest.energies);
      }
    }
  }

  /** `min(xs)`, which raises `ValueError` on an empty sequence. */
  function MinOf(xs: seq<real>): (r: Result<real, Error>)
    ensures r.Failure? <==> |xs| == 0
    ensures r.Failure? ==> r.error == EmptyMinimum
    ensures r.Success? ==> r.value in xs && forall k :: 0 <= k < |xs| ==> r.value <= xs[k]
    decreases |xs|
  {
    if |xs| == 0 then Failure(EmptyMinimum)
    else if |xs| == 1 then Success(xs[0])
    else
      var m := MinOf(xs[1..]).value;
      assert forall k :: 1 <= k < |xs| ==> xs[k] == xs[1..][k - 1];
      Success(if xs[0] <= m then xs[0] else m)
  }

  /** `[i - minE for i in ene]`. */
  function Above(xs: seq<real>, m: real): (r: seq<real>)
    ensures |r| == |xs|
  {
    seq(|xs|, k requires 0 <= k < |xs| => xs[k] - m)
  }

  /** Hartrees to kilocalories per mole. */
  function ToKcal(hartree: real): real {
    627.5095 * hartree
  }

  /** `[627.5095 * (i - minE) for i in ene]`. */
  function AboveKcal(xs: seq<real>, m: real): (r: seq<real>)
    ensures |r| == |xs|
  {
    seq(|xs|, k requires 0 <= k < |xs| => ToKcal(xs[k] - m))
  }

  /** What a plotting branch returns: the angles, the energies and the
      relative energies that are plotted. */
  datatype Plot = Plot(angles: seq<real>, energies: seq<real>, relative: seq<real>)

  /** Energies measured from their minimum: each reads back as its energy,
      none is negative, exactly the minimal ones are zero, and there is one. */
  lemma AboveMinimum(xs: seq<real>)
    requires MinOf(xs).Success?
    ensures var m := MinOf(xs).value; var r := Above(xs, m);
      && (forall k :: 0 <= k < |xs| ==> r[k] >= 0.0 && xs[k] == m + r[k])
      && (forall k :: 0 <= k < |xs| ==> (r[k] == 0.0 <==> xs[k] == m))
      && exists k :: 0 <= k < |xs| && r[k] == 0.0
  {
    var m := MinOf(xs).value;
    var j :| 0 <= j < |xs| && xs[j] == m;
    assert Above(xs, m)[j] == 0.0;
  }

  /** The same in kcal/mol: the conversion is undone by dividing, and keeps
      the sign and the zeros. */
  lemma AboveMinimumKcal(xs: seq<real>)
    requires MinOf(xs).Success?
    ensures var m := MinOf(xs).value; var r := AboveKcal(xs, m);
      && (forall k :: 0 <= k < |xs| ==> r[k] >= 0.0 && xs[k] == m + r[k] / 627.5095)
      && (forall k :: 0 <= k < |xs| ==> (r[k] == 0.0 <==> xs[k] == m))
      && exists k :: 0 <= k < |xs| && r[k] == 0.0
  {
    var m := MinOf(xs).value;
    var r := AboveKcal(xs, m);
    forall k | 0 <= k < |xs| ensures r[k] >= 0.0 && xs[k] == m + r[k] / 627.5095 && (r[k] == 0.0 <==> xs[k] == m) {
      KcalInverse(xs[k] - m);
    }
    var j :| 0 <= j < |xs| && xs[j] == m;
    assert r[j] == 0.0;
  }

  /** The conversion keeps the sign and the zero and is undone by dividing. */
  lemma KcalInverse(d: real)
    ensures d >= 0.0 ==> ToKcal(d) >= 0.0
    ensures ToKcal(d) == 0.0 <==> d == 0.0
    ensures ToKcal(d) / 627.5095 == d
  {
  }

  /** `process_plot_qm` after `cat_qm`: the scan points with a non-zero
      energy, their energies, and those in kcal/mol above the lowest. */
  function ProcessQm(scan: Scan): (r: Result<Plot, Error>)
    requires |scan.angles| == |scan.energies|
  {
    var kept := Nonzero(scan.angles, scan.energies);
    var m :- MinOf(kept.energies);
    Success(Plot(kept.angles, kept.energies, AboveKcal(kept.energies, m)))
  }

  /** The QM branch raises exactly when every energy is zero (no angle file
      held a final energy); otherwise it plots the non-zero points in order,
      converted to kcal/mol above the lowest, which is at zero. */
  lemma ProcessQmResult(scan: Scan)
    requires |scan.angles| == |scan.energies|
    ensures ProcessQm(scan).Failure? <==> forall k :: 0 <= k < |scan.energies| ==> scan.energies[k] == 0.0
    ensures ProcessQm(scan).Failure? ==> ProcessQm(scan).error == EmptyMinimum
    ensures ProcessQm(scan).Success? ==>
      var p := ProcessQm(scan).value;
      && Scan(p.angles, p.energies) == Nonzero(scan.angles, scan.energies)
      && |p.relative| == |p.energies|
      && (forall k :: 0 <= k < |p.relative| ==>
            p.relative[k] >= 0.0 && p.energies[k] == MinOf(p.energies).value + p.relative[k] / 627.5095)
      && exists k :: 0 <= k < |p.relative| && p.relative[k] == 0.0
  {
    var kept := Nonzero(scan.angles, scan.energies);
    NonzeroEmpty(scan.angles, scan.energies);
    if MinOf(kept.energies).Success? {
      AboveMinimumKcal(kept.energies);
    }
  }

  /** `np.subtract(a, b)` on one-dimensional arrays: element by element when
      the lengths agree, a length-one array stretched over the other,
      `ValueError` otherwise. */
  function Subtract(a: seq<real>, b: seq<real>): (r: Result<seq<real>, Error>)
    ensures r.Failure? <==> |a| != |b| && |a| != 1 && |b| != 1
    ensures r.Failure? ==> r.error == ShapeMismatch(|a|, |b|)
  {
    if |a| == |b| then Success(seq(|a|, k requires 0 <= k < |a| => a[k] - b[k]))
    else if |a| == 1 then Success(seq(|b|, k requires 0 <= k < |b| => a[0] - b[k]))
    else if |b| == 1 then Success(seq(|a|, k requires 0 <= k < |a| => a[k] - b[0]))
    else Failure(ShapeMismatch(|a|, |b|))
  }

  /** Subtraction is undone by adding back: on arrays of one length, or
      when one side has a single element. */
  lemma SubtractInverse(a: seq<real>, b: seq<real>)
    requires Subtract(a, b).Success?
    ensures var d := Subtract(a, b).value;
      && |d| == (if |a| == |b| then |a| else if |a| == 1 then |b| else |a|)
      && forall k :: 0 <= k < |d| ==>
        (if |a| == 1 then a[0] else a[k]) == d[k] + (if |b| == 1 then b[0] else b[k])
  {
  }

  /** `process_plot_mm` after `cat_mm`: with a spring constant, the restraint
      energies from the log are subtracted first; then the energies are
      measured from their minimum. Zero energies are kept. The plot's
      `scatter` of the angles against the relative energies raises when the
      two differ in size. */
  function ProcessMm(scan: Scan, forceConst: Option<real>, log: seq<string>): Result<Plot, Error> {
    var energies :- if forceConst.None? then Success(scan.energies) else
      var restraint :- SubtractRestraint(forceConst.value, log);
      Subtract(scan.energies, restraint.energy);
    var m :- MinOf(energies);
    var relative := Above(energies, m);
    if |scan.angles| != |relative| then Failure(ScatterSizes(|scan.angles|, |relative|))
    else Success(Plot(scan.angles, energies, relative))
  }

  /** Without a spring constant the MM branch plots every energy, zeros
      included, above the lowest; it raises only on an empty scan, or when
      the angles and energies differ in length, which `cat_mm` never
      returns. */
  lemma ProcessMmPlain(scan: Scan, log: seq<string>)
    ensures ProcessMm(scan, None, log).Failure? <==> |scan.energies| == 0 || |scan.angles| != |scan.energies|
    ensures ProcessMm(scan, None, log).Failure? ==>
      ProcessMm(scan, None, log).error == if |scan.energies| == 0 then EmptyMinimum else ScatterSizes(|scan.angles|, |scan.energies|)
    ensures ProcessMm(scan, None, log).Success? ==>
      var p := ProcessMm(scan, None, log).value;
      && p.angles == scan.angles && p.energies == scan.energies
      && |p.relative| == |scan.energies|
      && (forall k :: 0 <= k < |p.relative| ==> p.relative[k] >= 0.0 && p.energies[k] == MinOf(p.energies).value + p.relative[k])
      && exists k :: 0 <= k < |p.relative| && p.relative[k] == 0.0
  {
    if |scan.energies| > 0 {
      AboveMinimum(scan.energies);
    }
  }

  /** With a spring constant the MM branch raises what reading the
      restraint log raises. */
  lemma ProcessMmLogError(scan: Scan, k: real, log: seq<string>)
    requires SubtractRestraint(k, log).Failure?
    ensures ProcessMm(scan, Some(k), log) == Failure(SubtractRestraint(k, log).error)
  {
  }

  /** With a spring constant and a log as long as the scan's energies, the
      branch succeeds exactly when there is one angle per energy; then each
      plotted energy is the scan energy less its restraint energy, measured
      from the lowest. */
  lemma ProcessMmRestrained(scan: Scan, k: real, log: seq<string>)
    requires |scan.energies| == |log| && SubtractRestraint(k, log).Success?
    ensures ProcessMm(scan, Some(k), log).Success? <==> |scan.angles| == |log|
    ensures ProcessMm(scan, Some(k), log).Success? ==>
      var p := ProcessMm(scan, Some(k), log).value; var rpe := SubtractRestraint(k, log).value.energy;
      && p.angles == scan.angles
      && |p.energies| == |log|
      && (forall i :: 0 <= i < |log| ==> p.energies[i] == scan.energies[i] - rpe[i])
      && (forall i :: 0 <= i < |log| ==> p.relative[i] >= 0.0 && p.energies[i] == MinOf(p.energies).value + p.relative[i])
      && exists i :: 0 <= i < |log| && p.relative[i] == 0.0
  {
    var rpe := SubtractRestraint(k, log).value.energy;
    var e := Subtract(scan.energies, rpe).value;
    if |log| > 0 {
      RestrainedPlot(scan, k, log);
      AboveMinimum(e);
    } else {
      SubtractRestraintResult(k, log);
    }
  }

  /** The restrained MM branch on a log as long as the scan's energies: the
      plot's energies are the element-wise differences, and only `scatter`
      can still raise. */
  lemma RestrainedPlot(scan: Scan, k: real, log: seq<string>)
    requires |scan.energies| == |log| > 0 && SubtractRestraint(k, log).Success?
    ensures var rpe := SubtractRestraint(k, log).value.energy;
      var e := Subtract(scan.energies, rpe).value;
      && Subtract(scan.energies, rpe).Success?
      && |e| == |log| && (forall i :: 0 <= i < |log| ==> e[i] == scan.energies[i] - rpe[i])
      && MinOf(e).Success?
      && ProcessMm(scan, Some(k), log) ==
           if |scan.angles| != |log| then Failure(ScatterSizes(|scan.angles|, |log|))
           else Success(Plot(scan.angles, e, Above(e, MinOf(e).value)))
  {
  }

  /** A restraint log whose length differs from the scan's (neither being
      one) ends the MM branch with a shape error. */
  lemma ProcessMmMismatch(scan: Scan, k: real, log: seq<string>)
    requires SubtractRestraint(k, log).Success?
    requires |scan.energies| != |log| && |scan.energies| != 1 && |log| != 1
    ensures ProcessMm(scan, Some(k), log) == Failure(ShapeMismatch(|scan.energies|, |log|))
  {
  }

  /** A single scan point against a longer restraint log: `np.subtract`
      stretches the one energy over the log, so the plot gets one angle and
      several energies, and `scatter` raises. */
  lemma ProcessMmBroadcastRaises(scan: Scan, k: real, log: seq<string>)
    requires |scan.angles| == 1 && |scan.energies| == 1
    requires |log| >= 2 && SubtractRestraint(k, log).Success?
    ensures ProcessMm(scan, Some(k), log) == Failure(ScatterSizes(1, |log|))
  {
    var rpe := SubtractRestraint(k, log).value.energy;
    assert |Subtract(scan.energies, rpe).value| == |log|;
  }
}
