/** `subtract_restraint`: the harmonic restraint energy of each MM scan
    point, read from the log of measured dihedrals that accompanies the NAMD
    minimizations. Each line of the log holds the reference angle the
    restraint pulled towards and the angle actually reached. */
module Restraint {
  import opened Wrappers
  import opened PyErrors
  import opened PyText
  import opened Numerals

  /** Applies `f` to every element in turn, stopping at the first that raises. */
  function MapAll<A, B>(f: A -> Result<B, Error>, xs: seq<A>): (r: Result<seq<B>, Error>)
    ensures r.Success? ==> |r.value| == |xs|
    decreases |xs|
  {
    if |xs| == 0 then Success([])
    else
      var y :- f(xs[0]);
      var ys :- MapAll(f, xs[1..]);
      Success([y] + ys)
  }

  /** `MapAll` succeeds exactly when `f` does on every element, and then
      holds `f`'s values in order; otherwise it raises what `f` raises on the
      first element it fails on. */
  lemma {:induction false} MapAllEach<A, B>(f: A -> Result<B, Error>, xs: seq<A>)
    ensures MapAll(f, xs).Success? <==> forall k :: 0 <= k < |xs| ==> f(xs[k]).Success?
    ensures MapAll(f, xs).Success? ==> forall k :: 0 <= k < |xs| ==> f(xs[k]) == Success(MapAll(f, xs).value[k])
    ensures MapAll(f, xs).Failure? ==>
      exists k :: 0 <= k < |xs| && f(xs[k]) == Failure(MapAll(f, xs).error) && forall j :: 0 <= j < k ==> f(xs[j]).Success?
    decreases |xs|
  {
    if |xs| > 0 {
      MapAllEach(f, xs[1..]);
      assert forall k :: 1 <= k < |xs| ==> xs[k] == xs[1..][k - 1];
      if f(xs[0]).Success? && MapAll(f, xs[1..]).Failure? {
        var k :| 0 <= k < |xs[1..]| && f(xs[1..][k]) == Failure(MapAll(f, xs[1..]).error)
          && forall j :: 0 <= j < k ==> f(xs[1..][j]).Success?;
        assert f(xs[k + 1]) == Failure(MapAll(f, xs).error);
        assert forall j :: 1 <= j < k + 1 ==> f(xs[j]).Success? by {
          forall j | 1 <= j < k + 1 ensures f(xs[j]).Success? {
            assert xs[j] == xs[1..][j - 1];
          }
        }
      }
    }
  }

  /** `parts = line.split()`, then `parts[0]` and `parts[1]`. */
  function LogFields(line: string): Result<(string, string), Error> {
    var parts := SplitWhitespace(line);
    if |parts| < 2 then Failure(IndexOutOfRange) else Success((parts[0], parts[1]))
  }

  /** A log line written as two words reads back as those words. */
  lemma LogLineRoundTrip(reference: string, actual: string)
    requires |reference| > 0 && NoSpace(reference) && |actual| > 0 && NoSpace(actual)
    ensures LogFields(reference + " " + actual + "\n") == Success((reference, actual))
  {
    SpaceChar(' ');
    SpaceChar('\n');
    SplitWhitespacePair(reference, " ", actual, "\n");
  }

  /** A line with fewer than two words raises `IndexError`. */
  lemma LogLineShort(line: string)
    ensures LogFields(line).Failure? <==> |SplitWhitespace(line)| < 2
    ensures LogFields(line).Failure? ==> LogFields(line).error == IndexOutOfRange
  {
  }

  const Int32Min: int := -0x8000_0000
  const Int32Max: int := 0x7fff_ffff

  /** One element of `np.asarray(xref, dtype=np.int32)`: `int()` of the
      text, which must also fit a signed 32-bit integer. */
  function Int32Of(text: string): (r: Result<int, Error>)
    ensures r.Success? ==> Int32Min <= r.value <= Int32Max && ParseInt(text) == Some(r.value)
    ensures r.Failure? ==>
      (ParseInt(text).None? && r.error == NotAnInt(text)) || (ParseInt(text).Some? && r.error == Int32Overflow(ParseInt(text).value))
  {
    var v :- ParseInt(text).ToResult(NotAnInt(text));
    if v < Int32Min || v > Int32Max then Failure(Int32Overflow(v)) else Success(v)
  }

  /** A reference angle written by `str` reads back when it fits 32 bits and
      overflows otherwise. */
  lemma Int32OfText(i: int)
    ensures Int32Of(IntText(i)) == if Int32Min <= i <= Int32Max then Success(i) else Failure(Int32Overflow(i))
  {
    ParseIntText(i);
  }

  /** One element of `np.asarray(xact, dtype=np.float32)`. */
  function FloatOf(text: string): (r: Result<real, Error>)
    ensures r.Success? <==> ParseFloat(text).Some?
    ensures r.Success? ==> ParseFloat(text) == Some(r.value)
    ensures r.Failure? ==> r.error == NotAFloat(text)
  {
    ParseFloat(text).ToResult(NotAFloat(text))
  }

  function Firsts(pairs: seq<(string, string)>): (r: seq<string>)
    ensures |r| == |pairs| && forall k :: 0 <= k < |pairs| ==> r[k] == pairs[k].0
  {
    seq(|pairs|, k requires 0 <= k < |pairs| => pairs[k].0)
  }

  function Seconds(pairs: seq<(string, string)>): (r: seq<string>)
    ensures |r| == |pairs| && forall k :: 0 <= k < |pairs| ==> r[k] == pairs[k].1
  {
    seq(|pairs|, k requires 0 <= k < |pairs| => pairs[k].1)
  }

  /** The reading loop and the two array conversions, in that order: every
      line is split first, then every reference is converted, then every
      measured angle. */
  function ReadLog(lines: seq<string>): (r: Result<(seq<int>, seq<real>), Error>)
    ensures r.Success? ==> |r.value.0| == |lines| && |r.value.1| == |lines|
  {
    var pairs :- MapAll(LogFields, lines);
    var refs :- MapAll(Int32Of, Firsts(pairs));
    var acts :- MapAll(FloatOf, Seconds(pairs));
    Success((refs, acts))
  }

  /** The log is read exactly when every line has two words, every first
      word is a 32-bit integer and every second word a float; then line `k`
      gives reference `k` and measured angle `k`. */
  lemma ReadLogLines(lines: seq<string>)
    ensures ReadLog(lines).Success? <==> forall k :: 0 <= k < |lines| ==>
      && LogFields(lines[k]).Success?
      && Int32Of(LogFields(lines[k]).value.0).Success?
      && FloatOf(LogFields(lines[k]).value.1).Success?
    ensures ReadLog(lines).Success? ==>
      var (refs, acts) := ReadLog(lines).value;
      && |refs| == |lines| && |acts| == |lines|
      && forall k :: 0 <= k < |lines| ==>
        && Int32Of(LogFields(lines[k]).value.0) == Success(refs[k])
        && FloatOf(LogFields(lines[k]).value.1) == Success(acts[k])
  {
    MapAllEach(LogFields, lines);
    var ps := MapAll(LogFields, lines);
    if ps.Success? {
      MapAllEach(Int32Of, Firsts(ps.value));
      MapAllEach(FloatOf, Seconds(ps.value));
    }
  }

  /** A log whose reference column is bad is rejected before any measured
      angle is looked at: a bad reference on any line wins over a bad
      measured angle on an earlier one. */
  lemma ReadLogRefsFirst(lines: seq<string>, k: nat)
    requires k < |lines| && forall j :: 0 <= j < |lines| ==> LogFields(lines[j]).Success?
    requires Int32Of(LogFields(lines[k]).value.0).Failure?
    ensures ReadLog(lines).Failure?
    ensures ReadLog(lines).error.NotAnInt? || ReadLog(lines).error.Int32Overflow?
  {
    MapAllEach(LogFields, lines);
    var ps := MapAll(LogFields, lines).value;
    assert ps[k] == LogFields(lines[k]).value;
    MapAllEach(Int32Of, Firsts(ps));
    var j :| 0 <= j < |ps| && Int32Of(Firsts(ps)[j]) == Failure(MapAll(Int32Of, Firsts(ps)).error);
  }

  /** `if ang < 0: xact[i] = ang + 360`. */
  function Wrap(x: real): real {
    if x < 0.0 then x + 360.0 else x
  }

  /** Wrapping moves an angle by zero or one full turn and, for an angle in
      `[-360, 360)`, lands in `[0, 360)`; non-negative angles are kept. */
  lemma WrapRange(x: real)
    ensures Wrap(x) - x == 0.0 || Wrap(x) - x == 360.0
    ensures Wrap(x) == x <==> x >= 0.0
    ensures -360.0 <= x < 360.0 ==> 0.0 <= Wrap(x) < 360.0
  {
  }

  /** `if abs(xact[0]) > 5: xact[0] = xact[0] - 360`, where `xact[0]`
      raises `IndexError` on an empty log. */
  function AlignFirst(xs: seq<real>): (r: Result<seq<real>, Error>)
    ensures r.Failure? <==> |xs| == 0
    ensures r.Failure? ==> r.error == IndexOutOfRange
    ensures r.Success? ==>
      && |r.value| == |xs|
      && r.value[1..] == xs[1..]
      && (r.value[0] == xs[0] - 360.0 <==> xs[0] > 5.0 || xs[0] < -5.0)
      && (r.value[0] == xs[0] <==> -5.0 <= xs[0] <= 5.0)
  {
    if |xs| == 0 then Failure(IndexOutOfRange)
    else if (if xs[0] < 0.0 then -xs[0] else xs[0]) > 5.0 then Success(xs[0 := xs[0] - 360.0])
    else Success(xs)
  }

  /** The measured angles after both corrections. */
  function Adjust(raw: seq<real>): Result<seq<real>, Error> {
    AlignFirst(seq(|raw|, k requires 0 <= k < |raw| => Wrap(raw[k])))
  }

  /** For measured angles in `[-360, 360)`: every angle moves by a whole
      number of turns, every angle but the first lands in `[0, 360)`, and the
      first lands in `(-355, 5]`, next to zero. */
  lemma AdjustRange(raw: seq<real>)
    requires |raw| > 0
    ensures Adjust(raw).Success? && |Adjust(raw).value| == |raw|
    ensures var act := Adjust(raw).value;
      && (forall k :: 0 <= k < |raw| ==> act[k] - raw[k] in {-360.0, 0.0, 360.0})
      && (forall k :: 1 <= k < |raw| ==> act[k] == Wrap(raw[k]))
      && (forall k :: 1 <= k < |raw| && -360.0 <= raw[k] < 360.0 ==> 0.0 <= act[k] < 360.0)
      && (-360.0 <= raw[0] < 360.0 ==> -355.0 < act[0] <= 5.0)
  {
    var w := seq(|raw|, k requires 0 <= k < |raw| => Wrap(raw[k]));
    var act := Adjust(raw).value;
    forall k | 1 <= k < |raw| ensures act[k] == w[k] {
      assert act[1..][k - 1] == w[1..][k - 1];
    }
    forall k | 0 <= k < |raw| ensures -360.0 <= raw[k] < 360.0 ==> 0.0 <= w[k] < 360.0 {
      WrapRange(raw[k]);
    }
  }

  /** The corrections on 358, −10, 300 and on angles near zero. */
  lemma AdjustExamples()
    ensures Adjust([358.0, -10.0]) == Success([-2.0, 350.0])
    ensures Adjust([300.0]) == Success([-60.0])
    ensures Adjust([-2.0, 5.0]) == Success([-2.0, 5.0])
    ensures Adjust([3.0, 180.0]) == Success([3.0, 180.0])
    ensures Adjust([]) == Failure(IndexOutOfRange)
  {
    assert seq(2, k requires 0 <= k < 2 => Wrap([358.0, -10.0][k])) == [358.0, 350.0];
    assert [358.0, 350.0][0 := 358.0 - 360.0] == [-2.0, 350.0];
    assert seq(1, k requires 0 <= k < 1 => Wrap([300.0][k])) == [300.0];
    assert [300.0][0 := 300.0 - 360.0] == [-60.0];
    assert seq(2, k requires 0 <= k < 2 => Wrap([-2.0, 5.0][k])) == [358.0, 5.0];
    assert [358.0, 5.0][0 := 358.0 - 360.0] == [-2.0, 5.0];
    assert seq(2, k requires 0 <= k < 2 => Wrap([3.0, 180.0][k])) == [3.0, 180.0];
  }

  /** `float(fConst) * np.subtract(xact, xref) ** 2`. */
  function Energies(k: real, act: seq<real>, refs: seq<int>): (e: seq<real>)
    requires |act| == |refs|
    ensures |e| == |act|
  {
    seq(|act|, i requires 0 <= i < |act| => Harmonic(k, act[i] - refs[i] as real))
  }

  /** The harmonic restraint energy `k * d ** 2` at distance `d` from the
      reference angle. */
  function Harmonic(k: real, d: real): real {
    k * (d * d)
  }

  lemma HarmonicSign(k: real, d: real)
    ensures k >= 0.0 ==> Harmonic(k, d) >= 0.0
    ensures d == 0.0 ==> Harmonic(k, d) == 0.0
  {
    assert d * d >= 0.0 by {
      if d < 0.0 {
        assert d * d > 0.0;
      }
    }
  }

  /** With a non-negative spring constant every restraint energy is
      non-negative, and it is zero wherever the angle reached is the
      reference. */
  lemma EnergiesSign(k: real, act: seq<real>, refs: seq<int>)
    requires |act| == |refs|
    ensures k >= 0.0 ==> forall i :: 0 <= i < |act| ==> Energies(k, act, refs)[i] >= 0.0
    ensures forall i :: 0 <= i < |act| && act[i] == refs[i] as real ==> Energies(k, act, refs)[i] == 0.0
  {
    forall i | 0 <= i < |act| ensures k >= 0.0 ==> Energies(k, act, refs)[i] >= 0.0
      ensures act[i] == refs[i] as real ==> Energies(k, act, refs)[i] == 0.0
    {
      HarmonicSign(k, act[i] - refs[i] as real);
    }
  }

  /** What `subtract_restraint` returns: the corrected measured angles and
      the restraint energy of each. */
  datatype Restraint = Restraint(actual: seq<real>, energy: seq<real>)

  /** `subtract_restraint(filename, fConst)` on the lines of the log. */
  function SubtractRestraint(k: real, lines: seq<string>): (r: Result<Restraint, Error>)
    ensures r.Success? ==> |r.value.actual| == |lines| && |r.value.energy| == |lines|
  {
    var log :- ReadLog(lines);
    var act :- Adjust(log.1);
    Success(Restraint(act, Energies(k, act, log.0)))
  }

  /** A log is processed exactly when it is read and is not empty; then the
      angles are the read ones corrected, and each energy is the spring
      constant times the squared distance from the reference. */
  lemma SubtractRestraintResult(k: real, lines: seq<string>)
    ensures SubtractRestraint(k, lines).Success? <==> ReadLog(lines).Success? && |lines| > 0
    ensures SubtractRestraint(k, lines).Success? ==>
      var log := ReadLog(lines).value;
      var r := SubtractRestraint(k, lines).value;
      && Adjust(log.1) == Success(r.actual)
      && r.energy == Energies(k, r.actual, log.0)
  {
    if ReadLog(lines).Success? && |lines| > 0 {
      AdjustRange(ReadLog(lines).value.1);
    }
  }

  /** With a non-negative spring constant no restraint energy is negative,
      and an angle that reached its reference costs nothing. */
  lemma SubtractRestraintSign(k: real, lines: seq<string>)
    requires SubtractRestraint(k, lines).Success?
    ensures var r := SubtractRestraint(k, lines).value;
      && (k >= 0.0 ==> forall i :: 0 <= i < |lines| ==> r.energy[i] >= 0.0)
      && (forall i :: 0 <= i < |lines| && r.actual[i] == ReadLog(lines).value.0[i] as real ==> r.energy[i] == 0.0)
  {
    SubtractRestraintResult(k, lines);
    var log := ReadLog(lines).value;
    EnergiesSign(k, SubtractRestraint(k, lines).value.actual, log.0);
  }
}
