/** Evenly spaced sample positions and the sampling of a scalar field over
    them. The positions start at `a` and advance by `(a + b) / COUNT`: the
    step divides the SUM of the bounds by the count, so `b` itself is
    reached only in special cases (see `LinspaceExample`); from `a == 0` it
    gives the half-open grid `0, b / COUNT, .., (COUNT - 1) * b / COUNT`. */
module Sampling {

  /** The positions over unsigned integers, where the division truncates;
      the count must be positive since unsigned division by zero fails. */
  function Linspace(a: nat, b: nat, count: nat): (r: seq<nat>)
    requires count > 0
    ensures |r| == count
  {
    var step := (a + b) / count;
    seq(count, idx requires 0 <= idx < count => idx * step + a)
  }

  /** Positions start at `a` and are evenly spaced by the truncated step. */
  lemma LinspaceSpacing(a: nat, b: nat, count: nat)
    requires count > 0
    ensures Linspace(a, b, count)[0] == a
    ensures forall idx :: 0 <= idx < count - 1 ==>
      Linspace(a, b, count)[idx + 1] == Linspace(a, b, count)[idx] + (a + b) / count
  {
  }

  /** The crate's unit test: three points from 1 to 3. */
  lemma LinspaceExample()
    ensures Linspace(1, 3, 3) == [1, 2, 3]
  {
    assert (1 + 3) / 3 == 1;
  }

  /** The positions over reals, the instance the renderer samples with. A
      zero count yields no positions (the step is computed but never used). */
  function LinspaceReal(a: real, b: real, count: nat): (r: seq<real>)
    ensures |r| == count
  {
    if count == 0 then []
    else
      var step := (a + b) / count as real;
      seq(count, idx requires 0 <= idx < count => idx as real * step + a)
  }

  /** From `a == 0` the positions are `idx * b / count`, all below `b` when
      `b` is positive. */
  lemma LinspaceRealFromZero(b: real, count: nat, idx: nat)
    requires idx < count
    ensures LinspaceReal(0.0, b, count)[idx] == idx as real * b / count as real
    ensures b > 0.0 ==> LinspaceReal(0.0, b, count)[idx] < b
  {
    var c := count as real;
    var i := idx as real;
    assert LinspaceReal(0.0, b, count)[idx] == i * (b / c);
    if b > 0.0 {
      assert i * (b / c) < c * (b / c) by {
        assert b / c > 0.0;
      }
    }
  }

  /** Fills `result[j, i]` with `f` at the `i`-th x position and the `j`-th
      y position, where `result` has `H` rows of `W` samples. */
  method SamplePoints(f: (real, real) -> real, xmin: real, xmax: real, ymin: real, ymax: real,
                      result: array2<real>)
    modifies result
    ensures forall j, i :: 0 <= j < result.Length0 && 0 <= i < result.Length1 ==>
      result[j, i] == f(LinspaceReal(xmin, xmax, result.Length1)[i], LinspaceReal(ymin, ymax, result.Length0)[j])
  {
    var ys := LinspaceReal(ymin, ymax, result.Length0);
    var xs := LinspaceReal(xmin, xmax, result.Length1);
    for j := 0 to result.Length0
      invariant forall jj, i :: 0 <= jj < j && 0 <= i < result.Length1 ==> result[jj, i] == f(xs[i], ys[jj])
    {
      for i := 0 to result.Length1
        invariant forall jj, ii :: 0 <= jj < j && 0 <= ii < result.Length1 ==> result[jj, ii] == f(xs[ii], ys[jj])
        invariant forall ii :: 0 <= ii < i ==> result[j, ii] == f(xs[ii], ys[j])
      {
        result[j, i] := f(xs[i], ys[j]);
      }
    }
  }
}
