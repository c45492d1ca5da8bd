/** `RPalette.getContourIndex` (modules/gpad/RCanvasPainter.mjs lines 866-882)
    for a palette with custom contour levels: the bin of `zc` among the levels
    `fContour`, found by bisection. Levels are compared only, so they are
    reals here. */
module Palette {

  /** `Math.round((l + r) / 2)` for non-negative `l + r`: halves round up. */
  function RoundHalf(n: nat): nat {
    (n + 1) / 2
  }

  /** The levels never decrease. */
  predicate Ascending(cntr: seq<real>) {
    forall i, j | 0 <= i <= j < |cntr| :: cntr[i] <= cntr[j]
  }

  /** How many levels lie at or below `zc`. */
  function CountAtOrBelow(cntr: seq<real>, zc: real): (n: nat)
    ensures n <= |cntr|
  {
    if cntr == [] then 0
    else CountAtOrBelow(cntr[..|cntr| - 1], zc) + (if cntr[|cntr| - 1] <= zc then 1 else 0)
  }

  /** The custom-contour search. With `r = cntr.length - 1`: -1 below the
      first level, `r - 1` at or above the last, and otherwise the `l` with
      `cntr[l] <= zc < cntr[l + 1]`, whatever the order of the levels. An
      empty contour gives 0, every comparison with the missing levels being
      false. */
  method GetContourIndex(cntr: seq<real>, zc: real) returns (idx: int)
    ensures cntr == [] ==> idx == 0
    ensures cntr != [] && zc < cntr[0] ==> idx == -1
    ensures cntr != [] && cntr[0] <= zc && cntr[|cntr| - 1] <= zc ==> idx == |cntr| - 2
    ensures cntr != [] && cntr[0] <= zc < cntr[|cntr| - 1] ==>
      0 <= idx < |cntr| - 1 && cntr[idx] <= zc < cntr[idx + 1]
  {
    if cntr == [] {
      return 0;
    }
    var l := 0;
    var r := |cntr| - 1;
    if zc < cntr[0] {
      return -1;
    }
    if zc >= cntr[r] {
      return r - 1;
    }
    while l < r - 1
      invariant 0 <= l < r < |cntr|
      invariant cntr[l] <= zc < cntr[r]
      decreases r - l
    {
      var mid := RoundHalf(l + r);
      if cntr[mid] > zc {
        r := mid;
      } else {
        l := mid;
      }
    }
    return l;
  }

  /** For ascending levels the bisection agrees with counting: the index is
      one less than the number of levels at or below `zc`, capped at the
      last bin. */
  lemma {:induction false} CountLocatesBin(cntr: seq<real>, zc: real, l: int)
    requires Ascending(cntr) && 0 <= l < |cntr| - 1 && cntr[l] <= zc < cntr[l + 1]
    ensures CountAtOrBelow(cntr, zc) == l + 1
    decreases |cntr|
  {
    var last := |cntr| - 1;
    if last == l + 1 {
      CountAllBelow(cntr[..last], zc);
    } else {
      assert cntr[last] > zc by { assert cntr[l + 1] <= cntr[last]; }
      var init := cntr[..last];
      assert Ascending(init) && init[l] == cntr[l] && init[l + 1] == cntr[l + 1];
      CountLocatesBin(init, zc, l);
    }
  }

  /** When every level is at or below `zc`, all of them count. */
  lemma {:induction false} CountAllBelow(cntr: seq<real>, zc: real)
    requires Ascending(cntr) && (cntr != [] ==> cntr[|cntr| - 1] <= zc)
    ensures CountAtOrBelow(cntr, zc) == |cntr|
    decreases |cntr|
  {
    if cntr != [] {
      var init := cntr[..|cntr| - 1];
      if init != [] {
        assert init[|init| - 1] <= cntr[|cntr| - 1];
      }
      CountAllBelow(init, zc);
    }
  }

  /** The index the search returns, stated by counting, for ascending levels
      with `zc` between the first and the last. */
  method GetContourIndexCounts(cntr: seq<real>, zc: real) returns (idx: int)
    requires Ascending(cntr) && cntr != [] && cntr[0] <= zc < cntr[|cntr| - 1]
    ensures idx == CountAtOrBelow(cntr, zc) - 1
  {
    idx := GetContourIndex(cntr, zc);
    CountLocatesBin(cntr, zc, idx);
  }
}
