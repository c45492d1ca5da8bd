/** Histogram cell layout: `JSROOT.CreateHistogram` (JSRootCore.js lines
    1609-1634), the axis defaults `JSROOT.Create` gives it (lines 1355-1360,
    1426-1471) and the `getBin` linearisations of TH1, TH2 and TH3 (lines
    1904, 1917, 1933). Every axis has an underflow and an overflow cell. */
module Histograms {
  import opened Results
  import opened TypedArrays

  /** `fNbins`, `fXmin` and `fXmax` of a TAxis; the bin counts are integers. */
  datatype Axis = Axis(nbins: int, xmin: int, xmax: int)

  /** `fArray`: the element kind of the typed array (or a plain Array) and its
      values. */
  datatype Cells = Cells(kind: ElemKind, values: seq<int>)

  /** The fields `CreateHistogram` sets. `content` is `None` where `fArray` is
      undefined (the bare TH1, TH2 and TH3 classes before any cell exists). */
  datatype Hist = Hist(typename: string, ncells: int, xaxis: Axis, yaxis: Axis, zaxis: Axis, content: Option<Cells>)

  /** `JSROOT.Create("TAxis")`: one bin on [0, 1]. */
  const DefaultAxis := Axis(1, 0, 1)

  /** The classes `JSROOT.Create` builds with `fXaxis`, `fYaxis` and
      `fZaxis`: TH1, TH2, TH3 and their C, S, I, F and D variants. */
  predicate HasAxes(typename: string) {
    && (|typename| == 3 || (|typename| == 4 && typename[3] in "CSIFD"))
    && typename[..2] == "TH" && typename[2] in "123"
  }

  /** `parseInt(typename[2])` for such a class: its number of dimensions. */
  function Dim(typename: string): nat
    requires HasAxes(typename)
  {
    if typename[2] == '1' then 1 else if typename[2] == '2' then 2 else 3
  }

  /** `if (nbins) extend(axis, {fNbins: nbins, fXmin: 0, fXmax: nbins})`: a
      zero (or missing) count keeps the default axis. */
  function SetAxis(nbins: int): Axis {
    if nbins != 0 then Axis(nbins, 0, nbins) else DefaultAxis
  }

  /** The `switch (typename[3])` of lines 1622-1630. */
  function KindOfLetter(typename: string): ElemKind {
    var c := if |typename| > 3 then typename[3] else ' ';
    if c == 'C' then Int8
    else if c == 'S' then Int16
    else if c == 'I' then Int32
    else if c == 'F' then Float32
    else if c == 'L' || c == 'D' then Float64
    else Generic(false)
  }

  /** The number of cells of a histogram whose axes have these counts. */
  function CellCount(dim: nat, nx: int, ny: int, nz: int): int {
    if dim == 1 then nx + 2
    else if dim == 2 then (nx + 2) * (ny + 2)
    else (nx + 2) * (ny + 2) * (nz + 2)
  }

  function CreateHistogram(typename: string, nbinsx: int, nbinsy: int, nbinsz: int): (r: Option<Hist>)
    ensures r.Some? <==> HasAxes(typename)
    ensures r.Some? ==> r.value.typename == typename
    ensures r.Some? ==>
      && (nbinsx != 0 ==> r.value.xaxis == Axis(nbinsx, 0, nbinsx)) && (nbinsx == 0 ==> r.value.xaxis == DefaultAxis)
      && (nbinsy != 0 ==> r.value.yaxis == Axis(nbinsy, 0, nbinsy)) && (nbinsy == 0 ==> r.value.yaxis == DefaultAxis)
      && (nbinsz != 0 ==> r.value.zaxis == Axis(nbinsz, 0, nbinsz)) && (nbinsz == 0 ==> r.value.zaxis == DefaultAxis)
    ensures r.Some? && r.value.ncells > 0 ==>
      && r.value.content.Some?
      && |r.value.content.value.values| == r.value.ncells
      && forall i | 0 <= i < r.value.ncells :: r.value.content.value.values[i] == 0
    ensures r.Some? && r.value.ncells <= 0 ==>
      r.value.content == if |typename| == 4 then Some(Cells(Generic(false), [])) else None
  {
    if !HasAxes(typename) then None
    else
      var dim := Dim(typename);
      var given := (dim == 1 && nbinsx != 0) || (dim == 2 && nbinsx != 0 && nbinsy != 0)
                 || (dim == 3 && nbinsx != 0 && nbinsy != 0 && nbinsz != 0);
      var ncells := if given then CellCount(dim, nbinsx, nbinsy, nbinsz) else 0;
      var empty := if |typename| == 4 then Some(Cells(Generic(false), [])) else None;
      var content := if ncells > 0 then Some(Cells(KindOfLetter(typename), seq(ncells, i => 0))) else empty;
      Some(Hist(typename, ncells, SetAxis(nbinsx), SetAxis(nbinsy), SetAxis(nbinsz), content))
  }

  /** `getBin`: the index in `fArray` of the cell (x, y, z); the coordinates a
      lower-dimensional histogram does not take are ignored. */
  function GetBin(h: Hist, x: int, y: int, z: int): int
    requires HasAxes(h.typename)
  {
    var sx := h.xaxis.nbins + 2;
    var sy := h.yaxis.nbins + 2;
    var d := Dim(h.typename);
    if d == 1 then x else if d == 2 then x + sx * y else x + sx * (y + sy * z)
  }

  /** A cell coordinate along an axis with `nbins` bins, underflow and
      overflow included. */
  predicate OnAxis(c: int, a: Axis) {
    0 <= c < a.nbins + 2
  }

  predicate IsCell(h: Hist, x: int, y: int, z: int)
    requires HasAxes(h.typename)
  {
    var d := Dim(h.typename);
    && OnAxis(x, h.xaxis)
    && (if d >= 2 then OnAxis(y, h.yaxis) else y == 0)
    && (if d == 3 then OnAxis(z, h.zaxis) else z == 0)
  }

  /** The cell a bin index stands for: the inverse of `getBin`. */
  function CellOf(h: Hist, b: int): (int, int, int)
    requires WellShaped(h)
  {
    var sx := h.xaxis.nbins + 2;
    var sy := h.yaxis.nbins + 2;
    var d := Dim(h.typename);
    if d == 1 then (b, 0, 0)
    else if d == 2 then (b % sx, b / sx, 0)
    else (b % sx, (b / sx) % sy, (b / sx) / sy)
  }

  /** A histogram `CreateHistogram` made with positive bin counts on every
      axis it has. */
  predicate WellShaped(h: Hist) {
    && HasAxes(h.typename)
    && h.xaxis.nbins > 0
    && (Dim(h.typename) >= 2 ==> h.yaxis.nbins > 0)
    && (Dim(h.typename) == 3 ==> h.zaxis.nbins > 0)
    && h.ncells == CellCount(Dim(h.typename), h.xaxis.nbins, h.yaxis.nbins, h.zaxis.nbins)
  }

  /** With positive bin counts the cell count is the product over the
      histogram's axes of bins plus two, and every cell starts at zero. */
  lemma CreatedIsWellShaped(typename: string, nx: int, ny: int, nz: int)
    requires HasAxes(typename) && nx > 0 && ny > 0 && nz > 0
    ensures var r := CreateHistogram(typename, nx, ny, nz);
      && r.Some? && WellShaped(r.value)
      && r.value.xaxis == Axis(nx, 0, nx)
      && r.value.yaxis == Axis(ny, 0, ny)
      && r.value.zaxis == Axis(nz, 0, nz)
      && r.value.ncells == CellCount(Dim(typename), nx, ny, nz)
      && r.value.content == Some(Cells(KindOfLetter(typename), seq(r.value.ncells, i => 0)))
  {
    var d := Dim(typename);
    assert (nx + 2) * (ny + 2) > 0;
    assert (nx + 2) * (ny + 2) * (nz + 2) > 0;
  }

  /** Multiplying by a non-negative factor keeps the order. */
  lemma {:induction false} MulMonotone(s: int, a: int, b: int)
    requires s >= 0
    ensures a <= b ==> s * a <= s * b
    decreases s
  {
    if s > 0 {
      MulMonotone(s - 1, a, b);
      assert s * a == (s - 1) * a + a && s * b == (s - 1) * b + b;
    }
  }

  /** Euclidean division of `x + s * y` by `s` when `0 <= x < s`. */
  lemma DivModUnique(x: int, y: int, s: int)
    requires s > 0 && 0 <= x < s
    ensures (x + s * y) % s == x && (x + s * y) / s == y
  {
    var n := x + s * y;
    var q := n / s;
    assert n == s * q + n % s;
    assert s * y - s * q == n % s - x;
    MulMonotone(s, y, q - 1);
    MulMonotone(s, q + 1, y);
    assert s * (q - 1) == s * q - s && s * (q + 1) == s * q + s;
  }

  lemma Bounds(x: int, y: int, s: int, t: int)
    requires 0 <= x < s && 0 <= y < t
    ensures 0 <= x + s * y < s * t
  {
    MulMonotone(s, y, t - 1);
    MulMonotone(s, 0, y);
    assert s * (t - 1) == s * t - s;
  }

  /** `getBin` numbers the cells of a well-shaped histogram 0 .. fNcells-1,
      each once: it lands in range and `CellOf` undoes it. */
  lemma GetBinIsOneToOne(h: Hist, x: int, y: int, z: int)
    requires WellShaped(h) && IsCell(h, x, y, z)
    ensures 0 <= GetBin(h, x, y, z) < h.ncells
    ensures CellOf(h, GetBin(h, x, y, z)) == (x, y, z)
  {
    var sx := h.xaxis.nbins + 2;
    var sy := h.yaxis.nbins + 2;
    var sz := h.zaxis.nbins + 2;
    var d := Dim(h.typename);
    if d == 2 {
      DivModUnique(x, y, sx);
      Bounds(x, y, sx, sy);
    } else if d == 3 {
      DivModUnique(y, z, sy);
      DivModUnique(x, y + sy * z, sx);
      Bounds(y, z, sy, sz);
      Bounds(x, y + sy * z, sx, sy * sz);
      assert sx * (sy * sz) == sx * sy * sz;
    }
  }

  /** Every index below fNcells is the bin of exactly the cell `CellOf`
      gives. */
  lemma EveryBinIsACell(h: Hist, b: int)
    requires WellShaped(h) && 0 <= b < h.ncells
    ensures var c := CellOf(h, b);
      IsCell(h, c.0, c.1, c.2) && GetBin(h, c.0, c.1, c.2) == b
  {
    var sx := h.xaxis.nbins + 2;
    var sy := h.yaxis.nbins + 2;
    var sz := h.zaxis.nbins + 2;
    var d := Dim(h.typename);
    if d == 2 {
      assert b == sx * (b / sx) + b % sx;
      QuotientBelow(b, sx, sy);
    } else if d == 3 {
      var q := b / sx;
      assert b == sx * q + b % sx;
      assert q == sy * (q / sy) + q % sy;
      assert sx * sy * sz == sx * (sy * sz);
      QuotientBelow(b, sx, sy * sz);
      QuotientBelow(q, sy, sz);
    }
  }

  lemma QuotientBelow(b: int, s: int, t: int)
    requires s > 0 && 0 <= b < s * t
    ensures 0 <= b / s < t
  {
    assert b == s * (b / s) + b % s;
    MulMonotone(s, t, b / s);
  }

  /** `getBinContent` of a fresh histogram: every cell reads 0. */
  lemma FreshCellsAreEmpty(typename: string, nx: int, ny: int, nz: int, h: Hist, x: int, y: int, z: int)
    requires nx > 0 && ny > 0 && nz > 0 && CreateHistogram(typename, nx, ny, nz) == Some(h)
    requires IsCell(h, x, y, z)
    ensures h.content.Some?
    ensures 0 <= GetBin(h, x, y, z) < |h.content.value.values|
    ensures h.content.value.values[GetBin(h, x, y, z)] == 0
  {
    CreatedIsWellShaped(typename, nx, ny, nz);
    GetBinIsOneToOne(h, x, y, z);
  }
}
