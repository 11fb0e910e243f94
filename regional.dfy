/** The regional layer (Regional_Layer.cc): a rectangular grid of patches
    over the simulated region, addressed by local (row, col), by global
    grid coordinates or by patch id, and the two neighbourhood searches the
    layer offers: the nearby workplace in the 3 x 3 block around a patch,
    and the hospitals of a square that widens until it holds enough of them
    or cannot grow. */
module Regional {
  import opened Wrappers

  /** A place (workplace or hospital) as it is known to the layer. */
  type PlaceId = nat

  /** The grid: where its south-west patch sits on the global grid, its size,
      and the hospitals each patch holds, row by row. */
  datatype Layer = Layer(globalRowMin: int, globalColMin: int, rows: int, cols: int,
                         hospitals: seq<seq<seq<PlaceId>>>)
  {
    predicate Valid() {
      0 <= rows && 0 <= cols && |hospitals| == rows
      && forall i :: 0 <= i < |hospitals| ==> |hospitals[i]| == cols
    }
  }

  /** A patch of the grid, by its local row and column. */
  datatype Patch = Patch(row: int, col: int)

  /** The grid spanning global rows rowMin..rowMax and global columns
      colMin..colMax, with no hospitals yet. The source allocates rows x
      cols patches, so neither count may be negative. */
  function NewLayer(rowMin: int, colMin: int, rowMax: int, colMax: int): (l: Layer)
    requires rowMin <= rowMax + 1 && colMin <= colMax + 1
    ensures l.Valid()
    ensures l.rows == rowMax - rowMin + 1 && l.cols == colMax - colMin + 1
    ensures forall i, j :: 0 <= i < l.rows && 0 <= j < l.cols ==> l.hospitals[i][j] == []
  {
    Layer(rowMin, colMin, rowMax - rowMin + 1, colMax - colMin + 1,
          seq(rowMax - rowMin + 1, _ => seq(colMax - colMin + 1, _ => [])))
  }

  predicate InRange(l: Layer, row: int, col: int) {
    0 <= row < l.rows && 0 <= col < l.cols
  }

  /** get_patch(row, col): the patch, or none outside the grid. */
  function GetPatch(l: Layer, row: int, col: int): (p: Option<Patch>)
    ensures p.Some? <==> InRange(l, row, col)
    ensures p.Some? ==> p.value == Patch(row, col)
  {
    if row >= 0 && col >= 0 && row < l.rows && col < l.cols then Some(Patch(row, col)) else None
  }

  /** get_patch_with_global_coords: global grid coordinates, shifted by the
      grid's south-west corner. */
  function GetPatchWithGlobalCoords(l: Layer, row: int, col: int): Option<Patch> {
    GetPatch(l, row - l.globalRowMin, col - l.globalColMin)
  }

  /** On a grid built from its global bounds, a global coordinate has a
      patch exactly when it lies within those bounds. */
  lemma GlobalCoordsCoverBounds(rowMin: int, colMin: int, rowMax: int, colMax: int, row: int, col: int)
    requires rowMin <= rowMax + 1 && colMin <= colMax + 1
    ensures GetPatchWithGlobalCoords(NewLayer(rowMin, colMin, rowMax, colMax), row, col).Some?
            <==> rowMin <= row <= rowMax && colMin <= col <= colMax
    ensures GetPatchWithGlobalCoords(NewLayer(rowMin, colMin, rowMax, colMax), row, col).Some? ==>
            GetPatchWithGlobalCoords(NewLayer(rowMin, colMin, rowMax, colMax), row, col).value
            == Patch(row - rowMin, col - colMin)
  {
  }

  /** get_patch(lat, lon) and is_in_region: the coordinates are turned into
      a row and a column by the grid's conversion, given here as rowOf and
      colOf, and then looked up as get_patch(row, col) does. */
  function GetPatchAt(l: Layer, lat: real, lon: real, rowOf: real -> int, colOf: real -> int): Option<Patch> {
    GetPatch(l, rowOf(lat), colOf(lon))
  }

  predicate IsInRegion(l: Layer, lat: real, lon: real, rowOf: real -> int, colOf: real -> int) {
    GetPatchAt(l, lat, lon, rowOf, colOf) != None
  }

  lemma InRegionIffInGrid(l: Layer, lat: real, lon: real, rowOf: real -> int, colOf: real -> int)
    ensures IsInRegion(l, lat, lon, rowOf, colOf) <==> InRange(l, rowOf(lat), colOf(lon))
  {
  }

  /** The id of a patch: its position in row-major order. */
  function PatchId(l: Layer, p: Patch): int {
    p.row * l.cols + p.col
  }

  /** C++ integer division and remainder, which truncate toward zero. */
  function TruncDiv(a: int, b: int): int
    requires b > 0
  {
    if a >= 0 then a / b else -((-a) / b)
  }

  function TruncMod(a: int, b: int): int
    requires b > 0
  {
    a - b * TruncDiv(a, b)
  }

  /** get_patch_from_id: row id / cols and column id % cols; the source then
      asserts that the patch found there carries that id. An id whose row or
      column falls outside the grid (or a grid without columns) names no
      patch: the source would index outside its arrays there. */
  function GetPatchFromId(l: Layer, id: int): Option<Patch> {
    if l.cols <= 0 then None
    else
      var row, col := TruncDiv(id, l.cols), TruncMod(id, l.cols);
      if InRange(l, row, col) && PatchId(l, Patch(row, col)) == id then Some(Patch(row, col)) else None
  }

  lemma RowBound(id: int, cols: int, rows: int)
    requires cols > 0 && 0 <= id
    ensures id / cols < rows <==> id < rows * cols
  {
    var q, m := id / cols, id % cols;
    assert id == q * cols + m && 0 <= m < cols;
    if q < rows {
      MulMonotone(q + 1, rows, cols);
      ScaledDifference(q + 1, q, cols);
    } else {
      MulMonotone(rows, q, cols);
    }
  }

  lemma MulMonotone(a: int, b: int, c: int)
    requires a <= b && c > 0
    ensures a * c <= b * c
  {
    if a < b {
      ScaledDifference(b, a, c);
      AtLeastOnce(b - a, c);
    }
  }

  /** An id names a patch exactly when it lies in [0, rows * cols), and
      then it is the patch at row id / cols, column id % cols. */
  lemma PatchFromIdIffInRange(l: Layer, id: int)
    requires l.Valid() && l.cols > 0
    ensures GetPatchFromId(l, id).Some? <==> 0 <= id < l.rows * l.cols
    ensures GetPatchFromId(l, id).Some? ==> GetPatchFromId(l, id).value == Patch(id / l.cols, id % l.cols)
  {
    var row, col := TruncDiv(id, l.cols), TruncMod(id, l.cols);
    if id >= 0 {
      RowBound(id, l.cols, l.rows);
    } else if id > -l.cols {
      assert row == 0 && col == id;
    } else {
      assert -id >= l.cols;
      assert (-id) / l.cols >= 1;
    }
  }

  /** Every patch of the grid is found again from its id. */
  lemma PatchIdRoundTrip(l: Layer, p: Patch)
    requires l.Valid() && InRange(l, p.row, p.col)
    ensures GetPatchFromId(l, PatchId(l, p)) == Some(p)
  {
    RowMajorSplit(p.row, p.col, l.cols);
  }

  lemma RowMajorSplit(row: nat, col: nat, cols: int)
    requires col < cols
    ensures var id := row * cols + col; 0 <= id && id / cols == row && id % cols == col
  {
    var id := row * cols + col;
    var q, m := id / cols, id % cols;
    assert id == q * cols + m;
    ScaledDifference(q, row, cols);
    if q > row {
      AtLeastOnce(q - row, cols);
    } else if q < row {
      AtLeastOnce(row - q, cols);
    }
  }

  lemma ScaledDifference(a: int, b: int, c: int)
    ensures a * c - b * c == (a - b) * c
  {
  }

  lemma {:induction false} AtLeastOnce(k: int, c: int)
    requires k >= 1 && c > 0
    ensures k * c >= c
    decreases k
  {
    if k > 1 {
      AtLeastOnce(k - 1, c);
      assert k * c == (k - 1) * c + c;
    }
  }

  /** add_hospital: the hospital joins the patch at its row and column;
      outside the grid the source only reports the missing patch. */
  function AddHospital(l: Layer, row: int, col: int, h: PlaceId): (r: Layer)
    requires l.Valid()
    ensures r.Valid() && (r.globalRowMin, r.globalColMin, r.rows, r.cols) == (l.globalRowMin, l.globalColMin, l.rows, l.cols)
    ensures forall i, j :: InRange(l, i, j) ==>
              r.hospitals[i][j] == if (i, j) == (row, col) then l.hospitals[i][j] + [h] else l.hospitals[i][j]
  {
    if InRange(l, row, col) then
      l.(hospitals := l.hospitals[row := l.hospitals[row][col := l.hospitals[row][col] + [h]]])
    else l
  }

  // ---- The hospitals of a block of patches ----

  /** The hospitals of a patch; none outside the grid. */
  function PatchHospitals(l: Layer, i: int, j: int): seq<PlaceId>
    requires l.Valid()
  {
    if InRange(l, i, j) then l.hospitals[i][j] else []
  }

  /** The hospitals of patches (i, j0) .. (i, j1 - 1), in column order. */
  function RowSpan(l: Layer, i: int, j0: int, j1: int): seq<PlaceId>
    requires l.Valid()
    decreases j1 - j0
  {
    if j1 <= j0 then [] else RowSpan(l, i, j0, j1 - 1) + PatchHospitals(l, i, j1 - 1)
  }

  /** The hospitals of rows i0 .. i1 - 1 of columns j0 .. j1 - 1, row by row. */
  function Block(l: Layer, i0: int, i1: int, j0: int, j1: int): seq<PlaceId>
    requires l.Valid()
    decreases i1 - i0
  {
    if i1 <= i0 then [] else Block(l, i0, i1 - 1, j0, j1) + RowSpan(l, i1 - 1, j0, j1)
  }

  /** The hospitals of the square of patches within distance d of (row, col). */
  function Within(l: Layer, row: int, col: int, d: nat): seq<PlaceId>
    requires l.Valid()
  {
    Block(l, row - d, row + d + 1, col - d, col + d + 1)
  }

  /** Some patch (i, j) with j0 <= j < j1 inside the grid holds h. */
  ghost predicate HeldInRow(l: Layer, i: int, j0: int, j1: int, h: PlaceId)
    requires l.Valid()
  {
    exists j :: j0 <= j < j1 && InRange(l, i, j) && h in l.hospitals[i][j]
  }

  /** Some patch of rows i0 .. i1 - 1, columns j0 .. j1 - 1, inside the grid
      holds h. */
  ghost predicate HeldIn(l: Layer, i0: int, i1: int, j0: int, j1: int, h: PlaceId)
    requires l.Valid()
  {
    exists i, j :: i0 <= i < i1 && j0 <= j < j1 && InRange(l, i, j) && h in l.hospitals[i][j]
  }

  lemma {:induction false} RowSpanMembers(l: Layer, i: int, j0: int, j1: int, h: PlaceId)
    requires l.Valid()
    ensures h in RowSpan(l, i, j0, j1) <==> HeldInRow(l, i, j0, j1, h)
    decreases j1 - j0
  {
    if j1 > j0 {
      RowSpanMembers(l, i, j0, j1 - 1, h);
      if HeldInRow(l, i, j0, j1, h) {
        var j :| j0 <= j < j1 && InRange(l, i, j) && h in l.hospitals[i][j];
        if j < j1 - 1 {
          assert HeldInRow(l, i, j0, j1 - 1, h);
        }
      }
      if h in PatchHospitals(l, i, j1 - 1) {
        assert HeldInRow(l, i, j0, j1, h);
      }
    }
  }

  /** A hospital is in a block exactly when some patch of the block inside
      the grid holds it. */
  lemma {:induction false} BlockMembers(l: Layer, i0: int, i1: int, j0: int, j1: int, h: PlaceId)
    requires l.Valid()
    ensures h in Block(l, i0, i1, j0, j1) <==> HeldIn(l, i0, i1, j0, j1, h)
    decreases i1 - i0
  {
    if i1 > i0 {
      BlockMembers(l, i0, i1 - 1, j0, j1, h);
      RowSpanMembers(l, i1 - 1, j0, j1, h);
      if HeldIn(l, i0, i1, j0, j1, h) {
        var i, j :| i0 <= i < i1 && j0 <= j < j1 && InRange(l, i, j) && h in l.hospitals[i][j];
        if i < i1 - 1 {
          assert HeldIn(l, i0, i1 - 1, j0, j1, h);
        } else {
          assert HeldInRow(l, i1 - 1, j0, j1, h);
        }
      }
      if HeldInRow(l, i1 - 1, j0, j1, h) {
        var j :| j0 <= j < j1 && InRange(l, i1 - 1, j) && h in l.hospitals[i1 - 1][j];
        assert HeldIn(l, i0, i1, j0, j1, h);
      }
      if HeldIn(l, i0, i1 - 1, j0, j1, h) {
        var i, j :| i0 <= i < i1 - 1 && j0 <= j < j1 && InRange(l, i, j) && h in l.hospitals[i][j];
        assert HeldIn(l, i0, i1, j0, j1, h);
      }
    }
  }

  /** get_nearby_hospitals may widen the square at distance d: some side of
      it can still move out by one patch without leaving the grid. */
  predicate CanWiden(l: Layer, row: int, col: int, d: nat) {
    (row + d + 1 < l.rows || col + d + 1 < l.cols) || (row - d - 1 >= 0 || col - d - 1 >= 0)
  }

  /** How many more times the square can widen. */
  function Reach(l: Layer, row: int, col: int): int {
    Max(Max(l.rows - row - 1, l.cols - col - 1), Max(row, col))
  }

  function Max(a: int, b: int): int {
    if a < b then b else a
  }

  lemma WidenBelowReach(l: Layer, row: int, col: int, d: nat)
    ensures CanWiden(l, row, col, d) <==> d < Reach(l, row, col)
  {
  }

  /** The hospitals of the square at distance d (the two nested loops). */
  method CollectSquare(l: Layer, row: int, col: int, d: nat) returns (r: seq<PlaceId>)
    requires l.Valid()
    ensures r == Within(l, row, col, d)
  {
    r := [];
    for i := row - d to row + d + 1
      invariant r == Block(l, row - d, i, col - d, col + d + 1)
    {
      for j := col - d to col + d + 1
        invariant r == Block(l, row - d, i, col - d, col + d + 1) + RowSpan(l, i, col - d, j)
      {
        var found := GetPatch(l, i, j);
        if found.Some? {
          r := r + l.hospitals[i][j];
        }
      }
    }
  }

  /** The number of hospitals get_nearby_hospitals asks for, as its size
      comparison sees it: the collected count is a 64-bit size_t, so a
      negative minFound is converted to a very large unsigned number. */
  function Wanted(minFound: int): (w: nat)
    requires -SizeModulus / 2 <= minFound < SizeModulus / 2
    ensures w < SizeModulus
    ensures minFound >= 0 ==> w == minFound
    ensures minFound < 0 ==> w >= SizeModulus / 2 && w % SizeModulus == minFound % SizeModulus
  {
    if minFound >= 0 then minFound else minFound + SizeModulus
  }

  const SizeModulus: int := 0x1_0000_0000_0000_0000

  /** get_nearby_hospitals: the square starts at distance 1 and widens by one
      patch, discarding what it collected, while it holds fewer than
      Wanted(minFound) hospitals and can still widen. The result is the
      square at the first distance where it holds enough or cannot widen;
      that distance is returned with it, and it never exceeds the reach of
      the grid. `minFound` is a C int. */
  method NearbyHospitals(l: Layer, row: int, col: int, minFound: int) returns (r: seq<PlaceId>, d: nat)
    requires l.Valid() && -0x8000_0000 <= minFound < 0x8000_0000
    ensures 1 <= d <= Max(1, Reach(l, row, col)) && r == Within(l, row, col, d)
    ensures |r| >= Wanted(minFound) || !CanWiden(l, row, col, d)
    ensures forall e: nat :: 1 <= e < d ==> |Within(l, row, col, e)| < Wanted(minFound) && CanWiden(l, row, col, e)
  {
    var wanted := Wanted(minFound);
    var done := false;
    d := 1;
    r := [];
    while !done
      invariant 1 <= d <= Max(1, Reach(l, row, col))
      invariant forall e: nat :: 1 <= e < d ==> |Within(l, row, col, e)| < wanted && CanWiden(l, row, col, e)
      invariant done ==> r == Within(l, row, col, d) && (|r| >= wanted || !CanWiden(l, row, col, d))
      decreases if done then 0 else Reach(l, row, col) - d + 2
    {
      r := CollectSquare(l, row, col, d);
      WidenBelowReach(l, row, col, d);
      if |r| < wanted && CanWiden(l, row, col, d) {
        r := [];
        d := d + 1;
      } else {
        done := true;
      }
    }
  }

  // ---- The nearby workplace ----

  /** The state of the workplace search: the workplace found so far and the
      smallest distance seen so far. */
  datatype Search = Search(found: Option<PlaceId>, minDist: real)

  /** The starting distance of the search, 1e99. */
  const FarAway: real := 1000000000000000000000000000000000000000000000000000000000000000000000000000000000000000000000000000.0

  /** One patch of the 3 x 3 block: outside the grid nothing happens; inside
      it, the patch's closest suitable workplace (the oracle closest, for
      Regional_Patch::get_closest_workplace, given the patch and the
      smallest distance so far) replaces the one found so far when there is
      one, and its distance becomes the smallest one. */
  function Visit(l: Layer, i: int, j: int, closest: (int, int, real) -> Search, s: Search): Search {
    if !InRange(l, i, j) then s
    else
      var p := closest(i, j, s.minDist);
      Search(if p.found.Some? then p.found else s.found, p.minDist)
  }

  function VisitRow(l: Layer, i: int, j0: int, j1: int, closest: (int, int, real) -> Search, s: Search): Search
    decreases j1 - j0
  {
    if j1 <= j0 then s else Visit(l, i, j1 - 1, closest, VisitRow(l, i, j0, j1 - 1, closest, s))
  }

  function VisitBlock(l: Layer, i0: int, i1: int, j0: int, j1: int, closest: (int, int, real) -> Search, s: Search): Search
    decreases i1 - i0
  {
    if i1 <= i0 then s else VisitRow(l, i1 - 1, j0, j1, closest, VisitBlock(l, i0, i1 - 1, j0, j1, closest, s))
  }

  /** get_nearby_workplace: the 3 x 3 block around (row, col), row by row. */
  method NearbyWorkplace(l: Layer, row: int, col: int, closest: (int, int, real) -> Search)
    returns (workplace: Option<PlaceId>, minDist: real)
    ensures Search(workplace, minDist) == VisitBlock(l, row - 1, row + 2, col - 1, col + 2, closest, Search(None, FarAway))
  {
    workplace, minDist := None, FarAway;
    for i := row - 1 to row + 2
      invariant Search(workplace, minDist) == VisitBlock(l, row - 1, i, col - 1, col + 2, closest, Search(None, FarAway))
    {
      for j := col - 1 to col + 2
        invariant Search(workplace, minDist)
                  == VisitRow(l, i, col - 1, j, closest, VisitBlock(l, row - 1, i, col - 1, col + 2, closest, Search(None, FarAway)))
      {
        var patch := GetPatch(l, i, j);
        if patch.Some? {
          var p := closest(i, j, minDist);
          if p.found.Some? {
            workplace := p.found;
          }
          minDist := p.minDist;
        }
      }
    }
  }

  lemma {:induction false} VisitRowLocal(l: Layer, i: int, j0: int, j1: int, f: (int, int, real) -> Search,
                                         g: (int, int, real) -> Search, s: Search)
    requires forall j, m :: j0 <= j < j1 && InRange(l, i, j) ==> f(i, j, m) == g(i, j, m)
    ensures VisitRow(l, i, j0, j1, f, s) == VisitRow(l, i, j0, j1, g, s)
    decreases j1 - j0
  {
    if j1 > j0 {
      VisitRowLocal(l, i, j0, j1 - 1, f, g, s);
    }
  }

  /** The search consults only the patches of the block inside the grid:
      two oracles that agree there give the same answer. */
  lemma {:induction false} VisitBlockLocal(l: Layer, i0: int, i1: int, j0: int, j1: int, f: (int, int, real) -> Search,
                                           g: (int, int, real) -> Search, s: Search)
    requires forall i, j, m :: i0 <= i < i1 && j0 <= j < j1 && InRange(l, i, j) ==> f(i, j, m) == g(i, j, m)
    ensures VisitBlock(l, i0, i1, j0, j1, f, s) == VisitBlock(l, i0, i1, j0, j1, g, s)
    decreases i1 - i0
  {
    if i1 > i0 {
      VisitBlockLocal(l, i0, i1 - 1, j0, j1, f, g, s);
      VisitRowLocal(l, i1 - 1, j0, j1, f, g, VisitBlock(l, i0, i1 - 1, j0, j1, f, s));
    }
  }

  /** A workplace a patch of the block inside the grid offers. */
  ghost predicate Offered(l: Layer, i0: int, i1: int, j0: int, j1: int, closest: (int, int, real) -> Search, w: Option<PlaceId>) {
    exists i, j, m :: i0 <= i < i1 && j0 <= j < j1 && InRange(l, i, j) && closest(i, j, m).found == w
  }

  lemma {:induction false} VisitRowOrigin(l: Layer, i: int, j0: int, j1: int, closest: (int, int, real) -> Search, s: Search)
    ensures var r := VisitRow(l, i, j0, j1, closest, s).found;
      r == s.found || Offered(l, i, i + 1, j0, j1, closest, r)
    decreases j1 - j0
  {
    if j1 > j0 {
      var t := VisitRow(l, i, j0, j1 - 1, closest, s);
      VisitRowOrigin(l, i, j0, j1 - 1, closest, s);
      if InRange(l, i, j1 - 1) && closest(i, j1 - 1, t.minDist).found.Some? {
        assert Offered(l, i, i + 1, j0, j1, closest, closest(i, j1 - 1, t.minDist).found);
      } else if t.found != s.found {
        var a, b, m :| i <= a < i + 1 && j0 <= b < j1 - 1 && InRange(l, a, b) && closest(a, b, m).found == t.found;
        assert Offered(l, i, i + 1, j0, j1, closest, t.found);
      }
    }
  }

  lemma {:induction false} VisitBlockOrigin(l: Layer, i0: int, i1: int, j0: int, j1: int,
                                            closest: (int, int, real) -> Search, s: Search)
    ensures var r := VisitBlock(l, i0, i1, j0, j1, closest, s).found;
      r == s.found || Offered(l, i0, i1, j0, j1, closest, r)
    decreases i1 - i0
  {
    if i1 > i0 {
      var t := VisitBlock(l, i0, i1 - 1, j0, j1, closest, s);
      var r := VisitRow(l, i1 - 1, j0, j1, closest, t).found;
      VisitBlockOrigin(l, i0, i1 - 1, j0, j1, closest, s);
      VisitRowOrigin(l, i1 - 1, j0, j1, closest, t);
      if r != t.found {
        var a, b, m :| i1 - 1 <= a < i1 && j0 <= b < j1 && InRange(l, a, b) && closest(a, b, m).found == r;
        assert Offered(l, i0, i1, j0, j1, closest, r);
      } else if t.found != s.found {
        var a, b, m :| i0 <= a < i1 - 1 && j0 <= b < j1 && InRange(l, a, b) && closest(a, b, m).found == t.found;
        assert Offered(l, i0, i1, j0, j1, closest, r);
      }
    }
  }

  /** The nearby workplace depends only on the in-grid patches of the 3 x 3
      block, and when there is one, one of those patches offered it. */
  lemma NearbyWorkplaceFromBlock(l: Layer, row: int, col: int, f: (int, int, real) -> Search, g: (int, int, real) -> Search)
    requires forall i, j, m :: row - 1 <= i <= row + 1 && col - 1 <= j <= col + 1 && InRange(l, i, j) ==> f(i, j, m) == g(i, j, m)
    ensures var r := VisitBlock(l, row - 1, row + 2, col - 1, col + 2, f, Search(None, FarAway));
      r == VisitBlock(l, row - 1, row + 2, col - 1, col + 2, g, Search(None, FarAway))
      && (r.found.Some? ==> Offered(l, row - 1, row + 2, col - 1, col + 2, f, r.found))
  {
    VisitBlockLocal(l, row - 1, row + 2, col - 1, col + 2, f, g, Search(None, FarAway));
    VisitBlockOrigin(l, row - 1, row + 2, col - 1, col + 2, f, Search(None, FarAway));
  }
}
