/** The initial placement of the stacked-band view (main.js `loadData` and
    `calculateInitialPosition`): per-region node counts, per-region slot
    counters, and the grid cell of each slot inside its region. */
module Seeding {
  import opened Common
  import opened Regions

  /** The smallest `c` with `c * c >= n`, searching upward from `c`. */
  function CeilSqrtFrom(n: nat, c: nat): (r: nat)
    requires c == 0 || (c - 1) * (c - 1) < n
    ensures r * r >= n && (r == 0 || (r - 1) * (r - 1) < n)
    decreases n - c
  {
    if c * c >= n then c
    else
      assert c < n by { if c > 0 { assert c <= c * c; } }
      CeilSqrtFrom(n, c + 1)
  }

  /** `Math.ceil(Math.sqrt(n))`, the number of grid columns for `n` nodes. */
  function CeilSqrt(n: nat): (r: nat)
    ensures r * r >= n && (r == 0 || (r - 1) * (r - 1) < n)
  {
    CeilSqrtFrom(n, 0)
  }

  /** A grid slot: its row and column, and the grid's column and row counts. */
  datatype Cell = Cell(row: nat, col: nat, cols: nat, rows: nat)

  /** The cell of slot `index` among `total` nodes: `cols = ceil(sqrt(total))`
      columns, `rows = ceil(total / cols)` rows, filled row by row. */
  function GridCell(index: nat, total: nat): Cell
    requires total >= 1
  {
    var cols := CeilSqrt(total);
    assert cols >= 1;
    Cell(index / cols, index % cols, cols, (total + cols - 1) / cols)
  }

  /** `(total + cols - 1) / cols` is the ceiling of `total / cols`. */
  lemma {:induction false} CeilDiv(total: nat, cols: nat)
    requires total >= 1 && cols >= 1
    ensures ((total + cols - 1) / cols) * cols >= total
    ensures ((total + cols - 1) / cols - 1) * cols < total
  {
    var q, r := (total + cols - 1) / cols, (total + cols - 1) % cols;
    assert q * cols + r == total + cols - 1;
    assert q * cols >= total by { assert r <= cols - 1; }
    assert (q - 1) * cols == q * cols - cols;
  }

  /** Every slot below `total` gets a cell of the grid, the cells are filled row
      by row (so distinct slots get distinct cells), and the grid is never
      taller than it is wide. */
  lemma {:induction false} GridCellInGrid(index: nat, total: nat)
    requires total >= 1 && index < total
    ensures var c := GridCell(index, total);
      && c.col < c.cols && c.row < c.rows
      && c.row * c.cols + c.col == index
      && c.rows <= c.cols
  {
    var c := GridCell(index, total);
    var cols := c.cols;
    CeilDiv(total, cols);
    assert c.row * cols + c.col == index;
    RowBelowRows(index, total, cols, c.rows);
    RowsAtMostCols(total, cols, c.rows);
  }

  lemma RowBelowRows(index: nat, total: nat, cols: nat, rows: nat)
    requires cols >= 1 && index < total && rows * cols >= total
    ensures index / cols < rows
  {
    var q := index / cols;
    assert q * cols <= index;
    MulMono(rows, q, cols);
  }

  lemma RowsAtMostCols(total: nat, cols: nat, rows: nat)
    requires cols >= 1 && rows >= 1 && (rows - 1) * cols < total && cols * cols >= total
    ensures rows <= cols
  {
    MulMono(cols, rows - 1, cols);
  }

  lemma MulMono(a: nat, b: nat, k: nat)
    ensures a <= b ==> a * k <= b * k
  {
  }

  /** `calculateInitialPosition` with the two `Math.random()` draws given as
      `jx` and `jy`; `count` is `regionCounts.get(regionKey)`, 0 when absent. */
  function InitialPosition(rects: seq<Rect>, key: Option<string>, index: nat, count: nat, jx: real, jy: real): (real, real)
    requires |rects| == |RegionKeys|
  {
    var region := RegionFor(rects, key);
    var total := if count == 0 then 1 else count;
    var cell := GridCell(index, total);
    (CellCentre(region.x, region.width, cell.col, cell.cols, jx),
     CellCentre(region.y, region.height, cell.row, cell.rows, jy))
  }

  /** One coordinate of the seed: the span from `start` over `size`, less the
      padding, cut into `n` cells; the centre of cell `k`, moved by the jitter
      draw `j` mapped to [-7.5, 7.5). */
  function CellCentre(start: real, size: real, k: nat, n: nat, j: real): real
    requires n >= 1
  {
    var cellSize := (size - Padding * 2.0) / (n as real);
    start + Padding + (k as real) * cellSize + cellSize / 2.0 + (j - 0.5) * 15.0
  }

  /** The centre of cell `k` of `n` equal cells across a span of `inner` lies in the span. */
  lemma CellCentreInSpan(k: nat, n: nat, inner: real)
    requires k < n && inner >= 0.0
    ensures 0.0 <= (k as real) * (inner / (n as real)) + (inner / (n as real)) / 2.0 <= inner
  {
    var w := inner / (n as real);
    assert w * (n as real) == inner;
    assert w >= 0.0;
    ScaleMono(0.0, k as real, w);
    ScaleMono(k as real, (n - 1) as real, w);
    assert ((n - 1) as real) * w + w == w * (n as real);
  }

  lemma ScaleMono(a: real, b: real, w: real)
    requires a <= b && w >= 0.0
    ensures a * w <= b * w
  {
    assert b * w - a * w == (b - a) * w;
  }

  /** A node whose slot lies below its region's count is seeded inside the
      region's padded interior, up to the jitter of at most 7.5 each way. */
  lemma InitialPositionInRegion(rects: seq<Rect>, key: Option<string>, index: nat, count: nat, jx: real, jy: real)
    requires |rects| == |RegionKeys| && index < count
    requires 0.0 <= jx < 1.0 && 0.0 <= jy < 1.0
    requires HasInterior(RegionFor(rects, key))
    ensures var p := InitialPosition(rects, key, index, count, jx, jy);
      var r := RegionFor(rects, key);
      && MinX(r) - 7.5 <= p.0 <= MaxX(r) + 7.5
      && MinY(r) - 7.5 <= p.1 <= MaxY(r) + 7.5
  {
    var r := RegionFor(rects, key);
    var cell := GridCell(index, count);
    GridCellInGrid(index, count);
    AxisInside(r.x, r.width, cell.col, cell.cols, jx);
    AxisInside(r.y, r.height, cell.row, cell.rows, jy);
  }

  /** Along one axis: the jittered centre of cell `k` of `n` lies within 7.5
      of the padded span from `start` over `size`. */
  lemma AxisInside(start: real, size: real, k: nat, n: nat, j: real)
    requires k < n && size - Padding * 2.0 >= 0.0 && 0.0 <= j < 1.0
    ensures start + Padding - 7.5 <= CellCentre(start, size, k, n, j) <= start + size - Padding + 7.5
  {
    CellCentreInSpan(k, n, size - Padding * 2.0);
  }

  /** The per-key count after the first `i` keys, as `Map.get(key) || 0` reads it. */
  function CountIn(m: map<Option<string>, nat>, k: Option<string>): nat
  {
    if k in m then m[k] else 0
  }

  /** `m.set(k, (m.get(k) || 0) + 1)`. */
  function Bump(m: map<Option<string>, nat>, k: Option<string>): (m': map<Option<string>, nat>)
    ensures CountIn(m', k) == CountIn(m, k) + 1
    ensures forall k' :: k' != k ==> CountIn(m', k') == CountIn(m, k')
  {
    m[k := CountIn(m, k) + 1]
  }

  /** Counting keys `0..i` bumps exactly the count of key `i`. */
  lemma CountStep(m: map<Option<string>, nat>, keys: seq<Option<string>>, i: nat)
    requires i < |keys| && forall k :: CountIn(m, k) == multiset(keys[..i])[k]
    ensures forall k :: CountIn(Bump(m, keys[i]), k) == multiset(keys[..i + 1])[k]
  {
    assert keys[..i + 1] == keys[..i] + [keys[i]];
  }

  /** The `regionCounts` pass of `loadData`: the number of nodes per region key. */
  method CountRegions(keys: seq<Option<string>>) returns (regionCounts: map<Option<string>, nat>)
    ensures forall k :: CountIn(regionCounts, k) == multiset(keys)[k]
    ensures forall k :: k in regionCounts <==> k in keys
  {
    regionCounts := map[];
    for i := 0 to |keys|
      invariant forall k :: CountIn(regionCounts, k) == multiset(keys[..i])[k]
      invariant forall k :: k in regionCounts <==> k in keys[..i]
    {
      CountStep(regionCounts, keys, i);
      assert keys[..i + 1] == keys[..i] + [keys[i]];
      regionCounts := Bump(regionCounts, keys[i]);
    }
    assert keys[..|keys|] == keys;
  }

  /** `Object.keys(groupRegions).forEach(key => regionPositionCounters.set(key, 0))`. */
  method StartCounters() returns (counters: map<Option<string>, nat>)
    ensures forall i :: 0 <= i < |RegionKeys| ==> Some(RegionKeys[i]) in counters
    ensures forall k :: CountIn(counters, k) == 0
  {
    counters := map[];
    for j := 0 to |RegionKeys|
      invariant forall i :: 0 <= i < j ==> Some(RegionKeys[i]) in counters
      invariant forall k :: k in counters ==> counters[k] == 0
    {
      counters := counters[Some(RegionKeys[j]) := 0];
    }
  }

  /** The number of nodes before node `i` that share its key. */
  ghost function SlotOf(keys: seq<Option<string>>, i: nat): nat
    requires i < |keys|
  {
    multiset(keys[..i])[keys[i]]
  }

  /** The number of nodes that share node `i`'s key. */
  ghost function CountOf(keys: seq<Option<string>>, i: nat): nat
    requires i < |keys|
  {
    multiset(keys)[keys[i]]
  }

  /** The node-building pass of `loadData` over the nodes' region keys in node
      order: each node takes its key's counter as its `positionIndex` and bumps
      it, and reads its key's node count. `slots[i]` is node `i`'s
      `positionIndex` (the number of earlier nodes with its key) and
      `counts[i]` the number of nodes with its key. */
  method AssignSlots(keys: seq<Option<string>>) returns (slots: seq<nat>, counts: seq<nat>)
    ensures |slots| == |keys| && |counts| == |keys|
    ensures forall i :: 0 <= i < |keys| ==> slots[i] == SlotOf(keys, i)
    ensures forall i :: 0 <= i < |keys| ==> counts[i] == CountOf(keys, i)
  {
    var regionCounts := CountRegions(keys);
    var counters := StartCounters();
    slots, counts := [], [];
    for i := 0 to |keys|
      invariant |slots| == i && |counts| == i
      invariant forall k :: CountIn(counters, k) == multiset(keys[..i])[k]
      invariant forall p :: 0 <= p < i ==> slots[p] == SlotOf(keys, p)
      invariant forall p :: 0 <= p < i ==> counts[p] == CountOf(keys, p)
    {
      var positionIndex := CountIn(counters, keys[i]);
      assert positionIndex == SlotOf(keys, i);
      CountStep(counters, keys, i);
      counters := Bump(counters, keys[i]);
      slots := slots + [positionIndex];
      counts := counts + [CountIn(regionCounts, keys[i])];
    }
  }

  /** A node's slot is below the node count of its key. */
  lemma SlotBelowCount(keys: seq<Option<string>>, i: nat)
    requires i < |keys|
    ensures SlotOf(keys, i) < CountOf(keys, i)
  {
    assert keys == keys[..i] + [keys[i]] + keys[i + 1..];
  }

  /** Two nodes with the same key get different slots. */
  lemma SlotsDistinct(keys: seq<Option<string>>, i: nat, j: nat)
    requires i < j < |keys| && keys[i] == keys[j]
    ensures SlotOf(keys, i) < SlotOf(keys, j)
  {
    assert keys[..j] == keys[..i] + [keys[i]] + keys[i + 1..j];
  }
}
