/** Cutting a value array into chunks counted from the bottom-left corner, and putting it together again
    (src/EWMRS/render/render.py, scripts/verify_goes_tiles_conus.py). */
module Tiling {
  import opened Numbers
  import opened Wrappers

  /** A square block of the array, addressed by column and by row from the bottom. */
  datatype Chunk<T> = Chunk(x: nat, y: nat, data: seq<seq<T>>)

  datatype Error = NotDivisible

  // ---------- arrays as rows ----------

  predicate Rectangular<T>(rows: seq<seq<T>>, height: nat, width: nat) {
    |rows| == height && forall i :: 0 <= i < height ==> |rows[i]| == width
  }

  ghost predicate AllSquare<T>(tiles: seq<Chunk<T>>, size: nat) {
    forall k :: 0 <= k < |tiles| ==> Rectangular(tiles[k].data, size, size)
  }

  function Rows<T>(a: array2<T>): (rows: seq<seq<T>>)
    reads a
    ensures Rectangular(rows, a.Length0, a.Length1)
    ensures forall i, j :: 0 <= i < a.Length0 && 0 <= j < a.Length1 ==> rows[i][j] == a[i, j]
  {
    seq(a.Length0, i requires 0 <= i < a.Length0 reads a =>
        seq(a.Length1, j requires 0 <= j < a.Length1 reads a => a[i, j]))
  }

  // ---------- chunk geometry ----------

  /** The first array row of chunk row `y`; outside the grid it lies outside the array. */
  function Top(rows: nat, size: nat, y: int): int {
    (rows - 1 - y) * size
  }

  function Left(size: nat, x: int): (left: int)
    ensures x >= 0 ==> left >= 0
  {
    x * size
  }

  /** Chunk (x, y) of a grid holds element (i, j). */
  predicate Covers(rows: nat, size: nat, x: nat, y: nat, i: int, j: int) {
    Top(rows, size, y) <= i < Top(rows, size, y) + size && Left(size, x) <= j < Left(size, x) + size
  }

  lemma Product(d: nat, size: nat)
    ensures d * size >= 0
    ensures d > 0 ==> d * size >= size
  {
    if d > 0 {
      assert d * size == (d - 1) * size + size;
    }
  }

  lemma Scale(a: int, b: int, size: nat)
    requires a <= b
    ensures a * size <= b * size
    ensures a < b ==> a * size + size <= b * size
  {
    var d := b - a;
    Product(d, size);
    assert b * size == a * size + d * size;
  }

  lemma InBounds(rows: nat, cols: nat, size: nat, x: nat, y: nat)
    requires x < cols && y < rows
    ensures 0 <= Top(rows, size, y) && Top(rows, size, y) + size <= rows * size
    ensures Left(size, x) + size <= cols * size
  {
    Scale(0, rows - 1 - y, size);
    Scale(rows - 1 - y, rows, size);
    Scale(x, cols, size);
  }

  /** The band of `size` elements that holds `i` is band `i / size`. */
  lemma BandOf(i: nat, size: nat, k: int)
    requires size > 0
    ensures k * size <= i < k * size + size <==> k == i / size
  {
    var q := i / size;
    assert i == q * size + i % size;
    if k < q {
      Scale(k, q, size);
    } else if q < k {
      Scale(q, k, size);
    }
  }

  lemma BandInRange(i: nat, size: nat, bands: nat)
    requires size > 0 && i < bands * size
    ensures i / size < bands
  {
    BandOf(i, size, i / size);
    if bands <= i / size {
      Scale(bands, i / size, size);
    }
  }

  /** Every element of the array lies in exactly one chunk of the grid: column `j / size`, and row `i / size` counted
      from the top. */
  lemma ChunksPartition(rows: nat, cols: nat, size: nat, x: nat, y: nat, i: nat, j: nat)
    requires size > 0 && i < rows * size && j < cols * size
    ensures Covers(rows, size, x, y, i, j) <==> x == j / size && y == rows - 1 - i / size
    ensures 0 <= rows - 1 - i / size < rows && 0 <= j / size < cols
  {
    BandOf(i, size, rows - 1 - y);
    BandOf(j, size, x);
    BandInRange(i, size, rows);
    BandInRange(j, size, cols);
  }

  // ---------- cutting ----------

  /** The block at (top, left) after conversion to the stored precision. */
  function Block(values: seq<seq<Number>>, half: Number -> Number, top: nat, left: nat, size: nat):
      (r: seq<seq<Number>>)
    requires top + size <= |values|
    requires forall i :: top <= i < top + size ==> left + size <= |values[i]|
    ensures Rectangular(r, size, size)
    ensures forall i, j :: 0 <= i < size && 0 <= j < size ==> r[i][j] == half(values[top + i][left + j])
  {
    seq(size, i requires 0 <= i < size => seq(size, j requires 0 <= j < size => half(values[top + i][left + j])))
  }

  predicate HasFinite(block: seq<seq<Number>>) {
    exists i, j :: 0 <= i < |block| && 0 <= j < |block[i]| && block[i][j].Finite?
  }

  /** An array divided into `rows` by `cols` squares. */
  datatype Layout = Layout(values: seq<seq<Number>>, rows: nat, cols: nat, size: nat, half: Number -> Number)

  ghost predicate ValidLayout(l: Layout) {
    l.size > 0 && Rectangular(l.values, l.rows * l.size, l.cols * l.size)
  }

  function ChunkAt(l: Layout, x: nat, y: nat): (c: Chunk<Number>)
    requires ValidLayout(l) && x < l.cols && y < l.rows
    ensures Rectangular(c.data, l.size, l.size)
  {
    InBounds(l.rows, l.cols, l.size, x, y);
    Chunk(x, y, Block(l.values, l.half, Top(l.rows, l.size, y), Left(l.size, x), l.size))
  }

  predicate Kept(l: Layout, x: nat, y: nat)
    requires ValidLayout(l) && x < l.cols && y < l.rows
  {
    HasFinite(ChunkAt(l, x, y).data)
  }

  /** The kept chunks from (x, y) on, row by row. */
  function TilesFrom(l: Layout, y: nat, x: nat): seq<Chunk<Number>>
    requires ValidLayout(l) && y <= l.rows && x <= l.cols
    decreases l.rows - y, l.cols - x
  {
    if y == l.rows then []
    else if x == l.cols then TilesFrom(l, y + 1, 0)
    else (if Kept(l, x, y) then [ChunkAt(l, x, y)] else []) + TilesFrom(l, y, x + 1)
  }

  function Tiles(l: Layout): seq<Chunk<Number>>
    requires ValidLayout(l)
  {
    TilesFrom(l, 0, 0)
  }

  /** `_save_chunks_from_array` up to the writes: the schedule of chunks. */
  method ScheduleChunks(values: array2<Number>, size: nat, half: Number -> Number)
    returns (r: Result<seq<Chunk<Number>>, Error>)
    requires size > 0
    ensures r.Failure? <==> values.Length0 % size != 0 || values.Length1 % size != 0
    ensures r.Success? ==>
              var l := Layout(Rows(values), values.Length0 / size, values.Length1 / size, size, half);
              ValidLayout(l) && r.value == Tiles(l)
  {
    if values.Length0 % size != 0 || values.Length1 % size != 0 {
      return Failure(NotDivisible);
    }
    var rows, cols := values.Length0 / size, values.Length1 / size;
    var snapshot := Rows(values);
    ghost var l := Layout(snapshot, rows, cols, size, half);
    Divided(values.Length0, size);
    Divided(values.Length1, size);
    var specs: seq<Chunk<Number>> := [];
    var y := 0;
    while y < rows
      invariant 0 <= y <= rows
      invariant specs + TilesFrom(l, y, 0) == Tiles(l)
    {
      var x := 0;
      while x < cols
        invariant 0 <= x <= cols
        invariant specs + TilesFrom(l, y, x) == Tiles(l)
      {
        InBounds(rows, cols, size, x, y);
        var left := Left(size, x);
        var top := Top(rows, size, y);
        var data := Block(snapshot, half, top, left, size);
        ghost var before := specs;
        if HasFinite(data) {
          specs := specs + [Chunk(x, y, data)];
        }
        NextTile(before, specs, l, y, x);
        x := x + 1;
      }
      y := y + 1;
    }
    return Success(specs);
  }

  lemma Divided(n: nat, size: nat)
    requires size > 0 && n % size == 0
    ensures n / size * size == n
  {
  }

  lemma NextTile(before: seq<Chunk<Number>>, specs: seq<Chunk<Number>>, l: Layout, y: nat, x: nat)
    requires ValidLayout(l) && y < l.rows && x < l.cols
    requires specs == before + if Kept(l, x, y) then [ChunkAt(l, x, y)] else []
    ensures specs + TilesFrom(l, y, x + 1) == before + TilesFrom(l, y, x)
  {
  }

  // ---------- putting together ----------

  predicate Placeable<T>(c: Chunk<T>, rows: nat, cols: nat, size: nat) {
    c.x < cols && c.y < rows && Rectangular(c.data, size, size)
  }

  function CellOf<T>(c: Chunk<T>, rows: nat, size: nat, i: int, j: int): T
    requires Rectangular(c.data, size, size) && Covers(rows, size, c.x, c.y, i, j)
  {
    c.data[i - Top(rows, size, c.y)][j - Left(size, c.x)]
  }

  /** What the array holds at (i, j) after the chunks have been pasted in order over a blank canvas. */
  function Painted<T>(tiles: seq<Chunk<T>>, rows: nat, size: nat, blank: T, i: int, j: int): T
    requires AllSquare(tiles, size)
  {
    if tiles == [] then blank
    else
      var last := tiles[|tiles| - 1];
      if Covers(rows, size, last.x, last.y, i, j) then CellOf(last, rows, size, i, j)
      else Painted(tiles[..|tiles| - 1], rows, size, blank, i, j)
  }

  // ---------- the schedule is exact ----------

  predicate Before(y0: int, x0: int, y1: int, x1: int) {
    y0 < y1 || (y0 == y1 && x0 < x1)
  }

  /** The schedule holds a chunk exactly when it is the block at a grid position that has a finite element. */
  lemma {:induction false} TilesExact(l: Layout, y: nat, x: nat, c: Chunk<Number>)
    requires ValidLayout(l) && y <= l.rows && x <= l.cols
    ensures c in TilesFrom(l, y, x) <==> IsKeptChunk(l, c) && !Before(c.y, c.x, y, x)
    decreases l.rows - y, l.cols - x
  {
    if y == l.rows {
      assert TilesFrom(l, y, x) == [];
    } else {
      if x == l.cols {
        assert TilesFrom(l, y, x) == TilesFrom(l, y + 1, 0);
        TilesExact(l, y + 1, 0, c);
        RowDone(l, y, c);
      } else {
        TilesExact(l, y, x + 1, c);
        NextScheduled(l, y, x, c);
        KeptHere(l, y, x, c);
      }
    }
  }

  ghost predicate IsKeptChunk(l: Layout, c: Chunk<Number>)
    requires ValidLayout(l)
  {
    && c.x < l.cols && c.y < l.rows && c == ChunkAt(l, c.x, c.y)
    && exists i, j :: 0 <= i < l.size && 0 <= j < l.size && c.data[i][j].Finite?
  }

  lemma KeptHere(l: Layout, y: nat, x: nat, c: Chunk<Number>)
    requires ValidLayout(l) && y < l.rows && x < l.cols
    ensures IsKeptChunk(l, c) && !Before(c.y, c.x, y, x) <==>
            (Kept(l, x, y) && c == ChunkAt(l, x, y)) || (IsKeptChunk(l, c) && !Before(c.y, c.x, y, x + 1))
  {
  }

  lemma RowDone(l: Layout, y: nat, c: Chunk<Number>)
    requires ValidLayout(l)
    ensures IsKeptChunk(l, c) ==> (Before(c.y, c.x, y, l.cols) <==> Before(c.y, c.x, y + 1, 0))
  {
  }

  lemma NextScheduled(l: Layout, y: nat, x: nat, c: Chunk<Number>)
    requires ValidLayout(l) && y < l.rows && x < l.cols
    ensures c in TilesFrom(l, y, x) <==> (Kept(l, x, y) && c == ChunkAt(l, x, y)) || c in TilesFrom(l, y, x + 1)
  {
  }

  /** The schedule is strictly row-major, so that no position occurs twice. */
  lemma {:induction false} TilesRowMajor(l: Layout, y: nat, x: nat, m: nat, n: nat)
    requires ValidLayout(l) && y <= l.rows && x <= l.cols
    requires m < n < |TilesFrom(l, y, x)|
    ensures var t := TilesFrom(l, y, x); Before(t[m].y, t[m].x, t[n].y, t[n].x)
    decreases l.rows - y, l.cols - x
  {
    var t := TilesFrom(l, y, x);
    if x == l.cols {
      TilesRowMajor(l, y + 1, 0, m, n);
    } else if !Kept(l, x, y) {
      assert t == TilesFrom(l, y, x + 1);
      TilesRowMajor(l, y, x + 1, m, n);
    } else if m > 0 {
      TilesRowMajor(l, y, x + 1, m - 1, n - 1);
    } else {
      TilesExact(l, y, x + 1, t[n]);
    }
  }

  // ---------- restoring ----------

  /** Pasting chunks of which at most one covers an element shows that chunk, in whatever order they come. */
  lemma {:induction false} PaintedBy<T>(tiles: seq<Chunk<T>>, rows: nat, size: nat, blank: T, i: int, j: int,
      c: Chunk<T>)
    requires AllSquare(tiles, size)
    requires c in tiles && Covers(rows, size, c.x, c.y, i, j)
    requires forall k :: 0 <= k < |tiles| && Covers(rows, size, tiles[k].x, tiles[k].y, i, j) ==> tiles[k] == c
    ensures Painted(tiles, rows, size, blank, i, j) == CellOf(c, rows, size, i, j)
  {
    var last := tiles[|tiles| - 1];
    if !Covers(rows, size, last.x, last.y, i, j) {
      var front := tiles[..|tiles| - 1];
      assert tiles == front + [last] && c in front;
      PaintedBy(front, rows, size, blank, i, j, c);
    }
  }

  lemma {:induction false} Unpainted<T>(tiles: seq<Chunk<T>>, rows: nat, size: nat, blank: T, i: int, j: int)
    requires AllSquare(tiles, size)
    requires forall k :: 0 <= k < |tiles| ==> !Covers(rows, size, tiles[k].x, tiles[k].y, i, j)
    ensures Painted(tiles, rows, size, blank, i, j) == blank
  {
    if tiles != [] {
      Unpainted(tiles[..|tiles| - 1], rows, size, blank, i, j);
    }
  }

  lemma FilesPlaceable(l: Layout, files: seq<Chunk<Number>>)
    requires ValidLayout(l)
    requires forall c :: c in files ==> c in Tiles(l)
    ensures AllSquare(files, l.size)
    ensures forall k :: 0 <= k < |files| ==> Placeable(files[k], l.rows, l.cols, l.size)
  {
    forall k | 0 <= k < |files| ensures Placeable(files[k], l.rows, l.cols, l.size) {
      assert files[k] in files;
      TilesExact(l, 0, 0, files[k]);
    }
  }

  /** Reassembly inverts the cut: every element of a kept chunk comes back at its own place, and a blank stands only
      where the stored value was not finite. The files may come in any order. */
  lemma {:induction false} Restores(l: Layout, files: seq<Chunk<Number>>, blank: Number, x: nat, y: nat, i: nat, j: nat)
    requires ValidLayout(l) && x < l.cols && y < l.rows && i < l.rows * l.size && j < l.cols * l.size
    requires Covers(l.rows, l.size, x, y, i, j)
    requires forall c :: c in files <==> c in Tiles(l)
    ensures AllSquare(files, l.size)
    ensures forall k :: 0 <= k < |files| ==> Placeable(files[k], l.rows, l.cols, l.size)
    ensures Painted(files, l.rows, l.size, blank, i, j) == if Kept(l, x, y) then l.half(l.values[i][j]) else blank
    ensures l.half(l.values[i][j]).Finite? ==> Kept(l, x, y)
  {
    FilesPlaceable(l, files);
    CellOfChunk(l, x, y, i, j);
    var c := ChunkAt(l, x, y);
    forall k | 0 <= k < |files| && Covers(l.rows, l.size, files[k].x, files[k].y, i, j)
      ensures files[k] == c && Kept(l, x, y)
    {
      assert files[k] in files;
      OnlyCover(l, files[k], x, y, i, j);
    }
    if Kept(l, x, y) {
      TilesExact(l, 0, 0, c);
      PaintedBy(files, l.rows, l.size, blank, i, j, c);
    } else {
      Unpainted(files, l.rows, l.size, blank, i, j);
    }
  }

  lemma Locate(rows: nat, cols: nat, size: nat, i: nat, j: nat) returns (x: nat, y: nat)
    requires size > 0 && i < rows * size && j < cols * size
    ensures x < cols && y < rows && Covers(rows, size, x, y, i, j)
  {
    var column, row := j / size, rows - 1 - i / size;
    ChunksPartition(rows, cols, size, 0, 0, i, j);
    ChunksPartition(rows, cols, size, column, row, i, j);
    x, y := column, row;
  }

  /** Element (i, j) of the reassembled array against the one that was cut. */
  ghost predicate Faithful(l: Layout, files: seq<Chunk<Number>>, blank: Number, i: nat, j: nat)
    requires ValidLayout(l) && AllSquare(files, l.size) && i < l.rows * l.size && j < l.cols * l.size
  {
    var stored := l.half(l.values[i][j]);
    var p := Painted(files, l.rows, l.size, blank, i, j);
    p == stored || (p == blank && !stored.Finite?)
  }

  /** The whole array at once: reassembly gives the stored-precision array, blanked only where it is not finite. */
  lemma RestoresEverything(l: Layout, files: seq<Chunk<Number>>, blank: Number)
    requires ValidLayout(l)
    requires forall c :: c in files <==> c in Tiles(l)
    ensures AllSquare(files, l.size)
    ensures forall i: nat, j: nat :: i < l.rows * l.size && j < l.cols * l.size ==> Faithful(l, files, blank, i, j)
  {
    FilesPlaceable(l, files);
    forall i: nat, j: nat | i < l.rows * l.size && j < l.cols * l.size ensures Faithful(l, files, blank, i, j) {
      var x, y := Locate(l.rows, l.cols, l.size, i, j);
      Restores(l, files, blank, x, y, i, j);
    }
  }

  lemma CellOfChunk(l: Layout, x: nat, y: nat, i: nat, j: nat)
    requires ValidLayout(l) && x < l.cols && y < l.rows && i < l.rows * l.size && j < l.cols * l.size
    requires Covers(l.rows, l.size, x, y, i, j)
    ensures CellOf(ChunkAt(l, x, y), l.rows, l.size, i, j) == l.half(l.values[i][j])
    ensures l.half(l.values[i][j]).Finite? ==> Kept(l, x, y)
  {
    InBounds(l.rows, l.cols, l.size, x, y);
    var data := ChunkAt(l, x, y).data;
    var m, n := i - Top(l.rows, l.size, y), j - Left(l.size, x);
    assert data[m][n] == l.half(l.values[i][j]);
  }

  lemma OnlyCover(l: Layout, c: Chunk<Number>, x: nat, y: nat, i: nat, j: nat)
    requires ValidLayout(l) && x < l.cols && y < l.rows && i < l.rows * l.size && j < l.cols * l.size
    requires c in Tiles(l) && Covers(l.rows, l.size, c.x, c.y, i, j) && Covers(l.rows, l.size, x, y, i, j)
    ensures Kept(l, x, y) && c == ChunkAt(l, x, y)
  {
    TilesExact(l, 0, 0, c);
    ChunksPartition(l.rows, l.cols, l.size, c.x, c.y, i, j);
    ChunksPartition(l.rows, l.cols, l.size, x, y, i, j);
  }

  /** Without a recorded grid the picture is cropped: it loses the chunk rows above the highest tile, and what is left
      stands where it stood relative to the bottom edge. */
  lemma {:induction false} SmallerGridCrops<T>(tiles: seq<Chunk<T>>, rows: nat, fewer: nat, size: nat, blank: T,
      i: int, j: int)
    requires fewer <= rows
    requires AllSquare(tiles, size) && forall k :: 0 <= k < |tiles| ==> tiles[k].y < fewer
    ensures Painted(tiles, fewer, size, blank, i, j)
         == Painted(tiles, rows, size, blank, i + (rows - fewer) * size, j)
  {
    if tiles != [] {
      var last := tiles[|tiles| - 1];
      SmallerGridCrops(tiles[..|tiles| - 1], rows, fewer, size, blank, i, j);
      assert (rows - 1 - last.y) * size == (fewer - 1 - last.y) * size + (rows - fewer) * size;
    }
  }
}
