/** The script that puts a picture together from its tile files (scripts/verify_goes_tiles_conus.py), for whatever tiles
    it finds. */
module Reassembly {
  import opened Numbers
  import opened Wrappers
  import opened Tiling

  /** A parsed tile file; the name may hold any integers and the image may have any size. */
  datatype Tile<T> = Tile(x: int, y: int, data: seq<seq<T>>)

  datatype Error = NoTiles | InvalidGrid | ShapeMismatch

  /** An image has at least one row and one column. */
  predicate IsImage<T>(data: seq<seq<T>>) {
    |data| >= 1 && |data[0]| >= 1 && forall i :: 0 <= i < |data| ==> |data[i]| == |data[0]|
  }

  // ---------- slices ----------

  /** A slice bound on a dimension of length `n`: negative bounds count from the end, and all are clamped. */
  function Bound(i: int, n: nat): (b: nat)
    ensures b <= n
  {
    if i < 0 then (if i + n < 0 then 0 else i + n) else if i > n then n else i
  }

  function SliceLength(low: int, high: int, n: nat): nat {
    if Bound(low, n) < Bound(high, n) then Bound(high, n) - Bound(low, n) else 0
  }

  /** A dimension of the right-hand side of a slice assignment is accepted if it matches or is one. */
  predicate Broadcasts(source: nat, slice: nat) {
    source == slice || source == 1
  }

  /** A bound counts from the end if it is negative. */
  function Counted(i: int, n: nat): int {
    if i < 0 then i + n else i
  }

  /** A slice holds the indices of the dimension between its bounds; its length is their number. */
  lemma SliceExact(low: int, high: int, n: nat, i: int)
    ensures InSlice(low, high, n, i) <==> 0 <= i < n && Counted(low, n) <= i < Counted(high, n)
    ensures InSlice(low, high, n, i) <==> Bound(low, n) <= i < Bound(low, n) + SliceLength(low, high, n)
  {
  }

  // ---------- one tile ----------

  /** The canvas and the length of a tile's side, which is that of the first tile. */
  datatype Canvas = Canvas(rows: nat, cols: nat, size: nat)

  function Height(v: Canvas): nat {
    v.rows * v.size
  }

  function Width(v: Canvas): nat {
    v.cols * v.size
  }

  predicate Fits<T>(c: Tile<T>, v: Canvas)
    requires IsImage(c.data)
  {
    && Broadcasts(|c.data|, SliceLength(Top(v.rows, v.size, c.y), Top(v.rows, v.size, c.y) + v.size, Height(v)))
    && Broadcasts(|c.data[0]|, SliceLength(Left(v.size, c.x), Left(v.size, c.x) + v.size, Width(v)))
  }

  /** Index `i` lies in the slice. */
  predicate InSlice(low: int, high: int, n: nat, i: int) {
    Bound(low, n) <= i < Bound(high, n)
  }

  predicate Hits<T>(c: Tile<T>, v: Canvas, i: int, j: int) {
    && InSlice(Top(v.rows, v.size, c.y), Top(v.rows, v.size, c.y) + v.size, Height(v), i)
    && InSlice(Left(v.size, c.x), Left(v.size, c.x) + v.size, Width(v), j)
  }

  /** The element of the tile that lands at (i, j). */
  function Pixel<T>(c: Tile<T>, v: Canvas, i: int, j: int): T
    requires IsImage(c.data) && Fits(c, v) && Hits(c, v, i, j)
  {
    var row := if |c.data| == 1 then 0 else i - Bound(Top(v.rows, v.size, c.y), Height(v));
    var column := if |c.data[0]| == 1 then 0 else j - Bound(Left(v.size, c.x), Width(v));
    c.data[row][column]
  }

  /** A tile is accepted exactly if in each dimension it is as long as its slice or has a single row or column, which
      then fills the slice. */
  lemma FitsExact<T>(c: Tile<T>, v: Canvas, i: int, j: int)
    requires IsImage(c.data)
    ensures var top, left := Top(v.rows, v.size, c.y), Left(v.size, c.x);
            && (Fits(c, v) <==>
                  && (|c.data| == 1 || |c.data| == SliceLength(top, top + v.size, Height(v)))
                  && (|c.data[0]| == 1 || |c.data[0]| == SliceLength(left, left + v.size, Width(v))))
            && (Fits(c, v) && Hits(c, v, i, j) && |c.data| == 1 && |c.data[0]| == 1 ==>
                  Pixel(c, v, i, j) == c.data[0][0])
  {
  }

  /** One slice assignment. */
  method Paste<T>(a: array2<T>, v: Canvas, c: Tile<T>) returns (fits: bool)
    requires IsImage(c.data) && a.Length0 == Height(v) && a.Length1 == Width(v)
    modifies a
    ensures fits == Fits(c, v)
    ensures forall i, j :: 0 <= i < a.Length0 && 0 <= j < a.Length1 ==>
              a[i, j] == if fits && Hits(c, v, i, j) then Pixel(c, v, i, j) else old(a[i, j])
  {
    fits := Fits(c, v);
    if !fits {
      return;
    }
    var top, left := Top(v.rows, v.size, c.y), Left(v.size, c.x);
    var rowLow, rowHigh := Bound(top, a.Length0), Bound(top + v.size, a.Length0);
    var columnLow, columnHigh := Bound(left, a.Length1), Bound(left + v.size, a.Length1);
    forall i, j | rowLow <= i < rowHigh && columnLow <= j < columnHigh {
      a[i, j] := Pixel(c, v, i, j);
    }
  }

  // ---------- the picture ----------

  function MaxOf(s: seq<int>): (m: int)
    requires s != []
    ensures m in s && forall k :: 0 <= k < |s| ==> s[k] <= m
  {
    if |s| == 1 then s[0]
    else
      var m := MaxOf(s[1..]);
      if s[0] <= m then m else s[0]
  }

  ghost predicate AllImages<T>(tiles: seq<Tile<T>>) {
    forall k :: 0 <= k < |tiles| ==> IsImage(tiles[k].data)
  }

  /** The recorded grid, or the smallest that holds every tile; a negative size is refused by the allocation. */
  function CanvasOf<T>(tiles: seq<Tile<T>>, grid: Option<(int, int)>): Result<Canvas, Error> {
    if tiles == [] then Failure(NoTiles)
    else
      var size := |tiles[0].data|;
      match grid
      case Some(g) => if g.0 <= 0 || g.1 <= 0 then Failure(InvalidGrid) else Success(Canvas(g.0, g.1, size))
      case None =>
        var rows := MaxOf(seq(|tiles|, k requires 0 <= k < |tiles| => tiles[k].y)) + 1;
        var cols := MaxOf(seq(|tiles|, k requires 0 <= k < |tiles| => tiles[k].x)) + 1;
        if rows < 0 || cols < 0 then Failure(InvalidGrid) else Success(Canvas(rows, cols, size))
  }

  /** When there is a canvas, and which: the recorded grid if it is positive, or the smallest grid from the origin that
      holds every tile. */
  lemma CanvasExact<T>(tiles: seq<Tile<T>>, grid: Option<(int, int)>)
    ensures tiles == [] ==> CanvasOf(tiles, grid) == Failure(NoTiles)
    ensures tiles != [] && grid.Some? ==>
              CanvasOf(tiles, grid) ==
                if grid.value.0 > 0 && grid.value.1 > 0
                then Success(Canvas(grid.value.0, grid.value.1, |tiles[0].data|)) else Failure(InvalidGrid)
    ensures tiles != [] && grid.None? ==>
              if && (exists k :: 0 <= k < |tiles| && tiles[k].y >= -1)
                 && (exists l :: 0 <= l < |tiles| && tiles[l].x >= -1)
              then
                && CanvasOf(tiles, grid).Success? && CanvasOf(tiles, grid).value.size == |tiles[0].data|
                && Extent(tiles, CanvasOf(tiles, grid).value)
              else CanvasOf(tiles, grid) == Failure(InvalidGrid)
  {
    if tiles != [] && grid.None? {
      var ys := seq(|tiles|, k requires 0 <= k < |tiles| => tiles[k].y);
      var xs := seq(|tiles|, k requires 0 <= k < |tiles| => tiles[k].x);
      var y, x := MaxOf(ys), MaxOf(xs);
      var k :| 0 <= k < |ys| && ys[k] == y;
      var l :| 0 <= l < |xs| && xs[l] == x;
      assert tiles[k].y == y && tiles[l].x == x;
      forall m | 0 <= m < |tiles| ensures tiles[m].y <= y && tiles[m].x <= x {
        assert ys[m] == tiles[m].y && xs[m] == tiles[m].x;
      }
    }
  }

  /** The canvas reaches exactly as far as the tiles. */
  ghost predicate Extent<T>(tiles: seq<Tile<T>>, v: Canvas) {
    && (forall m :: 0 <= m < |tiles| ==> tiles[m].y < v.rows && tiles[m].x < v.cols)
    && (exists k :: 0 <= k < |tiles| && tiles[k].y == v.rows - 1)
    && (exists l :: 0 <= l < |tiles| && tiles[l].x == v.cols - 1)
  }

  ghost predicate AllFit<T>(tiles: seq<Tile<T>>, v: Canvas)
    requires AllImages(tiles)
  {
    forall k :: 0 <= k < |tiles| ==> Fits(tiles[k], v)
  }

  /** What the canvas shows after the tiles have been pasted in order. */
  ghost function Shown<T>(tiles: seq<Tile<T>>, v: Canvas, blank: T, i: int, j: int): T
    requires AllImages(tiles) && AllFit(tiles, v)
  {
    if tiles == [] then blank
    else
      var last := tiles[|tiles| - 1];
      if Hits(last, v, i, j) then Pixel(last, v, i, j) else Shown(tiles[..|tiles| - 1], v, blank, i, j)
  }

  lemma {:induction false} NextPasted<T>(tiles: seq<Tile<T>>, k: nat, v: Canvas, blank: T)
    requires AllImages(tiles) && k < |tiles| && AllFit(tiles[..k], v)
    ensures AllFit(tiles, v) ==> Fits(tiles[k], v)
    ensures Fits(tiles[k], v) ==>
              && AllFit(tiles[..k + 1], v)
              && forall i, j :: Shown(tiles[..k + 1], v, blank, i, j)
                  == if Hits(tiles[k], v, i, j) then Pixel(tiles[k], v, i, j) else Shown(tiles[..k], v, blank, i, j)
  {
    var now := tiles[..k + 1];
    if Fits(tiles[k], v) {
      assert AllFit(now, v);
      forall i, j ensures Shown(now, v, blank, i, j)
          == if Hits(tiles[k], v, i, j) then Pixel(tiles[k], v, i, j) else Shown(tiles[..k], v, blank, i, j)
      {
        assert now[|now| - 1] == tiles[k] && now[..|now| - 1] == tiles[..k];
      }
    }
  }

  /** `_reconstruct_rgba`: it succeeds exactly when there is a canvas and every tile fits its slice. */
  method Reconstruct<T>(tiles: seq<Tile<T>>, grid: Option<(int, int)>, blank: T) returns (r: Result<array2<T>, Error>)
    requires AllImages(tiles)
    ensures CanvasOf(tiles, grid).Failure? ==> r == Failure(CanvasOf(tiles, grid).error)
    ensures CanvasOf(tiles, grid).Success? && !AllFit(tiles, CanvasOf(tiles, grid).value) ==>
        r == Failure(ShapeMismatch)
    ensures CanvasOf(tiles, grid).Success? && AllFit(tiles, CanvasOf(tiles, grid).value) ==>
              var v := CanvasOf(tiles, grid).value;
              && r.Success? && r.value.Length0 == Height(v) && r.value.Length1 == Width(v)
              && forall i, j :: 0 <= i < Height(v) && 0 <= j < Width(v) ==>
                  r.value[i, j] == Shown(tiles, v, blank, i, j)
  {
    var canvas := CanvasOf(tiles, grid);
    if canvas.Failure? {
      return Failure(canvas.error);
    }
    var v := canvas.value;
    var a := new T[Height(v), Width(v)]((i, j) => blank);
    var k := 0;
    while k < |tiles|
      invariant 0 <= k <= |tiles|
      invariant AllFit(tiles[..k], v)
      invariant forall i, j :: 0 <= i < Height(v) && 0 <= j < Width(v) ==> a[i, j] == Shown(tiles[..k], v, blank, i, j)
    {
      NextPasted(tiles, k, v, blank);
      var fits := Paste(a, v, tiles[k]);
      if !fits {
        return Failure(ShapeMismatch);
      }
      k := k + 1;
    }
    assert tiles[..k] == tiles;
    return Success(a);
  }

  // ---------- tiles of the grid ----------

  function AsTiles<T>(chunks: seq<Chunk<T>>): (tiles: seq<Tile<T>>)
    ensures |tiles| == |chunks|
    ensures forall k :: 0 <= k < |chunks| ==> tiles[k] == Tile(chunks[k].x, chunks[k].y, chunks[k].data)
  {
    seq(|chunks|, k requires 0 <= k < |chunks| => Tile(chunks[k].x, chunks[k].y, chunks[k].data))
  }

  /** A chunk of the grid fits, and its slice is the square that it covers. */
  lemma GridTileFits<T>(c: Chunk<T>, rows: nat, cols: nat, size: nat, i: int, j: int)
    requires size > 0 && Placeable(c, rows, cols, size)
    ensures var v, tile := Canvas(rows, cols, size), Tile(c.x, c.y, c.data);
            && IsImage(tile.data) && Fits(tile, v)
            && (Hits(tile, v, i, j) <==> Covers(rows, size, c.x, c.y, i, j))
            && (Hits(tile, v, i, j) ==> Pixel(tile, v, i, j) == CellOf(c, rows, size, i, j))
  {
    InBounds(rows, cols, size, c.x, c.y);
    SquareSlices(Canvas(rows, cols, size), c.x, c.y);
  }

  lemma SquareSlices(v: Canvas, x: nat, y: nat)
    requires x < v.cols && y < v.rows
    requires 0 <= Top(v.rows, v.size, y) && Top(v.rows, v.size, y) + v.size <= Height(v)
    requires Left(v.size, x) + v.size <= Width(v)
    ensures Bound(Top(v.rows, v.size, y), Height(v)) == Top(v.rows, v.size, y)
    ensures Bound(Top(v.rows, v.size, y) + v.size, Height(v)) == Top(v.rows, v.size, y) + v.size
    ensures Bound(Left(v.size, x), Width(v)) == Left(v.size, x)
    ensures Bound(Left(v.size, x) + v.size, Width(v)) == Left(v.size, x) + v.size
  {
  }

  /** On chunks of the grid the script shows what pasting squares shows, so that it inverts the cut. */
  lemma {:induction false} ShowsThePaintedGrid<T>(
    chunks: seq<Chunk<T>>, rows: nat, cols: nat, size: nat, blank: T, i: int, j: int)
    requires size > 0 && forall k :: 0 <= k < |chunks| ==> Placeable(chunks[k], rows, cols, size)
    ensures AllSquare(chunks, size)
    ensures AllImages(AsTiles(chunks)) && AllFit(AsTiles(chunks), Canvas(rows, cols, size))
    ensures Shown(AsTiles(chunks), Canvas(rows, cols, size), blank, i, j) == Painted(chunks, rows, size, blank, i, j)
    decreases |chunks|
  {
    var tiles, v := AsTiles(chunks), Canvas(rows, cols, size);
    forall k | 0 <= k < |chunks| ensures IsImage(tiles[k].data) && Fits(tiles[k], v) {
      GridTileFits(chunks[k], rows, cols, size, i, j);
    }
    if chunks != [] {
      var n := |chunks| - 1;
      GridTileFits(chunks[n], rows, cols, size, i, j);
      assert AsTiles(chunks[..n]) == tiles[..n];
      ShowsThePaintedGrid(chunks[..n], rows, cols, size, blank, i, j);
    }
  }

  /** The script inverts the cut: from the written chunks of a layout, read in any order, and the recorded grid it
      builds the stored-precision array, blank only where that is not finite. */
  lemma {:induction false} ScriptInvertsTheCut(l: Layout, files: seq<Chunk<Number>>, blank: Number, i: nat, j: nat)
    requires ValidLayout(l) && files != [] && forall c :: c in files <==> c in Tiles(l)
    requires i < l.rows * l.size && j < l.cols * l.size
    ensures var tiles, v := AsTiles(files), Canvas(l.rows, l.cols, l.size);
            && AllImages(tiles) && AllFit(tiles, v) && CanvasOf(tiles, Some((l.rows, l.cols))) == Success(v)
            && var shown, stored := Shown(tiles, v, blank, i, j), l.half(l.values[i][j]);
            shown == stored || (shown == blank && !stored.Finite?)
  {
    FilesPlaceable(l, files);
    RestoresEverything(l, files, blank);
    assert Faithful(l, files, blank, i, j);
    ShowsThePaintedGrid(files, l.rows, l.cols, l.size, blank, i, j);
    assert Placeable(files[0], l.rows, l.cols, l.size);
  }
}
