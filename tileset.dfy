/** Tileset loading in `ARDraw.__load_tileset` and `ARDraw.__build_char_map`
    (ascii_rend.py; `RenderUtils` in main.py holds the same code): the image
    is cut row by row into square tiles, and bytes 0..255 are mapped to the
    first 256 of them. The image is known only by its size, a tile only by
    its index and its rectangle. */
module Tileset {
  import opened Wrappers

  newtype byte = x: int | 0 <= x < 256

  datatype Image = Image(width: nat, height: nat)

  /** A pixel rectangle: origin `(x, y)`, width `w`, height `h`. */
  datatype Rect = Rect(x: int, y: int, w: int, h: int)

  /** A tile: its position in slicing order and the part of the image it covers. */
  datatype Tile = Tile(index: nat, rect: Rect)

  datatype LoadError =
    | ImageUnreadable       // pygame.image.load fails
    | ZeroTileSize          // ZeroDivisionError in `height // tile_size`
    | TooFewTiles(count: nat) // IndexError in the char map comprehension

  datatype Atlas = Atlas(tiles: seq<Tile>, charToTile: map<int, Tile>)

  /** Python's `a // b`, which rounds toward negative infinity. */
  function FloorDiv(a: int, b: int): int
    requires b != 0
  {
    if b > 0 then a / b else (-a) / (-b)
  }

  /** The number of values `range(n)` yields. */
  function RangeLen(n: int): nat {
    if n > 0 then n else 0
  }

  function Rows(image: Image, tileSize: int): nat
    requires tileSize != 0
  {
    RangeLen(FloorDiv(image.height, tileSize))
  }

  function Cols(image: Image, tileSize: int): nat
    requires tileSize != 0
  {
    RangeLen(FloorDiv(image.width, tileSize))
  }

  /** Tile `k` of a grid `cols` tiles wide, counted row by row. */
  function TileAt(k: nat, cols: nat, tileSize: int): Tile
    requires cols > 0
  {
    Tile(k, Rect((k % cols) * tileSize, (k / cols) * tileSize, tileSize, tileSize))
  }

  /** The tiles the nested row/column loops produce, in order. */
  function Slice(rows: nat, cols: nat, tileSize: int): (tiles: seq<Tile>) {
    if cols == 0 then []
    else seq(rows * cols, k requires 0 <= k < rows * cols => TileAt(k, cols, tileSize))
  }

  /** `{i: tile_set[i] for i in range(256)}`, which raises `IndexError`
      when fewer than 256 tiles were cut. */
  function BuildCharMap(tiles: seq<Tile>): (charMap: Result<map<int, Tile>, LoadError>) {
    if |tiles| < 256 then Failure(TooFewTiles(|tiles|))
    else Success(map i | 0 <= i < 256 :: tiles[i])
  }

  /** What constructing the renderer leaves behind: the tiles and the byte map,
      or the first error raised. */
  function Load(image: Option<Image>, tileSize: int): (atlas: Result<Atlas, LoadError>) {
    if image.None? then Failure(ImageUnreadable)
    else if tileSize == 0 then Failure(ZeroTileSize)
    else
      var tiles := Slice(Rows(image.value, tileSize), Cols(image.value, tileSize), tileSize);
      match BuildCharMap(tiles)
      case Failure(e) => Failure(e)
      case Success(m) => Success(Atlas(tiles, m))
  }

  // ------------------------------------------------------------------ arithmetic helpers

  lemma DivModUnique(k: int, c: int, q: int, r: int)
    requires c > 0 && 0 <= r < c && k == q * c + r
    ensures k / c == q && k % c == r
  {
    var d := q - k / c;
    MulSign(d, c);
    assert d * c == k % c - r;
  }

  lemma MulSign(d: int, c: int)
    requires c > 0
    ensures d >= 1 ==> d * c >= c
    ensures d <= -1 ==> d * c <= -c
  {
    if d >= 1 { MulMono(1, d, c); }
    if d <= -1 { MulMono(d, -1, c); }
  }

  lemma MulMono(a: int, b: int, c: int)
    requires a <= b && c >= 0
    ensures a * c <= b * c
  {
  }

  /** The tile appended at row `row`, column `col` is `TileAt` of its position. */
  lemma TileAtRowCol(row: nat, col: nat, cols: nat, tileSize: int)
    requires col < cols
    ensures TileAt(row * cols + col, cols, tileSize)
            == Tile(row * cols + col, Rect(col * tileSize, row * tileSize, tileSize, tileSize))
  {
    DivModUnique(row * cols + col, cols, row, col);
  }

  // ------------------------------------------------------------------ the loader

  /** `__load_tileset`: the nested loops, then the byte map. */
  method LoadTileset(image: Option<Image>, tileSize: int) returns (r: Result<Atlas, LoadError>)
    ensures r == Load(image, tileSize)
  {
    if image.None? {
      return Failure(ImageUnreadable);
    }
    if tileSize == 0 {
      return Failure(ZeroTileSize);
    }
    var rows := Rows(image.value, tileSize);
    var cols := Cols(image.value, tileSize);
    var tiles: seq<Tile> := [];
    var row := 0;
    while row < rows
      invariant 0 <= row <= rows
      invariant |tiles| == row * cols
      invariant forall k :: 0 <= k < |tiles| ==> tiles[k] == TileAt(k, cols, tileSize)
    {
      var col := 0;
      while col < cols
        invariant 0 <= col <= cols
        invariant |tiles| == row * cols + col
        invariant forall k :: 0 <= k < |tiles| ==> tiles[k] == TileAt(k, cols, tileSize)
      {
        TileAtRowCol(row, col, cols, tileSize);
        tiles := tiles + [Tile(|tiles|, Rect(col * tileSize, row * tileSize, tileSize, tileSize))];
        col := col + 1;
      }
      row := row + 1;
    }
    assert tiles == Slice(rows, cols, tileSize);
    var charMap := BuildCharMap(tiles);
    match charMap {
      case Failure(e) => r := Failure(e);
      case Success(m) => r := Success(Atlas(tiles, m));
    }
  }

  // ------------------------------------------------------------------ properties

  /** Slicing yields `(height // ts) * (width // ts)` tiles, numbered in order. */
  lemma SliceCount(image: Image, tileSize: int)
    requires tileSize > 0
    ensures var tiles := Slice(Rows(image, tileSize), Cols(image, tileSize), tileSize);
            && |tiles| == (image.height / tileSize) * (image.width / tileSize)
            && forall k :: 0 <= k < |tiles| ==> tiles[k].index == k
  {
  }

  /** Every tile lies inside the image, and inside the part of it made of
      whole tiles; the strip left over on the right and at the bottom is
      narrower than a tile and belongs to no tile. */
  lemma SliceInsideImage(image: Image, tileSize: int, k: nat)
    requires tileSize > 0
    requires k < |Slice(Rows(image, tileSize), Cols(image, tileSize), tileSize)|
    ensures var cols, rows := image.width / tileSize, image.height / tileSize;
            var t := Slice(Rows(image, tileSize), Cols(image, tileSize), tileSize)[k].rect;
            && 0 <= t.x && t.x + t.w <= cols * tileSize <= image.width
            && 0 <= t.y && t.y + t.h <= rows * tileSize <= image.height
            && image.width - cols * tileSize < tileSize
            && image.height - rows * tileSize < tileSize
  {
    var cols, rows := image.width / tileSize, image.height / tileSize;
    assert Cols(image, tileSize) == cols && Rows(image, tileSize) == rows;
    assert cols > 0;
    assert Slice(rows, cols, tileSize)[k] == TileAt(k, cols, tileSize);
    TileInside(k, cols, rows, tileSize, image);
  }

  /** The rectangle of tile `k` of a `rows` by `cols` grid cut from `image`. */
  lemma TileInside(k: nat, cols: nat, rows: nat, tileSize: int, image: Image)
    requires tileSize > 0 && cols > 0 && k < rows * cols
    requires cols == image.width / tileSize && rows == image.height / tileSize
    ensures var t := TileAt(k, cols, tileSize).rect;
            && 0 <= t.x && t.x + t.w <= cols * tileSize <= image.width
            && 0 <= t.y && t.y + t.h <= rows * tileSize <= image.height
            && image.width - cols * tileSize < tileSize
            && image.height - rows * tileSize < tileSize
  {
    QuotientBelow(k, cols, rows);
    GridPlace(k % cols, cols, tileSize, image.width);
    GridPlace(k / cols, rows, tileSize, image.height);
  }

  lemma QuotientBelow(k: nat, cols: nat, rows: nat)
    requires cols > 0 && k < rows * cols
    ensures k / cols < rows
  {
    if k / cols >= rows {
      MulMono(rows, k / cols, cols);
    }
  }

  /** Cell `i` of `n = size / ts` cells of width `ts` fits in `[0, n * ts)`,
      which fits in `[0, size)` with less than one cell to spare. */
  lemma GridPlace(i: nat, n: nat, tileSize: int, size: nat)
    requires tileSize > 0 && i < n && n == size / tileSize
    ensures 0 <= i * tileSize && i * tileSize + tileSize <= n * tileSize <= size
    ensures size - n * tileSize < tileSize
  {
    MulMono(i + 1, n, tileSize);
    assert size == n * tileSize + size % tileSize;
  }

  /** Row-major order: the next tile is the right-hand neighbour, or, at the
      end of a row, the first tile of the row below. */
  lemma SliceRowMajor(image: Image, tileSize: int, k: nat)
    requires tileSize > 0
    requires k + 1 < |Slice(Rows(image, tileSize), Cols(image, tileSize), tileSize)|
    ensures var tiles := Slice(Rows(image, tileSize), Cols(image, tileSize), tileSize);
            var a, b := tiles[k].rect, tiles[k + 1].rect;
            if (k + 1) % Cols(image, tileSize) == 0 then b.x == 0 && b.y == a.y + tileSize
            else b.x == a.x + tileSize && b.y == a.y
  {
    var cols, rows := Cols(image, tileSize), Rows(image, tileSize);
    assert Slice(rows, cols, tileSize)[k] == TileAt(k, cols, tileSize);
    assert Slice(rows, cols, tileSize)[k + 1] == TileAt(k + 1, cols, tileSize);
    TileAtNext(k, cols, tileSize);
  }

  /** The tile after tile `k` of a grid `cols` tiles wide. */
  lemma TileAtNext(k: nat, cols: nat, tileSize: int)
    requires cols > 0
    ensures var a, b := TileAt(k, cols, tileSize).rect, TileAt(k + 1, cols, tileSize).rect;
            if (k + 1) % cols == 0 then b.x == 0 && b.y == a.y + tileSize
            else b.x == a.x + tileSize && b.y == a.y
  {
    var q, r := k / cols, k % cols;
    if r + 1 < cols {
      DivModUnique(k + 1, cols, q, r + 1);
    } else {
      DivModUnique(k + 1, cols, q + 1, 0);
    }
  }

  /** Distinct tiles have distinct origins, so no two tiles overlap. */
  lemma SliceDistinct(image: Image, tileSize: int, i: nat, j: nat)
    requires tileSize > 0
    requires i < j < |Slice(Rows(image, tileSize), Cols(image, tileSize), tileSize)|
    ensures var tiles := Slice(Rows(image, tileSize), Cols(image, tileSize), tileSize);
            tiles[i].rect.x != tiles[j].rect.x || tiles[i].rect.y != tiles[j].rect.y
  {
    var cols := Cols(image, tileSize);
    if i % cols != j % cols {
      Cancel(i % cols, j % cols, tileSize);
    } else {
      Cancel(i / cols, j / cols, tileSize);
    }
  }

  lemma Cancel(a: int, b: int, c: int)
    requires c > 0 && a != b
    ensures a * c != b * c
  {
    if a < b { MulMono(a + 1, b, c); } else { MulMono(b + 1, a, c); }
  }

  /** Loading succeeds exactly when the image can be read, the tile size is
      not zero and at least 256 tiles come out of it. */
  lemma LoadSucceedsIff(image: Option<Image>, tileSize: int)
    ensures Load(image, tileSize).Success?
            <==> image.Some? && tileSize != 0
                 && Rows(image.value, tileSize) * Cols(image.value, tileSize) >= 256
  {
  }

  /** A negative tile size makes both floor divisions non-positive, so no
      tile is cut and the byte map cannot be built. */
  lemma NegativeTileSizeFails(image: Image, tileSize: int)
    requires tileSize < 0
    ensures Load(Some(image), tileSize) == Failure(TooFewTiles(0))
  {
    assert Rows(image, tileSize) == 0;
  }

  /** After a successful load byte `b` shows tile `b`, the tile at column
      `b % cols`, row `b / cols`; distinct bytes show distinct tiles. */
  lemma LoadByteMap(image: Option<Image>, tileSize: int, b: byte)
    requires Load(image, tileSize).Success?
    ensures var atlas := Load(image, tileSize).value;
            var cols := Cols(image.value, tileSize);
            && b as int in atlas.charToTile
            && cols > 0
            && atlas.charToTile[b as int] == atlas.tiles[b]
            && atlas.charToTile[b as int] == TileAt(b as nat, cols, tileSize)
            && atlas.charToTile[b as int].index == b as nat
  {
  }

  /** An image one tile wide and 256 tiles high gives exactly 256 tiles, one
      per byte, stacked top to bottom. */
  lemma ColumnAtlas(tileSize: int, b: byte)
    requires tileSize > 0
    ensures var atlas := Load(Some(Image(tileSize, 256 * tileSize)), tileSize);
            && atlas.Success?
            && |atlas.value.tiles| == 256
            && atlas.value.charToTile[b as int] == Tile(b as nat, Rect(0, b as int * tileSize, tileSize, tileSize))
  {
    var image := Image(tileSize, 256 * tileSize);
    DivModUnique(256 * tileSize, tileSize, 256, 0);
    DivModUnique(tileSize, tileSize, 1, 0);
    assert Rows(image, tileSize) == 256 && Cols(image, tileSize) == 1;
  }
}
