/** The drawing half of `ARDraw` (ascii_rend.py; `RenderUtils` in main.py is
    a copy). The screen is a grid of cells rather than pixels: drawing a
    glyph fills the cell's `tile_size` square with the background colour and
    lays the tile over it tinted with the foreground colour, so a cell is
    described by the tile index and the two colours. */
module AsciiDraw {
  import opened Wrappers
  import opened Tileset

  /** An RGB triple; the channels are meant to lie in 0..255. */
  datatype Color = Color(r: int, g: int, b: int)

  /** One screen cell: nothing drawn yet, or tile `tile` tinted `fg` over `bg`. */
  datatype Cell = Blank | Glyph(tile: nat, fg: Color, bg: Color)

  /** A single-byte code page such as CP437: the byte a character encodes to,
      or `None` when the code page has no such character. */
  type Codec = char -> Option<byte>

  /** `text.encode(codec)`: all or nothing, one byte per character. */
  function Encode(codec: Codec, text: string): (r: Option<seq<byte>>)
    ensures r.Some? <==> forall i :: 0 <= i < |text| ==> codec(text[i]).Some?
    ensures r.Some? ==> |r.value| == |text|
                        && forall i :: 0 <= i < |text| ==> r.value[i] == codec(text[i]).value
  {
    if text == [] then Some([])
    else match codec(text[0])
      case None => None
      case Some(b) =>
        match Encode(codec, text[1..])
        case None => None
        case Some(rest) => Some([b] + rest)
  }

  /** The pixel square of cell `(col, row)`: origin `(col * ts, row * ts)`. */
  function CellRect(col: int, row: int, tileSize: int): Rect {
    Rect(col * tileSize, row * tileSize, tileSize, tileSize)
  }

  /** Distinct cells cover disjoint pixel squares, which is why a draw call
      can be described cell by cell. */
  lemma CellRectsDisjoint(col: int, row: int, col': int, row': int, tileSize: int)
    requires tileSize > 0 && (col, row) != (col', row')
    ensures var a, b := CellRect(col, row, tileSize), CellRect(col', row', tileSize);
            a.x + a.w <= b.x || b.x + b.w <= a.x || a.y + a.h <= b.y || b.y + b.h <= a.y
  {
    if col < col' {
      MulMono(col + 1, col', tileSize);
    } else if col' < col {
      MulMono(col' + 1, col, tileSize);
    } else if row < row' {
      MulMono(row + 1, row', tileSize);
    } else {
      MulMono(row' + 1, row, tileSize);
    }
  }

  /** Cell `(c, r)` after the bytes `bytes` were drawn from `(col, row)`
      rightwards over a cell that held `prev`: byte `i` lands in
      `(col + i, row)` unless the byte map has no tile for it. */
  function TextCell(prev: Cell, c: int, r: int, bytes: seq<byte>, charToTile: map<int, Tile>,
                    col: int, row: int, fg: Color, bg: Color): Cell
  {
    if r == row && col <= c < col + |bytes| && bytes[c - col] as int in charToTile
    then Glyph(charToTile[bytes[c - col] as int].index, fg, bg)
    else prev
  }

  predicate OnScreen(screen: array2<Cell>, c: int, r: int) {
    0 <= c < screen.Length0 && 0 <= r < screen.Length1
  }

  /** An `ARDraw` object: the tile size, the tiles and the byte map, all
      fixed once construction succeeds. */
  class Renderer {
    const tileSize: int
    const tileSet: seq<Tile>
    const charToTile: map<int, Tile>

    constructor (tileSize: int, atlas: Atlas)
      ensures this.tileSize == tileSize && tileSet == atlas.tiles && charToTile == atlas.charToTile
    {
      this.tileSize := tileSize;
      this.tileSet := atlas.tiles;
      this.charToTile := atlas.charToTile;
    }

    /** `draw_tile`: cell `(col, row)` shows `tile`; a cell off the screen is
        clipped away, as a blit outside the surface is. */
    method DrawTile(screen: array2<Cell>, tile: Tile, col: int, row: int, fg: Color, bg: Color)
      modifies screen
      ensures forall c, r :: OnScreen(screen, c, r) ==>
                screen[c, r] == if c == col && r == row then Glyph(tile.index, fg, bg) else old(screen[c, r])
    {
      if OnScreen(screen, col, row) {
        screen[col, row] := Glyph(tile.index, fg, bg);
      }
    }

    /** `draw_text`: nothing changes when some character has no byte in the
        code page; otherwise byte `i` is drawn at `(col + i, row)` with the
        same colours throughout, a byte without a tile is skipped, and every
        other cell keeps its contents. */
    method DrawText(screen: array2<Cell>, text: string, col: int, row: int, fg: Color, bg: Color, codec: Codec)
      modifies screen
      ensures Encode(codec, text).None? ==>
                forall c, r :: OnScreen(screen, c, r) ==> screen[c, r] == old(screen[c, r])
      ensures Encode(codec, text).Some? ==>
                forall c, r :: OnScreen(screen, c, r) ==>
                  screen[c, r] == TextCell(old(screen[c, r]), c, r, Encode(codec, text).value, charToTile, col, row, fg, bg)
    {
      var encoded := Encode(codec, text);
      if encoded.None? {
        return;
      }
      var bytes := encoded.value;
      var i := 0;
      while i < |bytes|
        invariant 0 <= i <= |bytes|
        invariant forall c, r :: OnScreen(screen, c, r) ==>
                    screen[c, r] == TextCell(old(screen[c, r]), c, r, bytes[..i], charToTile, col, row, fg, bg)
      {
        var b := bytes[i] as int;
        if b in charToTile && OnScreen(screen, col + i, row) {
          screen[col + i, row] := Glyph(charToTile[b].index, fg, bg);
        }
        i := i + 1;
      }
      assert bytes[..i] == bytes;
    }
  }

  /** `ARDraw(tile_size, tileset_path)`: load the tileset, or fail. */
  method NewRenderer(tileSize: int, image: Option<Image>) returns (r: Result<Renderer, LoadError>)
    ensures r.Failure? <==> Load(image, tileSize).Failure?
    ensures r.Failure? ==> r.error == Load(image, tileSize).error
    ensures r.Success? ==> fresh(r.value) && r.value.tileSize == tileSize
                           && Atlas(r.value.tileSet, r.value.charToTile) == Load(image, tileSize).value
  {
    var atlas := LoadTileset(image, tileSize);
    match atlas {
      case Failure(e) => r := Failure(e);
      case Success(a) =>
        var renderer := new Renderer(tileSize, a);
        r := Success(renderer);
    }
  }

  // ------------------------------------------------------------------ properties

  /** Dropping the one unencodable character makes the rest encodable, and
      each remaining character keeps its byte. */
  lemma EncodeWithout(codec: Codec, text: string, j: nat)
    requires j < |text|
    requires forall i :: 0 <= i < |text| && i != j ==> codec(text[i]).Some?
    ensures var rest := text[..j] + text[j + 1..];
            && Encode(codec, rest).Some?
            && |Encode(codec, rest).value| == |text| - 1
            && forall i :: 0 <= i < |rest| ==>
                 Encode(codec, rest).value[i] == codec(text[if i < j then i else i + 1]).value
  {
    var rest := text[..j] + text[j + 1..];
    forall i | 0 <= i < |rest| ensures rest[i] == text[if i < j then i else i + 1] {
    }
  }

  /** With a loaded atlas no byte is ever skipped: the cell `(col + i, row)`
      shows the tile whose index is the byte of the `i`-th character. */
  lemma LoadedTextCell(image: Option<Image>, tileSize: int, codec: Codec, text: string,
                       i: nat, prev: Cell, col: int, row: int, fg: Color, bg: Color)
    requires Load(image, tileSize).Success?
    requires Encode(codec, text).Some? && i < |text|
    ensures TextCell(prev, col + i, row, Encode(codec, text).value, Load(image, tileSize).value.charToTile, col, row, fg, bg)
            == Glyph(codec(text[i]).value as nat, fg, bg)
  {
    LoadByteMap(image, tileSize, codec(text[i]).value);
  }
}
