/** The game side of main.py: the `GameState` record the screens read, the
    choice between numbers and placeholders in the status bar, and where the
    galaxy map puts each sector. */
module SuperTrek {
  import opened Wrappers
  import opened PyText
  import opened NumberFormat

  const GridCols := 98
  const GridRows := 50
  const GalaxyWidth := 10
  const GalaxyHeight := 10

  /** `Sector`: counts of starbases, enemies and planets. */
  datatype Sector = Sector(starbases: int, enemies: int, planets: int)

  /** `Sector()` with its defaults. */
  const EmptySector := Sector(0, 0, 0)

  function Max(a: int, b: int): int {
    if a < b then b else a
  }

  // ------------------------------------------------------------------ the game state

  class GameState {
    var currentSector: (int, int)
    var playerPosition: (int, int)
    var klingonsRemaining: int
    var starDate: int
    var timeLeft: int
    var energy: int
    var shields: int
    var galaxyWidth: int
    var galaxyHeight: int
    var sectors: seq<seq<Sector>>
    var gameOver: bool

    /** What every method keeps: energy never goes below zero, and running
        out of it has ended the game. */
    ghost predicate Valid()
      reads this
    {
      energy >= 0 && (energy == 0 ==> gameOver)
    }

    /** `is_game_over`: running out of energy ends the game, and in a valid
        state the flag alone decides. Since the constructor sets the flag and
        nothing clears it, every state reached through these methods reports
        the game as over. */
    predicate IsGameOver(): (over: bool)
      reads this
      ensures energy <= 0 ==> over
      ensures Valid() ==> (over <==> gameOver)
    {
      gameOver || energy <= 0
    }

    /** `__init__(galaxy_width, galaxy_height)`. The flag starts set, so a
        fresh state already reports the game as over. */
    constructor (galaxyWidth: int, galaxyHeight: int)
      ensures currentSector == (0, 0) && playerPosition == (5, 5)
      ensures klingonsRemaining == 3 && starDate == 0 && timeLeft == 0
      ensures energy == 1000 && shields == 500
      ensures this.galaxyWidth == galaxyWidth && this.galaxyHeight == galaxyHeight
      ensures |sectors| == Max(0, galaxyHeight)
      ensures forall y :: 0 <= y < |sectors| ==> |sectors[y]| == Max(0, galaxyWidth)
      ensures forall y, x :: 0 <= y < |sectors| && 0 <= x < |sectors[y]| ==> sectors[y][x] == EmptySector
      ensures gameOver && Valid() && IsGameOver()
    {
      currentSector := (0, 0);
      playerPosition := (5, 5);
      klingonsRemaining := 3;
      starDate := 0;
      timeLeft := 0;
      energy := 1000;
      shields := 500;
      this.galaxyWidth := galaxyWidth;
      this.galaxyHeight := galaxyHeight;
      new;
      sectors := InitSectors();
      gameOver := true;
    }

    /** `init_sectors`: `galaxy_height` rows of `galaxy_width` empty sectors
        (a negative size gives no rows or no columns, as `range` does). */
    function InitSectors(): (grid: seq<seq<Sector>>)
      reads this
      ensures |grid| == Max(0, galaxyHeight)
      ensures forall y :: 0 <= y < |grid| ==> |grid[y]| == Max(0, galaxyWidth)
      ensures forall y, x :: 0 <= y < |grid| && 0 <= x < |grid[y]| ==> grid[y][x] == EmptySector
    {
      var row := seq(Max(0, galaxyWidth), _ => EmptySector);
      seq(Max(0, galaxyHeight), _ => row)
    }

    /** `move_player`: no bounds are checked. */
    method MovePlayer(dx: int, dy: int)
      modifies this
      ensures playerPosition == (old(playerPosition).0 + dx, old(playerPosition).1 + dy)
      ensures currentSector == old(currentSector) && klingonsRemaining == old(klingonsRemaining)
      ensures starDate == old(starDate) && timeLeft == old(timeLeft)
      ensures energy == old(energy) && shields == old(shields) && gameOver == old(gameOver)
      ensures galaxyWidth == old(galaxyWidth) && galaxyHeight == old(galaxyHeight) && sectors == old(sectors)
      ensures old(Valid()) ==> Valid()
      ensures IsGameOver() == old(IsGameOver())
    {
      var (x, y) := playerPosition;
      playerPosition := (x + dx, y + dy);
    }

    /** `consume_energy`: energy drops by `amount` but not below zero, and
        reaching zero ends the game for good. A negative amount adds energy. */
    method ConsumeEnergy(amount: int)
      modifies this
      ensures energy == Max(0, old(energy) - amount)
      ensures gameOver == (old(gameOver) || old(energy) <= amount)
      ensures currentSector == old(currentSector) && playerPosition == old(playerPosition)
      ensures klingonsRemaining == old(klingonsRemaining) && starDate == old(starDate)
      ensures timeLeft == old(timeLeft) && shields == old(shields)
      ensures galaxyWidth == old(galaxyWidth) && galaxyHeight == old(galaxyHeight) && sectors == old(sectors)
      ensures Valid()
      ensures old(gameOver) ==> gameOver
      ensures old(Valid()) && amount >= 0 ==> energy <= old(energy)
    {
      energy := Max(0, energy - amount);
      if energy == 0 {
        gameOver := true;
      }
    }
  }

  // ------------------------------------------------------------------ the status bar

  /** The placeholder character `░` (U+2591, light shade). */
  const Shade: char := '\U{2591}'

  /** The star date, days left and Klingons fields of the status bar: the
      three numbers left aligned in widths 7, 3 and 2 while the game runs,
      shaded placeholders of the same widths once it is over. */
  function StatusFields(gameOver: bool, starDate: int, timeLeft: int, klingons: int): (f: (string, string, string))
    ensures |f.0| == 7 && |f.1| == 3 && |f.2| == 2
  {
    if gameOver then
      ([Shade, Shade, Shade, Shade, Shade, Shade, Shade], [Shade, Shade, Shade], [Shade, Shade])
    else
      PaddedLength(starDate, 7, " ", false);
      PaddedLength(timeLeft, 3, " ", false);
      PaddedLength(klingons, 2, " ", false);
      (PaddedString(starDate, 7, " ", false), PaddedString(timeLeft, 3, " ", false), PaddedString(klingons, 2, " ", false))
  }

  /** What one field shows: shades when the game is over; otherwise the
      number, which `int()` reads back, when it fits, and `9`s when not. */
  predicate Shows(field: string, gameOver: bool, number: int) {
    if gameOver then forall i :: 0 <= i < |field| ==> field[i] == Shade
    else if |IntToDecimal(number)| <= |field| then PyInt(field) == Some(number)
    else forall i :: 0 <= i < |field| ==> field[i] == '9'
  }

  lemma StatusFieldsShow(gameOver: bool, starDate: int, timeLeft: int, klingons: int)
    ensures var f := StatusFields(gameOver, starDate, timeLeft, klingons);
      Shows(f.0, gameOver, starDate) && Shows(f.1, gameOver, timeLeft) && Shows(f.2, gameOver, klingons)
  {
    if !gameOver {
      FieldShows(starDate, 7);
      FieldShows(timeLeft, 3);
      FieldShows(klingons, 2);
    }
  }

  lemma FieldShows(number: int, width: nat)
    ensures |PaddedString(number, width, " ", false)| == width
    ensures Shows(PaddedString(number, width, " ", false), false, number)
  {
    PaddedLength(number, width, " ", false);
    if |IntToDecimal(number)| <= width {
      PaddedSpaceRoundTrip(number, width, ' ', false);
    } else {
      PaddedOverflow(number, width, " ", false);
    }
  }

  // ------------------------------------------------------------------ the galaxy map

  /** The text `__draw_sector` writes for every sector. */
  const SectorText := [Shade, Shade, Shade, Shade, Shade]

  /** Where `GalaxyMap.draw` writes sector (x, y): column `8 + 9x`, row
      `start_row + y + 2`, as (column, row). */
  function SectorOrigin(startRow: int, x: int, y: int): (int, int) {
    (8 + 9 * x, startRow + y + 2)
  }

  /** The origins of one row of sectors, left to right. */
  function RowOrigins(startRow: int, width: int, y: int): (r: seq<(int, int)>)
    ensures |r| == Max(0, width)
  {
    seq(Max(0, width), x => SectorOrigin(startRow, x, y))
  }

  /** The origins in drawing order: row by row, top to bottom. */
  function GalaxyOrigins(startRow: int, width: int, height: int): seq<(int, int)>
    decreases height
  {
    if height <= 0 then []
    else GalaxyOrigins(startRow, width, height - 1) + RowOrigins(startRow, width, height - 1)
  }

  /** The loops of `GalaxyMap.draw` (main.py), collecting where each sector
      is written instead of writing it. */
  method SectorOrigins(startRow: int, width: int, height: int) returns (cells: seq<(int, int)>)
    ensures cells == GalaxyOrigins(startRow, width, height)
  {
    cells := [];
    var y := 0;
    while y < height
      invariant 0 <= y <= Max(0, height)
      invariant cells == GalaxyOrigins(startRow, width, y)
    {
      var row := startRow + y + 2;
      ghost var before := cells;
      var x := 0;
      while x < width
        invariant 0 <= x <= Max(0, width)
        invariant cells == before + RowOrigins(startRow, x, y)
      {
        var col := 8 + x * 9;
        cells := cells + [(col, row)];
        x := x + 1;
      }
      if width < 0 {
        assert |RowOrigins(startRow, width, y)| == 0 == |RowOrigins(startRow, x, y)|;
        assert RowOrigins(startRow, width, y) == RowOrigins(startRow, x, y);
      }
      y := y + 1;
    }
    if height < 0 {
      assert GalaxyOrigins(startRow, width, height) == [];
      assert GalaxyOrigins(startRow, width, y) == [];
    }
  }

  /** The drawing order is row-major: there are `width * height` origins
      and sector (x, y) is written at position `y * width + x`. */
  lemma {:induction false} OriginsRowMajor(startRow: int, width: nat, height: nat)
    ensures RowMajor(startRow, width, height)
    decreases height
  {
    if height > 0 {
      OriginsRowMajor(startRow, width, height - 1);
      RowMajorStep(startRow, width, height);
    }
  }

  /** Adding a row keeps the drawing order row-major. */
  lemma RowMajorStep(startRow: int, width: nat, height: nat)
    requires 0 < height && RowMajor(startRow, width, height - 1)
    ensures RowMajor(startRow, width, height)
  {
    OriginsLength(startRow, width, height);
    forall x, y | 0 <= x < width && 0 <= y < height
      ensures DrawnAt(startRow, width, height, x, y)
    {
      OriginStep(startRow, width, height, x, y);
    }
  }

  lemma {:induction false} OriginsLength(startRow: int, width: nat, height: nat)
    ensures |GalaxyOrigins(startRow, width, height)| == width * height
    decreases height
  {
    if height > 0 {
      OriginsLength(startRow, width, height - 1);
      MulStep(width, height);
    }
  }

  lemma MulStep(width: nat, height: nat)
    requires height > 0
    ensures width * height == width * (height - 1) + width
  {
  }

  /** Sector (x, y) is the `y * width + x`-th origin drawn. */
  predicate RowMajor(startRow: int, width: nat, height: nat) {
    && |GalaxyOrigins(startRow, width, height)| == width * height
    && forall x, y :: 0 <= x < width && 0 <= y < height ==> DrawnAt(startRow, width, height, x, y)
  }

  predicate DrawnAt(startRow: int, width: nat, height: nat, x: nat, y: nat) {
    y * width + x < |GalaxyOrigins(startRow, width, height)|
    && GalaxyOrigins(startRow, width, height)[y * width + x] == SectorOrigin(startRow, x, y)
  }

  lemma OriginStep(startRow: int, width: nat, height: nat, x: nat, y: nat)
    requires 0 < height && x < width && y < height
    requires RowMajor(startRow, width, height - 1)
    ensures |GalaxyOrigins(startRow, width, height)| == width * height
    ensures y * width + x < width * height
    ensures GalaxyOrigins(startRow, width, height)[y * width + x] == SectorOrigin(startRow, x, y)
  {
    RowMajorIndex(x, y, width, height);
    if y < height - 1 {
      assert DrawnAt(startRow, width, height - 1, x, y);
    }
    OriginAt(startRow, width, height, x, y, y * width + x, width * (height - 1));
  }

  /** Origin `k` of `height` rows, from the `n` origins of the rows above the
      last one: an earlier row's origin is kept, the last row's is `n + x`. */
  lemma OriginAt(startRow: int, width: nat, height: nat, x: nat, y: nat, k: int, n: int)
    requires 0 < height && x < width && y < height
    requires |GalaxyOrigins(startRow, width, height - 1)| == n
    requires y < height - 1 ==> 0 <= k < n && GalaxyOrigins(startRow, width, height - 1)[k] == SectorOrigin(startRow, x, y)
    requires y == height - 1 ==> k == n + x
    ensures |GalaxyOrigins(startRow, width, height)| == n + width
    ensures 0 <= k < n + width && GalaxyOrigins(startRow, width, height)[k] == SectorOrigin(startRow, x, y)
  {
  }

  lemma RowMajorIndex(x: nat, y: nat, width: nat, height: nat)
    requires x < width && y < height
    ensures 0 <= y * width + x < width * height
    ensures y < height - 1 ==> y * width + x < width * (height - 1)
    ensures y == height - 1 ==> y * width == width * (height - 1)
    ensures width * height == width * (height - 1) + width
  {
    assert y * width <= (height - 1) * width;
    if y < height - 1 {
      assert (y + 1) * width <= (height - 1) * width;
    }
  }

  /** Two different sectors never share a cell: on one row their five-cell
      texts are nine columns apart. */
  lemma SectorsDisjoint(startRow: int, x: int, y: int, x': int, y': int)
    requires (x, y) != (x', y')
    ensures var (c, r) := SectorOrigin(startRow, x, y);
            var (c', r') := SectorOrigin(startRow, x', y');
            r != r' || c + |SectorText| <= c' || c' + |SectorText| <= c
  {
  }

  /** On the 10 by 10 galaxy drawn from row 5, every sector's text lies
      inside the frame, whose borders sit in columns 1 and 96, and on the
      grid. */
  lemma GalaxyInsideFrame(x: int, y: int)
    requires 0 <= x < GalaxyWidth && 0 <= y < GalaxyHeight
    ensures var (c, r) := SectorOrigin(5, x, y);
            1 < c && c + |SectorText| <= 96 && 96 < GridCols && 0 <= r < GridRows
  {
  }

  // ------------------------------------------------------------------ the bottom border

  /** The row of the galaxy map's bottom border as written: `start_row + 11`,
      whatever the height. */
  function BorderRowAsWritten(startRow: int): int {
    startRow + 11
  }

  /** The bottom border `╚`, 94 times `═`, `╝`, drawn from column 1. */
  const BorderText := ['\U{255a}'] + Repeat(['\U{2550}'], 94) + ['\U{255d}']
  const BorderColumn := 1

  /** With the game's 10 rows of sectors, the border is drawn on the row of
      the last row of sectors, after the sectors were drawn, and it spans
      every column of each of their texts, so it overwrites them. */
  lemma BorderOverwritesLastRow(startRow: int, x: int)
    ensures SectorOrigin(startRow, x, GalaxyHeight - 1).1 == BorderRowAsWritten(startRow)
    ensures 0 <= x < GalaxyWidth ==>
      var c := SectorOrigin(startRow, x, GalaxyHeight - 1).0;
      BorderColumn <= c && c + |SectorText| <= BorderColumn + |BorderText|
  {
  }

  /** The border where it belongs: on the first row below the sectors. */
  function BorderRow(startRow: int, height: int): (row: int)
    ensures forall y :: 0 <= y < height ==> SectorOrigin(startRow, 0, y).1 < row
    ensures height > 0 ==> row == SectorOrigin(startRow, 0, height - 1).1 + 1
  {
    startRow + Max(0, height) + 2
  }

  /** The corrected border leaves every sector of the game's galaxy visible
      and still fits the grid when the map starts at row 5. */
  lemma BorderBelowSectors(x: int, y: int)
    requires 0 <= x < GalaxyWidth && 0 <= y < GalaxyHeight
    ensures SectorOrigin(5, x, y).1 < BorderRow(5, GalaxyHeight) < GridRows
    ensures SectorOrigin(5, x, y).1 != BorderRow(5, GalaxyHeight)
  {
  }
}
