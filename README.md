# SuperTrek78 ASCII renderer and game state — a Dafny model

This project models the core of SuperTrek78, a small terminal-style game
drawn with pygame. Screen output comes from a tileset of 256 CP437 glyphs. The modelled parts are:

- **Number fields.** `padded_string` writes an integer into a fixed-width field and saturates to `9`s when the number does not fit. `ascii_rend.py` and `main.py` hold verbatim copies of it; one model serves both (module `NumberFormat`).
- **Tileset geometry.** `__load_tileset` cuts the image into square tiles row by row, and `__build_char_map` maps bytes 0..255 to the first 256 of them (module `Tileset`). The image is known only by its width and height.
- **Drawing.** `draw_tile` and `draw_text` are modelled on a screen that is a two-dimensional array of cells (module `AsciiDraw`). A cell holds the tile index and the two colours drawn into it. Text is encoded all-or-nothing through a single-byte code page.
- **Value casting.** `_cast_value` turns front-matter text into a string, integer, float, boolean, `None` or list (module `SceneCast`). The Python text helpers it relies on are modelled in module `PyText`: `strip`, `lower`, `split`, `int()` and the grammar `float()` accepts.
- **Scene templates.** `parse_scene_template` and `_parse_scene_template_part` are modelled in module `SceneTemplate`.
  - The two regular expressions are written as matching functions, including their backtracking edge cases.
  - The line loop is a method proved equal to a fold over classified lines.
  - That fold is proved to split at the first `---` line into front matter and layout.
- **Game state.** `GameState` is a class with the source's fields, constructor and methods (module `SuperTrek`). Two drawing details of `main.py` are modelled with it:
  - which text the status bar shows;
  - where the galaxy map writes each sector.

File reads become parameters: a `Reader` maps a path to the file's lines, or to `None` when the file cannot be opened. The code page also becomes a parameter (`Codec`).

## Model

| member | source | states |
|---|---|---|
| NumberFormat.PaddedLength | ascii_rend.py:72-88 | with a one-character pad the field has exactly the requested width (zero for a negative width), whether the number fits or not |
| NumberFormat.PaddedOverflow | ascii_rend.py:79-80 | a number wider than the field gives only `9`s, as many as the field is wide; the number is never cut |
| NumberFormat.PaddedFits | ascii_rend.py:81-88 | a number that fits is written in full: after the padding when right aligned, before it otherwise, and every other place holds the pad character |
| NumberFormat.PaddedSpaceRoundTrip | main.py:117-133 | a whitespace-padded field reads back through `int()` as the number, in either alignment, for every whitespace pad except the separator controls U+001C..U+001F |
| NumberFormat.PaddedControlFails | main.py:117-133 | with a separator control U+001C..U+001F as the pad, a field with any padding is refused by `int()` |
| NumberFormat.PaddedZeroRoundTrip | ascii_rend.py:69 | a right-aligned zero-padded field with room to spare reads back through `int()` exactly when the number is not negative |
| NumberFormat.DocExamples | ascii_rend.py:69-71 | the three worked examples of the doc comment hold: `"00025"`, `"125  "`, `"999"` |
| Tileset.LoadTileset | ascii_rend.py:51-64 | the nested row/column loops followed by the byte map give exactly `Load`: tiles in slicing order and a byte map, or the first error raised |
| Tileset.SliceCount | ascii_rend.py:53-61 | slicing yields `(height // ts) * (width // ts)` tiles, tile k numbered k |
| Tileset.SliceInsideImage | ascii_rend.py:57-60 | every tile's rectangle lies inside the whole-tile part of the image; the strip left over is narrower than a tile |
| Tileset.SliceRowMajor | ascii_rend.py:57-59 | each next tile is the right-hand neighbour, or the first tile of the next row at the end of a row |
| Tileset.SliceDistinct | ascii_rend.py:59 | distinct tiles have distinct origins |
| Tileset.LoadSucceedsIff | ascii_rend.py:45-64 | loading succeeds exactly when the image is readable, the tile size is not zero and at least 256 tiles are cut |
| Tileset.NegativeTileSizeFails | ascii_rend.py:53-54 | a negative tile size cuts no tile, so building the byte map fails on index 0 |
| Tileset.LoadByteMap | ascii_rend.py:44-46 | after a successful load every byte is mapped to the tile with that index, at column `b % cols`, row `b // cols` |
| Tileset.ColumnAtlas | ascii_rend.py:51-64 | an image one tile wide and 256 tiles high loads, and byte b shows the tile at pixel row `b * ts` |
| AsciiDraw.Encode | ascii_rend.py:121-125 | encoding succeeds exactly when every character has a byte, and then gives one byte per character, in order |
| AsciiDraw.CellRectsDisjoint | ascii_rend.py:102-104 | different cells cover disjoint pixel squares |
| AsciiDraw.Renderer.DrawTile | ascii_rend.py:93-107 | cell `(col, row)` shows the tile in the given colours; every other cell keeps its contents |
| AsciiDraw.Renderer.DrawText | ascii_rend.py:112-143 | an unencodable text changes nothing; otherwise byte i lands in `(col + i, row)` unless the byte map has no tile for it, and every other cell keeps its contents |
| AsciiDraw.NewRenderer | ascii_rend.py:40 | constructing a renderer fails exactly when loading fails, with the same error; otherwise it holds the loaded tiles and byte map |
| AsciiDraw.EncodeWithout | ascii_rend.py:122 | removing the one unencodable character makes the rest encodable, each character keeping its byte |
| AsciiDraw.LoadedTextCell | ascii_rend.py:127-143 | with a loaded atlas no byte is skipped: cell `(col + i, row)` shows the tile numbered by the i-th character's byte |
| SceneCast.CastValue | ascii_rend.py:170-193 | the result is a list exactly when the stripped text is not quoted and holds a comma; list elements are never lists |
| SceneCast.CastResultSound | ascii_rend.py:171-193 | a string result is the unquoted or the whole stripped text; an integer is what `int()` accepts on text with neither `.` nor `e`/`E`; a float is text with `.` or `e`/`E` that `float()` accepts; booleans and `None` come from their keywords in any case |
| SceneCast.FloatComplete | ascii_rend.py:171-190 | conversely, unquoted, comma-free text that is no keyword, has `.` or `e`/`E`, and that `float()` accepts becomes that float |
| SceneCast.IntComplete | ascii_rend.py:171-191 | conversely, unquoted, comma-free text that is no keyword, has neither `.` nor `e`/`E`, and that `int()` reads as n becomes n, whatever its spelling |
| SceneCast.CastQuoted | ascii_rend.py:173-174 | text in matching quotes casts to the text inside, commas included |
| SceneCast.CastListParts | ascii_rend.py:176-178 | a list has one element per comma-separated part, each the cast of the stripped part, and the parts joined with commas give back the text |
| SceneCast.CastKeyword | ascii_rend.py:180-186 | every spelling of the eight keywords, in any case, casts to its boolean or `None` |
| SceneCast.CastIntRoundTrip | ascii_rend.py:188-191 | `str(n)` casts back to the integer n |
| SceneCast.CastBlank | ascii_rend.py:171-193 | whitespace alone casts to the empty string |
| SceneCast.CastValueAsWritten | ascii_rend.py:170-193 | the code as written raises exactly on unquoted text with a comma, and otherwise never gives a list |
| SceneCast.AsWrittenFailsOnLists | ascii_rend.py:176-178 | the code as written agrees with the intended caster except on lists, where it raises `NameError` |
| SceneCast.AsWrittenRaisesOnComma | ascii_rend.py:178 | any unquoted value with a comma raises as written, where the intended caster gives a list |
| SceneCast.AsWrittenCommaExample | ascii_rend.py:178 | the value `a, b` raises `NameError` as written |
| SceneTemplate.TrimNewlines | ascii_rend.py:221 | the result is the line up to its trailing newlines; no newline is left at its end |
| SceneTemplate.ReadPart | ascii_rend.py:155-165 | an unreadable part gives no lines; a readable one gives as many lines as the file, none ending in a newline |
| SceneTemplate.PartLines | ascii_rend.py:155-165 | an unreadable part gives no lines; a readable one gives one line per file line, each without its trailing newlines |
| SceneTemplate.MatchKeyValue | ascii_rend.py:199 | a match gives a non-empty key of key characters, which starts the line after its indentation, and a non-empty value |
| SceneTemplate.KeyValueShape | ascii_rend.py:199 | only a key/value line matches: the line is indentation, the key, optional whitespace, `:` or `=`, and a rest whose strip is the value, or whose last character is when the rest is blank |
| SceneTemplate.KeyValueRoundTrip | ascii_rend.py:199 | `key: value` or `key = value`, with any whitespace around key and separator, matches and gives back the key and the value |
| SceneTemplate.EntryRoundTrip | ascii_rend.py:224-233 | such a line in the front matter sets that key to that value text, for a key that starts with none of `;`, `//` and `---` |
| SceneTemplate.BlankValue | ascii_rend.py:199 | `key:`, with any indentation and whitespace before the separator, does not match with nothing after it; followed only by whitespace it matches with the last whitespace character, which casts to the empty string |
| SceneTemplate.MatchPlacement | ascii_rend.py:198 | a match gives a non-empty path group |
| SceneTemplate.PlacementShape | ascii_rend.py:198 | only a placement line matches: `[` first, whitespace, the digits of x, whitespace, `,`, whitespace, the digits of y, whitespace, `]`, at least one whitespace character, then the group, which starts with a non-space unless it is the single last character of an all-whitespace tail |
| SceneTemplate.PlacementRoundTrip | ascii_rend.py:198 | `[x, y] path`, with whitespace wherever the pattern allows it, matches with x, y and the path, and the line places that stripped path at (x, y) |
| SceneTemplate.BlankTail | ascii_rend.py:198 | after `]`, whitespace alone matches only when there are at least two characters of it, and the path is then blank |
| SceneTemplate.Entry | ascii_rend.py:224-236 | a front-matter line sets at most one key, a key that does not start like a comment, with a non-empty value text |
| SceneTemplate.PlaceOf | ascii_rend.py:239-246 | a layout line names at most one place, whose path is stripped |
| SceneTemplate.ParseSceneTemplate | ascii_rend.py:196-249 | a missing file raises `FileNotFoundError`; otherwise the front matter comes from the lines before the first divider and the placements from the lines after it (none when there is no divider) |
| SceneTemplate.ParseLine | ascii_rend.py:221-248 | one pass of the loop body is one `Step` over the classified line |
| SceneTemplate.StepDivider | ascii_rend.py:224-226 | a `---` line in the front matter only ends the front matter |
| SceneTemplate.StepFront | ascii_rend.py:227-236 | a skipped or unmatched front-matter line changes nothing; a matching line sets its key to the cast value |
| SceneTemplate.StepLayout | ascii_rend.py:239-248 | a blank or unmatched layout line changes nothing; a matching line appends the placement with the stripped path and the part's lines |
| SceneTemplate.ScanSplits | ascii_rend.py:217-248 | the loop ends with the front matter of the lines before the first divider and the layout of the lines after it, and stays in the front matter exactly when there is no divider |
| SceneTemplate.ScanFront | ascii_rend.py:222-236 | before the divider the loop only gathers attributes |
| SceneTemplate.ScanLayout | ascii_rend.py:237-248 | after the divider the loop only appends placements |
| SceneTemplate.FrontMatterKeys | ascii_rend.py:230-233 | a key is in the attributes exactly when some front-matter line sets it |
| SceneTemplate.FrontMatterLastWins | ascii_rend.py:233 | the last line that sets a key decides its value |
| SceneTemplate.FrontMatterKeyShape | ascii_rend.py:199 | every attribute key is a run of key characters that does not start like a comment |
| SceneTemplate.LayoutReads | ascii_rend.py:246-248 | the placements are the places the layout lines name, in order, each with what the reader gives for its path |
| SceneTemplate.LayoutIgnoresReader | ascii_rend.py:246 | coordinates and paths do not depend on the file system |
| SceneTemplate.DividerFrom | ascii_rend.py:224 | the index found is the first divider line at or after the start, or the end when there is none |
| PyText.StripSpec | ascii_rend.py:171 | `strip()` leaves no whitespace at either end |
| PyText.JoinSplit | ascii_rend.py:177 | joining the parts of `split(",")` with commas gives back the text |
| PyText.PyInt | ascii_rend.py:191 | `int(t)` reads the stripped text, except that a text holding a separator control U+001C..U+001F anywhere is refused, whatever other characters it holds |
| PyText.PyIntControlExample | ascii_rend.py:191 | a no-break space, `5` and U+001C is refused, though the no-break space is skipped as whitespace |
| PyText.IntRoundTrip | ascii_rend.py:191 | `int(str(n)) == n` for every integer n |
| SuperTrek.GameState.constructor | main.py:41-52 | every field starts at its initial value; the sectors form a `height` by `width` grid of empty sectors; the game-over flag is set |
| SuperTrek.GameState.IsGameOver | main.py:60-61 | running out of energy means game over, and in a valid state the flag alone decides |
| SuperTrek.GameState.InitSectors | main.py:54-55 | `galaxy_height` rows of `galaxy_width` empty sectors, no rows or columns for a negative size |
| SuperTrek.GameState.MovePlayer | main.py:64-66 | the position moves by (dx, dy) without a bounds check; nothing else changes |
| SuperTrek.GameState.ConsumeEnergy | main.py:68-71 | energy drops by the amount but not below zero; reaching zero sets the game-over flag, which is never cleared; the invariant is kept |
| SuperTrek.StatusFields | main.py:219-225 | the three status fields are 7, 3 and 2 characters wide |
| SuperTrek.StatusFieldsShow | main.py:219-225 | when the game is over the fields are shaded placeholders; otherwise each shows its number, read back by `int()` when it fits and `9`s when not |
| SuperTrek.SectorOrigins | main.py:298-324 | the nested loops visit the sector origins in drawing order |
| SuperTrek.OriginsRowMajor | main.py:298-324 | there are `width * height` origins and sector (x, y) is drawn `y * width + x`-th, at column `8 + 9x`, row `start_row + y + 2` |
| SuperTrek.SectorsDisjoint | main.py:320-324 | the five-cell texts of two different sectors never overlap |
| SuperTrek.GalaxyInsideFrame | main.py:534 | on the game's 10 by 10 galaxy drawn from row 5, every sector lies inside the frame and on the grid |
| SuperTrek.BorderOverwritesLastRow | main.py:326-332 | as written, the 96-character bottom border is drawn from column 1 on the row of the tenth row of sectors, so it spans every column of each of their texts |
| SuperTrek.BorderRow | main.py:330 | the corrected border row lies below every sector row, directly under the last one |
| SuperTrek.BorderBelowSectors | main.py:326-332 | with the corrected border every sector row of the game's galaxy stays visible and the border fits the grid |

Reference definitions, stated as the source computes them and related to it by the members above: `NumberFormat.PaddedString` is `padded_string` (ascii_rend.py:72-88); `Tileset.Slice`, `Tileset.BuildCharMap` and `Tileset.Load` are the slicing loops, the byte map and the constructor's outcome (ascii_rend.py:45-64); `SceneCast.CastScalar` is the scalar part of `_cast_value` (ascii_rend.py:180-193); `SceneTemplate.Step` and `SceneTemplate.Scan` are one pass and the whole of the loop at ascii_rend.py:217-248; `PyText.Strip`, `PyText.ParseInt` and `PyText.IsFloatLiteral` are `str.strip()`, `int()` on stripped text and the syntax `float()` accepts.

## Left out

- Pixel work: filling, tinting with `BLEND_MULT` and blitting are modelled as a cell holding the tile index and the two colours.
- The CP437 table itself: the code page is the `Codec` parameter. The `print` of the encoding error is left out.
- Image decoding and `convert_alpha`: an image is only its width and height, and an unreadable image is `None`.
- File I/O: files are read through a `Reader` parameter. The generic `Exception` branch of the part reader (UTF-8 decoding errors and the like) folds into the unreadable case. Its diagnostic `print`s are left out.
- SceneTemplate.ParseSceneTemplate: the template file is given as present with its lines or missing (`FileNotFoundError`, ascii_rend.py:212-213). A file that exists but cannot be opened or decoded (a directory, a permission error, `UnicodeDecodeError` at ascii_rend.py:219-220) makes the source raise, and the model has no such case.
- Unicode digits: `\d`, `int()` and `float()` accept non-ASCII decimal digits in Python; the model accepts ASCII digits only.
- Non-ASCII case folding: `lower()` is modelled on ASCII letters only.
- Python's limit on integer string conversion (4300 digits by default since Python 3.11) is not modelled: past it `int()` raises `ValueError`, and so does `str(number)` inside `padded_string` (ascii_rend.py:72-88), which `NumberFormat.PaddedString` always computes.
- SceneCast.CastValue: a float is kept as the literal text `float()` accepts; its binary value is not modelled.
- The pygame window, the event loop, `SuperTrek78`, `ShipStatus` and the frame strings: these are the drawing calls around the modelled fields and coordinates.
- `SectorMap.draw` (main.py:467-510) draws only its header, its row labels and its bottom border: its per-sector draw call (main.py:504) is commented out, so it writes no sector text. Its frame and its loop over the sectors are not modelled.
- `make.py`: packaging, not behaviour.
- `GameState.reset` always raises `TypeError`, because it calls `__init__` without its two arguments; it is not modelled.
- Sectors are values: a sector object shared between grid cells cannot be expressed, and `init_sectors` never shares one.
- SuperTrek.SectorOrigins: collects where each sector text goes; drawing the text itself is `AsciiDraw.Renderer.DrawText`, which is not called here.
- NumberFormat.PaddedLength: stated for a one-character pad only; with a longer pad string the field is longer than requested, and with an empty one shorter.
- The comment above `padded_string` (ascii_rend.py:68-71) speaks of filling a box and gives examples with one-character pads only; `NumberFormat.PaddedLength` states the width for that case.
- SceneTemplate.ParseSceneTemplate: the parser casts values with the corrected caster `SceneCast.CastValue` of the ascii_rend.py:178 finding, so a front-matter value with an unquoted comma gives a list, where the code as written raises `NameError` and the whole parse fails. The comment at ascii_rend.py:175 describes the list; `SceneCast.CastValueAsWritten` models the code as written.
- SceneTemplate.ParseSceneTemplate: the front matter is a `map`, which does not keep the insertion order of the Python `dict`; the placements keep their file order.
- The parser's doc comment describes three-element parts `(x, y, path)`; the code returns four, with the part's lines, which is what the model returns.

## Findings

| source | as written | input that shows it | evidently intended | confidence | as-written member | corrected member |
|---|---|---|---|---|---|---|
| ascii_rend.py:178 | the list branch calls `_cast_value` unqualified inside a static method, a name not in scope | the front-matter line `tags: a, b` raises `NameError` | `ARTemplate._cast_value(x)`, giving a list of cast parts | high, not executed | SceneCast.AsWrittenCommaExample | SceneCast.CastListParts |
| main.py:330 | the bottom border of the galaxy map is drawn at `start_row + 11` | the game's galaxy is 10 rows high, so row y = 9 is drawn at `start_row + 11` and the border is drawn over it | the border on the first row below the sectors, `start_row + height + 2` | high, not executed | SuperTrek.BorderOverwritesLastRow | SuperTrek.BorderBelowSectors |
