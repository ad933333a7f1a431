# Falling-text engine, modelled in Dafny

This project models the falling-glyph animation engine of `src/js/falling-text.js`.
The engine paints a "digital rain" onto a 2D canvas, which a 3D scene then uses as a texture.
It has four cooperating classes:

- `TextRenderer` owns the canvas geometry. With a font size of 24 it has `height / 24` rows and `width / 24` columns, both real-valued and never floored. It picks random columns, tests for the bottom with a strict `>`, fades the canvas and paints glyphs.
- `TextRepository` is a cyclic glyph supply: a sequence (ten Greek letters by default) and a cursor `n`. The cursor is reset only when it *equals* the length, then post-incremented. A file load replaces the whole sequence.
- `FallingText` is one drop: a glyph, a column `x` and a row `y`. `new()` respawns it at the top. `moveDown()` adds one to the row, and past the bottom a random draw above 0.9 respawns it.
- `RainController` creates nine drops that share one repository and one renderer. Its `render()` is the tick: one fade, then for each drop in array order, paint it and then move it down.

The model has two layers.

- The modules `Geometry`, `Glyphs` and `RainSpec` describe the engine as values, with pure functions for one read of the repository (`NextText`), one spawn (`Spawn`), one move (`MoveDown`), the creation of all drops (`SpawnAll`), one tick (`AdvanceAll`, `TickLog`). The lemmas there prove the engine's properties.
- The module `FallingTextEngine` holds the four classes, with the source's fields and methods. Each method is proved to change its objects exactly as the matching function says.

The environment is abstracted as follows.

- `Math.random()` is a `RandomSource`: a fixed stream of draws in [0, 1) plus the number of draws consumed so far. Which draw an operation sees therefore depends on the order of calls, as it does in the source. `moveDown` draws only when the drop is past the bottom, because `&&` short-circuits, and `new()` draws once for the column.
- The canvas is an append-only log of `Clear` (the translucent fade) and `Draw(text, px, py)` events in `TextRenderer.log`.
- Reading past the end of the repository yields JavaScript's `undefined`, modelled as `Text.Undefined`. `getNextText` is therefore total, as it is in the source.
- Sizes are natural numbers. The row and column counts are exact reals (`height as real / 24.0`). The lemmas show that the real-valued tests agree with the integer tests `row * 24 > height` and `x * 24 < width`.

Two facts about the code shape the model.
- The cursor can equal the length between calls, because the reset happens lazily on the next read. The invariant is therefore `0 <= n <= |repository|` (`Glyphs.CursorValid`), with the sequence non-empty.
- The number of drops is fixed at 9 (`RainSpec.DropCount`).

## Model

| member | source | states |
|---|---|---|
| Geometry.RandomColumn | src/js/falling-text.js:16-18 | defines `getRandomColumn` on values: `floor(r * width / 24)` for the draw `r`; `RandomColumnValid` proves its range |
| Geometry.ReachedBottom | src/js/falling-text.js:19-21 | defines `hasReachedBottom` on values: the strict real test `row > height / 24`; `ReachedBottomIff` gives its integer form |
| Geometry.ReachedBottomIff | src/js/falling-text.js:19-21 | the real-valued test `row > height / 24` holds exactly when `row * 24 > height` |
| Geometry.ValidColumnIff | src/js/falling-text.js:14 | a column lies in `[0, width / 24)` exactly when `0 <= x` and `x * 24 < width` |
| Geometry.RandomColumnValid | src/js/falling-text.js:16-18 | for every draw in [0, 1) and every positive width, `floor(r * width / 24)` is an integer column in `[0, column_count)` |
| Geometry.BottomBoundary | src/js/falling-text.js:13 | when the height is a whole number of rows, the row `row_count` has not reached the bottom and the row after it has (strict boundary) |
| Geometry.BottomOf256 | src/js/falling-text.js:19-21 | on a 256-pixel canvas (10.67 rows), row 10 has not reached the bottom and row 11 has |
| Glyphs.NextText | src/js/falling-text.js:49-54 | defines `getNextText` on values: the lazy reset when the cursor equals the length, the read (`undefined` past the end), the post-increment; `NextTextInBounds`, `CycleOrder` and `StrandedCursor` state its properties |
| Glyphs.NextTextInBounds | src/js/falling-text.js:49-54 | when the sequence is non-empty and the cursor is at most its length, a read uses an index inside the sequence, returns that glyph and keeps the invariant |
| Glyphs.CycleOrder | src/js/falling-text.js:49-54 | the `j`-th of `k` successive reads from cursor `n` returns `repo[(n + j) % L]` for the length `L`; the cursor ends at `(n + k - 1) % L + 1` and the invariant holds |
| Glyphs.CycleRepeats | src/js/falling-text.js:49-54 | from cursor 0, with length `L`, reads `L` to `L + k - 1` repeat reads 0 to `k - 1` exactly |
| Glyphs.DefaultRepeatsAfterTen | src/js/falling-text.js:40-41 | with the 10-entry default, the 11th read returns the same glyph ("α") as the 1st |
| Glyphs.StrandedCursor | src/js/falling-text.js:50-53 | a cursor past the end is never reset by the `===` test: every later read is `undefined` and the cursor grows by one per read |
| Glyphs.InvalidCursorStrands | src/js/falling-text.js:47-54 | after a replacement that leaves the cursor invalid (a sequence shorter than the cursor, or, for an arbitrary `lines`, an empty one), every later read is `undefined`; with `CycleOrder` for a valid cursor, a replacement either resumes the cycle or strands it for good |
| RainSpec.Spawn | src/js/falling-text.js:67-71 | defines `new()` on values: the next glyph, then a column from the next draw, then row 0; `SpawnProperties` states its properties |
| RainSpec.MoveDown | src/js/falling-text.js:75-82 | defines `moveDown()` on values: row plus one, a draw only past the bottom, a respawn when that draw exceeds 0.9; `MoveDownRule`, `MoveDownAboveBottom` and `RespawnProperties` state its properties |
| RainSpec.SpawnAll | src/js/falling-text.js:93-96 | defines the constructor's creation loop on values: `count` spawns in order, threading the shared state; it yields exactly `count` drops, and `SpawnAllProperties` states the rest |
| RainSpec.AdvanceAll | src/js/falling-text.js:102-108 | defines the tick's moves on values: every drop moved down in array order, threading the shared state; it yields one drop per drop, and `AdvanceAllAt` and `TickRowRule` state the rest |
| RainSpec.TickLog | src/js/falling-text.js:98-109 | defines what a tick paints: one `Clear`, then each drop at its pre-move cell in pixels; `TickLogShape` states its shape |
| RainSpec.SpawnProperties | src/js/falling-text.js:67-71 | a spawn sets row 0, a valid column from the next draw and the repository's next glyph, and advances the cursor and the draw count by one each |
| RainSpec.SpawnAllProperties | src/js/falling-text.js:94-96 | drops created in sequence: drop `i` takes the `i`-th glyph handed out and the `i`-th draw, at row 0; cursor and draw count end as after `count` spawns |
| RainSpec.MoveDownAboveBottom | src/js/falling-text.js:75-82 | if `(y + 1) * 24 <= height`, moving down only adds one to the row, keeps glyph and column, and consumes no draw |
| RainSpec.MoveDownRule | src/js/falling-text.js:75-82 | a move either keeps glyph and column and adds one to the row, or it is a respawn; the row becomes 0 exactly when `(y + 1) * 24 > height` and the draw exceeds 0.9 |
| RainSpec.RespawnProperties | src/js/falling-text.js:79-80 | a respawn gives a valid column from the draw after the deciding one and the repository's next glyph; two draws are consumed |
| RainSpec.MoveDownKeepsCursor | src/js/falling-text.js:75-82 | moving down never replaces the sequence, keeps the cursor invariant and consumes at most two draws |
| RainSpec.MoveDownKeepsColumn | src/js/falling-text.js:75-82 | a drop in a valid column (`0 <= x < width / 24`) is still in a valid column after moving down, whether it only moved or respawned |
| RainSpec.AdvanceAllAt | src/js/falling-text.js:102-108 | after a tick, drop `i` is drop `i` moved down in the shared state the drops before it left |
| RainSpec.AdvancePrefixAll | src/js/falling-text.js:102-108 | a tick stopped after its first `k` drops has done exactly what a tick of those `k` drops alone does |
| RainSpec.AdvanceAllKeepsCursor | src/js/falling-text.js:102-108 | a tick keeps the cursor invariant and the sequence |
| RainSpec.TickKeepsColumns | src/js/falling-text.js:102-108 | a tick keeps the column invariant: if every drop is in a valid column before the tick, every drop is after it |
| RainSpec.TickRowRule | src/js/falling-text.js:102-108 | after a tick each drop has moved one row down with the same glyph and column, or has respawned at row 0; away from the bottom it has certainly moved one row down |
| RainSpec.TickLogShape | src/js/falling-text.js:98-109 | a tick paints one `Clear` followed by one `Draw` per drop, in array order, at the pixel position `(x * 24, y * 24)` before the move |
| RainSpec.TickPaintsPreAdvanceRow | src/js/falling-text.js:105-107 | on a canvas at least one cell high, no drop is painted at the row it holds after the tick |
| RainSpec.SpawnFromStart | src/js/falling-text.js:91-96 | as many drops as the sequence has entries, or fewer, created from cursor 0: drop `i` shows `repo[i]` at row 0 in a valid column, and the cursor ends at the number of drops |
| RainSpec.ControllerDrops | src/js/falling-text.js:88-97 | the controller's 9 drops show the first nine default glyphs in order, at row 0, in valid columns; the shared cursor ends at 9 |
| RainSpec.ShortFileAfterStartStrands | src/js/falling-text.js:43-54 | the 9 drops leave the cursor at 9, so a loaded file of fewer than 9 lines strands it: every later glyph is `undefined` |
| RainSpec.FirstTick | src/js/falling-text.js:98-109 | drops at row 0 on a canvas at least one cell high all move to row 1 in one tick with glyph and column kept, and no draw or glyph is consumed |
| RainSpec.FirstTickPaintsTopRow | src/js/falling-text.js:98-109 | in that first tick the canvas gets one `Clear` and then every drop painted in the top pixel row (`py == 0`), and every drop ends at row 1 |
| Random.RandomSource.Next | src/js/falling-text.js:17 | one use of `Math.random()`: the next draw of the stream, which lies in [0, 1); the draw count goes up by one |
| FallingTextEngine.TextRenderer.constructor | src/js/falling-text.js:6-15 | canvas size as given, font size 24, font "24px arial", real row and column counts `height / 24` and `width / 24`, empty canvas log |
| FallingTextEngine.TextRenderer.GetRandomColumn | src/js/falling-text.js:16-18 | returns `floor(r * column_count)` for the next draw `r` and consumes it; the column is valid whenever the width is positive |
| FallingTextEngine.TextRenderer.HasReachedBottom | src/js/falling-text.js:19-21 | true exactly when `row * 24 > height` |
| FallingTextEngine.TextRenderer.ClearCanvas | src/js/falling-text.js:22-25 | appends exactly one `Clear` to the canvas log |
| FallingTextEngine.TextRenderer.Render | src/js/falling-text.js:26-31 | appends exactly one `Draw` of the text at `(x * 24, y * 24)` |
| FallingTextEngine.TextRepository.constructor | src/js/falling-text.js:39-42 | the ten default glyphs and cursor 0, which satisfy the cursor invariant |
| FallingTextEngine.TextRepository.PopulateFromFile | src/js/falling-text.js:43-48 | the whole sequence is replaced in one step and the cursor is left where it was |
| FallingTextEngine.TextRepository.GetNextText | src/js/falling-text.js:49-54 | returns and advances exactly as `Glyphs.NextText`; under the cursor invariant it returns `repository[i]` for an in-range `i` and keeps the invariant |
| FallingTextEngine.FallingText.constructor | src/js/falling-text.js:61-66 | the new drop holds the shared repository and renderer and is spawned at once (`RainSpec.Spawn`) |
| FallingTextEngine.FallingText.New | src/js/falling-text.js:67-71 | drop, cursor and draw count change exactly as `RainSpec.Spawn` says |
| FallingTextEngine.FallingText.Render | src/js/falling-text.js:72-74 | appends the drop's glyph at its current cell, in pixels, to the canvas log |
| FallingTextEngine.FallingText.MoveDown | src/js/falling-text.js:75-82 | drop, cursor and draw count change exactly as `RainSpec.MoveDown` says |
| FallingTextEngine.RainController.constructor | src/js/falling-text.js:88-97 | 9 distinct drops share one fresh repository and the renderer; their states and the shared state are `RainSpec.SpawnAll` of 9 from the default glyphs at cursor 0 |
| FallingTextEngine.RainController.Step | src/js/falling-text.js:103-107 | one pass of the tick's loop body: drop `i` is painted at its old cell and then moved as `RainSpec.MoveDown` says; every other drop keeps its state |
| FallingTextEngine.RainController.Render | src/js/falling-text.js:98-109 | the canvas log grows by `TickLog` of the drops before the tick; the drops and the shared state become `RainSpec.AdvanceAll` of the old ones |
| FallingTextEngine.FirstTickOn256 | src/js/falling-text.js:88-109 | on a 256 x 256 canvas, creating the controller and ticking once paints one `Clear` and nine glyphs in the top pixel row, and leaves each of the nine drop objects at row 1 |

## Left out

- `src/js/index.js` (three.js scene, camera, lights, controls, resize handling, the 100 ms `setInterval` that calls the tick) and the webpack configuration files are not part of this model. `index.js` also calls the engine in ways that do not match it: it builds the controller without a renderer and calls a `getCanvas()` that does not exist.
- The `fetch` and promise chain of `populateFromFile`, the `split('\n')` and the Unicode `toUpperCase` are I/O and library calls. `PopulateFromFile` takes the resulting lines as an opaque sequence and models only the single atomic replacement. A rejected fetch (a network failure) never reaches the replacement, so it leaves the sequence unchanged. An HTTP error response (404, 500) resolves normally, so the sequence is still replaced, by the upper-cased lines of the error body. The opaque `lines` parameter covers that case.
- `PopulateFromFile` accepts any sequence of lines, including the empty one. In the source `split('\n')` always yields at least one line, so an empty repository cannot arise there, and the empty case of `Glyphs.InvalidCursorStrands` is more general than the source.
- The canvas context is a foreign API. The model drops the assignment of the canvas size, `fillStyle`, the 0.05-alpha fade colour, the font setting and the rasterisation of `fillText`. Painting is logged as `Clear` and `Draw` events only. A `Draw` of `Undefined` stands for the canvas painting the word "undefined".
- Floating point: draws and row/column counts are exact reals, not IEEE doubles. For integer rows and canvas sizes, the strict bottom test gives the same answer either way.
- The distribution of `Math.random` is left out, and so is the expected respawn delay of about ten ticks. The model proves only what happens for each given draw.
- `RainController` keeps its shared repository as a ghost field (`textRepo`). The source holds it only in a local variable and in the drops.
- The drops are held in a `seq` rather than an array. The source fills its 9-slot array once in the constructor and never reassigns or resizes it.
