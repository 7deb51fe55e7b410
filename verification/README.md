# Edie Quest — a Dafny model of the game core

Edie Quest is a small browser game. The player (Megan) walks right towards a
dog (Edie). On the way she collects four dog treats. The game is won when she
reaches Edie. Almost all of the code draws on a canvas. This project models
the parts that compute something:

- **Sprite pre-processing** (`removeBackground`, `trimTransparent`). Every
  sprite is first chroma-keyed: a pixel whose colour is within 30 of the
  top-left pixel's colour on each of red, green and blue gets alpha 0. The
  sprite is then cropped to the smallest rectangle holding every pixel with
  non-zero alpha. A fully transparent sprite is returned unchanged.
- **The game state machine**. It has three screens, TITLE, PLAYING and WIN,
  and a set of pressed keys. Each frame, `update` moves the player by
  `PLAYER_SPEED`, clamps her to the canvas, collects treats within 30 pixels
  and enters WIN within 50 pixels of Edie.

Modules:

- `Pixels` (pixels.dfy): the RGBA `ImageData` buffer as `width`, `height` and
  a flat `seq<Byte>`, four bytes per pixel in row-major order. Also the
  index arithmetic.
- `ChromaKey` (chroma_key.dfy): `RemoveBackground`, the reference function,
  and `RemoveBackgroundInPlace`, the in-place loop `removeBackground` runs.
- `Search` (search.dfy): the first and last index in a range that satisfies a
  predicate.
- `Trim` (trim.dfy): the bounding box as a specification
  (`IsBoundingBox`) and as a reference function (`BoundingBox`, built from
  the first and last opaque column and row). Also `ScanBounds`, the nested
  min/max scan of `trimTransparent`, the region copy done by `drawImage`, and
  `TrimmedImage` / `TrimTransparent`.
- `Sprites` (sprites.dfy): the pipeline `init` applies to each loaded
  sprite, chroma-key and then trim.
- `Types` (types.dfy): the constants `CANVAS_WIDTH`, `GROUND_Y` and
  `PLAYER_SPEED` (written `CanvasWidth`, `GroundY`, `PlayerSpeed`), the
  `GameState` enum and the `Treat` record from src/types.ts:1-17.
- `GameLogic` (game.dfy): the game record, the key handlers, `update`, and
  runs of events (`Press`, `Release`, `Frame`).

Canvas `getImageData` throws an `IndexSizeError` for a zero-width or
zero-height rectangle. Both sprite passes therefore return `Err` for such an
image. Otherwise they return `Ok`.

## Model

| member | source | states |
|---|---|---|
| ChromaKey.RemoveBackground | src/game.ts:81-112 | A zero-sized image is an error. Otherwise the buffer keeps its size and every red, green and blue byte. An alpha byte goes to 0 when its pixel is within 30 of the top-left colour on all three channels, and is untouched otherwise. The top-left pixel always ends up transparent. |
| ChromaKey.RemoveBackgroundInPlace | src/game.ts:91-108 | The in-place loop, which steps four bytes at a time and reads the live buffer, computes exactly the reference result. |
| ChromaKey.ReferencePreserved | src/game.ts:92-94 | The pass leaves the top-left red, green and blue bytes, which are the sampled background colour, unchanged. |
| ChromaKey.RemoveBackgroundIdempotent | src/game.ts:92-106 | Running the pass on its own output changes nothing. |
| ChromaKey.TransparentAfterward | src/game.ts:101-107 | After the pass, a pixel's alpha is 0 exactly when it matched the background or was already transparent. |
| Pixels.OffsetInRange | src/game.ts:126 | For every in-range (x, y), the byte index `(y * width + x) * 4 + 3` used for alpha lies inside the buffer. |
| Trim.BoundingBoxUnique | src/game.ts:119-134 | At most one rectangle holds all opaque pixels and touches an opaque pixel on each of its four edges. |
| Trim.ExtremeEdgesBound | src/game.ts:119-134 | The first and last columns and rows that hold an opaque pixel form such a rectangle. |
| Trim.BoundingBox | src/game.ts:119-134 | When some pixel is opaque, the reference box lies inside the image, contains every opaque pixel, and has an opaque pixel on each edge. |
| Trim.VisitStep | src/game.ts:126-132 | Visiting one pixel extends the scan's knowledge by that pixel: an opaque pixel is inside the updated box, and each edge of that box still touches an opaque pixel. |
| Trim.NextRow | src/game.ts:124-125 | Finishing a row is the same as having scanned every pixel before the start of the next row. |
| Trim.ScanBounds | src/game.ts:119-134 | The nested scan returns the bounding box when some pixel is opaque. When none is, it returns its initial values: minX = width, minY = height, maxX = maxY = 0. |
| Trim.RegionDataPixels | src/game.ts:141-145 | The copied region has four bytes per pixel. Its pixel (x, y) equals the source pixel (x + sx, y + sy) on all four channels. |
| Trim.CopyRegion | src/game.ts:141-145 | The `drawImage` crop onto a fresh canvas yields an sw × sh image. Its pixel (x, y) is the source pixel (x + sx, y + sy). |
| Trim.TrimmedImage | src/game.ts:114-147 | A zero-sized image is an error. A fully transparent image comes back unchanged. Otherwise the result has 1 ≤ trimmedWidth ≤ width and 1 ≤ trimmedHeight ≤ height, is the size of the bounding box, and its pixel (x, y) is the source pixel (x + minX, y + minY). |
| Trim.TrimTransparent | src/game.ts:114-147 | The procedure `trimTransparent` follows (scan, then test whether maxX < minX or maxY < minY, then copy) computes exactly the reference result. |
| Trim.TrimKeepsOpaquePixels | src/game.ts:124-145 | Every opaque pixel (x, y) lies in the box and reappears in the trimmed image at (x − minX, y − minY) with the same alpha. |
| Trim.RegionIsTight | src/game.ts:139-145 | A copy of a bounding-box region has an opaque pixel on each of its own four borders. |
| Trim.TrimmedIsTight | src/game.ts:139-145 | The trimmed image's own bounding box is the whole trimmed image. |
| Trim.SamePixels | src/game.ts:141-145 | Two valid images of the same size with the same pixels are the same image. |
| Trim.TrimIdempotent | src/game.ts:114-147 | Trimming a trimmed sprite changes nothing. |
| Sprites.PrepareSprite | src/game.ts:41-43 | Each sprite is keyed and then trimmed. A zero-sized image is an error. Otherwise the result is a valid image no larger than the input and at least 1 × 1. When keying left nothing opaque, the result is the keyed image itself. Otherwise it has the size of the keyed image's bounding box, and its pixel (x, y) is the keyed pixel (x + minX, y + minY). |
| Sprites.PreparedIsTight | src/game.ts:41-43 | A prepared sprite with any opaque pixel has an opaque pixel on each of its four borders, so no transparent margin survives. |
| GameLogic.CountCollected | src/game.ts:19 | The number of collected treats is at most the number of treats. It is 0 exactly when no treat is collected. |
| GameLogic.InitialTreats | src/game.ts:49-55 | There are four uncollected treats at y = GROUND_Y − 15. The first is at x = 180, consecutive treats are 120 apart, and all lie strictly between the player's start (80) and Edie (650). |
| GameLogic.NewGame | src/game.ts:14-55 | The game starts on the TITLE screen with the player at 80, Edie at 650, facing right and not moving, no keys held, the frame counter at 0, the four initial treats and a treat counter of 0 that matches them. |
| GameLogic.KeyDown | src/game.ts:58-63 | The key becomes held. The screen changes exactly when it is Enter on TITLE, and then only to PLAYING. Nothing else changes. |
| GameLogic.KeyUp | src/game.ts:64-66 | The key is no longer held, other keys are unaffected, and nothing else changes. |
| GameLogic.KeyUpUndoesKeyDown | src/game.ts:58-66 | Pressing and then releasing a key that was not held restores the key set. It restores the whole state unless the press was the Enter that started the game. |
| GameLogic.Clamp | src/game.ts:173-175 | When halfWidth ≤ CANVAS_WIDTH − halfWidth, the result lies in [halfWidth, CANVAS_WIDTH − halfWidth] and an in-range position is left alone. A position left of halfWidth goes to halfWidth, and one right of CANVAS_WIDTH − halfWidth goes to CANVAS_WIDTH − halfWidth. When halfWidth > CANVAS_WIDTH − halfWidth, the result is halfWidth. |
| GameLogic.CollectTreats | src/game.ts:177-183 | Treats keep their place. A treat is collected afterwards exactly when it was already collected or is within 30 of the player. The returned count is the number of flags newly set. |
| GameLogic.Update | src/game.ts:155-189 | animFrame increases by one. Outside PLAYING nothing else changes except that playerMoving is cleared. The only screen change is PLAYING → WIN, taken exactly when the clamped player is within 50 of Edie. The new position is the clamped net displacement of the held keys, and it lies in [halfWidth, CANVAS_WIDTH − halfWidth] when 0 ≤ halfWidth ≤ CANVAS_WIDTH/2. Treats keep their place. In PLAYING a treat is collected afterwards exactly when it was already collected or is within 30 of the new position, and the counter rises by the number of newly collected treats. |
| GameLogic.BothHeldCancel | src/game.ts:161-171 | With a left key and a right key both held, the net move is zero (only the clamp applies), the player faces right and counts as moving. |
| GameLogic.DirectionAfterUpdate | src/game.ts:161-171 | The player counts as moving exactly when a left or right key is held. A right key makes her face right. A left key alone makes her face left. With neither, the facing is kept. |
| GameLogic.StepPreservesConsistent | src/game.ts:178-183 | No event breaks "four treats, counter = number of collected flags", so the counter stays ≤ 4. |
| GameLogic.RunPreservesConsistent | src/game.ts:178-183 | Along any run of key events and frames, treatsCollected equals the number of collected treats and stays within 0..4. |
| GameLogic.CollectedCountMonotone | src/game.ts:178-183 | Setting more collected flags cannot lower the count. |
| GameLogic.RunMonotone | src/game.ts:178-183 | Along any run, treats never move, a collected flag never reverts, and treatsCollected never decreases. |
| GameLogic.RunNeverGoesBack | src/game.ts:155-159 | Along any run, the screen only moves forward in the order TITLE, PLAYING, WIN, and WIN is never left. |
| GameLogic.LeavingTitleNeedsEnter | src/game.ts:58-63 | A run with no Enter keydown stays on TITLE. The player does not move and no treat is collected. |

## Left out

- `CANVAS_HEIGHT`: only the rendering code reads it, so the model has no use for it.
- Rendering (`render`, `drawBackground`, `drawClouds`, `drawSprite`, `drawTreat`, `renderTitle`, `renderPlaying`, `renderWin`): these are canvas drawing calls with no result to check.
- The limb animation in `drawEdieAnimated` and `drawMeganAnimated`: it uses `Math.sin` and floating-point scale factors.
- `SPRITE_SCALE`, `pettingScale` and the player half-width `meganSprite.width * SPRITE_SCALE / 2`: these are floating-point values. `Update` takes `halfWidth` as a parameter instead.
- `loadImage`, the `Promise.all` in `init`, the `addEventListener` wiring, `gameLoop` and `requestAnimationFrame`: these are asynchronous browser plumbing. Key events and frames are explicit `Press`, `Release` and `Frame` steps in `GameLogic.Run`. The model starts from the state `init` leaves (`NewGame`), with the treats laid out and the handlers in place.
- The canvas round trips themselves (`drawImage` into a scratch canvas, `getImageData`, `putImageData`): the buffer is modelled as exact bytes. A browser canvas stores premultiplied alpha, so it may return different colour bytes for partly or fully transparent pixels. The model does not capture this.
- GameLogic.Update: positions are exact reals, not IEEE doubles, and `animFrame` is an unbounded natural number. Rounding in `playerX ± 3` after a fractional clamp, and loss of precision in the frame counter after 2^53 frames, are not modelled.
- GameLogic.KeyDown: key names are arbitrary strings. Browser key-repeat and the exact set of `KeyboardEvent.key` values are not modelled.
