# Sparkle-Art pixel grid: palette, quantiser and grid state in Dafny

Sparkle-Art is a browser page for "diamond painting". The user picks one of
sixteen fixed colours, clicks cells of a square grid to paint them, and can
import a picture. An import is scaled down to one pixel per cell, and each
pixel is replaced by the nearest palette colour. This project models the
page's state and logic in `app.js`:

- `palette.dfy` (module `Palette`): the sixteen `COLOR_HEXES` identifiers and
  `hexToRgb`. `hexToRgb` is modelled with the JavaScript steps it uses:
  `replace` drops the first `#`, `substr` cuts the string, and base-16
  `parseInt` reads each pair. The module also proves that the identifiers are
  canonical: parsing and formatting undo each other, so no colour appears
  twice.
- `quantizer.dfy` (module `Quantizer`): `rgbToClosestHex`. It is a loop over
  the palette that keeps a running minimum, which starts at `Infinity`. The
  loop is proved against `FirstNearest`, a recursive function. That function
  gives the earliest entry with the least exact squared RGB distance.
- `grid.dfy` (module `Grid`): the page's globals `currentColor`, `gridSize` and
  `gridData` become the fields of class `PaintingState`. `gridData` is a
  sequence of rows that the methods reassign. The class models `setGridSize`,
  the colour pick, the paint step of `handleGridClick`, and the scan loop of
  `importImageToGrid`. The scan reads the canvas's RGBA bytes, which the
  model takes as an input sequence of length `4 * gridSize * gridSize`.

Two behaviours of the page are easy to miss:

- An out-of-range paint is not checked or ignored. `handleGridClick` writes
  wherever the clicked cell's `data-x`/`data-y` point, and those always come
  from a rendered cell. The model therefore makes an in-range coordinate a
  precondition when the press is on a cell.
- The grid does not always have a supported size. Before `init` runs,
  `gridData` is the empty list. `PaintingState.Valid()` (a supported size and
  a square grid) first holds after `Init`, and every later operation
  preserves it.

## Model

| member | source | states |
|---|---|---|
| `Palette.StripFirst` | app.js:161 | `replace("#", "")` leaves a string without `#` unchanged and otherwise removes exactly the first `#` |
| `Palette.Substr` | app.js:163-165 | `substr(start, len)` is at most `len` long and is the slice `[start, start+len)` when that lies inside the string |
| `Palette.ParseHex` | app.js:163-165 | base-16 `parseInt` of a non-empty digit string is below 16 to the power of its length, so a pair reads as 0..255 |
| `Palette.HexToRgb` | app.js:160-167 | for a well-formed `#rrggbb`, each channel is a byte equal to 16 × first digit + second digit of its pair |
| `Palette.FormatThenParse` | app.js:160-167 | parsing the canonical identifier of any byte-valued colour gives that colour back |
| `Palette.ParseThenFormat` | app.js:160-167 | formatting the parsed channels of a lower-case identifier gives the identifier back |
| `Palette.CanonicalInjective` | app.js:160-167 | two different lower-case identifiers parse to different colours |
| `Palette.PaletteSize` | app.js:4-8 | `COLOR_HEXES` has sixteen entries, and its first, the initial colour, is `#ff1744` |
| `Palette.HexToRgbExamples` | app.js:4-8 | `#ff1744` parses to (255, 23, 68), and entry 6 is `#ffffff`, which parses to (255, 255, 255) |
| `Palette.PaletteCanonical` | app.js:4-8 | every palette entry is a lower-case `#rrggbb` identifier |
| `Palette.PaletteHexesDistinct` | app.js:4-8 | no identifier occurs twice in the palette |
| `Palette.PaletteDistinct` | app.js:4-8 | two different palette positions have different channels |
| `Quantizer.SqDist` | app.js:151 | the squared distance is never negative and is zero exactly when the two colours are equal |
| `Quantizer.FirstNearest` | app.js:149-156 | after the first n entries the scan keeps an entry whose distance is at most every visited entry's, and strictly less than every earlier entry's (strict `<` keeps the first of equals) |
| `Quantizer.NearestIndex` | app.js:147-158 | the chosen position has minimal distance over the whole palette, and every earlier position is strictly farther |
| `Quantizer.Nearest` | app.js:147-158 | the identifier the search answers with is a well-formed `#rrggbb` whose parsed colour is at least as near to the input as every palette colour |
| `Quantizer.RgbToClosestHex` | app.js:147-158 | the loop with its `Infinity` start and strict-`<` update returns the identifier at the earliest nearest position |
| `Quantizer.NearestInPalette` | app.js:147-158 | the answer is always one of the palette identifiers |
| `Quantizer.NearestOfEntry` | app.js:149-156 | a colour equal to a palette entry's channels quantises to that entry |
| `Quantizer.NearestOfWhite` | app.js:147-158 | (255, 255, 255) quantises to `#ffffff` |
| `Grid.SizeMapIdentity` | app.js:9-14 | `SIZE_MAP` has exactly the keys 20, 40, 60 and 100, and maps each to itself |
| `Grid.GridSizeFor` | app.js:56 | the size is always supported; it equals the request exactly when the request is a supported size, and it is 20 otherwise |
| `Grid.EmptyGrid` | app.js:64 | the reset grid has n rows of n cells, all empty |
| `Grid.SetCell` | app.js:105 | the written cell holds the new value; the shape, every other cell and every other row are unchanged |
| `Grid.PixelOffset` | app.js:136 | a pixel's offset is a multiple of 4, and the offset + 3 lies inside the `4·n·n` buffer, so every byte read is in bounds |
| `Grid.PixelOffsetInjective` | app.js:134-136 | two different cells read different pixels |
| `Grid.PixelAt` | app.js:137 | the sample read from the buffer is a byte-valued colour |
| `Grid.QuantisePixel` | app.js:136-139 | reading the red, green and blue bytes at the cell's offset and quantising them gives the nearest palette colour of that pixel |
| `Grid.ImportGrid` | app.js:134-141 | the imported grid is n by n, and cell (x, y) is painted with the nearest palette colour of pixel (x, y) |
| `Grid.ImportIgnoresAlpha` | app.js:137 | two buffers that differ only in alpha bytes import to the same grid |
| `Grid.ImportUniformWhite` | app.js:134-141 | a buffer whose colour bytes are all 255 imports as a grid of `#ffffff` |
| `Grid.PaintingState.constructor` | app.js:17-19 | the initial state has colour `COLOR_HEXES[0]`, size 20 and no rows |
| `Grid.PaintingState.Init` | app.js:31 | `init`'s `setGridSize(gridSize)` lays out an empty grid at the looked-up size and keeps the colour |
| `Grid.PaintingState.SetGridSize` | app.js:55-66 | the new size is the looked-up size, the grid is the empty square of that size, and the selected colour is kept |
| `Grid.PaintingState.CellAt` | app.js:79 | `gridData[y][x]` as `renderGrid` reads it: in a valid state every position its loops visit (x and y below `gridSize`) is a readable cell |
| `Grid.PaintingState.PickColor` | app.js:89-96 | a button click with a non-empty colour selects that colour; any other click leaves it; the grid is untouched |
| `Grid.PaintingState.Paint` | app.js:98-107 | a press on cell (x, y) sets exactly that cell to the selected colour; a press elsewhere changes nothing; size, colour and validity are kept |
| `Grid.PaintingState.ImportImage` | app.js:125-144 | the grid becomes the imported grid of the buffer; size, colour and validity are kept; the loop invariant states that before cell (x, y) of the row-major scan the visited cells hold their imported colour and the rest are as they were |

## Left out

- `service-worker.js` is not part of this model. It holds the offline cache: Cache Storage, `fetch` and the install, activate and fetch event handlers. All of it is asynchronous browser I/O.
- DOM rendering and wiring are left out, because they only reflect or forward the state. This covers `renderColorPicker`, `renderGrid` (called after every change), the event listeners in `init`, the `--cell-size` CSS setting in `setGridSize`, and the `selected` class toggling in `handleColorPick`.
- Decoding the uploaded file is left out, because it is asynchronous browser I/O. This covers `handleImageUpload` (`FileReader`, `Image` and its MIME-type check).
- The canvas resampling (`drawImage`, `getImageData`) is a browser primitive. The RGBA buffer it yields is a parameter of `ImportImage`.
- `Palette.HexToRgb` requires a well-formed `#rrggbb` string. On other strings `parseInt` yields `NaN`, and floating-point `NaN` is not modelled. Every palette entry is well formed.
- `Quantizer.RgbToClosestHex` takes unbounded integers. JavaScript numbers are doubles, but every distance here is an exact integer of at most 3 · 255² for byte inputs. Precision loss on huge inputs is not modelled.
- `Grid.GridSizeFor` takes an integer size. `Number(value)` of a non-numeric or fractional select value misses `SIZE_MAP` and also falls back to 20. Such values are not represented.
- `Grid.PaintingState.Paint` requires an in-range coordinate when the press is on a cell. JavaScript's behaviour for an out-of-range index (a `TypeError` for a bad row, a silently grown row for a bad column) is not modelled.
- `Grid.PaintingState.PickColor` and `Grid.PaintingState.Paint` reduce the event-target checks (`tagName === "BUTTON"`, the `grid-cell` class) to a boolean parameter.
- Aliasing between rows of `gridData` is not modelled, because the rows are values. In the page, `setGridSize` builds fresh row arrays, so no two rows alias anyway.
