/** The painting's state: the selected colour, the grid size and the grid
    of cells, with the operations that reset, paint and import into it. */
module Grid {
  import opened Palette
  import opened Quantizer

  /** One byte of the canvas's RGBA pixel buffer. */
  newtype uint8 = x: int | 0 <= x < 0x100

  /** A grid cell: `null` while unpainted, else a colour identifier. */
  datatype Cell = Empty | Painted(hex: string)

  /** `SIZE_MAP`: the supported grid sizes, each mapped to itself. */
  const SizeMap: map<int, nat> := map[20 := 20, 40 := 40, 60 := 60, 100 := 100]

  /** The supported sizes are 20, 40, 60 and 100, each mapped to itself. */
  lemma SizeMapIdentity()
    ensures SizeMap.Keys == {20, 40, 60, 100}
    ensures forall s :: s in SizeMap ==> SizeMap[s] == s
  {
  }

  /** The size used when a requested size is not supported. */
  const DefaultSize: nat := 20

  /** `SIZE_MAP[size] || 20`: a supported size is kept, anything else
      falls back to the default. */
  function GridSizeFor(size: int): (n: nat)
    ensures n in SizeMap && n > 0
    ensures n == size <==> size in SizeMap
    ensures size !in SizeMap ==> n == DefaultSize
  {
    if size in SizeMap then SizeMap[size] else DefaultSize
  }

  /** `g` has `n` rows of `n` cells each. */
  predicate IsSquare(g: seq<seq<Cell>>, n: nat) {
    |g| == n && forall y :: 0 <= y < n ==> |g[y]| == n
  }

  /** The grid `setGridSize` installs: `n` rows of `n` unpainted cells. */
  function EmptyGrid(n: nat): (g: seq<seq<Cell>>)
    ensures IsSquare(g, n)
    ensures forall y, x :: 0 <= y < n && 0 <= x < n ==> g[y][x] == Empty
  {
    seq(n, _ => seq(n, _ => Empty))
  }

  /** `g[y][x] = v`: one cell changes, every other cell and the shape stay. */
  function SetCell(g: seq<seq<Cell>>, x: nat, y: nat, v: Cell): (g': seq<seq<Cell>>)
    requires y < |g| && x < |g[y]|
    ensures |g'| == |g|
    ensures forall j :: 0 <= j < |g| ==> |g'[j]| == |g[j]|
    ensures g'[y][x] == v
    ensures forall j, i :: 0 <= j < |g| && 0 <= i < |g[j]| && (j != y || i != x) ==> g'[j][i] == g[j][i]
    ensures forall j :: 0 <= j < |g| && j != y ==> g'[j] == g[j]
  {
    g[y := g[y][x := v]]
  }

  /** The buffer offset of the red byte of pixel (x, y) in an n-by-n RGBA
      image; its green and blue bytes follow it, inside the buffer. */
  function PixelOffset(n: nat, x: nat, y: nat): (idx: nat)
    requires x < n && y < n
    ensures idx % 4 == 0
    ensures idx + 3 < 4 * n * n
  {
    assert y * n + x < (y + 1) * n <= n * n by {
      MulMonotone(y + 1, n, n);
    }
    (y * n + x) * 4
  }

  lemma MulMonotone(a: nat, b: nat, n: nat)
    requires a <= b
    ensures a * n <= b * n
  {
  }

  /** Row-major order: every cell of an earlier row comes first. */
  lemma RowMajorOrder(n: nat, x1: nat, y1: nat, x2: nat, y2: nat)
    requires x1 < n && x2 < n && y1 < y2
    ensures y1 * n + x1 < y2 * n + x2
  {
    assert (y1 + 1) * n == y1 * n + n;
    MulMonotone(y1 + 1, y2, n);
  }

  /** Distinct cells read distinct pixels. */
  lemma PixelOffsetInjective(n: nat, x1: nat, y1: nat, x2: nat, y2: nat)
    requires x1 < n && y1 < n && x2 < n && y2 < n
    requires PixelOffset(n, x1, y1) == PixelOffset(n, x2, y2)
    ensures x1 == x2 && y1 == y2
  {
    assert y1 * n + x1 == y2 * n + x2;
    if y1 < y2 {
      RowMajorOrder(n, x1, y1, x2, y2);
    } else if y2 < y1 {
      RowMajorOrder(n, x2, y2, x1, y1);
    }
  }

  /** The (r, g, b) sample of pixel (x, y); the alpha byte is not read. */
  function PixelAt(data: seq<uint8>, n: nat, x: nat, y: nat): (c: Rgb)
    requires |data| == 4 * n * n && x < n && y < n
    ensures c.InByteRange()
  {
    var idx := PixelOffset(n, x, y);
    Rgb(data[idx] as int, data[idx + 1] as int, data[idx + 2] as int)
  }

  /** The three bytes from a pixel's offset on are not its alpha byte. */
  lemma ColourBytes(idx: nat)
    requires idx % 4 == 0
    ensures idx % 4 != 3 && (idx + 1) % 4 != 3 && (idx + 2) % 4 != 3
  {
  }

  /** The body of the import's inner loop: read the red, green and blue
      bytes of pixel (x, y) and quantise them. */
  method QuantisePixel(data: seq<uint8>, n: nat, x: nat, y: nat) returns (hex: string)
    requires |data| == 4 * n * n && x < n && y < n
    ensures hex == Nearest(PixelAt(data, n, x, y))
  {
    var idx := PixelOffset(n, x, y);
    var r, g, b := data[idx], data[idx + 1], data[idx + 2];
    assert PixelAt(data, n, x, y) == Rgb(r as int, g as int, b as int);
    hex := RgbToClosestHex(r as int, g as int, b as int);
  }

  /** The grid an import produces: every cell holds the palette entry
      nearest to its pixel's colour. */
  function ImportGrid(data: seq<uint8>, n: nat): (g: seq<seq<Cell>>)
    requires |data| == 4 * n * n
    ensures IsSquare(g, n)
    ensures forall y, x :: 0 <= y < n && 0 <= x < n ==>
      g[y][x] == Painted(Nearest(PixelAt(data, n, x, y)))
  {
    seq(n, y requires 0 <= y < n =>
      seq(n, x requires 0 <= x < n => Painted(Nearest(PixelAt(data, n, x, y)))))
  }

  /** Alpha bytes have no effect on an import. */
  lemma ImportIgnoresAlpha(data: seq<uint8>, data': seq<uint8>, n: nat)
    requires |data| == |data'| == 4 * n * n
    requires forall i :: 0 <= i < |data| && i % 4 != 3 ==> data[i] == data'[i]
    ensures ImportGrid(data, n) == ImportGrid(data', n)
  {
    forall y, x | 0 <= y < n && 0 <= x < n
      ensures PixelAt(data, n, x, y) == PixelAt(data', n, x, y)
    {
      ColourBytes(PixelOffset(n, x, y));
    }
    var g, g' := ImportGrid(data, n), ImportGrid(data', n);
    forall y | 0 <= y < n ensures g[y] == g'[y] {
      assert forall x :: 0 <= x < n ==> g[y][x] == g'[y][x];
    }
  }

  /** An image whose pixels are all white imports as an all-white grid. */
  lemma ImportUniformWhite(data: seq<uint8>, n: nat)
    requires |data| == 4 * n * n
    requires forall i :: 0 <= i < |data| && i % 4 != 3 ==> data[i] == 255
    ensures forall y, x :: 0 <= y < n && 0 <= x < n ==> ImportGrid(data, n)[y][x] == Painted("#ffffff")
  {
    forall y, x | 0 <= y < n && 0 <= x < n
      ensures ImportGrid(data, n)[y][x] == Painted("#ffffff")
    {
      var idx := PixelOffset(n, x, y);
      ColourBytes(idx);
      assert PixelAt(data, n, x, y) == Rgb(255, 255, 255);
      NearestOfWhite();
    }
  }

  /** The state of the import's row-major scan before cell (x, y): the
      cells already visited hold their imported colour, the others are as
      they were. */
  ghost predicate ScannedUpTo(g: seq<seq<Cell>>, before: seq<seq<Cell>>, want: seq<seq<Cell>>,
                              n: nat, x: nat, y: nat)
  {
    IsSquare(g, n) && IsSquare(before, n) && IsSquare(want, n) && x <= n && y <= n &&
    (forall j, i :: 0 <= j < y && 0 <= i < n ==> g[j][i] == want[j][i]) &&
    (forall i :: 0 <= i < x && y < n ==> g[y][i] == want[y][i]) &&
    (forall i :: x <= i < n && y < n ==> g[y][i] == before[y][i]) &&
    (forall j, i :: y < j < n && 0 <= i < n ==> g[j][i] == before[j][i])
  }

  /** Writing its imported colour into cell (x, y) moves the scan one cell on. */
  lemma ScanStep(g: seq<seq<Cell>>, before: seq<seq<Cell>>, want: seq<seq<Cell>>, n: nat, x: nat, y: nat)
    requires ScannedUpTo(g, before, want, n, x, y) && x < n && y < n
    ensures ScannedUpTo(SetCell(g, x, y, want[y][x]), before, want, n, x + 1, y)
  {
  }

  /** A finished row moves the scan to the start of the next one. */
  lemma ScanNextRow(g: seq<seq<Cell>>, before: seq<seq<Cell>>, want: seq<seq<Cell>>, n: nat, y: nat)
    requires ScannedUpTo(g, before, want, n, n, y) && y < n
    ensures ScannedUpTo(g, before, want, n, 0, y + 1)
  {
  }

  /** Once every row is scanned the grid is the imported one. */
  lemma ScanDone(g: seq<seq<Cell>>, before: seq<seq<Cell>>, want: seq<seq<Cell>>, n: nat)
    requires ScannedUpTo(g, before, want, n, 0, n)
    ensures g == want
  {
    forall j | 0 <= j < n ensures g[j] == want[j] {
      assert forall i :: 0 <= i < n ==> g[j][i] == want[j][i];
    }
  }

  /** The page's mutable state: the selected colour and the grid. */
  class PaintingState {
    var currentColor: string
    var gridSize: nat
    var gridData: seq<seq<Cell>>

    /** The grid has a supported size and is `gridSize` by `gridSize`. */
    predicate Valid()
      reads this
    {
      gridSize in SizeMap && IsSquare(gridData, gridSize)
    }

    /** The state before `init` runs: the first palette colour, the
        default size and no rows yet. */
    constructor ()
      ensures currentColor == ColorHexes[0]
      ensures gridSize == DefaultSize && gridData == []
    {
      currentColor := ColorHexes[0];
      gridSize := DefaultSize;
      gridData := [];
    }

    /** The state part of `init`: lay out the grid at the current size. */
    method Init()
      modifies this
      ensures Valid()
      ensures gridSize == GridSizeFor(old(gridSize)) && gridData == EmptyGrid(gridSize)
      ensures currentColor == old(currentColor)
    {
      SetGridSize(gridSize);
    }

    /** `setGridSize`: pick the size, discard every cell. */
    method SetGridSize(size: int)
      modifies this
      ensures Valid()
      ensures gridSize == GridSizeFor(size) && gridData == EmptyGrid(gridSize)
      ensures currentColor == old(currentColor)
    {
      gridSize := GridSizeFor(size);
      gridData := EmptyGrid(gridSize);
    }

    /** The current cell (x, y), as the renderer reads it. */
    function CellAt(x: nat, y: nat): Cell
      reads this
      requires Valid() && x < gridSize && y < gridSize
    {
      gridData[y][x]
    }

    /** `handleColorPick`: a click on a palette button carrying a colour
        selects that colour; any other click changes nothing. */
    method PickColor(onButton: bool, hex: string)
      modifies this
      ensures currentColor == if onButton && hex != "" then hex else old(currentColor)
      ensures gridSize == old(gridSize) && gridData == old(gridData)
    {
      if onButton && hex != "" {
        currentColor := hex;
      }
    }

    /** `handleGridClick`: a press on cell (x, y) paints it with the
        selected colour; a press elsewhere changes nothing. */
    method Paint(onCell: bool, x: int, y: int)
      requires Valid()
      requires onCell ==> 0 <= x < gridSize && 0 <= y < gridSize
      modifies this
      ensures Valid()
      ensures gridData == if onCell then SetCell(old(gridData), x, y, Painted(currentColor)) else old(gridData)
      ensures gridSize == old(gridSize) && currentColor == old(currentColor)
    {
      if onCell {
        gridData := SetCell(gridData, x, y, Painted(currentColor));
      }
    }

    /** `importImageToGrid`, given the canvas's `gridSize` by `gridSize`
        RGBA buffer: rows top to bottom, cells left to right, each cell
        overwritten once with its pixel's nearest palette colour. */
    method ImportImage(data: seq<uint8>)
      requires Valid() && |data| == 4 * gridSize * gridSize
      modifies this
      ensures Valid() && gridSize == old(gridSize) && currentColor == old(currentColor)
      ensures gridData == ImportGrid(data, gridSize)
    {
      ghost var n, before := gridSize, gridData;
      ghost var want := ImportGrid(data, n);
      for y := 0 to gridSize
        invariant gridSize == n && currentColor == old(currentColor)
        invariant ScannedUpTo(gridData, before, want, n, 0, y)
      {
        for x := 0 to gridSize
          invariant gridSize == n && currentColor == old(currentColor)
          invariant ScannedUpTo(gridData, before, want, n, x, y)
        {
          var hex := QuantisePixel(data, gridSize, x, y);
          ScanStep(gridData, before, want, n, x, y);
          gridData := SetCell(gridData, x, y, Painted(hex));
        }
        ScanNextRow(gridData, before, want, n, y);
      }
      ScanDone(gridData, before, want, n);
    }
  }

  /** A session as the page drives it: reset to 20 by 20, paint the top-left
      cell red, then import an all-white picture. */
  method Session(white: seq<uint8>)
    requires |white| == 4 * 20 * 20
    requires forall i :: 0 <= i < |white| && i % 4 != 3 ==> white[i] == 255
  {
    var s := new PaintingState();
    s.Init();
    s.SetGridSize(20);
    s.PickColor(true, "#ff1744");
    s.Paint(true, 0, 0);
    assert s.CellAt(0, 0) == Painted("#ff1744");
    assert s.CellAt(1, 0) == Empty;
    s.ImportImage(white);
    ImportUniformWhite(white, 20);
    assert s.CellAt(0, 0) == Painted("#ffffff");
  }
}
