/** Nearest-palette-colour search: `rgbToClosestHex` scans the palette in
    order and keeps the first entry of least squared RGB distance. */
module Quantizer {
  import opened Palette

  /** The squared Euclidean distance between two colours, computed exactly. */
  function SqDist(a: Rgb, b: Rgb): (d: int)
    ensures d >= 0
    ensures d == 0 <==> a == b
  {
    var dr, dg, db := a.r - b.r, a.g - b.g, a.b - b.b;
    SquareFacts(dr);
    SquareFacts(dg);
    SquareFacts(db);
    dr * dr + dg * dg + db * db
  }

  lemma SquareFacts(x: int)
    ensures x * x >= 0
    ensures x * x == 0 <==> x == 0
  {
    if x > 0 {
      assert x * x >= x;
    } else if x < 0 {
      assert x * x == (-x) * (-x) >= -x;
    }
  }

  /** The running minimum of the scan; it starts out as `Infinity`. */
  datatype Extended = Infinity | Finite(value: int) {
    /** `d < this` as JavaScript compares a number with the running minimum. */
    predicate Exceeds(d: int) {
      Infinity? || d < value
    }
  }

  /** The entry the scan keeps after visiting the first `n` colours of `p`:
      the earliest of least distance to `c`. */
  function FirstNearest(p: seq<Rgb>, c: Rgb, n: nat): (k: nat)
    requires 0 < n <= |p|
    ensures k < n
    ensures forall j :: 0 <= j < n ==> SqDist(c, p[k]) <= SqDist(c, p[j])
    ensures forall j :: 0 <= j < k ==> SqDist(c, p[k]) < SqDist(c, p[j])
  {
    if n == 1 then 0
    else
      var k := FirstNearest(p, c, n - 1);
      if SqDist(c, p[n - 1]) < SqDist(c, p[k]) then n - 1 else k
  }

  /** The palette position `rgbToClosestHex` settles on. */
  function NearestIndex(c: Rgb): (k: nat)
    ensures k < |ColorHexes|
    ensures forall j :: 0 <= j < |ColorHexes| ==> SqDist(c, PaletteRgb()[k]) <= SqDist(c, PaletteRgb()[j])
    ensures forall j :: 0 <= j < k ==> SqDist(c, PaletteRgb()[k]) < SqDist(c, PaletteRgb()[j])
  {
    FirstNearest(PaletteRgb(), c, |PaletteRgb()|)
  }

  /** The palette identifier `rgbToClosestHex` returns: its colour is at
      least as near to `c` as every palette colour. */
  function Nearest(c: Rgb): (h: string)
    ensures WellFormedHex(h)
    ensures forall j :: 0 <= j < |ColorHexes| ==> SqDist(c, HexToRgb(h)) <= SqDist(c, PaletteRgb()[j])
  {
    var k := NearestIndex(c);
    EntryCanonical(k);
    ColorHexes[k]
  }

  /** `rgbToClosestHex(r, g, b)`: one pass over the palette, re-parsing each
      identifier, replacing the best so far only on a strictly smaller
      distance. */
  method RgbToClosestHex(r: int, g: int, b: int) returns (bestHex: string)
    ensures bestHex == Nearest(Rgb(r, g, b))
  {
    var c := Rgb(r, g, b);
    var minDist := Infinity;
    bestHex := ColorHexes[0];
    ghost var p, best := PaletteRgb(), 0;
    for i := 0 to |ColorHexes|
      invariant i == 0 ==> minDist == Infinity && bestHex == ColorHexes[0]
      invariant 0 < i ==> best == FirstNearest(p, c, i)
      invariant 0 < i ==> bestHex == ColorHexes[best]
      invariant 0 < i ==> minDist == Finite(SqDist(c, p[best]))
    {
      var hex := ColorHexes[i];
      EntryCanonical(i);
      var h := HexToRgb(hex);
      assert h == EntryRgb(i) == p[i];
      var dist := SqDist(c, h);
      if minDist.Exceeds(dist) {
        minDist := Finite(dist);
        bestHex := hex;
        best := i;
      }
    }
  }

  /** The search always answers with a palette entry. */
  lemma NearestInPalette(c: Rgb)
    ensures Nearest(c) in ColorHexes
  {
  }

  /** A colour that is exactly a palette entry's maps to that entry; this
      relies on the palette holding no colour twice. */
  lemma NearestOfEntry(i: nat)
    requires i < |ColorHexes|
    ensures Nearest(PaletteRgb()[i]) == ColorHexes[i]
  {
    var c := PaletteRgb()[i];
    var k := NearestIndex(c);
    assert SqDist(c, PaletteRgb()[k]) <= SqDist(c, c) == 0;
    if k != i {
      PaletteDistinct(k, i);
    }
  }

  /** Pure white quantises to the palette's white entry. */
  lemma NearestOfWhite()
    ensures Nearest(Rgb(255, 255, 255)) == "#ffffff"
  {
    HexToRgbExamples();
    NearestOfEntry(6);
  }
}
