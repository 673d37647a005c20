/** The fixed colour palette of the painting page and the parsing of its
    "#rrggbb" identifiers into integer channels. */
module Palette {

  /** An RGB triple; `hexToRgb` returns the three channels as a list. */
  datatype Rgb = Rgb(r: int, g: int, b: int) {
    /** Every channel is a byte value. */
    predicate InByteRange() {
      0 <= r < 256 && 0 <= g < 256 && 0 <= b < 256
    }
  }

  /** The sixteen palette entries, in the order the page offers them. */
  const ColorHexes: seq<string> := [
    "#ff1744", "#ff9100", "#fff700", "#69f0ae", "#00b0ff", "#d500f9",
    "#ffffff", "#bdbdbd", "#3e2723", "#212121", "#1976d2", "#43a047",
    "#fbc02d", "#f06292", "#8d6e63", "#00e676"
  ]

  /** The palette has sixteen entries, and the page starts on the first,
      "#ff1744". */
  lemma PaletteSize()
    ensures |ColorHexes| == 16 && ColorHexes[0] == "#ff1744"
  {
  }

  /** A digit `parseInt(_, 16)` accepts: either case for a..f. */
  predicate IsHexDigit(ch: char) {
    ('0' <= ch <= '9') || ('a' <= ch <= 'f') || ('A' <= ch <= 'F')
  }

  predicate AllHexDigits(s: string) {
    forall i :: 0 <= i < |s| ==> IsHexDigit(s[i])
  }

  function HexDigitValue(ch: char): (v: nat)
    requires IsHexDigit(ch)
    ensures v < 16
  {
    if '0' <= ch <= '9' then ch as int - '0' as int
    else if 'a' <= ch <= 'f' then ch as int - 'a' as int + 10
    else ch as int - 'A' as int + 10
  }

  /** The lower-case digit for a value below 16, as the palette writes it. */
  function HexDigit(v: nat): (ch: char)
    requires v < 16
    ensures IsHexDigit(ch) && HexDigitValue(ch) == v
    ensures '0' <= ch <= '9' || 'a' <= ch <= 'f'
  {
    if v < 10 then ('0' as int + v) as char else ('a' as int + v - 10) as char
  }

  /** A colour written as "#" followed by exactly six hex digits. */
  predicate WellFormedHex(s: string) {
    |s| == 7 && s[0] == '#' &&
    IsHexDigit(s[1]) && IsHexDigit(s[2]) && IsHexDigit(s[3]) &&
    IsHexDigit(s[4]) && IsHexDigit(s[5]) && IsHexDigit(s[6])
  }

  /** A well-formed colour whose letters are all lower case. */
  predicate CanonicalHex(s: string) {
    WellFormedHex(s) &&
    forall i :: 1 <= i < 7 ==> !('A' <= s[i] <= 'F')
  }

  /** The value of the two-digit pair `hi lo`, read independently of the parser. */
  function PairValue(hi: char, lo: char): int
    requires IsHexDigit(hi) && IsHexDigit(lo)
  {
    16 * HexDigitValue(hi) + HexDigitValue(lo)
  }

  function Pow16(n: nat): (p: nat)
    ensures p >= 1
  {
    if n == 0 then 1 else 16 * Pow16(n - 1)
  }

  /** Position of the first occurrence of `c` in `s`. */
  function IndexOf(s: string, c: char): (i: nat)
    requires c in s
    ensures i < |s| && s[i] == c && c !in s[..i]
  {
    if s[0] == c then 0 else 1 + IndexOf(s[1..], c)
  }

  /** `s.replace(c, "")` with a one-character string pattern: only the first
      occurrence of `c` is removed. */
  function StripFirst(s: string, c: char): (t: string)
    ensures c !in s ==> t == s
    ensures c in s ==> t == s[..IndexOf(s, c)] + s[IndexOf(s, c) + 1..]
  {
    if s == [] then []
    else if s[0] == c then s[1..]
    else
      var rest := StripFirst(s[1..], c);
      assert c in s ==> s[..IndexOf(s, c)] == [s[0]] + s[1..][..IndexOf(s[1..], c)];
      [s[0]] + rest
  }

  /** `s.substr(start, len)` for a non-negative start and length. */
  function Substr(s: string, start: nat, len: nat): (t: string)
    ensures |t| <= len
    ensures start + len <= |s| ==> t == s[start..start + len]
  {
    if start >= |s| then []
    else if start + len <= |s| then s[start..start + len]
    else s[start..]
  }

  /** `parseInt(s, 16)` on a non-empty string of hex digits. */
  function ParseHex(s: string): (v: nat)
    requires |s| > 0 && AllHexDigits(s)
    ensures v < Pow16(|s|)
  {
    if |s| == 1 then HexDigitValue(s[0])
    else 16 * ParseHex(s[..|s| - 1]) + HexDigitValue(s[|s| - 1])
  }

  lemma ParsePair(s: string)
    requires |s| == 2 && AllHexDigits(s)
    ensures ParseHex(s) == PairValue(s[0], s[1])
  {
    assert s[..1] == [s[0]];
  }

  /** `hexToRgb`: drop the "#", then parse the three two-digit pairs. */
  function HexToRgb(hex: string): (c: Rgb)
    requires WellFormedHex(hex)
    ensures c.InByteRange()
    ensures c.r == PairValue(hex[1], hex[2])
    ensures c.g == PairValue(hex[3], hex[4])
    ensures c.b == PairValue(hex[5], hex[6])
  {
    var h := StripFirst(hex, '#');
    assert h == hex[1..];
    ParsePair(Substr(h, 0, 2));
    ParsePair(Substr(h, 2, 2));
    ParsePair(Substr(h, 4, 2));
    Rgb(ParseHex(Substr(h, 0, 2)), ParseHex(Substr(h, 2, 2)), ParseHex(Substr(h, 4, 2)))
  }

  /** The canonical lower-case "#rrggbb" identifier of a byte-valued colour. */
  function FormatHex(c: Rgb): (s: string)
    requires c.InByteRange()
    ensures CanonicalHex(s)
  {
    ['#', HexDigit(c.r / 16), HexDigit(c.r % 16),
          HexDigit(c.g / 16), HexDigit(c.g % 16),
          HexDigit(c.b / 16), HexDigit(c.b % 16)]
  }

  /** Parsing a formatted colour gives the colour back. */
  lemma FormatThenParse(c: Rgb)
    requires c.InByteRange()
    ensures HexToRgb(FormatHex(c)) == c
  {
  }

  /** A lower-case pair survives parsing and re-formatting. */
  lemma PairRoundTrip(hi: char, lo: char)
    requires IsHexDigit(hi) && !('A' <= hi <= 'F')
    requires IsHexDigit(lo) && !('A' <= lo <= 'F')
    ensures HexDigit(PairValue(hi, lo) / 16) == hi
    ensures HexDigit(PairValue(hi, lo) % 16) == lo
  {
    var v := PairValue(hi, lo);
    assert v / 16 == HexDigitValue(hi) && v % 16 == HexDigitValue(lo);
  }

  /** Formatting a parsed canonical colour gives the identifier back: for
      lower-case identifiers such as the palette's, text and channels carry
      the same information. */
  lemma ParseThenFormat(s: string)
    requires CanonicalHex(s)
    ensures FormatHex(HexToRgb(s)) == s
  {
    PairRoundTrip(s[1], s[2]);
    PairRoundTrip(s[3], s[4]);
    PairRoundTrip(s[5], s[6]);
  }

  /** Every palette entry is a canonical identifier. */
  lemma PaletteCanonical()
    ensures forall h :: h in ColorHexes ==> CanonicalHex(h)
  {
  }

  lemma EntryCanonical(i: nat)
    requires i < |ColorHexes|
    ensures CanonicalHex(ColorHexes[i])
  {
    PaletteCanonical();
  }

  /** The channels of palette entry `i`, as `hexToRgb` computes them. */
  function EntryRgb(i: nat): (c: Rgb)
    requires i < |ColorHexes|
    ensures c.InByteRange()
  {
    EntryCanonical(i);
    HexToRgb(ColorHexes[i])
  }

  /** The channels of the whole palette, entry by entry. */
  function PaletteRgb(): (p: seq<Rgb>)
    ensures |p| == |ColorHexes|
    ensures forall i :: 0 <= i < |p| ==> p[i].InByteRange()
  {
    seq(|ColorHexes|, i requires 0 <= i < |ColorHexes| => EntryRgb(i))
  }

  /** The worked examples: "#ff1744" is (255, 23, 68) and the palette's
      white entry, "#ffffff", is (255, 255, 255). */
  lemma HexToRgbExamples()
    ensures HexToRgb("#ff1744") == Rgb(255, 23, 68)
    ensures ColorHexes[6] == "#ffffff" && PaletteRgb()[6] == Rgb(255, 255, 255)
  {
  }

  /** Distinct canonical identifiers name distinct colours. */
  lemma CanonicalInjective(s: string, t: string)
    requires CanonicalHex(s) && CanonicalHex(t) && s != t
    ensures HexToRgb(s) != HexToRgb(t)
  {
    ParseThenFormat(s);
    ParseThenFormat(t);
  }

  /** No identifier appears twice in the palette. */
  lemma PaletteHexesDistinct()
    ensures forall i, j :: 0 <= i < j < |ColorHexes| ==> ColorHexes[i] != ColorHexes[j]
  {
  }

  /** No colour appears twice in the palette. */
  lemma PaletteDistinct(i: nat, j: nat)
    requires i < |ColorHexes| && j < |ColorHexes| && i != j
    ensures PaletteRgb()[i] != PaletteRgb()[j]
  {
    PaletteHexesDistinct();
    EntryCanonical(i);
    EntryCanonical(j);
    CanonicalInjective(ColorHexes[i], ColorHexes[j]);
  }
}
