/**
 * The 16-entry palette that `ImageConversion.redrawIndexedImage` builds from the
 * pixels of the quantized image, before the indexed image is drawn and handed to
 * the BI_RLE4 writer.
 */
module Palette {
  import opened Sequences

  const PaletteSize: nat := 16

  /** Colours are compared as themselves, as `IntStream.distinct()` does. */
  function Colour(argb: int): int
  {
    argb
  }

  /** `Arrays.stream(rgb).distinct().toArray()`: each colour once, in scan order of first occurrence. */
  function DistinctColours(rgb: seq<int>): seq<int>
  {
    DistinctBy(rgb, Colour)
  }

  /** `Arrays.copyOf(a, newLength)` on an `int[]`: truncated, or padded with zeros. */
  function CopyOf(a: seq<int>, newLength: nat): (r: seq<int>)
    ensures |r| == newLength
    ensures forall i :: 0 <= i < newLength ==> r[i] == (if i < |a| then a[i] else 0)
  {
    if newLength <= |a| then a[..newLength] else a + seq(newLength - |a|, _ => 0)
  }

  /** `cmap16`: the palette of the indexed image. */
  function Palette16(rgb: seq<int>): seq<int>
  {
    CopyOf(DistinctColours(rgb), PaletteSize)
  }

  /**
   * The palette has 16 entries. The first ones are the first colours of the scan,
   * row by row, each once and in the order of their first pixel; colours beyond
   * the sixteenth are dropped and missing entries are 0. With at most 16 colours,
   * every colour of the image is in the palette.
   */
  lemma PaletteIsFirstSixteenColours(rgb: seq<int>)
    ensures var p, k := Palette16(rgb), |DistinctColours(rgb)|;
      && |p| == PaletteSize
      && (forall i :: k <= i < PaletteSize ==> p[i] == 0)
      && (forall i :: 0 <= i < k && i < PaletteSize ==> p[i] in rgb)
      && (forall i, j :: 0 <= i < j < k && j < PaletteSize ==>
            p[i] != p[j] && FirstIndexBy(rgb, Colour, p[i]) < FirstIndexBy(rgb, Colour, p[j]))
      && (k <= PaletteSize ==> forall c :: c in rgb ==> c in p)
      && (forall c :: c in rgb && c !in p[..if k < PaletteSize then k else PaletteSize] ==>
            k > PaletteSize && FirstIndexBy(rgb, Colour, p[PaletteSize - 1]) < FirstIndexBy(rgb, Colour, c))
  {
    PaletteDropsOnlyLaterColours(rgb);
    var d := DistinctColours(rgb);
    var p := Palette16(rgb);
    DistinctByUnique(rgb, Colour);
    DistinctByFirstOccurrences(rgb, Colour);
    forall i | 0 <= i < |d| && i < PaletteSize ensures p[i] == d[i] && p[i] in rgb {
    }
    forall i, j | 0 <= i < j < |d| && j < PaletteSize
      ensures p[i] != p[j] && FirstIndexBy(rgb, Colour, p[i]) < FirstIndexBy(rgb, Colour, p[j])
    {
      assert Colour(d[i]) != Colour(d[j]);
    }
    if |d| <= PaletteSize {
      forall c | c in rgb ensures c in p {
        var k :| 0 <= k < |rgb| && rgb[k] == c;
        DistinctBySameKeys(rgb, Colour, c);
        assert Colour(rgb[k]) == c;
        var j :| 0 <= j < |d| && Colour(d[j]) == c;
        assert p[j] == d[j];
      }
    }
  }

  /** A colour of the image left out of the palette first occurs after every colour kept. */
  lemma PaletteDropsOnlyLaterColours(rgb: seq<int>)
    ensures var p, k := Palette16(rgb), |DistinctColours(rgb)|;
      (forall i :: 0 <= i < k && i < PaletteSize ==> HasKey(rgb, Colour, p[i]))
    ensures var p, k := Palette16(rgb), |DistinctColours(rgb)|;
      forall c :: c in rgb && c !in p[..if k < PaletteSize then k else PaletteSize] ==>
        k > PaletteSize && FirstIndexBy(rgb, Colour, p[PaletteSize - 1]) < FirstIndexBy(rgb, Colour, c)
  {
    var d := DistinctColours(rgb);
    var p := Palette16(rgb);
    var kept := p[..if |d| < PaletteSize then |d| else PaletteSize];
    DistinctByFirstOccurrences(rgb, Colour);
    forall c | c in rgb && c !in kept
      ensures |d| > PaletteSize && FirstIndexBy(rgb, Colour, p[PaletteSize - 1]) < FirstIndexBy(rgb, Colour, c)
    {
      DistinctBySameKeys(rgb, Colour, c);
      var j :| 0 <= j < |d| && Colour(d[j]) == c;
      assert j >= PaletteSize;
      assert Colour(d[PaletteSize - 1]) == p[PaletteSize - 1];
    }
  }
}
