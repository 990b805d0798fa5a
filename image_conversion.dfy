/**
 * The image conversions of `ImageConversion` that the asset transforms call.
 * Decoding, redrawing, quantizing and encoding belong to ImageIO, Java2D and the
 * quantizer; they are the uninterpreted, possibly failing functions of
 * `ImageCodecs`. What this model keeps of them is the 16-entry palette handed to
 * the BI_RLE4 writer and the padding repair applied to the writer's output.
 */
module ImageConversion {
  import opened Wrappers
  import opened Rle4Records
  import opened Rle4Properties
  import Palette

  const BitmapFormat := "BMP"
  const PngFormat := "PNG"

  /** An image as `getRGB` scans it: its size and its ARGB pixels, row by row. */
  datatype Raster = Raster(width: nat, height: nat, rgb: seq<int>)

  /** The codec work done by libraries, each step failing the way an `IOException` does. */
  datatype ImageCodecs = ImageCodecs(
    // `convertImage(data, format)`: read, redraw on an opaque RGB canvas, write
    // in `format`, and fail on an empty result
    convertImage: (seq<Byte>, string) -> Result<seq<Byte>>,
    // read, then `QuantizeFilter` to 16 colours with serpentine dithering
    quantize: seq<Byte> -> Result<Raster>,
    // draw the raster into a 4-bit indexed image with the given palette and
    // write it with the BMP writer in BI_RLE4 compression
    writeRle4Bitmap: (Raster, seq<int>) -> Result<seq<Byte>>
  )

  /** `anyToBitmap`. */
  function AnyToBitmap(c: ImageCodecs, data: seq<Byte>): Result<seq<Byte>>
  {
    c.convertImage(data, BitmapFormat)
  }

  /** `bitmapToPng`. */
  function BitmapToPng(c: ImageCodecs, data: seq<Byte>): Result<seq<Byte>>
  {
    c.convertImage(data, PngFormat)
  }

  /** The unrepaired BI_RLE4 stream: the quantized image written with its 16-entry palette. */
  function WrittenRle4(c: ImageCodecs, data: seq<Byte>): Result<seq<Byte>>
  {
    match c.quantize(data)
    case Failure(e) => Failure(e)
    case Ok(img) => c.writeRle4Bitmap(img, Palette.Palette16(img.rgb))
  }

  /**
   * `anyToRLECompressedBitmap`: the written stream, rejected when empty, then
   * repaired. It succeeds exactly when the codecs succeed on a non-empty stream
   * the repair can read to its end; the result is the repaired stream, whose
   * header is the writer's.
   */
  function AnyToRleCompressedBitmap(c: ImageCodecs, data: seq<Byte>): (r: Result<seq<Byte>>)
    ensures r.Ok? <==> WrittenRle4(c, data).Ok? && |WrittenRle4(c, data).value| > 0
                       && Fix(WrittenRle4(c, data).value).Some?
    ensures r.Ok? ==> |r.value| >= HeaderSize
                      && r.value[..HeaderSize] == WrittenRle4(c, data).value[..HeaderSize]
    ensures r.Ok? ==> Fix(WrittenRle4(c, data).value) == Some(r.value)
  {
    match WrittenRle4(c, data)
    case Failure(e) => Failure(e)
    case Ok(raw) =>
      if |raw| == 0 then Failure("Failed to convert image")
      else match Fix(raw)
        case None => Failure("BufferUnderflowException")
        case Some(fixed) => Ok(fixed)
  }

  /**
   * A bitmap `anyToRLECompressedBitmap` returns is the writer's stream with
   * each absolute run re-padded: one byte longer per run of L = 1 (mod 4)
   * pixels, one shorter per run of L = 3 (mod 4), and, when no absolute run
   * has 255 pixels, laid out as the bitmap format prescribes for the writer's runs.
   */
  lemma RleBitmapIsRepairedStream(c: ImageCodecs, data: seq<Byte>)
    requires AnyToRleCompressedBitmap(c, data).Ok?
    ensures var raw, out := WrittenRle4(c, data).value, AnyToRleCompressedBitmap(c, data).value;
      && ParseBody(raw[HeaderSize..]).Some?
      && |out| == |raw| + TotalInserted(ParseBody(raw[HeaderSize..]).value)
                        - TotalDropped(ParseBody(raw[HeaderSize..]).value)
      && (NoFullRuns(ParseBody(raw[HeaderSize..]).value) ==>
            ParseFormat(out[HeaderSize..]) == Some(Runs(ParseBody(raw[HeaderSize..]).value)))
  {
    var raw := WrittenRle4(c, data).value;
    FixLength(raw);
    if NoFullRuns(ParseBody(raw[HeaderSize..]).value) {
      FixConformsToFormat(raw);
    }
  }
}
