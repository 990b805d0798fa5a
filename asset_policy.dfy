/**
 * What each of the three asset transforms does to ONE asset: the conversion it
 * applies on a digest miss, and the MIME tag it leaves on the asset afterwards.
 */
module AssetPolicy {
  import opened Wrappers
  import opened Rle4Records
  import opened ImageConversion
  import opened PackModel

  /** The three transforms of `PackAssetsCompression`. */
  datatype Profile = Compressed | Uncompressed | Firmware2dot4

  /** The two asset slots of a stage node. */
  datatype Kind = Image | Audio

  /** Offsets of the low byte of `biBitCount` and of `biCompression` in a BMP file. */
  const BitCountOffset := 28
  const CompressionOffset := 30

  /**
   * `imageData[28] == 0x04 && imageData[30] == 0x02`, evaluated left to right
   * with Java's short circuit: byte 30 is read only when byte 28 is 4, and a
   * read past the end fails.
   */
  function IsRle4Bitmap(data: seq<Byte>): (r: Result<bool>)
    ensures r.Failure? <==> |data| <= BitCountOffset
                            || (data[BitCountOffset] == 4 && |data| <= CompressionOffset)
    ensures r.Ok? ==> (r.value <==> data[BitCountOffset] == 4 && data[CompressionOffset] == 2)
    ensures |data| > BitCountOffset && data[BitCountOffset] != 4 ==> r == Ok(false)
  {
    if |data| <= BitCountOffset then Failure("ArrayIndexOutOfBoundsException")
    else if data[BitCountOffset] != 4 then Ok(false)
    else if |data| <= CompressionOffset then Failure("ArrayIndexOutOfBoundsException")
    else Ok(data[CompressionOffset] == 2)
  }

  /** `withCompressedAssets` on a miss: only BMP images become PNG. */
  function CompressedImage(cv: Converters, a: Asset): (r: Result<seq<Byte>>)
    ensures a.mimeType != ImageBmp ==> r == Ok(a.rawData)
    ensures a.mimeType == ImageBmp ==> r == BitmapToPng(cv.images, a.rawData)
  {
    if a.mimeType == ImageBmp then BitmapToPng(cv.images, a.rawData) else Ok(a.rawData)
  }

  /** `withCompressedAssets` on a miss: only WAV audio becomes OGG. */
  function CompressedAudio(cv: Converters, a: Asset): (r: Result<seq<Byte>>)
    ensures a.mimeType != AudioWav ==> r == Ok(a.rawData)
    ensures a.mimeType == AudioWav ==> r == cv.waveToOgg(a.rawData)
  {
    if a.mimeType == AudioWav then cv.waveToOgg(a.rawData) else Ok(a.rawData)
  }

  /**
   * `withUncompressedAssets` on a miss: PNG and JPEG are decoded to BMP, a BMP
   * is re-encoded only when its header says 4 bits per pixel and RLE4, and any
   * other tag keeps its bytes.
   */
  function UncompressedImage(cv: Converters, a: Asset): (r: Result<seq<Byte>>)
    ensures a.mimeType !in {ImagePng, ImageJpeg, ImageBmp} ==> r == Ok(a.rawData)
    ensures a.mimeType == ImageBmp && IsRle4Bitmap(a.rawData) == Ok(false) ==> r == Ok(a.rawData)
    ensures a.mimeType == ImageBmp && IsRle4Bitmap(a.rawData).Failure? ==> r.Failure?
    ensures a.mimeType in {ImagePng, ImageJpeg} || (a.mimeType == ImageBmp && IsRle4Bitmap(a.rawData) == Ok(true))
            ==> r == AnyToBitmap(cv.images, a.rawData)
  {
    match a.mimeType
    case ImagePng => AnyToBitmap(cv.images, a.rawData)
    case ImageJpeg => AnyToBitmap(cv.images, a.rawData)
    case ImageBmp =>
      (match IsRle4Bitmap(a.rawData)
       case Failure(e) => Failure(e)
       case Ok(rle4) => if rle4 then AnyToBitmap(cv.images, a.rawData) else Ok(a.rawData))
    case _ => Ok(a.rawData)
  }

  /**
   * `withUncompressedAssets` on a miss: OGG and MPEG are decoded to WAV; WAV,
   * `audio/mp3` and any other tag keep their bytes.
   */
  function UncompressedAudio(cv: Converters, a: Asset): (r: Result<seq<Byte>>)
    ensures a.mimeType !in {AudioOgg, AudioMpeg} ==> r == Ok(a.rawData)
    ensures a.mimeType == AudioOgg ==> r == cv.oggToWave(a.rawData)
    ensures a.mimeType == AudioMpeg ==> r == cv.mp3ToWave(a.rawData)
  {
    if a.mimeType == AudioWav then Ok(a.rawData)
    else match a.mimeType
      case AudioOgg => cv.oggToWave(a.rawData)
      case AudioMpeg => cv.mp3ToWave(a.rawData)
      case _ => Ok(a.rawData)
  }

  /**
   * `withPreparedAssetsFirmware2dot4` on a miss: every image is redrawn as a
   * 16-colour BI_RLE4 bitmap, except a BMP whose header already says so.
   */
  function FirmwareImage(cv: Converters, a: Asset): (r: Result<seq<Byte>>)
    ensures a.mimeType == ImageBmp && IsRle4Bitmap(a.rawData) == Ok(true) ==> r == Ok(a.rawData)
    ensures a.mimeType == ImageBmp && IsRle4Bitmap(a.rawData).Failure? ==> r.Failure?
    ensures a.mimeType != ImageBmp || IsRle4Bitmap(a.rawData) == Ok(false)
            ==> r == AnyToRleCompressedBitmap(cv.images, a.rawData)
  {
    if a.mimeType != ImageBmp then AnyToRleCompressedBitmap(cv.images, a.rawData)
    else match IsRle4Bitmap(a.rawData)
      case Failure(e) => Failure(e)
      case Ok(rle4) => if rle4 then Ok(a.rawData) else AnyToRleCompressedBitmap(cv.images, a.rawData)
  }

  /** An MP3 stream is kept only when it is mono at the MP3 sample rate. */
  function ReencodeUnlessMono44k(cv: Converters, data: seq<Byte>): (r: Result<seq<Byte>>)
    ensures (cv.audioFileFormat(data).Ok?
             && cv.audioFileFormat(data).value == AudioFormat(Channels, Mp3SampleRate)) ==> r == Ok(data)
    ensures (cv.audioFileFormat(data).Ok?
             && cv.audioFileFormat(data).value != AudioFormat(Channels, Mp3SampleRate)) ==> r == cv.anyToMp3(data)
    ensures cv.audioFileFormat(data).Failure? ==> r.Failure?
  {
    match cv.audioFileFormat(data)
    case Failure(e) => Failure(e)
    case Ok(format) =>
      if format.channels != Channels || format.sampleRate != Mp3SampleRate then cv.anyToMp3(data)
      else Ok(data)
  }

  /**
   * `withPreparedAssetsFirmware2dot4` on a miss: audio not tagged MP3 is encoded
   * to MP3; MP3 has its ID3v1 then its ID3v2 tag removed and is re-encoded
   * unless it is already mono at 44.1 kHz.
   */
  function FirmwareAudio(cv: Converters, a: Asset): (r: Result<seq<Byte>>)
    ensures a.mimeType !in {AudioMp3, AudioMpeg} ==> r == cv.anyToMp3(a.rawData)
    ensures a.mimeType in {AudioMp3, AudioMpeg} && cv.removeId3v1Tag(a.rawData).Failure? ==> r.Failure?
    ensures a.mimeType in {AudioMp3, AudioMpeg} && cv.removeId3v1Tag(a.rawData).Ok? ==>
              var noV1 := cv.removeId3v1Tag(a.rawData).value;
              (cv.removeId3v2Tag(noV1).Failure? ==> r.Failure?)
              && (cv.removeId3v2Tag(noV1).Ok? ==> r == ReencodeUnlessMono44k(cv, cv.removeId3v2Tag(noV1).value))
  {
    if a.mimeType != AudioMp3 && a.mimeType != AudioMpeg then cv.anyToMp3(a.rawData)
    else match cv.removeId3v1Tag(a.rawData)
      case Failure(e) => Failure(e)
      case Ok(noV1) =>
        (match cv.removeId3v2Tag(noV1)
         case Failure(e) => Failure(e)
         case Ok(stripped) => ReencodeUnlessMono44k(cv, stripped))
  }

  /** The conversion a transform applies to an asset whose digest it has not seen. */
  function ConvertOnMiss(p: Profile, cv: Converters, kind: Kind, a: Asset): Result<seq<Byte>>
  {
    match (p, kind)
    case (Compressed, Image) => CompressedImage(cv, a)
    case (Compressed, Audio) => CompressedAudio(cv, a)
    case (Uncompressed, Image) => UncompressedImage(cv, a)
    case (Uncompressed, Audio) => UncompressedAudio(cv, a)
    case (Firmware2dot4, Image) => FirmwareImage(cv, a)
    case (Firmware2dot4, Audio) => FirmwareAudio(cv, a)
  }

  /**
   * The tag an asset carries after a transform, hit or miss alike: compression
   * retags only BMP and WAV, the other two retag every asset of a kind.
   */
  function Retag(p: Profile, kind: Kind, t: MimeType): (r: MimeType)
    ensures p == Compressed && kind == Image ==> r != ImageBmp && (t != ImageBmp ==> r == t)
    ensures p == Compressed && kind == Audio ==> r != AudioWav && (t != AudioWav ==> r == t)
    ensures p == Compressed && kind == Image && t == ImageBmp ==> r == ImagePng
    ensures p == Compressed && kind == Audio && t == AudioWav ==> r == AudioOgg
    ensures p == Uncompressed ==> r == (if kind == Image then ImageBmp else AudioWav)
    ensures p == Firmware2dot4 ==> r == (if kind == Image then ImageBmp else AudioMpeg)
  {
    match p
    case Compressed =>
      if t == ImageBmp && kind == Image then ImagePng
      else if t == AudioWav && kind == Audio then AudioOgg
      else t
    case Uncompressed => if kind == Image then ImageBmp else AudioWav
    case Firmware2dot4 => if kind == Image then ImageBmp else AudioMpeg
  }
}
