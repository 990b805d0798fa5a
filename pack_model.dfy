/**
 * The story-pack entities the asset transforms read and write: nodes in their
 * stage order, each with an optional image and an optional audio asset, and the
 * library functions the transforms call.
 */
module PackModel {
  import opened Wrappers
  import opened Rle4Records
  import opened ImageConversion

  /** The `MimeType` constants the transforms compare against; any other tag is `Unlisted`. */
  datatype MimeType =
    | ImageBmp | ImagePng | ImageJpeg
    | AudioWav | AudioOgg | AudioMpeg | AudioMp3
    | Unlisted(name: string)

  /** An image or audio asset: its MIME tag and its bytes. */
  datatype Asset = Asset(mimeType: MimeType, rawData: seq<Byte>)

  /** A stage node; `uuid` stands for every field the transforms do not touch. */
  datatype StageNode = StageNode(uuid: string, image: Option<Asset>, audio: Option<Asset>)

  /** A story pack, whose stage nodes the transforms rewrite in place. */
  class StoryPack {
    var stageNodes: seq<StageNode>

    constructor (nodes: seq<StageNode>)
      ensures stageNodes == nodes
    {
      stageNodes := nodes;
    }
  }

  /** What `AudioSystem.getAudioFileFormat` reports of a stream. */
  datatype AudioFormat = AudioFormat(channels: int, sampleRate: int)

  /** `AudioConversion.CHANNELS`: mono. */
  const Channels := 1
  /** `AudioConversion.MP3_SAMPLE_RATE`: 44.1 kHz. */
  const Mp3SampleRate := 44100

  /** The library calls of the transforms, each possibly failing, and the digest. */
  datatype Converters = Converters(
    sha1Hex: seq<Byte> -> string,
    images: ImageCodecs,
    waveToOgg: seq<Byte> -> Result<seq<Byte>>,
    oggToWave: seq<Byte> -> Result<seq<Byte>>,
    mp3ToWave: seq<Byte> -> Result<seq<Byte>>,
    anyToMp3: seq<Byte> -> Result<seq<Byte>>,
    removeId3v1Tag: seq<Byte> -> Result<seq<Byte>>,
    removeId3v2Tag: seq<Byte> -> Result<seq<Byte>>,
    audioFileFormat: seq<Byte> -> Result<AudioFormat>
  )
}
