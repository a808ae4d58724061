/** Choice of the video encoder for re-encoded slivers (`CODEC_MAP`). */
module Encoder {

  /** Codec name reported by the probe, mapped to an ffmpeg encoder. */
  const CodecMap: map<string, string> :=
    map["h264" := "libx264", "hevc" := "libx265", "vp9" := "libvpx-vp9", "av1" := "libsvtav1"]

  /** Encoder used for a codec the table does not list. */
  const DefaultEncoder: string := "libx264"

  /** `CODEC_MAP.get(inputCodec, 'libx264')`. */
  function EncoderFor(codec: string): (e: string)
    ensures codec == "h264" ==> e == "libx264"
    ensures codec == "hevc" ==> e == "libx265"
    ensures codec == "vp9" ==> e == "libvpx-vp9"
    ensures codec == "av1" ==> e == "libsvtav1"
    ensures codec !in {"h264", "hevc", "vp9", "av1"} ==> e == "libx264"
    ensures e in {"libx264", "libx265", "libvpx-vp9", "libsvtav1"}
  {
    if codec in CodecMap then CodecMap[codec] else DefaultEncoder
  }
}
