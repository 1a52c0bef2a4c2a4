/** The file extension chosen for an embedded audio file from its first
    bytes. */
module Extension {
  import opened BoundedInts

  /** The magic of a RIFF (WAVE) file: "RIFF". */
  const RIFF: seq<uint8> := [0x52, 0x49, 0x46, 0x46]

  /** The magic of an Ogg file: "OggS". */
  const OGGS: seq<uint8> := [0x4F, 0x67, 0x67, 0x53]

  /** `extension_from_magic`: the whole slice is compared with each magic, so
      only a slice that is exactly a magic is recognised. */
  function ExtensionFromMagic(magic: seq<uint8>): (r: string)
    ensures r == "wav" <==> magic == RIFF
    ensures r == "ogg" <==> magic == OGGS
    ensures r == "bin" <==> magic != RIFF && magic != OGGS
  {
    if magic == RIFF then "wav"
    else if magic == OGGS then "ogg"
    else "bin"
  }

  /** A slice of any other length than four is always "bin", even when it
      starts with a magic. */
  lemma OnlyFourBytesRecognised(magic: seq<uint8>)
    requires |magic| != 4
    ensures ExtensionFromMagic(magic) == "bin"
  {
  }
}
