/** The input format rule of `fopen`: the first four bytes of the file pick
    the decoder. Opening the file, rewinding it and the decoders themselves
    are not part of this model. */
module Codec {
  import opened Basics

  newtype Byte = b: int | 0 <= b < 256

  datatype Format = Zstd | Gzip | Plain

  /** `read_exact` on the four-byte buffer fails on a shorter file. */
  datatype OpenError = UnexpectedEof

  /** The four magic bytes of a zstd frame. */
  const ZstdMagic: seq<Byte> := [0x28, 0xb5, 0x2f, 0xfd]

  /** The decision on a full four-byte buffer: zstd when all four bytes are
      the zstd magic, gzip when the first two are `1f 8b`, plain otherwise.
      The two magics differ in their first byte, so the zstd test being made
      first never hides a gzip file. */
  function Classify(magic: seq<Byte>): (f: Format)
    requires |magic| == 4
    ensures f == Zstd <==> magic == ZstdMagic
    ensures f == Gzip <==> magic[0] == 0x1f && magic[1] == 0x8b
    ensures f == Plain <==> magic != ZstdMagic && !(magic[0] == 0x1f && magic[1] == 0x8b)
  {
    if magic == ZstdMagic then Zstd
    else if magic[0] == 0x1f && magic[1] == 0x8b then Gzip
    else Plain
  }

  /** Reading the leading bytes of a file (`head` is its whole content, or
      any prefix of it that has at least four bytes): fewer than four bytes
      is an error, otherwise the format depends on those four bytes only. */
  function Sniff(head: seq<Byte>): (r: Result<Format, OpenError>)
    ensures r.Err? <==> |head| < 4
    ensures r == Ok(Gzip) <==> |head| >= 4 && head[0] == 0x1f && head[1] == 0x8b
    ensures r == Ok(Zstd) <==> |head| >= 4 && head[..4] == ZstdMagic
  {
    if |head| < 4 then Err(UnexpectedEof) else Ok(Classify(head[..4]))
  }

  /** Only the first four bytes count: whatever follows them, and the file
      name, play no part. */
  lemma SniffReadsFourBytes(head: seq<Byte>, rest: seq<Byte>)
    requires |head| >= 4
    ensures Sniff(head + rest) == Sniff(head)
  {
    assert (head + rest)[..4] == head[..4];
  }
}
