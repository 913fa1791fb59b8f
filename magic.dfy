/**
 * `is_pkg`: the first four bytes of a file, read as a little-endian signed
 * 32-bit integer (`struct.unpack("<i", ...)`), must equal 0x474B507F.
 * The file's leading bytes are an input; opening and reading it are not modelled.
 */
module Magic {
  import opened Wrappers

  type Byte = x: int | 0 <= x < 256

  /** The magic number `is_pkg` compares against. */
  const PkgMagic: int := 0x474B507F

  /** `struct.unpack("<i", ...)` on four bytes: little-endian, two's complement. */
  function Int32LE(b0: Byte, b1: Byte, b2: Byte, b3: Byte): (v: int)
    ensures -0x8000_0000 <= v < 0x8000_0000
  {
    var u := b0 + 0x100 * b1 + 0x1_0000 * b2 + 0x100_0000 * b3;
    if u < 0x8000_0000 then u else u - 0x1_0000_0000
  }

  /** The only four bytes that read as the magic number are 7F 50 4B 47 ("\x7fPKG"). */
  lemma MagicBytes(b0: Byte, b1: Byte, b2: Byte, b3: Byte)
    ensures Int32LE(b0, b1, b2, b3) == PkgMagic <==> [b0, b1, b2, b3] == [0x7F, 0x50, 0x4B, 0x47]
  {
    var u := b0 + 0x100 * b1 + 0x1_0000 * b2 + 0x100_0000 * b3;
    if u == PkgMagic {
      assert b3 == 0x47;
      assert b2 == 0x4B;
      assert b1 == 0x50;
    }
  }

  /**
   * `is_pkg` on a file whose content starts with `head`: None where
   * `f.read(4)` returns fewer than four bytes and `struct.unpack` raises
   * (nothing catches it), otherwise whether the four bytes are 7F 50 4B 47.
   */
  function IsPkg(head: seq<Byte>): (r: Option<bool>)
    ensures r.None? <==> |head| < 4
    ensures r.Some? ==> (r.value <==> head[..4] == [0x7F, 0x50, 0x4B, 0x47])
  {
    if |head| < 4 then None
    else
      MagicBytes(head[0], head[1], head[2], head[3]);
      assert head[..4] == [head[0], head[1], head[2], head[3]];
      Some(Int32LE(head[0], head[1], head[2], head[3]) == PkgMagic)
  }
}
