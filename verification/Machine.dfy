/** Machine integers of the emulator and the three xor patterns its texture code uses as array indices. */
module Machine {
  newtype u8 = x: int | 0 <= x < 0x100
  type u16 = x: int | 0 <= x < 0x1_0000
  type u32 = x: int | 0 <= x < 0x1_0000_0000

  const U32_RANGE: int := 0x1_0000_0000

  /** `i ^ 1`: the neighbour inside a pair. */
  function Xor1(i: nat): nat {
    if i % 2 == 0 then i + 1 else i - 1
  }

  /** `i ^ 2`: swaps the two pairs of a group of four. */
  function Xor2(i: nat): nat {
    if i % 4 < 2 then i + 2 else i - 2
  }

  /** `i ^ 3`: mirrors a group of four. */
  function Xor3(i: nat): nat {
    i - i % 4 + (3 - i % 4)
  }

  /** `i ^ 4`: swaps the two halves of a group of eight. */
  function Xor4(i: nat): nat {
    if i % 8 < 4 then i + 4 else i - 4
  }

  /** The bytes of texels of a size code: `texels << size >> 1`. */
  function TexelBytes(texels: nat, size: nat): nat {
    if size == 0 then texels / 2 else if size == 1 then texels else if size == 2 then 2 * texels else 4 * texels
  }
}
