/** The CRC-32 used for resumption decisions and corruption detection.

    The routine the client calls (`CRC32.ComputeHash(bytes, seed)`) is not part of
    this model's sources; this module supplies the standard reflected CRC-32
    (polynomial 0xEDB88320) with the usual continuation convention: no seed starts
    from 0, and a seed is a value this function returned earlier. The only facts the
    rest of the model uses are proved here: the continuation law, that no seed and
    seed 0 agree, and that the checksum of no bytes is the seed itself. */
module Crc32 {
  import opened Common

  const POLY: bv32 := 0xEDB8_8320
  const ALL_ONES: bv32 := 0xFFFF_FFFF

  /** One bit of the shift register. */
  function Round(x: bv32): bv32 {
    if x & 1 == 1 then (x >> 1) ^ POLY else x >> 1
  }

  /** n rounds of the shift register. */
  function Rounds(x: bv32, n: nat): bv32
    decreases n
  {
    if n == 0 then x else Rounds(Round(x), n - 1)
  }

  /** Eight rounds: the register after absorbing one byte. */
  function AbsorbByte(reg: bv32, b: byte): bv32 {
    Rounds(reg ^ (b as int as bv32), 8)
  }

  /** The register after absorbing all of `data`, left to right. */
  function Register(reg: bv32, data: seq<byte>): bv32
    decreases |data|, 1
  {
    if data == [] then reg else Absorbed(reg, data)
  }

  /** `Register` on data that is not empty: its first byte, then the rest. Kept
      apart so that what a byte does to the register is only looked at where a
      proof names this step. */
  function Absorbed(reg: bv32, data: seq<byte>): bv32
    requires data != []
    decreases |data|, 0
  {
    Register(AbsorbByte(reg, data[0]), data[1..])
  }

  function SeedValue(seed: Option<bv32>): bv32 {
    seed.GetOr(0)
  }

  /** The complement applied on entry and on exit. */
  function Flip(x: bv32): bv32 {
    x ^ ALL_ONES
  }

  lemma FlipFlip(x: bv32)
    ensures Flip(Flip(x)) == x
  {
  }

  /** `CRC32.ComputeHash(data, seed)`. */
  function Crc(data: seq<byte>, seed: Option<bv32>): bv32 {
    Flip(Register(Flip(SeedValue(seed)), data))
  }

  lemma {:induction false} RegisterAppend(reg: bv32, a: seq<byte>, b: seq<byte>)
    ensures Register(reg, a + b) == Register(Register(reg, a), b)
    decreases |a|
  {
    if a == [] {
      assert a + b == b;
    } else {
      assert (a + b)[0] == a[0];
      assert (a + b)[1..] == a[1..] + b;
      assert Register(reg, a + b) == Absorbed(reg, a + b);
      assert Register(reg, a) == Absorbed(reg, a);
      RegisterAppend(AbsorbByte(reg, a[0]), a[1..], b);
    }
  }

  /** Continuation law: checksumming a then b equals checksumming b seeded with the
      checksum of a. The chunk logic relies on it when it seeds the next chunk. */
  lemma {:induction false} CrcAppend(a: seq<byte>, b: seq<byte>, seed: Option<bv32>)
    ensures Crc(a + b, seed) == Crc(b, Some(Crc(a, seed)))
  {
    var init := Flip(SeedValue(seed));
    RegisterAppend(init, a, b);
    FlipFlip(Register(init, a));
  }

  /** No seed and seed 0 give the same checksum. */
  lemma CrcNoSeed(data: seq<byte>)
    ensures Crc(data, None) == Crc(data, Some(0))
  {
  }

  /** The checksum of no bytes is the seed value. */
  lemma CrcEmpty(seed: Option<bv32>)
    ensures Crc([], seed) == SeedValue(seed)
  {
    FlipFlip(SeedValue(seed));
  }

  /** The checksum of a prefix extended by the next bytes, seeded from the prefix. */
  lemma CrcExtend(bytes: seq<byte>, start: nat, end: nat, seed: Option<bv32>)
    requires start <= end <= |bytes|
    requires SeedValue(seed) == Crc(bytes[..start], None)
    ensures Crc(bytes[start..end], seed) == Crc(bytes[..end], None)
  {
    assert bytes[..end] == bytes[..start] + bytes[start..end];
    CrcAppend(bytes[..start], bytes[start..end], None);
    if seed.None? {
      CrcEmpty(None);
      assert Crc(bytes[..start], None) == 0;
      CrcNoSeed(bytes[start..end]);
    }
  }
}
