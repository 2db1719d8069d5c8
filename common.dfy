/** Shared value types: bytes, 32-bit unsigned words, Option and Result,
    and the little-endian field codec the wire layouts use. */
module Common {

  newtype byte = x: int | 0 <= x < 0x100
  newtype uint32 = x: int | 0 <= x < 0x1_0000_0000

  const TWO_32: int := 0x1_0000_0000

  datatype Option<+T> = None | Some(value: T) {
    function GetOr(default: T): T {
      match this
      case Some(v) => v
      case None => default
    }
  }

  datatype Result<+T, +E> = Success(value: T) | Failure(error: E)

  /** `Math.Min` on two non-negative counts. */
  function Min(a: int, b: int): (r: int)
    ensures r <= a && r <= b && (r == a || r == b)
  {
    if a <= b then a else b
  }

  /** `bytes.Take(n)`: the first n bytes, or all of them when n exceeds the length. */
  function Take(bytes: seq<byte>, n: int): (r: seq<byte>)
    ensures |r| == if n < 0 then 0 else Min(n, |bytes|)
    ensures forall i :: 0 <= i < |r| ==> r[i] == bytes[i]
  {
    if n <= 0 then [] else if n >= |bytes| then bytes else bytes[..n]
  }

  /** Unsigned 32-bit addition, wrapping modulo 2^32 as C# `uint` does. */
  function U32Add(a: uint32, b: uint32): (r: uint32)
    ensures a as int + b as int < TWO_32 ==> r as int == a as int + b as int
    ensures a as int + b as int >= TWO_32 ==> r as int == a as int + b as int - TWO_32
  {
    ((a as int + b as int) % TWO_32) as uint32
  }

  /** Unsigned 32-bit subtraction, wrapping modulo 2^32 as C# `uint` does. */
  function U32Sub(a: uint32, b: uint32): (r: uint32)
    ensures a >= b ==> r as int == a as int - b as int
    ensures a < b ==> r as int == TWO_32 + a as int - b as int
  {
    ((a as int - b as int) % TWO_32) as uint32
  }

  function Pow256(n: nat): nat {
    if n == 0 then 1 else 0x100 * Pow256(n - 1)
  }

  /** The unsigned value of `s`, least significant byte first. */
  function LittleEndian(s: seq<byte>): (r: nat)
    ensures r < Pow256(|s|)
    decreases |s|
  {
    if s == [] then 0 else s[0] as int + 0x100 * LittleEndian(s[1..])
  }

  /** Four bytes weigh 1, 2^8, 2^16 and 2^24. */
  lemma LittleEndianFour(s: seq<byte>)
    requires |s| == 4
    ensures LittleEndian(s) == s[0] as int + 0x100 * s[1] as int + 0x1_0000 * s[2] as int + 0x100_0000 * s[3] as int
  {
    assert s[1..][1..] == s[2..] && s[2..][1..] == s[3..] && s[3..][1..] == [];
    assert LittleEndian(s[3..]) == s[3] as int;
  }

  /** `BitConverter.ToUInt32(bytes, k)`: four bytes read little-endian. */
  function LE32(bytes: seq<byte>, k: nat): (r: uint32)
    requires k + 4 <= |bytes|
  {
    assert Pow256(4) == TWO_32;
    LittleEndian(bytes[k..k + 4]) as uint32
  }

  /** `BitConverter.ToInt32(bytes, k)`: the same four bytes as a two's complement value. */
  function LE32Signed(bytes: seq<byte>, k: nat): (r: int)
    requires k + 4 <= |bytes|
    ensures -0x8000_0000 <= r < 0x8000_0000
    ensures r >= 0 <==> bytes[k + 3] < 0x80
    ensures r % TWO_32 == LE32(bytes, k) as int
  {
    LittleEndianFour(bytes[k..k + 4]);
    var u := LE32(bytes, k) as int;
    if u < 0x8000_0000 then u else u - TWO_32
  }

  /** The bytes `(byte)(v & 0xFF), (byte)((v >> 8) & 0xFF), ...` of a 32-bit value. */
  function ToLE32(v: uint32): (r: seq<byte>)
    ensures |r| == 4
  {
    var x := v as int;
    [(x % 0x100) as byte, (x / 0x100 % 0x100) as byte,
     (x / 0x1_0000 % 0x100) as byte, (x / 0x100_0000 % 0x100) as byte]
  }

  /** Reading back the little-endian layout gives the value that was laid out. */
  lemma LE32OfToLE32(v: uint32, prefix: seq<byte>, suffix: seq<byte>)
    ensures LE32(prefix + ToLE32(v) + suffix, |prefix|) == v
  {
    var s := prefix + ToLE32(v) + suffix;
    var k := |prefix|;
    var x := v as int;
    assert s[k..k + 4] == ToLE32(v);
    LittleEndianFour(ToLE32(v));
    assert s[k] as int == x % 0x100;
    assert s[k + 1] as int == x / 0x100 % 0x100;
    assert s[k + 2] as int == x / 0x1_0000 % 0x100;
    assert s[k + 3] as int == x / 0x100_0000 % 0x100;
    DigitsOf(x);
  }

  lemma DigitsOf(x: int)
    requires 0 <= x < TWO_32
    ensures x % 0x100 + 0x100 * (x / 0x100 % 0x100) + 0x1_0000 * (x / 0x1_0000 % 0x100)
            + 0x100_0000 * (x / 0x100_0000 % 0x100) == x
  {
    var a, b, c := x / 0x100, x / 0x1_0000, x / 0x100_0000;
    assert x == 0x100 * a + x % 0x100;
    assert a == 0x100 * (a / 0x100) + a % 0x100;
    assert a / 0x100 == b;
    assert b == 0x100 * (b / 0x100) + b % 0x100;
    assert b / 0x100 == c;
    assert c < 0x100;
  }

  /** The boundary of the block of c values that holds x, and the next one, are
      multiples of c. */
  lemma RoundDownIsMultiple(x: nat, c: int)
    requires c > 0
    ensures (x - x % c) % c == 0 && (x - x % c + c) % c == 0
    ensures 0 <= x - x % c <= x < x - x % c + c
  {
    var q := x / c;
    assert x == q * c + x % c;
    ModUnique(x - x % c, q, 0, c);
    assert x - x % c + c == (q + 1) * c;
    ModUnique(x - x % c + c, q + 1, 0, c);
  }

  /** The remainder is determined by any quotient-remainder decomposition. */
  lemma ModUnique(a: int, q: int, r: int, c: int)
    requires c > 0 && 0 <= r < c && a == q * c + r
    ensures a % c == r
  {
    var k := q - a / c;
    assert a == (a / c) * c + a % c;
    assert k * c == q * c - (a / c) * c;
    assert k * c == a % c - r;
    MultipleBounds(k, c);
  }

  /** A non-zero multiple of c is at least c away from zero. */
  lemma MultipleBounds(k: int, c: int)
    requires c > 0
    ensures k >= 1 ==> k * c >= c
    ensures k <= -1 ==> k * c <= -c
  {
    if k >= 1 {
      MulNonnegative(k - 1, c);
      assert k * c == (k - 1) * c + c;
    } else if k <= -1 {
      MulNonnegative(-k - 1, c);
      assert k * c == -((-k - 1) * c) - c;
    }
  }

  lemma MulNonnegative(a: int, b: int)
    requires a >= 0 && b >= 0
    ensures a * b >= 0
  {
  }
}
