/** Fixed-width machine integers of the contract host and their byte encodings. */
module MachineWords {
  const U32_MAX := 0xFFFF_FFFF
  const U64_MAX := 0xFFFF_FFFF_FFFF_FFFF

  type Byte = x: int | 0 <= x < 256
  type U32 = x: int | 0 <= x <= 0xFFFF_FFFF
  type U64 = x: int | 0 <= x <= 0xFFFF_FFFF_FFFF_FFFF

  datatype Option<+T> = None | Some(value: T)

  datatype Result<+T, +E> = Ok(value: T) | Err(error: E)

  function Min(a: int, b: int): (m: int)
    ensures m <= a && m <= b && (m == a || m == b)
  {
    if a <= b then a else b
  }

  /** The sum where it fits, and otherwise the largest word. */
  function SaturatingAdd(a: U32, b: U32): (sum: U32)
    ensures sum == Min(a + b, 0xFFFF_FFFF)
  {
    if a + b > U32_MAX then U32_MAX else a + b
  }

  function SaturatingAdd64(a: U64, b: U64): (sum: U64)
    ensures sum == Min(a + b, 0xFFFF_FFFF_FFFF_FFFF)
  {
    if a + b > U64_MAX then U64_MAX else a + b
  }

  /** The difference where there is one, and otherwise zero. */
  function SaturatingSub(a: U32, b: U32): (difference: U32)
    ensures b <= a ==> difference + b == a
    ensures b > a ==> difference == 0
  {
    if b > a then 0 else a - b
  }

  function WrappingAdd(a: U32, b: U32): U32 {
    (a + b) % 0x1_0000_0000
  }

  lemma WrappingAddsUp(g: U32, a: nat, b: nat)
    ensures ((g + a) % 0x1_0000_0000 + b) % 0x1_0000_0000 == (g + (a + b)) % 0x1_0000_0000
  {
  }

  /** The low 32 bits of a 64-bit word (the `as u32` cast). */
  function Truncate(a: U64): (low: U32)
    ensures low <= a && (a - low) % 0x1_0000_0000 == 0
  {
    a % 0x1_0000_0000
  }

  function ToBigEndian(n: U32): (b: seq<Byte>)
    ensures |b| == 4 && FromBigEndian(b) == n
    ensures var b0: int, b1: int, b2: int, b3: int := b[0], b[1], b[2], b[3];
            n == 0x100_0000 * b0 + 0x1_0000 * b1 + 0x100 * b2 + b3
  {
    var high, low := n / 0x1_0000, n % 0x1_0000;
    [high / 0x100, high % 0x100, low / 0x100, low % 0x100]
  }

  function FromBigEndian(b: seq<Byte>): (n: U32)
    requires |b| == 4
  {
    var b0: int, b1: int, b2: int, b3: int := b[0], b[1], b[2], b[3];
    (b0 * 0x100 + b1) * 0x1_0000 + (b2 * 0x100 + b3)
  }

  /** The bytes of an ASCII literal. */
  function Ascii(s: string): (b: seq<Byte>)
    ensures |b| == |s|
    ensures forall i :: 0 <= i < |s| && s[i] < 128 as char ==> b[i] == s[i] as int
  {
    seq(|s|, i requires 0 <= i < |s| => s[i] as int % 256)
  }
}
