/** Bytes and the fixed-width big-endian integers every on-disk format here is built from. */
module Bytes {
  type u8 = x: int | 0 <= x < 256

  const U16_MAX := 0xFFFF
  const U32_MAX := 0xFFFF_FFFF
  const U64_MAX := 0xFFFF_FFFF_FFFF_FFFF

  type u64 = x: int | 0 <= x <= 0xFFFF_FFFF_FFFF_FFFF

  datatype Option<+T> = None | Some(value: T)

  /** `u32::to_be_bytes`. */
  function U32Bytes(n: nat): (b: seq<u8>)
    ensures |b| == 4
  {
    [n / 0x100_0000 % 256, n / 0x1_0000 % 256, n / 0x100 % 256, n % 256]
  }

  /** `u32::from_be_bytes`. */
  function U32Of(b: seq<u8>): (n: nat)
    requires |b| == 4
    ensures n <= U32_MAX
  {
    var (b0: int, b1: int, b2: int) := (b[0], b[1], b[2]);
    b0 * 0x100_0000 + b1 * 0x1_0000 + b2 * 0x100 + b[3]
  }

  function U16Bytes(n: nat): (b: seq<u8>)
    ensures |b| == 2
  {
    [n / 0x100 % 256, n % 256]
  }

  function U64Bytes(n: nat): (b: seq<u8>)
    ensures |b| == 8
  {
    U32Bytes(n / 0x1_0000_0000) + U32Bytes(n % 0x1_0000_0000)
  }

  function U64Of(b: seq<u8>): (n: nat)
    requires |b| == 8
    ensures n <= U64_MAX
  {
    U32Of(b[..4]) * 0x1_0000_0000 + U32Of(b[4..])
  }

  lemma U32RoundTrip(n: nat)
    requires n <= U32_MAX
    ensures U32Of(U32Bytes(n)) == n
  {
    assert n == n / 0x100 * 0x100 + n % 0x100;
    assert n / 0x100 == n / 0x1_0000 * 0x100 + n / 0x100 % 0x100;
    assert n / 0x1_0000 == n / 0x100_0000 * 0x100 + n / 0x1_0000 % 0x100;
  }

  lemma U64RoundTrip(n: nat)
    requires n <= U64_MAX
    ensures U64Of(U64Bytes(n)) == n
  {
    U32RoundTrip(n / 0x1_0000_0000);
    U32RoundTrip(n % 0x1_0000_0000);
    var b := U64Bytes(n);
    assert b[..4] == U32Bytes(n / 0x1_0000_0000);
    assert b[4..] == U32Bytes(n % 0x1_0000_0000);
  }

  lemma U32FromBytes(b: seq<u8>)
    requires |b| == 4
    ensures U32Bytes(U32Of(b)) == b
  {
    var n := U32Of(b);
    var (b0: int, b1: int, b2: int, b3: int) := (b[0], b[1], b[2], b[3]);
    assert n == ((b0 * 256 + b1) * 256 + b2) * 256 + b3;
    assert n / 0x100 == (b0 * 256 + b1) * 256 + b2 && n % 256 == b3;
    assert n / 0x1_0000 == n / 0x100 / 256 == b0 * 256 + b1;
    assert n / 0x100_0000 == n / 0x1_0000 / 256 == b0;
  }

  lemma U64FromBytes(b: seq<u8>)
    requires |b| == 8
    ensures U64Bytes(U64Of(b)) == b
  {
    hide U32Bytes, U32Of;
    var (high, low) := (U32Of(b[..4]), U32Of(b[4..]));
    assert U64Of(b) / 0x1_0000_0000 == high && U64Of(b) % 0x1_0000_0000 == low;
    U32FromBytes(b[..4]);
    U32FromBytes(b[4..]);
    assert b == b[..4] + b[4..];
  }

  // ----- Which number the bytes spell -----

  lemma BigEndian16(n: nat)
    requires n <= 65535
    ensures U16Bytes(n) == [n / 256, n % 256]
  {
  }

  lemma BigEndian32(b: seq<u8>)
    requires |b| == 4
    ensures U32Of(b) == ((b[0] as int * 256 + b[1]) * 256 + b[2]) * 256 + b[3]
  {
  }

  lemma BigEndian64(b: seq<u8>)
    requires |b| == 8
    ensures U64Of(b)
         == ((((((b[0] as int * 256 + b[1]) * 256 + b[2]) * 256 + b[3]) * 256 + b[4]) * 256 + b[5]) * 256 + b[6]) * 256 + b[7]
  {
    BigEndian32(b[..4]);
    BigEndian32(b[4..]);
  }

  /** The number a byte string spells, most significant byte first. */
  function BigEndian(b: seq<u8>): nat { if b == [] then 0 else BigEndian(b[..|b| - 1]) * 256 + b[|b| - 1] }

  lemma Spelled32(n: nat)
    requires n <= U32_MAX
    ensures BigEndian(U32Bytes(n)) == n
  {
    hide U32Bytes, U32Of;
    var b := U32Bytes(n);
    U32RoundTrip(n);
    BigEndian32(b);
    assert b[..3][..2] == b[..2] && b[..2][..1] == b[..1] && b[..1][..0] == [];
    assert BigEndian(b[..1]) == b[0] && BigEndian(b[..2]) == b[0] as int * 256 + b[1];
    assert BigEndian(b[..3]) == (b[0] as int * 256 + b[1]) * 256 + b[2];
  }

  lemma {:induction false} BigEndianAppend(a: seq<u8>, b: seq<u8>)
    requires |b| == 4
    ensures BigEndian(a + b) == BigEndian(a) * 0x1_0000_0000 + BigEndian(b)
  {
    var s := a + b;
    assert s[..|a| + 3][..|a| + 2] == s[..|a| + 2] && s[..|a| + 2][..|a| + 1] == s[..|a| + 1] && s[..|a| + 1][..|a|] == a;
    assert b[..3][..2] == b[..2] && b[..2][..1] == b[..1] && b[..1][..0] == [];
    assert BigEndian(s[..|a| + 1]) == BigEndian(a) * 256 + b[0];
    assert BigEndian(s[..|a| + 2]) == BigEndian(s[..|a| + 1]) * 256 + b[1];
    assert BigEndian(s[..|a| + 3]) == BigEndian(s[..|a| + 2]) * 256 + b[2];
    assert BigEndian(b[..1]) == b[0] && BigEndian(b[..2]) == BigEndian(b[..1]) * 256 + b[1];
    assert BigEndian(b[..3]) == BigEndian(b[..2]) * 256 + b[2];
  }

  lemma Spelled64(n: nat)
    requires n <= U64_MAX
    ensures BigEndian(U64Bytes(n)) == n
  {
    hide U32Bytes, BigEndian;
    var (high, low) := (n / 0x1_0000_0000, n % 0x1_0000_0000);
    Spelled32(high);
    Spelled32(low);
    BigEndianAppend(U32Bytes(high), U32Bytes(low));
  }

  lemma Reads32(b: seq<u8>)
    requires |b| == 4
    ensures U32Of(b) == BigEndian(b)
  {
    hide U32Bytes, U32Of, BigEndian;
    U32FromBytes(b);
    Spelled32(U32Of(b));
  }

  lemma Reads64(b: seq<u8>)
    requires |b| == 8
    ensures U64Of(b) == BigEndian(b)
  {
    hide U64Bytes, U64Of, BigEndian;
    U64FromBytes(b);
    Spelled64(U64Of(b));
  }
}
