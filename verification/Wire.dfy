/**
 The wire level of Protocol Buffers: varints, tags, zigzag and fixed-width words, as
 written by encoder.py and wire_format.py and read back by decoder.py.

 Python's integers are unbounded, so the masks and shifts of the source are spelled out:
 `x & (2^k - 1)` is `x % 2^k`, `x >> 7` is `x / 128`, `result |= b << shift` is an addition
 because `result < 2^shift` there, and `x | ~(2^k - 1)` is `x % 2^k - 2^k`.
 */
module Wire {

  type byte = b: int | 0 <= b < 0x100

  datatype Option<+T> = None | Some(value: T)

  /** Outcome of decoding from the front of a byte string: a value and the number of bytes used. */
  datatype Parsed<+T> = Ok(value: T, used: nat) | Err

  /** The same outcome for bytes that start `n` places later. */
  function Shift<T>(p: Parsed<T>, n: nat): Parsed<T> {
    match p
    case Ok(v, u) => Ok(v, n + u)
    case Err => Err
  }

  lemma Associates<T>(a: seq<T>, b: seq<T>, c: seq<T>)
    ensures a + b + c == a + (b + c)
  {
  }

  const TWO_31 := 0x8000_0000
  const TWO_32 := 0x1_0000_0000
  const TWO_63 := 0x8000_0000_0000_0000
  const TWO_64 := 0x1_0000_0000_0000_0000
  const TWO_70 := 0x40_0000_0000_0000_0000

  /* ------------------------------- varints ------------------------------- */

  /** Base 128 varint: seven bits a byte, least significant first, high bit on all but the last. */
  function Varint(v: nat): (bs: seq<byte>)
    ensures |bs| >= 1
  {
    if v < 128 then [v] else [128 + v % 128] + Varint(v / 128)
  }

  /** `_EncodeSignedVarint` adds 2^64 to whatever is negative. */
  function SignedVarint(v: int): (bs: seq<byte>)
    requires -TWO_64 <= v < TWO_63
  {
    Varint(if v < 0 then v + TWO_64 else v)
  }

  /** What `_VarintDecoder` reads before masking; `k` bytes were read already. The tenth byte
      must be the last: with its continuation bit set, shift would reach 70. */
  function RawVarint(s: seq<byte>, k: nat): (p: Parsed<nat>)
    ensures p.Ok? ==> 1 <= p.used <= |s|
    ensures p.Ok? && k <= 9 ==> k + p.used <= 10
  {
    if s == [] then Err
    else if s[0] < 128 then Ok(s[0], 1)
    else if k >= 9 then Err
    else
      match RawVarint(s[1..], k + 1)
      case Ok(v, n) => Ok(s[0] - 128 + 128 * v, n + 1)
      case Err => Err
  }

  /** `_VarintDecoder(mask)` for mask = `modulus - 1`. */
  function DecodeVarint(s: seq<byte>, modulus: nat): (p: Parsed<nat>)
    requires modulus > 0
    ensures p.Ok? ==> 1 <= p.used <= |s| && p.value < modulus
  {
    match RawVarint(s, 0)
    case Ok(v, n) => Ok(v % modulus, n)
    case Err => Err
  }

  /** The sign handling of `_SignedVarintDecoder`. */
  function SignExtend(raw: nat, modulus: nat): int
    requires modulus > 0
  {
    if raw >= TWO_63 then (raw - TWO_64) % modulus - modulus else raw % modulus
  }

  function DecodeSignedVarint(s: seq<byte>, modulus: nat): (p: Parsed<int>)
    requires modulus > 0
    ensures p.Ok? ==> 1 <= p.used <= |s|
  {
    match RawVarint(s, 0)
    case Ok(v, n) => Ok(SignExtend(v, modulus), n)
    case Err => Err
  }

  lemma {:induction false} RawVarintInverts(v: nat, k: nat, rest: seq<byte>)
    requires k <= 10 && |Varint(v)| <= 10 - k
    ensures RawVarint(Varint(v) + rest, k) == Ok(v, |Varint(v)|)
  {
    var s := Varint(v) + rest;
    if v < 128 {
      assert s[0] == v;
    } else {
      assert s[0] == 128 + v % 128;
      assert s[1..] == Varint(v / 128) + rest;
      RawVarintInverts(v / 128, k + 1, rest);
    }
  }

  /** The ten-byte limit is exactly the 2^70 limit on values. */
  lemma {:induction false} VarintLength(v: nat)
    ensures v < TWO_70 ==> VarintSize(v) == |Varint(v)| <= 10
    ensures v >= TWO_70 ==> |Varint(v)| > 10
  {
    LengthStep(v, 10);
    PowValues();
    if v < TWO_70 {
      SizeChain(v);
    }
  }

  function Pow128(n: nat): (p: nat)
    ensures p >= 1
  {
    if n == 0 then 1 else 128 * Pow128(n - 1)
  }

  lemma {:induction false} LengthStep(v: nat, n: nat)
    requires n >= 1
    ensures v < Pow128(n) <==> |Varint(v)| <= n
    decreases n
  {
    assert Pow128(n) == 128 * Pow128(n - 1);
    if v >= 128 && n > 1 {
      LengthStep(v / 128, n - 1);
    }
  }

  lemma PowValues()
    ensures Pow128(1) == 0x80 && Pow128(2) == 0x4000 && Pow128(3) == 0x200000
    ensures Pow128(4) == 0x10000000 && Pow128(5) == 0x800000000 && Pow128(6) == 0x40000000000
    ensures Pow128(7) == 0x2000000000000 && Pow128(8) == 0x100000000000000
    ensures Pow128(9) == TWO_63 && Pow128(10) == TWO_70
  {
    assert Pow128(1) == 128 * Pow128(0);
    assert Pow128(2) == 128 * Pow128(1);
    assert Pow128(3) == 128 * Pow128(2);
    assert Pow128(4) == 128 * Pow128(3);
    assert Pow128(5) == 128 * Pow128(4);
    assert Pow128(6) == 128 * Pow128(5);
    assert Pow128(7) == 128 * Pow128(6);
    assert Pow128(8) == 128 * Pow128(7);
    assert Pow128(9) == 128 * Pow128(8);
    assert Pow128(10) == 128 * Pow128(9);
  }

  /** `_VarintSize` counts one byte more for each factor of 128. */
  lemma {:induction false} SizeChain(v: nat)
    requires v < TWO_70
    ensures VarintSize(v) == |Varint(v)|
    decreases v
  {
    if v >= 128 {
      SizeChain(v / 128);
      assert VarintSize(v) == 1 + VarintSize(v / 128);
    }
  }

  /** `_VarintSize`. */
  function VarintSize(v: int): nat {
    if v <= 0x7f then 1
    else if v <= 0x3fff then 2
    else if v <= 0x1fffff then 3
    else if v <= 0xfffffff then 4
    else if v <= 0x7ffffffff then 5
    else if v <= 0x3ffffffffff then 6
    else if v <= 0x1ffffffffffff then 7
    else if v <= 0xffffffffffffff then 8
    else if v <= 0x7fffffffffffffff then 9
    else 10
  }

  /** `_SignedVarintSize`. */
  function SignedVarintSize(v: int): nat {
    if v < 0 then 10 else VarintSize(v)
  }

  /** `_SignedVarintSize` is the length of what `_EncodeSignedVarint` writes, exactly for numbers that
      are not below the least one of 64 bits; for those it is more. */
  lemma SignedSizeIsLength(v: int)
    requires -TWO_64 <= v < TWO_63
    ensures |SignedVarint(v)| <= SignedVarintSize(v) <= 10
    ensures SignedVarintSize(v) == |SignedVarint(v)| <==> -TWO_63 <= v
  {
    var u := if v < 0 then v + TWO_64 else v;
    VarintLength(u);
    PowValues();
    LengthStep(u, 9);
  }

  /** Unsigned decoding inverts unsigned encoding exactly on the values the mask keeps. */
  lemma UnsignedRoundTrip(v: nat, modulus: nat, rest: seq<byte>)
    requires 0 < modulus && v < TWO_64
    ensures DecodeVarint(Varint(v) + rest, modulus) == Ok(v % modulus, |Varint(v)|)
    ensures DecodeVarint(Varint(v) + rest, modulus) == Ok(v, |Varint(v)|) <==> v < modulus
  {
    VarintLength(v);
    RawVarintInverts(v, 0, rest);
    if v < modulus {
      SmallModulo(v, modulus);
    }
  }

  lemma SmallModulo(v: nat, modulus: nat)
    requires v < modulus
    ensures v % modulus == v
  {
  }

  /** The signed round trip through 64-bit two's complement, for the 32-bit and the 64-bit mask. */
  lemma SignedRoundTrip(v: int, rest: seq<byte>)
    requires -TWO_63 <= v < TWO_63
    ensures DecodeSignedVarint(SignedVarint(v) + rest, TWO_64) == Ok(v, |SignedVarint(v)|)
    ensures -TWO_32 <= v < TWO_32 ==>
              DecodeSignedVarint(SignedVarint(v) + rest, TWO_32) == Ok(v, |SignedVarint(v)|)
  {
    var u := if v < 0 then v + TWO_64 else v;
    VarintLength(u);
    RawVarintInverts(u, 0, rest);
    SignExtend64(v);
    if -TWO_32 <= v < TWO_32 {
      SignExtend32(v);
    }
  }

  lemma SignExtend64(v: int)
    requires -TWO_63 <= v < TWO_63
    ensures SignExtend(if v < 0 then v + TWO_64 else v, TWO_64) == v
  {
    if v < 0 {
      assert (v + TWO_64 - TWO_64) % TWO_64 == v + TWO_64;
    } else {
      assert v % TWO_64 == v;
    }
  }

  lemma SignExtend32(v: int)
    requires -TWO_32 <= v < TWO_32
    ensures SignExtend(if v < 0 then v + TWO_64 else v, TWO_32) == v
  {
    if v < 0 {
      assert v % TWO_32 == v + TWO_32;
    } else {
      assert v % TWO_32 == v;
    }
  }

  /** Decoding reads a prefix: what follows it is irrelevant. */
  lemma {:induction false} RawVarintPrefix(s: seq<byte>, k: nat, n: nat)
    requires n <= |s|
    ensures RawVarint(s[..n], k) == (var p := RawVarint(s, k); if p.Ok? && p.used <= n then p else Err)
    decreases |s|
  {
    if n > 0 {
      assert s[..n][1..] == s[1..][..n - 1];
      if s[0] >= 128 && k < 9 {
        RawVarintPrefix(s[1..], k + 1, n - 1);
      }
    }
  }

  /* ------------------------------- zigzag -------------------------------- */

  function ZigZag(v: int): nat {
    if v >= 0 then 2 * v else -2 * v - 1
  }

  function UnZigZag(u: nat): int {
    if u % 2 == 0 then u / 2 else -(u / 2) - 1
  }

  /** Zigzag is a bijection of int32 with uint32 and of int64 with uint64. */
  lemma ZigZagBijection(v: int, u: nat)
    ensures UnZigZag(ZigZag(v)) == v && ZigZag(UnZigZag(u)) == u
    ensures -TWO_31 <= v < TWO_31 <==> ZigZag(v) < TWO_32
    ensures -TWO_63 <= v < TWO_63 <==> ZigZag(v) < TWO_64
  {
    assert (2 * v) / 2 == v;
  }

  /* -------------------------------- tags --------------------------------- */

  const WIRETYPE_VARINT := 0
  const WIRETYPE_FIXED64 := 1
  const WIRETYPE_LENGTH_DELIMITED := 2
  const WIRETYPE_START_GROUP := 3
  const WIRETYPE_END_GROUP := 4
  const WIRETYPE_FIXED32 := 5

  const MAX_FIELD_NUMBER := 0x2000_0000

  function TagBytes(number: nat, wireType: nat): (bs: seq<byte>)
    requires wireType < 8
    ensures |bs| >= 1
  {
    Varint(number * 8 + wireType)
  }

  /** `_TagSize` packs wire type 0. */
  function TagSize(number: nat): nat {
    VarintSize(number * 8)
  }

  /** `ReadTag`: the raw bytes up to and including the first one without a continuation bit. */
  function ReadTag(s: seq<byte>): (p: Parsed<seq<byte>>)
    ensures p.Ok? ==> 1 <= p.used <= |s| && p.value == s[..p.used]
    ensures p.Ok? ==> p.value[p.used - 1] < 128 && forall i :: 0 <= i < p.used - 1 ==> p.value[i] >= 128
  {
    if s == [] then Err
    else if s[0] < 128 then Ok(s[..1], 1)
    else
      match ReadTag(s[1..])
      case Ok(t, n) => Ok(s[..n + 1], n + 1)
      case Err => Err
  }

  /** The wire type sits in the first byte of a tag. */
  function WireTypeOf(tag: seq<byte>): nat
    requires tag != []
  {
    tag[0] % 8
  }

  /** Tags are self-delimiting: a buffer that starts with a tag's bytes reads back that tag. */
  lemma {:induction false} ReadTagVarint(v: nat, rest: seq<byte>)
    ensures ReadTag(Varint(v) + rest) == Ok(Varint(v), |Varint(v)|)
  {
    var s := Varint(v) + rest;
    if v < 128 {
      assert s[..1] == Varint(v);
    } else {
      assert s[1..] == Varint(v / 128) + rest;
      ReadTagVarint(v / 128, rest);
      assert s[..|Varint(v)|] == Varint(v);
    }
  }

  lemma {:induction false} ReadTagPrefix(s: seq<byte>, n: nat)
    requires n <= |s|
    ensures ReadTag(s[..n]) == (var p := ReadTag(s); if p.Ok? && p.used <= n then p else Err)
    decreases |s|
  {
    if n > 0 {
      assert s[..n][1..] == s[1..][..n - 1];
      assert s[..n][..1] == s[..1];
      if s[0] >= 128 {
        ReadTagPrefix(s[1..], n - 1);
        var p := ReadTag(s[1..]);
        if p.Ok? && p.used <= n - 1 {
          assert s[..n][..p.used + 1] == s[..p.used + 1];
        }
      }
    }
  }

  lemma {:induction false} VarintInjective(a: nat, b: nat)
    requires Varint(a) == Varint(b)
    ensures a == b
    decreases a
  {
    if a >= 128 && b >= 128 {
      assert Varint(a)[1..] == Varint(a / 128);
      assert Varint(b)[1..] == Varint(b / 128);
      assert Varint(a)[0] == 128 + a % 128 && Varint(b)[0] == 128 + b % 128;
      VarintInjective(a / 128, b / 128);
    } else {
      assert Varint(a)[0] == Varint(b)[0];
    }
  }

  /** Tag bytes determine the field number and the wire type, and the tag's size does not
      depend on the wire type. */
  lemma TagFacts(number: nat, wireType: nat, number': nat, wireType': nat)
    requires wireType < 8 && wireType' < 8
    ensures TagBytes(number, wireType) == TagBytes(number', wireType') <==> number == number' && wireType == wireType'
    ensures WireTypeOf(TagBytes(number, wireType)) == wireType
    ensures number < MAX_FIELD_NUMBER ==> |TagBytes(number, wireType)| == TagSize(number)
  {
    hide Varint, VarintSize;
    if TagBytes(number, wireType) == TagBytes(number', wireType') {
      VarintInjective(number * 8 + wireType, number' * 8 + wireType');
    }
    LowBits(number, wireType);
    if number < MAX_FIELD_NUMBER {
      VarintLength(number * 8 + wireType);
      TagSizeUniform(number, wireType);
    }
  }

  lemma LowBits(number: nat, wireType: nat)
    requires wireType < 8
    ensures Varint(number * 8 + wireType)[0] % 8 == wireType
  {
    var v := number * 8 + wireType;
    assert Varint(v)[0] == if v < 128 then v else 128 + v % 128;
    assert v % 8 == wireType;
    assert v % 128 % 8 == v % 8;
  }

  lemma TagSizeUniform(number: nat, wireType: nat)
    requires wireType < 8 && number < MAX_FIELD_NUMBER
    ensures VarintSize(number * 8 + wireType) == VarintSize(number * 8)
  {
  }

  /* -------------------------- fixed-width words --------------------------- */

  function LittleEndian(v: nat, width: nat): (bs: seq<byte>)
    ensures |bs| == width
  {
    if width == 0 then [] else [v % 256] + LittleEndian(v / 256, width - 1)
  }

  function FromLittleEndian(bs: seq<byte>): nat {
    if bs == [] then 0 else bs[0] + 256 * FromLittleEndian(bs[1..])
  }

  function Pow256(n: nat): (p: nat)
    ensures p >= 1
  {
    if n == 0 then 1 else 256 * Pow256(n - 1)
  }

  lemma {:induction false} LittleEndianInverts(v: nat, width: nat)
    requires v < Pow256(width)
    ensures FromLittleEndian(LittleEndian(v, width)) == v
  {
    if width > 0 {
      assert LittleEndian(v, width)[1..] == LittleEndian(v / 256, width - 1);
      LittleEndianInverts(v / 256, width - 1);
    }
  }

  lemma {:induction false} FromLittleEndianBound(bs: seq<byte>)
    ensures FromLittleEndian(bs) < Pow256(|bs|)
  {
    if bs != [] {
      FromLittleEndianBound(bs[1..]);
    }
  }

  lemma Pow256Values()
    ensures Pow256(4) == TWO_32 && Pow256(8) == TWO_64
  {
    assert Pow256(1) == 256 * Pow256(0);
    assert Pow256(2) == 256 * Pow256(1);
    assert Pow256(3) == 256 * Pow256(2);
    assert Pow256(4) == 256 * Pow256(3);
    assert Pow256(5) == 256 * Pow256(4);
    assert Pow256(6) == 256 * Pow256(5);
    assert Pow256(7) == 256 * Pow256(6);
    assert Pow256(8) == 256 * Pow256(7);
  }
}
