/** The MessagePack encoder: functions that append the wire form of one
    value (or of an array/map header) to a byte buffer. Each packer returns
    the new buffer; the ones that can overflow a 32-bit length return a
    `Result` whose error stands for the thrown `std::out_of_range`. */
module Msgpack {
  import opened Wrappers
  import opened BigEndian
  import OverflowMessages

  // The type prefix bytes written by the encoder (`pack_type`).
  const FIX_MAP: Byte := 0x80
  const FIX_ARRAY: Byte := 0x90
  const FIX_STR: Byte := 0xA0
  const NIL: Byte := 0xC0
  const FALSE: Byte := 0xC2
  const TRUE: Byte := 0xC3
  const BIN8: Byte := 0xC4
  const BIN16: Byte := 0xC5
  const BIN32: Byte := 0xC6
  const EXT8: Byte := 0xC7
  const EXT16: Byte := 0xC8
  const EXT32: Byte := 0xC9
  const FLOAT: Byte := 0xCA
  const DOUBLE: Byte := 0xCB
  const UINT8: Byte := 0xCC
  const UINT16: Byte := 0xCD
  const UINT32: Byte := 0xCE
  const UINT64: Byte := 0xCF
  const INT8: Byte := 0xD0
  const INT16: Byte := 0xD1
  const INT32: Byte := 0xD2
  const INT64: Byte := 0xD3
  const STR8: Byte := 0xD9
  const STR16: Byte := 0xDA
  const STR32: Byte := 0xDB
  const ARRAY16: Byte := 0xDC
  const ARRAY32: Byte := 0xDD
  const MAP16: Byte := 0xDE
  const MAP32: Byte := 0xDF
  const NEGATIVE_FIXNUM: Byte := 0xE0

  // Limits of the fixed-width C++ integer types the encoder dispatches on.
  const UINT8_MAX: int := 0xFF
  const UINT16_MAX: int := 0xFFFF
  const UINT32_MAX: int := 0xFFFF_FFFF
  const UINT64_MAX: int := 0xFFFF_FFFF_FFFF_FFFF
  const INT8_MIN: int := -0x80
  const INT16_MIN: int := -0x8000
  const INT32_MIN: int := -0x8000_0000
  const INT64_MIN: int := -0x8000_0000_0000_0000
  const INT64_MAX: int := 0x7FFF_FFFF_FFFF_FFFF

  function Pow2(k: nat): (p: nat)
    ensures p >= 1
  {
    if k == 0 then 1 else 2 * Pow2(k - 1)
  }

  /** Bitwise or of two non-negative integers, one bit at a time; the fix
      formats combine a tag byte and a small length with it. */
  function BitOr(a: nat, b: nat): (r: nat)
    ensures a <= r && b <= r && r <= a + b
    ensures r % 2 == 1 <==> a % 2 == 1 || b % 2 == 1
    decreases a + b
  {
    if a == 0 && b == 0 then 0
    else
      var high := BitOr(a / 2, b / 2);
      assert a == 2 * (a / 2) + a % 2 && b == 2 * (b / 2) + b % 2;
      2 * high + (if a % 2 == 1 || b % 2 == 1 then 1 else 0)
  }

  lemma {:induction false} BitOrZero(a: nat)
    ensures BitOr(a, 0) == a
    decreases a
  {
    if a > 0 {
      BitOrZero(a / 2);
    }
  }

  /** Or-ing a value below 2^k into a multiple of 2^k adds it: the tag's
      low bits are free for the length. */
  lemma {:induction false} BitOrIsAdd(tag: nat, n: nat, k: nat)
    requires tag % Pow2(k) == 0 && n < Pow2(k)
    ensures BitOr(tag, n) == tag + n
    decreases k
  {
    if k == 0 {
      BitOrZero(tag);
    } else {
      var p := Pow2(k - 1);
      var c := tag / (2 * p);
      DivModUnique(tag, 2 * p, c, 0);
      DivModUnique(tag, 2, p * c, 0);
      DivModUnique(tag / 2, p, c, 0);
      BitOrIsAdd(tag / 2, n / 2, k - 1);
    }
  }

  /** Why a length or count could not be encoded: the kind of value, its
      size and the largest size the protocol allows. */
  datatype EncodeError = OutOfRange(typeName: string, actual: nat, max: nat) {

    /** The text `std::out_of_range` is meant to carry: the maximum in
        decimal, as corrected; the source's own text loses the maximum
        (`OverflowMessages.OverflowMessageAsWritten`). */
    function Message(): string
    {
      OverflowMessages.OverflowMessage(typeName, actual, max)
    }
  }

  /** `push_number_big_endian`: converts the integer to the unsigned type
      of the same width and appends its bytes, most significant first.
      Shifting right by `8 * j` bits and masking with 0xFF is written as
      division by 256^j and remainder by 256. */
  method PushNumberBigEndian(buffer: Bytes, integer: int, width: nat) returns (r: Bytes)
    requires width == 1 || width == 2 || width == 4 || width == 8
    requires -(Pow256(width) / 2) <= integer < Pow256(width)
    ensures |r| == |buffer| + width && r[..|buffer|] == buffer
    ensures r[|buffer|..] == ToBigEndian(integer, width)
    ensures FromBigEndian(r[|buffer|..]) == integer % Pow256(width)
  {
    var value := integer % Pow256(width);
    var buf: Bytes := [];
    var i := 0;
    while i < width
      invariant 0 <= i <= width
      invariant buf == ToBigEndian(value / Pow256(width - i), i)
    {
      var p := Pow256(width - 1 - i);
      DivDiv256(value, p);
      buf := buf + [(value / p) % 256];
      i := i + 1;
    }
    ToBigEndianMod(integer, width);
    FromToBigEndian(integer, width);
    r := buffer + buf;
  }

  /** `push`: appends a range of bytes unchanged. */
  function Push(buffer: Bytes, range: Bytes): (r: Bytes)
    ensures |r| == |buffer| + |range|
    ensures r[..|buffer|] == buffer && r[|buffer|..] == range
  {
    buffer + range
  }

  function PackNil(buffer: Bytes): (r: Bytes)
    ensures buffer <= r && |r| == |buffer| + 1
  {
    buffer + [NIL]
  }

  function PackBool(buffer: Bytes, value: bool): (r: Bytes)
    ensures buffer <= r && |r| == |buffer| + 1
  {
    if value then buffer + [TRUE] else buffer + [FALSE]
  }

  /** Packs a negative 64-bit integer: the negative fixint for -32..-1,
      otherwise the narrowest signed form, two's complement payload. */
  function PackNegative(buffer: Bytes, value: int): (r: Bytes)
    requires INT64_MIN <= value < 0
    ensures buffer <= r && |r| > |buffer|
    ensures -32 <= value ==> r == buffer + [0x100 + value]
    ensures value < -32 ==> r[|buffer|] in {INT8, INT16, INT32, INT64}
  {
    if value >= -32 then
      var low: Byte := (value + 32) % 256;
      BitOrIsAdd(NEGATIVE_FIXNUM, low, 5);
      buffer + [BitOr(NEGATIVE_FIXNUM, low)]
    else if value >= INT8_MIN then buffer + [INT8, value % 256]
    else if value >= INT16_MIN then buffer + [INT16] + ToBigEndian(value, 2)
    else if value >= INT32_MIN then buffer + [INT32] + ToBigEndian(value, 4)
    else buffer + [INT64] + ToBigEndian(value, 8)
  }

  /** Packs an unsigned 64-bit integer: the positive fixint up to 0x7F,
      otherwise the narrowest unsigned form. */
  function PackNonnegative(buffer: Bytes, value: int): (r: Bytes)
    requires 0 <= value <= UINT64_MAX
    ensures buffer <= r && |r| > |buffer|
    ensures value <= 0x7F ==> r == buffer + [value]
    ensures 0x7F < value ==> r[|buffer|] in {UINT8, UINT16, UINT32, UINT64}
  {
    if value <= 0x7F then buffer + [value]
    else if value <= UINT8_MAX then buffer + [UINT8, value]
    else if value <= UINT16_MAX then buffer + [UINT16] + ToBigEndian(value, 2)
    else if value <= UINT32_MAX then buffer + [UINT32] + ToBigEndian(value, 4)
    else buffer + [UINT64] + ToBigEndian(value, 8)
  }

  /** Packs any value of a signed or unsigned integer type of at most 64 bits. */
  function PackInteger(buffer: Bytes, value: int): (r: Bytes)
    requires INT64_MIN <= value <= UINT64_MAX
    ensures buffer <= r
    ensures |r| - |buffer| in {1, 2, 3, 5, 9}
  {
    if value < 0 then PackNegative(buffer, value) else PackNonnegative(buffer, value)
  }

  /** Exchanges the two 32-bit halves of a 64-bit pattern (the ARM OABI
      word order correction). */
  function SwapWords(bits: nat): (r: nat)
    requires bits < Pow256(8)
    ensures r < Pow256(8)
    ensures r / 0x1_0000_0000 == bits % 0x1_0000_0000 && r % 0x1_0000_0000 == bits / 0x1_0000_0000
  {
    (bits % 0x1_0000_0000) * 0x1_0000_0000 + bits / 0x1_0000_0000
  }

  /** Packs a double given its IEEE 754 bit pattern; `swapWords` selects the
      ARM OABI build, which exchanges the pattern's halves first. */
  function PackDouble(buffer: Bytes, bits: nat, swapWords: bool): (r: Bytes)
    requires bits < Pow256(8)
    ensures buffer <= r && |r| == |buffer| + 9 && r[|buffer|] == DOUBLE
  {
    buffer + [DOUBLE] + ToBigEndian(if swapWords then SwapWords(bits) else bits, 8)
  }

  /** Packs a string's bytes under the narrowest str header. */
  function PackStr(buffer: Bytes, range: Bytes): (r: Result<Bytes, EncodeError>)
    ensures r.Ok? ==> buffer <= r.value && |r.value| > |buffer| + |range|
                      && r.value[|r.value| - |range|..] == range
    ensures r.Err? ==> r.error == OutOfRange("string", |range|, UINT32_MAX)
  {
    var size := |range|;
    if size < 32 then
      BitOrIsAdd(FIX_STR, size, 5);
      Ok(Push(buffer + [BitOr(FIX_STR, size)], range))
    else if size <= UINT8_MAX then Ok(Push(buffer + [STR8, size], range))
    else if size <= UINT16_MAX then Ok(Push(buffer + [STR16] + ToBigEndian(size, 2), range))
    else if size <= UINT32_MAX then Ok(Push(buffer + [STR32] + ToBigEndian(size, 4), range))
    else Err(OutOfRange("string", size, UINT32_MAX))
  }

  /** The characters of a NUL-terminated C string, terminator excluded. */
  function CStringView(cstr: Bytes): (s: Bytes)
    requires 0 in cstr
    ensures 0 !in s && s + [0] <= cstr
  {
    if cstr[0] == 0 then [] else [cstr[0]] + CStringView(cstr[1..])
  }

  /** The `const char*` overload of `pack_str`. */
  function PackCStr(buffer: Bytes, cstr: Bytes): (r: Result<Bytes, EncodeError>)
    requires 0 in cstr
    ensures r.Ok? ==> buffer <= r.value
    ensures r.Ok? ==> exists n :: 0 <= n < |cstr| && cstr[n] == 0 && 0 !in cstr[..n]
                                   && |r.value| > |buffer| + n && r.value[|r.value| - n..] == cstr[..n]
  {
    var s := CStringView(cstr);
    assert cstr[..|s|] == s && cstr[|s|] == 0;
    PackStr(buffer, s)
  }

  /** Packs a byte blob under the narrowest bin header (there is no fix form). */
  function PackBin(buffer: Bytes, range: Bytes): (r: Result<Bytes, EncodeError>)
    ensures r.Ok? ==> buffer <= r.value && |r.value| > |buffer| + |range|
                      && r.value[|r.value| - |range|..] == range
    ensures r.Err? ==> r.error == OutOfRange("binary", |range|, UINT32_MAX)
  {
    var size := |range|;
    if size <= UINT8_MAX then Ok(Push(buffer + [BIN8, size], range))
    else if size <= UINT16_MAX then Ok(Push(buffer + [BIN16] + ToBigEndian(size, 2), range))
    else if size <= UINT32_MAX then Ok(Push(buffer + [BIN32] + ToBigEndian(size, 4), range))
    else Err(OutOfRange("binary", size, UINT32_MAX))
  }

  /** Packs the header of an array of `size` elements; the elements follow
      separately. */
  function PackArray(buffer: Bytes, size: nat): (r: Result<Bytes, EncodeError>)
    ensures r.Ok? ==> buffer <= r.value && |r.value| - |buffer| in {1, 3, 5}
    ensures r.Err? ==> r.error == OutOfRange("array", size, UINT32_MAX)
  {
    if size <= 15 then
      BitOrIsAdd(FIX_ARRAY, size, 4);
      Ok(buffer + [BitOr(FIX_ARRAY, size)])
    else if size <= UINT16_MAX then Ok(buffer + [ARRAY16] + ToBigEndian(size, 2))
    else if size <= UINT32_MAX then Ok(buffer + [ARRAY32] + ToBigEndian(size, 4))
    else Err(OutOfRange("array", size, UINT32_MAX))
  }

  /** Packs the header of a map of `size` key/value pairs; the pairs follow
      separately. */
  function PackMap(buffer: Bytes, size: nat): (r: Result<Bytes, EncodeError>)
    ensures r.Ok? ==> buffer <= r.value && |r.value| - |buffer| in {1, 3, 5}
    ensures r.Err? ==> r.error == OutOfRange("map", size, UINT32_MAX)
  {
    if size <= 15 then
      BitOrIsAdd(FIX_MAP, size, 4);
      Ok(buffer + [BitOr(FIX_MAP, size)])
    else if size <= UINT16_MAX then Ok(buffer + [MAP16] + ToBigEndian(size, 2))
    else if size <= UINT32_MAX then Ok(buffer + [MAP32] + ToBigEndian(size, 4))
    else Err(OutOfRange("map", size, UINT32_MAX))
  }
}
