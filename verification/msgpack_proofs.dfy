/** The encoder against the reference: every packer's bytes decode back to
    the packed value and consume exactly the bytes written, and every
    header uses the smallest format the MessagePack specification offers. */
module MsgpackProofs {
  import opened Wrappers
  import opened BigEndian
  import opened MsgpackReference
  import opened Msgpack

  /** The bytes a packer appended to `buffer` to produce `packed`. */
  function Appended(buffer: Bytes, packed: Bytes): Bytes
    requires buffer <= packed
  {
    packed[|buffer|..]
  }

  /** A length field written by `ToBigEndian` reads back, and the rest follows it. */
  lemma FieldReads(tag: Byte, n: int, width: nat, tail: Bytes)
    requires 0 <= n < Pow256(width)
    ensures Field([tag] + ToBigEndian(n, width) + tail, width) == Some(n)
    ensures ([tag] + ToBigEndian(n, width) + tail)[1 + width..] == tail
  {
    var bs := [tag] + ToBigEndian(n, width) + tail;
    assert bs[1..1 + width] == ToBigEndian(n, width);
    FromToBigEndian(n, width);
    DivModUnique(n, Pow256(width), 0, n);
  }

  /** A two's complement field reads back as the signed value. */
  lemma SignedFieldReads(tag: Byte, v: int, width: nat, tail: Bytes)
    requires -(Pow256(width) / 2) <= v < Pow256(width) / 2
    ensures Field([tag] + ToBigEndian(v, width) + tail, width) == Some(v % Pow256(width))
    ensures ToSigned(v % Pow256(width), width) == v
  {
    var bs := [tag] + ToBigEndian(v, width) + tail;
    assert bs[1..1 + width] == ToBigEndian(v, width);
    FromToBigEndian(v, width);
    SignedRoundTrip(v, width);
  }

  lemma PackNilRoundTrip(buffer: Bytes, rest: Bytes)
    ensures DecodeItem(Appended(buffer, PackNil(buffer)) + rest) == Some(Decoded(Nil, 1))
  {
    assert Appended(buffer, PackNil(buffer)) == [0xC0];
  }

  lemma PackBoolRoundTrip(buffer: Bytes, value: bool, rest: Bytes)
    ensures DecodeItem(Appended(buffer, PackBool(buffer, value)) + rest) == Some(Decoded(Boolean(value), 1))
  {
    assert Appended(buffer, PackBool(buffer, value)) == if value then [0xC3] else [0xC2];
  }

  /** The reference decoder on an unsigned integer object. */
  lemma DecodeUnsigned(tag: Byte, width: nat, value: int, rest: Bytes)
    requires (tag == 0xCC && width == 1) || (tag == 0xCD && width == 2)
          || (tag == 0xCE && width == 4) || (tag == 0xCF && width == 8)
    requires 0 <= value < Pow256(width)
    ensures DecodeItem([tag] + ToBigEndian(value, width) + rest) == Some(Decoded(Integer(value), 1 + width))
  {
    var bs := [tag] + ToBigEndian(value, width) + rest;
    assert DecodeItem(bs) == FixedInteger(bs, width, false);
    FieldReads(tag, value, width, rest);
  }

  /** The reference decoder on a signed integer object. */
  lemma DecodeSigned(tag: Byte, width: nat, value: int, rest: Bytes)
    requires (tag == 0xD0 && width == 1) || (tag == 0xD1 && width == 2)
          || (tag == 0xD2 && width == 4) || (tag == 0xD3 && width == 8)
    requires -(Pow256(width) / 2) <= value < Pow256(width) / 2
    ensures DecodeItem([tag] + ToBigEndian(value, width) + rest) == Some(Decoded(Integer(value), 1 + width))
  {
    var bs := [tag] + ToBigEndian(value, width) + rest;
    SignedFieldReads(tag, value, width, rest);
    assert FixedInteger(bs, width, true) == Some(Decoded(Integer(value), 1 + width));
    assert DecodeItem(bs) == FixedInteger(bs, width, true);
  }

  /** The reference decoder on a str 8/16/32 object. */
  lemma DecodeStr(tag: Byte, width: nat, payload: Bytes, rest: Bytes)
    requires (tag == 0xD9 && width == 1) || (tag == 0xDA && width == 2) || (tag == 0xDB && width == 4)
    requires |payload| < Pow256(width)
    ensures DecodeItem([tag] + ToBigEndian(|payload|, width) + payload + rest)
              == Some(Decoded(Str(payload), 1 + width + |payload|))
  {
    var bs := [tag] + ToBigEndian(|payload|, width) + payload + rest;
    assert DecodeItem(bs) == LengthPrefixed(bs, width, true);
    PrefixedReads(tag, |payload|, width, payload, rest);
  }

  /** The reference decoder on a bin 8/16/32 object. */
  lemma DecodeBin(tag: Byte, width: nat, payload: Bytes, rest: Bytes)
    requires (tag == 0xC4 && width == 1) || (tag == 0xC5 && width == 2) || (tag == 0xC6 && width == 4)
    requires |payload| < Pow256(width)
    ensures DecodeItem([tag] + ToBigEndian(|payload|, width) + payload + rest)
              == Some(Decoded(Bin(payload), 1 + width + |payload|))
  {
    var bs := [tag] + ToBigEndian(|payload|, width) + payload + rest;
    assert DecodeItem(bs) == LengthPrefixed(bs, width, false);
    PrefixedReads(tag, |payload|, width, payload, rest);
  }

  /** The reference decoder on an array 16/32 header. */
  lemma DecodeArray(tag: Byte, width: nat, count: nat, rest: Bytes)
    requires (tag == 0xDC && width == 2) || (tag == 0xDD && width == 4)
    requires count < Pow256(width)
    ensures DecodeItem([tag] + ToBigEndian(count, width) + rest) == Some(Decoded(ArrayHeader(count), 1 + width))
  {
    var bs := [tag] + ToBigEndian(count, width) + rest;
    assert DecodeItem(bs) == CountPrefixed(bs, width, false);
    FieldReads(tag, count, width, rest);
  }

  /** The reference decoder on a map 16/32 header. */
  lemma DecodeMap(tag: Byte, width: nat, count: nat, rest: Bytes)
    requires (tag == 0xDE && width == 2) || (tag == 0xDF && width == 4)
    requires count < Pow256(width)
    ensures DecodeItem([tag] + ToBigEndian(count, width) + rest) == Some(Decoded(MapHeader(count), 1 + width))
  {
    var bs := [tag] + ToBigEndian(count, width) + rest;
    assert DecodeItem(bs) == CountPrefixed(bs, width, true);
    FieldReads(tag, count, width, rest);
  }

  /** A non-negative value in a uint 8/16/32/64 form decodes back. */
  lemma PackUintRoundTrip(buffer: Bytes, value: int, rest: Bytes, tag: Byte, width: nat)
    requires (tag == UINT8 && width == 1 && 0x7F < value <= UINT8_MAX)
          || (tag == UINT16 && width == 2 && UINT8_MAX < value <= UINT16_MAX)
          || (tag == UINT32 && width == 4 && UINT16_MAX < value <= UINT32_MAX)
          || (tag == UINT64 && width == 8 && UINT32_MAX < value <= UINT64_MAX)
    ensures var enc := Appended(buffer, PackNonnegative(buffer, value));
            DecodeItem(enc + rest) == Some(Decoded(Integer(value), |enc|))
  {
    Pow256Values();
    assert PackNonnegative(buffer, value) == buffer + ([tag] + ToBigEndian(value, width));
    assert Appended(buffer, PackNonnegative(buffer, value)) + rest == [tag] + ToBigEndian(value, width) + rest;
    DecodeUnsigned(tag, width, value, rest);
  }

  lemma PackNonnegativeRoundTrip(buffer: Bytes, value: int, rest: Bytes)
    requires 0 <= value <= UINT64_MAX
    ensures var enc := Appended(buffer, PackNonnegative(buffer, value));
            DecodeItem(enc + rest) == Some(Decoded(Integer(value), |enc|))
  {
    if value <= 0x7F {
      assert Appended(buffer, PackNonnegative(buffer, value)) == [value];
    } else if value <= UINT8_MAX {
      PackUintRoundTrip(buffer, value, rest, UINT8, 1);
    } else if value <= UINT16_MAX {
      PackUintRoundTrip(buffer, value, rest, UINT16, 2);
    } else if value <= UINT32_MAX {
      PackUintRoundTrip(buffer, value, rest, UINT32, 4);
    } else {
      PackUintRoundTrip(buffer, value, rest, UINT64, 8);
    }
  }

  /** A negative value in an int 8/16/32/64 form decodes back. */
  lemma PackIntRoundTrip(buffer: Bytes, value: int, rest: Bytes, tag: Byte, width: nat)
    requires (tag == INT8 && width == 1 && INT8_MIN <= value < -32)
          || (tag == INT16 && width == 2 && INT16_MIN <= value < INT8_MIN)
          || (tag == INT32 && width == 4 && INT32_MIN <= value < INT16_MIN)
          || (tag == INT64 && width == 8 && INT64_MIN <= value < INT32_MIN)
    ensures var enc := Appended(buffer, PackNegative(buffer, value));
            DecodeItem(enc + rest) == Some(Decoded(Integer(value), |enc|))
  {
    Pow256Values();
    assert PackNegative(buffer, value) == buffer + ([tag] + ToBigEndian(value, width));
    assert Appended(buffer, PackNegative(buffer, value)) + rest == [tag] + ToBigEndian(value, width) + rest;
    DecodeSigned(tag, width, value, rest);
  }

  lemma PackNegativeRoundTrip(buffer: Bytes, value: int, rest: Bytes)
    requires INT64_MIN <= value < 0
    ensures var enc := Appended(buffer, PackNegative(buffer, value));
            DecodeItem(enc + rest) == Some(Decoded(Integer(value), |enc|))
  {
    if -32 <= value {
      assert Appended(buffer, PackNegative(buffer, value)) == [0x100 + value];
    } else if INT8_MIN <= value {
      PackIntRoundTrip(buffer, value, rest, INT8, 1);
    } else if INT16_MIN <= value {
      PackIntRoundTrip(buffer, value, rest, INT16, 2);
    } else if INT32_MIN <= value {
      PackIntRoundTrip(buffer, value, rest, INT32, 4);
    } else {
      PackIntRoundTrip(buffer, value, rest, INT64, 8);
    }
  }

  /** Every integer of a 64-bit type decodes back from its encoding, which
      is self-delimiting. */
  lemma PackIntegerRoundTrip(buffer: Bytes, value: int, rest: Bytes)
    requires INT64_MIN <= value <= UINT64_MAX
    ensures var enc := Appended(buffer, PackInteger(buffer, value));
            DecodeItem(enc + rest) == Some(Decoded(Integer(value), |enc|))
  {
    if value < 0 {
      PackNegativeRoundTrip(buffer, value, rest);
    } else {
      PackNonnegativeRoundTrip(buffer, value, rest);
    }
  }

  /** No integer format of the MessagePack specification that can hold the
      value is shorter than the one chosen. */
  lemma PackIntegerSmallest(buffer: Bytes, value: int, f: IntFormat)
    requires INT64_MIN <= value <= UINT64_MAX
    requires IsIntFormat(f) && IntFits(f, value)
    ensures |Appended(buffer, PackInteger(buffer, value))| <= IntFormatSize(f)
  {
    Pow256Values();
  }

  lemma SwapWordsInvolution(bits: nat)
    requires bits < Pow256(8)
    ensures SwapWords(SwapWords(bits)) == bits
  {
    Pow256Values();
    var m := 0x1_0000_0000;
    var lo, hi := bits % m, bits / m;
    DivModUnique(lo * m + hi, m, lo, hi);
  }

  /** The double's 64-bit pattern reads back (halves exchanged on ARM OABI). */
  lemma PackDoubleRoundTrip(buffer: Bytes, bits: nat, swapWords: bool, rest: Bytes)
    requires bits < Pow256(8)
    ensures var enc := Appended(buffer, PackDouble(buffer, bits, swapWords));
            var pattern := if swapWords then SwapWords(bits) else bits;
            DecodeItem(enc + rest) == Some(Decoded(Float64(pattern), 9))
  {
    var pattern := if swapWords then SwapWords(bits) else bits;
    var enc := Appended(buffer, PackDouble(buffer, bits, swapWords));
    assert enc == [DOUBLE] + ToBigEndian(pattern, 8);
    FieldReads(DOUBLE, pattern, 8, rest);
    assert enc + rest == [DOUBLE] + ToBigEndian(pattern, 8) + rest;
  }

  /** A header followed by a payload: the field and the payload read back. */
  lemma PrefixedReads(tag: Byte, n: nat, width: nat, payload: Bytes, rest: Bytes)
    requires n == |payload| < Pow256(width)
    ensures var bs := [tag] + ToBigEndian(n, width) + payload + rest;
            Field(bs, width) == Some(n) && Payload(bs, 1 + width, n) == Some(payload)
  {
    FieldReads(tag, n, width, payload + rest);
    var bs := [tag] + ToBigEndian(n, width) + payload + rest;
    assert bs == [tag] + ToBigEndian(n, width) + (payload + rest);
    assert bs[1 + width..1 + width + n] == payload;
  }

  /** A string with a str 8/16/32 header decodes back to its bytes. */
  lemma PackStrWideRoundTrip(buffer: Bytes, s: Bytes, rest: Bytes, tag: Byte, width: nat)
    requires 32 <= |s| <= UINT32_MAX
    requires (tag == STR8 && width == 1 && |s| <= UINT8_MAX)
          || (tag == STR16 && width == 2 && UINT8_MAX < |s| <= UINT16_MAX)
          || (tag == STR32 && width == 4 && UINT16_MAX < |s|)
    ensures var enc := Appended(buffer, PackStr(buffer, s).value);
            DecodeItem(enc + rest) == Some(Decoded(Str(s), |enc|))
  {
    var n := |s|;
    Pow256Values();
    assert PackStr(buffer, s).value == buffer + ([tag] + ToBigEndian(n, width) + s);
    assert Appended(buffer, PackStr(buffer, s).value) + rest == [tag] + ToBigEndian(n, width) + s + rest;
    DecodeStr(tag, width, s, rest);
  }

  /** A string shorter than 32 bytes decodes back from its fixstr form. */
  lemma PackFixStrRoundTrip(buffer: Bytes, s: Bytes, rest: Bytes)
    requires |s| < 32
    ensures var enc := Appended(buffer, PackStr(buffer, s).value);
            DecodeItem(enc + rest) == Some(Decoded(Str(s), |enc|))
  {
    var n := |s|;
    BitOrIsAdd(FIX_STR, n, 5);
    var bs := Appended(buffer, PackStr(buffer, s).value) + rest;
    assert bs == [0xA0 + n] + s + rest;
    assert bs[1..1 + n] == s;
    assert Payload(bs, 1, n) == Some(s);
  }

  /** A packed string decodes back to its bytes. */
  lemma PackStrRoundTrip(buffer: Bytes, s: Bytes, rest: Bytes)
    requires PackStr(buffer, s).Ok?
    ensures var enc := Appended(buffer, PackStr(buffer, s).value);
            DecodeItem(enc + rest) == Some(Decoded(Str(s), |enc|))
  {
    var n := |s|;
    if n < 32 {
      PackFixStrRoundTrip(buffer, s, rest);
    } else if n <= UINT8_MAX {
      PackStrWideRoundTrip(buffer, s, rest, STR8, 1);
    } else if n <= UINT16_MAX {
      PackStrWideRoundTrip(buffer, s, rest, STR16, 2);
    } else {
      PackStrWideRoundTrip(buffer, s, rest, STR32, 4);
    }
  }

  /** `pack_str` fails exactly when no str format can carry the length, and
      otherwise uses the shortest header that can. */
  lemma PackStrSmallest(buffer: Bytes, s: Bytes)
    ensures PackStr(buffer, s).Err? <==> forall f :: Offers(StrFamily, f) ==> !HeaderFits(f, |s|)
    ensures PackStr(buffer, s).Ok? ==>
              forall f :: Offers(StrFamily, f) && HeaderFits(f, |s|) ==>
                |Appended(buffer, PackStr(buffer, s).value)| <= HeaderSize(f) + |s|
  {
    Pow256Values();
    assert Offers(StrFamily, Prefixed(4));
  }

  /** A blob with a bin 8/16/32 header decodes back to its bytes. */
  lemma PackBinClassRoundTrip(buffer: Bytes, data: Bytes, rest: Bytes, tag: Byte, width: nat)
    requires (tag == BIN8 && width == 1 && |data| <= UINT8_MAX)
          || (tag == BIN16 && width == 2 && UINT8_MAX < |data| <= UINT16_MAX)
          || (tag == BIN32 && width == 4 && UINT16_MAX < |data| <= UINT32_MAX)
    ensures var enc := Appended(buffer, PackBin(buffer, data).value);
            DecodeItem(enc + rest) == Some(Decoded(Bin(data), |enc|))
  {
    var n := |data|;
    Pow256Values();
    assert PackBin(buffer, data).value == buffer + ([tag] + ToBigEndian(n, width) + data);
    assert Appended(buffer, PackBin(buffer, data).value) + rest == [tag] + ToBigEndian(n, width) + data + rest;
    DecodeBin(tag, width, data, rest);
  }

  /** A packed blob decodes back to its bytes. */
  lemma PackBinRoundTrip(buffer: Bytes, data: Bytes, rest: Bytes)
    requires PackBin(buffer, data).Ok?
    ensures var enc := Appended(buffer, PackBin(buffer, data).value);
            DecodeItem(enc + rest) == Some(Decoded(Bin(data), |enc|))
  {
    var n := |data|;
    if n <= UINT8_MAX {
      PackBinClassRoundTrip(buffer, data, rest, BIN8, 1);
    } else if n <= UINT16_MAX {
      PackBinClassRoundTrip(buffer, data, rest, BIN16, 2);
    } else {
      PackBinClassRoundTrip(buffer, data, rest, BIN32, 4);
    }
  }

  /** `pack_bin` fails exactly when no bin format can carry the length, and
      otherwise uses the shortest header that can (bin 8 even when empty). */
  lemma PackBinSmallest(buffer: Bytes, data: Bytes)
    ensures PackBin(buffer, data).Err? <==> forall f :: Offers(BinFamily, f) ==> !HeaderFits(f, |data|)
    ensures PackBin(buffer, data).Ok? ==>
              forall f :: Offers(BinFamily, f) && HeaderFits(f, |data|) ==>
                |Appended(buffer, PackBin(buffer, data).value)| <= HeaderSize(f) + |data|
  {
    Pow256Values();
    assert Offers(BinFamily, Prefixed(4));
  }

  /** An array 16/32 header decodes back to the element count. */
  lemma PackArrayWideRoundTrip(buffer: Bytes, size: nat, rest: Bytes, tag: Byte, width: nat)
    requires (tag == ARRAY16 && width == 2 && 15 < size <= UINT16_MAX)
          || (tag == ARRAY32 && width == 4 && UINT16_MAX < size <= UINT32_MAX)
    ensures var enc := Appended(buffer, PackArray(buffer, size).value);
            DecodeItem(enc + rest) == Some(Decoded(ArrayHeader(size), |enc|))
  {
    Pow256Values();
    assert PackArray(buffer, size).value == buffer + ([tag] + ToBigEndian(size, width));
    assert Appended(buffer, PackArray(buffer, size).value) + rest == [tag] + ToBigEndian(size, width) + rest;
    DecodeArray(tag, width, size, rest);
  }

  /** A fixarray header decodes back to its count. */
  lemma PackFixArrayRoundTrip(buffer: Bytes, size: nat, rest: Bytes)
    requires size <= 15
    ensures var enc := Appended(buffer, PackArray(buffer, size).value);
            DecodeItem(enc + rest) == Some(Decoded(ArrayHeader(size), |enc|))
  {
    BitOrIsAdd(FIX_ARRAY, size, 4);
    var bs := Appended(buffer, PackArray(buffer, size).value) + rest;
    assert bs == [0x90 + size] + rest;
    assert bs[0] == 0x90 + size;
  }

  /** A packed array header decodes back to the element count. */
  lemma PackArrayRoundTrip(buffer: Bytes, size: nat, rest: Bytes)
    requires PackArray(buffer, size).Ok?
    ensures var enc := Appended(buffer, PackArray(buffer, size).value);
            DecodeItem(enc + rest) == Some(Decoded(ArrayHeader(size), |enc|))
  {
    if size <= 15 {
      PackFixArrayRoundTrip(buffer, size, rest);
    } else if size <= UINT16_MAX {
      PackArrayWideRoundTrip(buffer, size, rest, ARRAY16, 2);
    } else {
      PackArrayWideRoundTrip(buffer, size, rest, ARRAY32, 4);
    }
  }

  lemma PackArraySmallest(buffer: Bytes, size: nat)
    ensures PackArray(buffer, size).Err? <==> forall f :: Offers(ArrayFamily, f) ==> !HeaderFits(f, size)
    ensures PackArray(buffer, size).Ok? ==>
              forall f :: Offers(ArrayFamily, f) && HeaderFits(f, size) ==>
                |Appended(buffer, PackArray(buffer, size).value)| <= HeaderSize(f)
  {
    Pow256Values();
    assert Offers(ArrayFamily, Prefixed(4));
  }

  /** A map 16/32 header decodes back to the pair count. */
  lemma PackMapWideRoundTrip(buffer: Bytes, size: nat, rest: Bytes, tag: Byte, width: nat)
    requires (tag == MAP16 && width == 2 && 15 < size <= UINT16_MAX)
          || (tag == MAP32 && width == 4 && UINT16_MAX < size <= UINT32_MAX)
    ensures var enc := Appended(buffer, PackMap(buffer, size).value);
            DecodeItem(enc + rest) == Some(Decoded(MapHeader(size), |enc|))
  {
    Pow256Values();
    assert PackMap(buffer, size).value == buffer + ([tag] + ToBigEndian(size, width));
    assert Appended(buffer, PackMap(buffer, size).value) + rest == [tag] + ToBigEndian(size, width) + rest;
    DecodeMap(tag, width, size, rest);
  }

  /** A fixmap header decodes back to its count. */
  lemma PackFixMapRoundTrip(buffer: Bytes, size: nat, rest: Bytes)
    requires size <= 15
    ensures var enc := Appended(buffer, PackMap(buffer, size).value);
            DecodeItem(enc + rest) == Some(Decoded(MapHeader(size), |enc|))
  {
    BitOrIsAdd(FIX_MAP, size, 4);
    var bs := Appended(buffer, PackMap(buffer, size).value) + rest;
    assert bs == [0x80 + size] + rest;
    assert bs[0] == 0x80 + size;
  }

  /** A packed map header decodes back to the pair count. */
  lemma PackMapRoundTrip(buffer: Bytes, size: nat, rest: Bytes)
    requires PackMap(buffer, size).Ok?
    ensures var enc := Appended(buffer, PackMap(buffer, size).value);
            DecodeItem(enc + rest) == Some(Decoded(MapHeader(size), |enc|))
  {
    if size <= 15 {
      PackFixMapRoundTrip(buffer, size, rest);
    } else if size <= UINT16_MAX {
      PackMapWideRoundTrip(buffer, size, rest, MAP16, 2);
    } else {
      PackMapWideRoundTrip(buffer, size, rest, MAP32, 4);
    }
  }

  lemma PackMapSmallest(buffer: Bytes, size: nat)
    ensures PackMap(buffer, size).Err? <==> forall f :: Offers(MapFamily, f) ==> !HeaderFits(f, size)
    ensures PackMap(buffer, size).Ok? ==>
              forall f :: Offers(MapFamily, f) && HeaderFits(f, size) ==>
                |Appended(buffer, PackMap(buffer, size).value)| <= HeaderSize(f)
  {
    Pow256Values();
    assert Offers(MapFamily, Prefixed(4));
  }
}
