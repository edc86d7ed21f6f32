/** An independent reading of the MessagePack "Formats" section: a decoder
    for the one-value-at-a-time wire layout, and the table of formats each
    kind of value may use. The encoder is proved against both. */
module MsgpackReference {
  import opened Wrappers
  import opened BigEndian

  /** What one MessagePack object (or, for arrays and maps, its header) denotes. */
  datatype Item =
    | Nil
    | Boolean(b: bool)
    | Integer(i: int)
    | Str(text: Bytes)
    | Bin(data: Bytes)
    | ArrayHeader(count: nat)
    | MapHeader(count: nat)
    | Float64(bits: nat)

  /** A decoded item and the number of bytes it occupied. */
  datatype Decoded = Decoded(item: Item, size: nat)

  /** The big-endian unsigned field of `width` bytes that follows the type byte. */
  function Field(bs: Bytes, width: nat): Option<nat>
  {
    if |bs| < 1 + width then None else Some(FromBigEndian(bs[1..1 + width]))
  }

  /** Raw bytes `n` long that follow a header `header` bytes long. */
  function Payload(bs: Bytes, header: nat, n: nat): Option<Bytes>
  {
    if |bs| < header + n then None else Some(bs[header..header + n])
  }

  /** A str or bin object with a `width`-byte length field. */
  function LengthPrefixed(bs: Bytes, width: nat, isStr: bool): Option<Decoded>
  {
    match Field(bs, width)
    case None => None
    case Some(n) =>
      match Payload(bs, 1 + width, n)
      case None => None
      case Some(p) => Some(Decoded(if isStr then Str(p) else Bin(p), 1 + width + n))
  }

  /** An integer object with a `width`-byte payload, unsigned or two's complement. */
  function FixedInteger(bs: Bytes, width: nat, signed: bool): Option<Decoded>
  {
    match Field(bs, width)
    case None => None
    case Some(u) => Some(Decoded(Integer(if signed then ToSigned(u, width) else u), 1 + width))
  }

  /** An array or map header with a `width`-byte count field. */
  function CountPrefixed(bs: Bytes, width: nat, isMap: bool): Option<Decoded>
  {
    match Field(bs, width)
    case None => None
    case Some(n) => Some(Decoded(if isMap then MapHeader(n) else ArrayHeader(n), 1 + width))
  }

  /** Decodes the object at the front of `bs`; `None` when the bytes are
      truncated or use a format outside the ones this library writes
      (ext, float 32 and the never-used byte 0xC1). */
  function DecodeItem(bs: Bytes): Option<Decoded>
  {
    if |bs| == 0 then None
    else
      var t: int := bs[0];
      if t <= 0x7F then Some(Decoded(Integer(t), 1))
      else if t <= 0x8F then Some(Decoded(MapHeader(t - 0x80), 1))
      else if t <= 0x9F then Some(Decoded(ArrayHeader(t - 0x90), 1))
      else if t <= 0xBF then
        match Payload(bs, 1, t - 0xA0)
        case None => None
        case Some(p) => Some(Decoded(Str(p), 1 + (t - 0xA0)))
      else if t == 0xC0 then Some(Decoded(Nil, 1))
      else if t == 0xC2 then Some(Decoded(Boolean(false), 1))
      else if t == 0xC3 then Some(Decoded(Boolean(true), 1))
      else if t == 0xC4 then LengthPrefixed(bs, 1, false)
      else if t == 0xC5 then LengthPrefixed(bs, 2, false)
      else if t == 0xC6 then LengthPrefixed(bs, 4, false)
      else if t == 0xCB then
        match Field(bs, 8)
        case None => None
        case Some(bits) => Some(Decoded(Float64(bits), 9))
      else if t == 0xCC then FixedInteger(bs, 1, false)
      else if t == 0xCD then FixedInteger(bs, 2, false)
      else if t == 0xCE then FixedInteger(bs, 4, false)
      else if t == 0xCF then FixedInteger(bs, 8, false)
      else if t == 0xD0 then FixedInteger(bs, 1, true)
      else if t == 0xD1 then FixedInteger(bs, 2, true)
      else if t == 0xD2 then FixedInteger(bs, 4, true)
      else if t == 0xD3 then FixedInteger(bs, 8, true)
      else if t == 0xD9 then LengthPrefixed(bs, 1, true)
      else if t == 0xDA then LengthPrefixed(bs, 2, true)
      else if t == 0xDB then LengthPrefixed(bs, 4, true)
      else if t == 0xDC then CountPrefixed(bs, 2, false)
      else if t == 0xDD then CountPrefixed(bs, 4, false)
      else if t == 0xDE then CountPrefixed(bs, 2, true)
      else if t == 0xDF then CountPrefixed(bs, 4, true)
      else if t >= 0xE0 then Some(Decoded(Integer(t - 0x100), 1))
      else None
  }

  /** The integer formats: the two fixints and the 8/16/32/64-bit forms. */
  datatype IntFormat = PositiveFixint | NegativeFixint | Uint(width: nat) | Int(width: nat)

  predicate IsIntFormat(f: IntFormat)
  {
    (f.Uint? || f.Int?) ==> f.width in {1, 2, 4, 8}
  }

  /** The range of values format `f` can carry. */
  predicate IntFits(f: IntFormat, v: int)
  {
    match f
    case PositiveFixint => 0 <= v <= 0x7F
    case NegativeFixint => -32 <= v <= -1
    case Uint(w) => 0 <= v < Pow256(w)
    case Int(w) => -(Pow256(w) / 2) <= v < Pow256(w) / 2
  }

  /** Bytes used by format `f`, type byte included. */
  function IntFormatSize(f: IntFormat): nat
  {
    match f
    case PositiveFixint => 1
    case NegativeFixint => 1
    case Uint(w) => 1 + w
    case Int(w) => 1 + w
  }

  /** The kinds of value whose header carries a length or a count. */
  datatype Family = StrFamily | BinFamily | ArrayFamily | MapFamily

  /** A header that packs the length into the type byte (below `limit`), or
      one with a separate big-endian length field `width` bytes wide. */
  datatype HeaderFormat = Fix(limit: nat) | Prefixed(width: nat)

  /** The header formats the MessagePack specification defines for each family. */
  predicate Offers(family: Family, f: HeaderFormat)
  {
    match family
    case StrFamily => f in {Fix(32), Prefixed(1), Prefixed(2), Prefixed(4)}
    case BinFamily => f in {Prefixed(1), Prefixed(2), Prefixed(4)}
    case ArrayFamily => f in {Fix(16), Prefixed(2), Prefixed(4)}
    case MapFamily => f in {Fix(16), Prefixed(2), Prefixed(4)}
  }

  predicate HeaderFits(f: HeaderFormat, n: nat)
  {
    match f
    case Fix(limit) => n < limit
    case Prefixed(w) => n < Pow256(w)
  }

  function HeaderSize(f: HeaderFormat): nat
  {
    match f
    case Fix(_) => 1
    case Prefixed(w) => 1 + w
  }
}
