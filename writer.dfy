/** Writer.h / Writer.cpp: a byte buffer that only grows, through primitives that each append
    one exactly framed term, container header, or the version byte.

    Each primitive is described by a `Frame`, the item it appends, and `Serialize`, the bytes
    of that item; the methods of class `Writer` append those bytes piece by piece as the
    source does. */
module EtfWriter {
  import opened CppIntegers
  import opened EtfConstants

  const MaxSmallAtomSize: nat := 0xFF
  const MaxAtomSize: nat := 0xFFFF
  const MaxStringSize: nat := 0xFFFF
  const MaxSmallTupleSize: nat := 0xFF
  const MaxContainerSize: nat := 0xFFFF_FFFF

  /** `std::length_error` and its message. */
  datatype LengthError = LengthError(message: string)

  /** A primitive either completes or throws before appending anything. */
  datatype Outcome = Pass | Fail(error: LengthError)

  datatype Result<+T> = Ok(value: T) | Err(error: LengthError)

  /** `std::string` atoms (ATOM_EXT, SMALL_ATOM_EXT) and `std::u8string` atoms (the UTF-8 tags). */
  datatype AtomEncoding = Latin1 | Utf8

  /** One item the Writer appends. */
  datatype Frame =
    | VersionMagic
    | SmallIntegerExt(small: uint8)
    | IntegerExt(integer: int32)
    | SmallBigExt(sign: uint8, digits: seq<byte>)
    | NewFloatExt(bits: uint64)
    | SmallAtomExt(enc: AtomEncoding, name: seq<byte>)
    | AtomExt(enc: AtomEncoding, name: seq<byte>)
    | BinaryExt(data: seq<byte>)
    | StringExt(chars: seq<byte>)
    | SmallTupleHeader(smallArity: uint8)
    | LargeTupleHeader(arity: nat)
    | ListHeader(length: nat)
    | MapHeader(pairs: nat)
    | NilExt

  /** Every length or count of the frame fits the field that carries it. */
  predicate Fits(f: Frame) {
    match f
    case SmallBigExt(_, digits) => |digits| <= 0xFF
    case SmallAtomExt(_, name) => |name| <= 0xFF
    case AtomExt(_, name) => |name| <= MaxAtomSize
    case BinaryExt(data) => |data| <= MaxContainerSize
    case StringExt(chars) => |chars| <= MaxStringSize
    case LargeTupleHeader(n) => n <= MaxContainerSize
    case ListHeader(n) => n <= MaxContainerSize
    case MapHeader(n) => n <= MaxContainerSize
    case _ => true
  }

  predicate AllFit(fs: seq<Frame>) {
    forall i :: 0 <= i < |fs| ==> Fits(fs[i])
  }

  /** The tag the frame starts with. */
  function TagOf(f: Frame): Constant {
    match f
    case VersionMagic => Version
    case SmallIntegerExt(_) => SmallInteger
    case IntegerExt(_) => Integer
    case SmallBigExt(_, _) => SmallBig
    case NewFloatExt(_) => NewFloat
    case SmallAtomExt(enc, _) => if enc == Latin1 then SmallAtom else SmallAtomUtf8
    case AtomExt(enc, _) => if enc == Latin1 then Atom else AtomUtf8
    case BinaryExt(_) => Binary
    case StringExt(_) => String
    case SmallTupleHeader(_) => SmallTuple
    case LargeTupleHeader(_) => LargeTuple
    case ListHeader(_) => List
    case MapHeader(_) => Map
    case NilExt => Nil
  }

  /** The bytes of a frame: its tag, then its fields. */
  function Serialize(f: Frame): (r: seq<byte>)
    ensures |r| >= 1 && r[0] == ToByte(TagOf(f))
  {
    [ToByte(TagOf(f))] + Fields(f)
  }

  /** The bytes that follow a frame's tag; lengths and counts are big-endian. A length or
      count too large for its field would lose its high-order bytes; the frames the Writer
      emits all satisfy Fits, so none does. */
  function Fields(f: Frame): seq<byte>
  {
    match f
    case VersionMagic => []
    case SmallIntegerExt(b) => [b]
    case IntegerExt(i) => BE(4, Convert(UInt32, i as int))
    case SmallBigExt(sign, digits) => BE(1, |digits|) + [sign] + digits
    case NewFloatExt(bits) => BE(8, bits as nat)
    case SmallAtomExt(_, name) => BE(1, |name|) + name
    case AtomExt(_, name) => BE(2, |name|) + name
    case BinaryExt(data) => BE(4, |data|) + data
    case StringExt(chars) => BE(2, |chars|) + chars
    case SmallTupleHeader(n) => [n]
    case LargeTupleHeader(n) => BE(4, n)
    case ListHeader(n) => BE(4, n)
    case MapHeader(n) => BE(4, n)
    case NilExt => []
  }

  function SerializeAll(fs: seq<Frame>): seq<byte>
  {
    if |fs| == 0 then [] else Serialize(fs[0]) + SerializeAll(fs[1..])
  }

  lemma {:induction false} SerializeAllAppend(a: seq<Frame>, b: seq<Frame>)
    ensures SerializeAll(a + b) == SerializeAll(a) + SerializeAll(b)
  {
    if a != [] {
      assert (a + b)[0] == a[0] && (a + b)[1..] == a[1..] + b;
      SerializeAllAppend(a[1..], b);
    } else {
      assert a + b == b;
    }
  }

  // The three atoms the Writer emits from fixed byte arrays.

  const NilAtom: Frame := SmallAtomExt(Latin1, [Code('n'), Code('i'), Code('l')])
  const TrueAtom: Frame := SmallAtomExt(Latin1, [Code('t'), Code('r'), Code('u'), Code('e')])
  const FalseAtom: Frame := SmallAtomExt(Latin1, [Code('f'), Code('a'), Code('l'), Code('s'), Code('e')])

  /** The fixed arrays are the small-atom frames of "nil", "true" and "false". */
  lemma FixedAtomBytes()
    ensures Fits(NilAtom) && Serialize(NilAtom) == [115, 3, 110, 105, 108]
    ensures Fits(TrueAtom) && Serialize(TrueAtom) == [115, 4, 116, 114, 117, 101]
    ensures Fits(FalseAtom) && Serialize(FalseAtom) == [115, 5, 102, 97, 108, 115, 101]
  {
  }

  function Pow2(n: nat): (p: nat)
    ensures p >= 1
  {
    if n == 0 then 1 else 2 * Pow2(n - 1)
  }

  /** `std::bit_width`: the number of binary digits of v, 0 for 0. */
  function BitWidth(v: nat): (n: nat)
    ensures v == 0 ==> n == 0
    ensures v < Pow2(n)
    ensures v > 0 ==> n >= 1 && Pow2(n - 1) <= v
  {
    if v == 0 then 0 else 1 + BitWidth(v / 2)
  }

  lemma {:induction false} Pow2Monotone(a: nat, b: nat)
    requires a <= b
    ensures Pow2(a) <= Pow2(b)
  {
    if a < b {
      Pow2Monotone(a, b - 1);
    }
  }

  lemma {:induction false} Pow2Add(a: nat, b: nat)
    ensures Pow2(a + b) == Pow2(a) * Pow2(b)
  {
    if a > 0 {
      Pow2Add(a - 1, b);
    }
  }

  lemma {:induction false} Pow2Bytes(k: nat)
    ensures Pow2(8 * k) == Pow256(k)
  {
    if k > 0 {
      Pow2Add(8, 8 * (k - 1));
      Pow2Bytes(k - 1);
    }
  }

  /** `std::numeric_limits<uint8_t>::digits - 1` */
  const AlignAmt: nat := 7

  /** `GetByteCount`: the number of bytes the magnitude of a SMALL_BIG_EXT needs. The sum is
      cast to `uint8_t` before the shift; it is at most 71, so the cast changes nothing. */
  function GetByteCount(v: uint64): (n: uint8)
    ensures n <= 8
    ensures n == 0 <==> v == 0
    ensures v as nat < Pow256(n as nat)
    ensures n > 0 ==> Pow256(n as nat - 1) <= v as nat
  {
    var width := BitWidth(v as nat);
    ByteCountIsMinimal(v as nat, width);
    ((width + AlignAmt) % 0x100 / 8) as uint8
  }

  /** A 64-bit value has at most 64 binary digits. */
  lemma WidthAtMost64(v: nat)
    requires v < 0x1_0000_0000_0000_0000
    ensures BitWidth(v) <= 64
  {
    Pow2Bytes(8);
    if BitWidth(v) > 64 {
      Pow2Monotone(64, BitWidth(v) - 1);
      assert false;
    }
  }

  /** The arithmetic of `(width + AlignAmt) >> 3` for a width of at most 64. */
  lemma RoundUpToBytes(width: nat)
    requires width <= 64
    ensures (width + AlignAmt) % 0x100 == width + AlignAmt
    ensures var n := (width + AlignAmt) / 8;
      && n <= 8
      && (n == 0 <==> width == 0)
      && width <= 8 * n
      && (n > 0 ==> 8 * (n - 1) <= width - 1)
  {
  }

  /** ceil(width / 8) bytes hold a number of `width` bits, and one byte fewer does not. */
  lemma ByteCountIsMinimal(v: nat, width: nat)
    requires v < 0x1_0000_0000_0000_0000 && width == BitWidth(v)
    ensures (width + AlignAmt) % 0x100 == width + AlignAmt
    ensures var n := (width + AlignAmt) / 8;
      && n <= 8
      && (n == 0 <==> v == 0)
      && v < Pow256(n)
      && (n > 0 ==> Pow256(n - 1) <= v)
  {
    WidthAtMost64(v);
    RoundUpToBytes(width);
    var n := (width + AlignAmt) / 8;
    Pow2Monotone(width, 8 * n);
    Pow2Bytes(n);
    if n > 0 {
      Pow2Monotone(8 * (n - 1), width - 1);
      Pow2Bytes(n - 1);
    }
  }

  /** `WriteUInt64`: SMALL_BIG_EXT with sign 0, and as the magnitude the first ByteCount bytes of
      the value's 8-byte big-endian image. */
  function UInt64Frame(v: uint64): (f: Frame)
    ensures Fits(f) && f.SmallBigExt? && f.sign == 0
    ensures |f.digits| == GetByteCount(v) as nat
  {
    SmallBigExt(0, BE(8, v as nat)[..GetByteCount(v)])
  }

  /** `std::abs` on `int64_t`, defined for every value but the most negative one. */
  function Abs(v: int64): (r: uint64)
    requires v != -0x8000_0000_0000_0000
    ensures r as int == if v < 0 then -(v as int) else v as int
  {
    if v < 0 then (-(v as int)) as uint64 else v as int as uint64
  }

  /** `WriteInt64`: SMALL_BIG_EXT with the sign bit of the value and the first ByteCount bytes
      of the 8-byte big-endian image of its magnitude. */
  function Int64Frame(v: int64): (f: Frame)
    requires v != -0x8000_0000_0000_0000
    ensures Fits(f) && f.SmallBigExt?
    ensures f.sign == (if v < 0 then 1 else 0)
    ensures |f.digits| == GetByteCount(Abs(v)) as nat
  {
    var magnitude := Abs(v);
    SmallBigExt(if v < 0 then 1 else 0, BE(8, magnitude as nat)[..GetByteCount(magnitude)])
  }

  /** `WriteAtom` / `WriteAtomUtf8`: the small form below 255 bytes, the two-byte-length form up
      to 65535 bytes, an error beyond. */
  function AtomFrame(enc: AtomEncoding, name: seq<byte>): (r: Result<Frame>)
    ensures r.Ok? <==> |name| <= MaxAtomSize
    ensures r.Ok? ==> Fits(r.value) && TagOf(r.value) in {SmallAtom, SmallAtomUtf8, Atom, AtomUtf8}
    ensures r.Ok? ==> r.value.name == name && r.value.enc == enc
    ensures r.Ok? ==> (r.value.SmallAtomExt? <==> |name| < MaxSmallAtomSize)
  {
    if |name| < MaxSmallAtomSize then Ok(SmallAtomExt(enc, name))
    else if |name| <= MaxAtomSize then Ok(AtomExt(enc, name))
    else Err(LengthError(if enc == Latin1 then "Atom is too big" else "Atom value is too big"))
  }

  /** `WriteBinary` */
  function BinaryFrame(data: seq<byte>): (r: Result<Frame>)
    ensures r.Ok? <==> |data| <= MaxContainerSize
    ensures r.Ok? ==> Fits(r.value) && r.value == BinaryExt(data)
  {
    if |data| > MaxContainerSize then Err(LengthError("Binary value is too big"))
    else Ok(BinaryExt(data))
  }

  /** `WriteString`; it reports an oversized string with the binary's message. */
  function StringFrame(chars: seq<byte>): (r: Result<Frame>)
    ensures r.Ok? <==> |chars| <= MaxStringSize
    ensures r.Ok? ==> Fits(r.value) && r.value == StringExt(chars)
  {
    if |chars| > MaxStringSize then Err(LengthError("Binary value is too big"))
    else Ok(StringExt(chars))
  }

  /** `WriteTupleHeader`: a one-byte arity up to 255, a four-byte arity up to 2^32 - 1. */
  function TupleHeaderFrame(size: nat): (r: Result<Frame>)
    ensures r.Ok? <==> size <= MaxContainerSize
    ensures r.Ok? ==> Fits(r.value)
    ensures r.Ok? ==> (r.value.SmallTupleHeader? <==> size <= MaxSmallTupleSize)
    ensures r.Ok? ==> r.value.SmallTupleHeader? || r.value.LargeTupleHeader?
    ensures r.Ok? ==> Arity(r.value) == size
  {
    if size <= MaxSmallTupleSize then Ok(SmallTupleHeader(size as uint8))
    else if size <= MaxContainerSize then Ok(LargeTupleHeader(size))
    else Err(LengthError("Tuple value is too big"))
  }

  /** The arity a tuple header announces. */
  function Arity(f: Frame): nat
    requires f.SmallTupleHeader? || f.LargeTupleHeader?
  {
    if f.SmallTupleHeader? then f.smallArity as nat else f.arity
  }

  /** `WriteListHeader` */
  function ListHeaderFrame(size: nat): (r: Result<Frame>)
    ensures r.Ok? <==> size <= MaxContainerSize
    ensures r.Ok? ==> Fits(r.value) && r.value == ListHeader(size)
  {
    if size <= MaxContainerSize then Ok(ListHeader(size)) else Err(LengthError("List value is too big"))
  }

  /** `WriteMapHeader` */
  function MapHeaderFrame(size: nat): (r: Result<Frame>)
    ensures r.Ok? <==> size <= MaxContainerSize
    ensures r.Ok? ==> Fits(r.value) && r.value == MapHeader(size)
  {
    if size <= MaxContainerSize then Ok(MapHeader(size)) else Err(LengthError("Map value is too big"))
  }

  // Appending a tag and then a frame's fields piece by piece appends the frame's bytes.

  lemma Tagged1(before: seq<byte>, f: Frame, a: seq<byte>)
    requires Fields(f) == a
    ensures before + [ToByte(TagOf(f))] + a == before + Serialize(f)
  {
  }

  lemma Tagged2(before: seq<byte>, f: Frame, a: seq<byte>, b: seq<byte>)
    requires Fields(f) == a + b
    ensures before + [ToByte(TagOf(f))] + a + b == before + Serialize(f)
  {
  }

  lemma Tagged3(before: seq<byte>, f: Frame, a: seq<byte>, b: seq<byte>, c: seq<byte>)
    requires Fields(f) == a + b + c
    ensures before + [ToByte(TagOf(f))] + a + b + c == before + Serialize(f)
  {
  }

  /** The SMALL_BIG_EXT frame of a 64-bit magnitude: its byte count, the sign byte, and the
      leading ByteCount bytes of the magnitude's 8-byte big-endian image. */
  lemma SmallBigFields(sign: uint8, magnitude: uint64)
    ensures var n := GetByteCount(magnitude);
      Fields(SmallBigExt(sign, BE(8, magnitude as nat)[..n])) == [n] + [sign] + BE(8, magnitude as nat)[..n]
  {
    BEOfByte(GetByteCount(magnitude) as nat);
  }

  /** `class Writer`. Its only state is `Buffer`; `host` is the platform's byte order, which
      decides what `AsBigEndian` does but, as the postconditions show, not what is written. */
  class Writer {
    const host: Endian
    var buf: seq<byte>

    /** The capacity hint only reserves memory: the buffer starts empty. */
    constructor(initialCapacity: nat, host: Endian)
      ensures this.host == host && buf == []
    {
      this.host := host;
      buf := [];
    }

    /** `Get`: the bytes written so far; reading them changes nothing. */
    function Get(): seq<byte>
      reads this
    {
      buf
    }

    /** `Reset`: the only operation that removes bytes. */
    method Reset()
      modifies this
      ensures buf == []
    {
      buf := [];
    }

    /** The private `WriteBytes`. */
    method WriteBytes(data: seq<byte>)
      modifies this
      ensures buf == old(buf) + data
    {
      buf := buf + data;
    }

    /** The private `Write` on a one-byte value: a tag, a count or a sign. */
    method WriteByte(b: byte)
      modifies this
      ensures buf == old(buf) + [b]
    {
      WriteBytes([b]);
    }

    /** The private `Write(AsBigEndian(v))` on a w-byte value: its object representation after
        the conversion, which is the big-endian image on either host. */
    method WriteAsBigEndian(w: nat, v: nat)
      requires v < Pow256(w)
      modifies this
      ensures buf == old(buf) + BE(w, v)
    {
      AsBigEndianImage(host, w, v);
      WriteBytes(Image(host, w, AsBigEndian(host, w, v)));
    }

    method WriteVersion()
      modifies this
      ensures buf == old(buf) + Serialize(VersionMagic)
    {
      WriteByte(ToByte(Version));
    }

    method WriteNil()
      modifies this
      ensures buf == old(buf) + Serialize(NilAtom)
    {
      WriteBytes([ToByte(SmallAtom), 3, Code('n'), Code('i'), Code('l')]);
    }

    method WriteFalse()
      modifies this
      ensures buf == old(buf) + Serialize(FalseAtom)
    {
      WriteBytes([ToByte(SmallAtom), 5, Code('f'), Code('a'), Code('l'), Code('s'), Code('e')]);
    }

    method WriteTrue()
      modifies this
      ensures buf == old(buf) + Serialize(TrueAtom)
    {
      WriteBytes([ToByte(SmallAtom), 4, Code('t'), Code('r'), Code('u'), Code('e')]);
    }

    method WriteUInt8(v: uint8)
      modifies this
      ensures buf == old(buf) + Serialize(SmallIntegerExt(v))
    {
      WriteByte(ToByte(SmallInteger));
      WriteByte(v);
      Tagged1(old(buf), SmallIntegerExt(v), [v]);
    }

    /** A negative value is written as its two's-complement pattern. */
    method WriteInt32(v: int32)
      modifies this
      ensures buf == old(buf) + Serialize(IntegerExt(v))
    {
      WriteByte(ToByte(Integer));
      WriteAsBigEndian(4, Convert(UInt32, v as int));
      Tagged1(old(buf), IntegerExt(v), BE(4, Convert(UInt32, v as int)));
    }

    method WriteUInt64(v: uint64)
      modifies this
      ensures buf == old(buf) + Serialize(UInt64Frame(v))
    {
      var byteCount := GetByteCount(v);
      var value := AsBigEndian(host, 8, v as nat);
      WriteByte(ToByte(SmallBig));
      WriteByte(byteCount);
      WriteByte(0);
      AsBigEndianImage(host, 8, v as nat);
      WriteBytes(Image(host, 8, value)[..byteCount]);
      SmallBigFields(0, v);
      Tagged3(old(buf), UInt64Frame(v), [byteCount], [0], BE(8, v as nat)[..byteCount]);
    }

    /** `std::abs` of the most negative `int64_t` is undefined, so that value is excluded. */
    method WriteInt64(v: int64)
      requires v != -0x8000_0000_0000_0000
      modifies this
      ensures buf == old(buf) + Serialize(Int64Frame(v))
    {
      var absValue := Abs(v);
      var byteCount := GetByteCount(absValue);
      var value := AsBigEndian(host, 8, absValue as nat);
      var sign: uint8 := if v < 0 then 1 else 0;
      WriteByte(ToByte(SmallBig));
      WriteByte(byteCount);
      WriteByte(sign);
      AsBigEndianImage(host, 8, absValue as nat);
      WriteBytes(Image(host, 8, value)[..byteCount]);
      SmallBigFields(sign, absValue);
      Tagged3(old(buf), Int64Frame(v), [byteCount], [sign], BE(8, absValue as nat)[..byteCount]);
    }

    /** The double enters as its bit pattern, `std::bit_cast<uint64_t>(Value)`. */
    method WriteDouble(bits: uint64)
      modifies this
      ensures buf == old(buf) + Serialize(NewFloatExt(bits))
    {
      WriteByte(ToByte(NewFloat));
      WriteAsBigEndian(8, bits as nat);
      Tagged1(old(buf), NewFloatExt(bits), BE(8, bits as nat));
    }

    method WriteAtom(name: seq<byte>) returns (outcome: Outcome)
      modifies this
      ensures AtomFrame(Latin1, name).Ok? ==>
                outcome == Pass && buf == old(buf) + Serialize(AtomFrame(Latin1, name).value)
      ensures AtomFrame(Latin1, name).Err? ==>
                outcome == Fail(AtomFrame(Latin1, name).error) && buf == old(buf)
    {
      if |name| < MaxSmallAtomSize {
        WriteByte(ToByte(SmallAtom));
        WriteByte(|name| as uint8);
        WriteBytes(name);
        BEOfByte(|name|);
        Tagged2(old(buf), SmallAtomExt(Latin1, name), [|name| as uint8], name);
      } else if |name| <= MaxAtomSize {
        WriteByte(ToByte(Atom));
        WriteAsBigEndian(2, |name|);
        WriteBytes(name);
        Tagged2(old(buf), AtomExt(Latin1, name), BE(2, |name|), name);
      } else {
        return Fail(LengthError("Atom is too big"));
      }
      return Pass;
    }

    method WriteAtomUtf8(name: seq<byte>) returns (outcome: Outcome)
      modifies this
      ensures AtomFrame(Utf8, name).Ok? ==>
                outcome == Pass && buf == old(buf) + Serialize(AtomFrame(Utf8, name).value)
      ensures AtomFrame(Utf8, name).Err? ==>
                outcome == Fail(AtomFrame(Utf8, name).error) && buf == old(buf)
    {
      if |name| < MaxSmallAtomSize {
        WriteByte(ToByte(SmallAtomUtf8));
        WriteByte(|name| as uint8);
        WriteBytes(name);
        BEOfByte(|name|);
        Tagged2(old(buf), SmallAtomExt(Utf8, name), [|name| as uint8], name);
      } else if |name| <= MaxAtomSize {
        WriteByte(ToByte(AtomUtf8));
        WriteAsBigEndian(2, |name|);
        WriteBytes(name);
        Tagged2(old(buf), AtomExt(Utf8, name), BE(2, |name|), name);
      } else {
        return Fail(LengthError("Atom value is too big"));
      }
      return Pass;
    }

    method WriteBinary(data: seq<byte>) returns (outcome: Outcome)
      modifies this
      ensures BinaryFrame(data).Ok? ==>
                outcome == Pass && buf == old(buf) + Serialize(BinaryFrame(data).value)
      ensures BinaryFrame(data).Err? ==>
                outcome == Fail(BinaryFrame(data).error) && buf == old(buf)
    {
      if |data| > MaxContainerSize {
        return Fail(LengthError("Binary value is too big"));
      }
      WriteByte(ToByte(Binary));
      WriteAsBigEndian(4, |data|);
      WriteBytes(data);
      Tagged2(old(buf), BinaryExt(data), BE(4, |data|), data);
      return Pass;
    }

    method WriteString(chars: seq<byte>) returns (outcome: Outcome)
      modifies this
      ensures StringFrame(chars).Ok? ==>
                outcome == Pass && buf == old(buf) + Serialize(StringFrame(chars).value)
      ensures StringFrame(chars).Err? ==>
                outcome == Fail(StringFrame(chars).error) && buf == old(buf)
    {
      if |chars| > MaxStringSize {
        return Fail(LengthError("Binary value is too big"));
      }
      WriteByte(ToByte(String));
      WriteAsBigEndian(2, |chars|);
      WriteBytes(chars);
      Tagged2(old(buf), StringExt(chars), BE(2, |chars|), chars);
      return Pass;
    }

    method WriteTupleHeader(size: nat) returns (outcome: Outcome)
      modifies this
      ensures TupleHeaderFrame(size).Ok? ==>
                outcome == Pass && buf == old(buf) + Serialize(TupleHeaderFrame(size).value)
      ensures TupleHeaderFrame(size).Err? ==>
                outcome == Fail(TupleHeaderFrame(size).error) && buf == old(buf)
    {
      if size <= MaxSmallTupleSize {
        WriteByte(ToByte(SmallTuple));
        WriteByte(size as uint8);
        Tagged1(old(buf), SmallTupleHeader(size as uint8), [size as uint8]);
      } else if size <= MaxContainerSize {
        WriteByte(ToByte(LargeTuple));
        WriteAsBigEndian(4, size);
        Tagged1(old(buf), LargeTupleHeader(size), BE(4, size));
      } else {
        return Fail(LengthError("Tuple value is too big"));
      }
      return Pass;
    }

    method WriteNilExt()
      modifies this
      ensures buf == old(buf) + Serialize(NilExt)
    {
      WriteByte(ToByte(Nil));
    }

    method WriteListHeader(size: nat) returns (outcome: Outcome)
      modifies this
      ensures ListHeaderFrame(size).Ok? ==>
                outcome == Pass && buf == old(buf) + Serialize(ListHeaderFrame(size).value)
      ensures ListHeaderFrame(size).Err? ==>
                outcome == Fail(ListHeaderFrame(size).error) && buf == old(buf)
    {
      if size <= MaxContainerSize {
        WriteByte(ToByte(List));
        WriteAsBigEndian(4, size);
        Tagged1(old(buf), ListHeader(size), BE(4, size));
      } else {
        return Fail(LengthError("List value is too big"));
      }
      return Pass;
    }

    method WriteMapHeader(size: nat) returns (outcome: Outcome)
      modifies this
      ensures MapHeaderFrame(size).Ok? ==>
                outcome == Pass && buf == old(buf) + Serialize(MapHeaderFrame(size).value)
      ensures MapHeaderFrame(size).Err? ==>
                outcome == Fail(MapHeaderFrame(size).error) && buf == old(buf)
    {
      if size <= MaxContainerSize {
        WriteByte(ToByte(Map));
        WriteAsBigEndian(4, size);
        Tagged1(old(buf), MapHeader(size), BE(4, size));
      } else {
        return Fail(LengthError("Map value is too big"));
      }
      return Pass;
    }
  }
}
