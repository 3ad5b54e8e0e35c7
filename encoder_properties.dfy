/** What the Encoder's overloads promise, stated over Encode: how each integer type is
    classified, what the SMALL_BIG_EXT digits hold, how containers are framed, and that every
    frame the Encoder emits can be read back. */
module EtfEncoderProperties {
  import opened CppIntegers
  import opened EtfConstants
  import opened EtfWriter
  import opened EtfFraming
  import opened EtfEncoder

  // ---------------------------------------------------------------------------------------
  // One step of Encode, Then and the element loops, each stated once so that the proofs
  // below use them without unfolding Encode themselves

  lemma EncodeOfU32(a: uint32)
    ensures Encode(U32(a)) == Put(IntegerFrame(UInt32, a as int))
  {
  }

  lemma EncodeOfSequence(xs: seq<Value>)
    requires |xs| > 0
    ensures Encode(Sequence(xs)) == Then(Then(Attempt(ListHeaderFrame(|xs|)), EncodeAll(xs)), Put(NilExt))
  {
  }

  lemma EncodeAllLast(xs: seq<Value>)
    requires |xs| > 0
    ensures EncodeAll(xs) == Then(EncodeAll(xs[..|xs| - 1]), Encode(xs[|xs| - 1]))
  {
  }

  lemma EncodeEntriesLast(es: seq<Entry>)
    requires |es| > 0
    ensures EncodeEntries(es) == Then(EncodeEntries(es[..|es| - 1]), EncodeEntry(es[|es| - 1]))
  {
  }

  lemma EncodeOfPair(first: Value, second: Value)
    ensures Encode(Pair(first, second)) == Then(Encode(first), Encode(second))
  {
  }

  lemma EncodeOfMapping(es: seq<Entry>)
    ensures Encode(Mapping(es)) == Then(Attempt(MapHeaderFrame(|es|)), EncodeEntries(es))
  {
  }

  lemma EncodeOfTuple(xs: seq<Value>)
    ensures Encode(Tuple(xs)) == Then(Attempt(TupleHeaderFrame(|xs|)), EncodeAll(xs))
  {
  }

  /** After a call that passed, the next call's frames are appended and its outcome is the
      outcome of the pair. */
  lemma ThenPassed(a: Emit, b: Emit)
    requires a.outcome == Pass
    ensures Then(a, b) == Emit(a.frames + b.frames, b.outcome)
  {
  }

  // ---------------------------------------------------------------------------------------
  // DoesOverlap under the usual arithmetic conversions

  /** `DoesOverlap<uint8_t>` is the mathematical test 0 <= x <= 255 for every argument type:
      the common type of the comparisons is always the argument's promoted type, which holds
      0, 255 and x. */
  lemma UInt8OverlapIsExact(k: IntKind, x: int)
    requires InRange(k, x)
    ensures DoesOverlap(UInt8, k, x) <==> 0 <= x <= 0xFF
  {
    assert CommonType(Promote(UInt8), Promote(k)) == Promote(k);
    assert CommonType(Promote(k), Promote(UInt8)) == Promote(k);
    LessEqualIsExact(Min(UInt8), UInt8, x, k);
    LessEqualIsExact(x, k, Max(UInt8), UInt8);
  }

  /** `DoesOverlap<int32_t>` on a `uint32_t` or `uint64_t` argument is never true: INT32_MIN is
      converted to the unsigned type, where it exceeds INT32_MAX. */
  lemma Int32OverlapOnUnsignedIsFalse(k: IntKind, x: int)
    requires k == UInt32 || k == UInt64
    requires InRange(k, x)
    ensures !DoesOverlap(Int32, k, x)
  {
    NegativeAgainstUnsignedWraps(Min(Int32), Int32, x, k);
    LessEqualIsExact(x, k, Max(Int32), Int32);
  }

  /** On an `int64_t` argument, `DoesOverlap<int32_t>` is the mathematical range test. */
  lemma Int32OverlapOnInt64IsExact(x: int)
    requires InRange(Int64, x)
    ensures DoesOverlap(Int32, Int64, x) <==> InRange(Int32, x)
  {
    LessEqualIsExact(Min(Int32), Int32, x, Int64);
    LessEqualIsExact(x, Int64, Max(Int32), Int32);
  }

  // ---------------------------------------------------------------------------------------
  // The frame each integer overload writes

  /** `Write(int8_t)` always writes INTEGER_EXT, even for values that SMALL_INTEGER_EXT holds. */
  lemma Int8IsAlwaysInteger(x: int8)
    ensures Encode(I8(x)) == Put(IntegerExt(x as int as int32))
    ensures |Serialize(IntegerExt(x as int as int32))| == 5
  {
  }

  /** `Write(uint8_t)` always writes SMALL_INTEGER_EXT. */
  lemma UInt8IsAlwaysSmallInteger(x: uint8)
    ensures Encode(U8(x)) == Put(SmallIntegerExt(x))
    ensures Serialize(SmallIntegerExt(x)) == [97, x]
  {
    assert ToByte(SmallInteger) == 97;
  }

  /** `int16_t`, `uint16_t`, `int32_t`: SMALL_INTEGER_EXT for 0..255, INTEGER_EXT otherwise. */
  lemma MidClassification(k: IntKind, x: int)
    requires k == Int16 || k == UInt16 || k == Int32
    requires InRange(k, x)
    ensures IntegerFrame(k, x)
            == if 0 <= x <= 0xFF then SmallIntegerExt(x as uint8) else IntegerExt(x as int32)
  {
    UInt8OverlapIsExact(k, x);
  }

  /** `uint32_t` and `uint64_t`: SMALL_INTEGER_EXT for 0..255 and SMALL_BIG_EXT above, never
      INTEGER_EXT, even for values it could hold. */
  lemma UnsignedClassification(k: IntKind, x: int)
    requires k == UInt32 || k == UInt64
    requires InRange(k, x)
    ensures IntegerFrame(k, x)
            == if x <= 0xFF then SmallIntegerExt(x as uint8) else UInt64Frame(x as uint64)
  {
    UInt8OverlapIsExact(k, x);
    Int32OverlapOnUnsignedIsFalse(k, x);
    assert IntegerFrame(k, x) == UnsignedFrame(k, x);
    if x <= 0xFF {
      assert ToUInt8(x) == x as uint8;
    } else {
      assert ToUInt64(x) == x as uint64;
    }
  }

  /** `int64_t`: SMALL_INTEGER_EXT for 0..255, ... */
  lemma Int64SmallRange(x: int)
    requires 0 <= x <= 0xFF
    ensures IntegerFrame(Int64, x) == SmallIntegerExt(x as uint8)
  {
    UInt8OverlapIsExact(Int64, x);
  }

  /** ... INTEGER_EXT for the rest of the 32-bit range, ... */
  lemma Int64IntegerRange(x: int)
    requires InRange(Int32, x) && !(0 <= x <= 0xFF)
    ensures IntegerFrame(Int64, x) == IntegerExt(x as int32)
  {
    UInt8OverlapIsExact(Int64, x);
    Int32OverlapOnInt64IsExact(x);
  }

  /** ... and otherwise `WriteUInt64` of the value reinterpreted as `uint64_t`, that is taken
      modulo 2^64; the branch that calls `WriteInt64` is never taken. */
  lemma Int64BeyondInt32(x: int)
    requires InRange(Int64, x) && !InRange(Int32, x)
    ensures IntegerFrame(Int64, x) == UInt64Frame(ToUInt64(x))
  {
    assert IntegerFrame(Int64, x) == Int64ValueFrame(x);
    UInt8OverlapIsExact(Int64, x);
    Int32OverlapOnInt64IsExact(x);
    OverlapsUInt64(x);
  }

  /** So an `int64_t` below INT32_MIN is written as a non-negative eight-byte SMALL_BIG_EXT. */
  lemma NegativeInt64IsPositiveBig(x: int)
    requires InRange(Int64, x) && x < Min(Int32)
    ensures IntegerFrame(Int64, x).SmallBigExt?
    ensures IntegerFrame(Int64, x).sign == 0 && |IntegerFrame(Int64, x).digits| == 8
  {
    Int64BeyondInt32(x);
    Int64AsUInt64(x);
    var v := ToUInt64(x);
    var n := GetByteCount(v) as nat;
    if n < 8 {
      PowMonotone(n, 7);
      assert false;
    }
  }

  /** Every frame an integer overload writes has fields that fit. */
  lemma IntegerFrameFits(k: IntKind, x: int)
    requires InRange(k, x)
    ensures Fits(IntegerFrame(k, x)) && Children(IntegerFrame(k, x)) == 0
    ensures !IntegerFrame(k, x).VersionMagic?
  {
    match k
    case Int8 =>
    case UInt8 =>
    case Int16 => MidClassification(k, x);
    case UInt16 => MidClassification(k, x);
    case Int32 => MidClassification(k, x);
    case UInt32 => UnsignedClassification(k, x);
    case UInt64 => UnsignedClassification(k, x);
    case Int64 =>
      if 0 <= x <= 0xFF {
        Int64SmallRange(x);
      } else if InRange(Int32, x) {
        Int64IntegerRange(x);
      } else {
        Int64BeyondInt32(x);
      }
  }

  // ---------------------------------------------------------------------------------------
  // SMALL_BIG_EXT digits

  /** A SMALL_BIG_EXT frame is its tag, its digit count, its sign byte and its digits. */
  lemma SmallBigBytes(f: Frame)
    requires f.SmallBigExt? && |f.digits| <= 0xFF
    ensures Serialize(f) == [110, |f.digits| as byte, f.sign] + f.digits
  {
    BEOfByte(|f.digits|);
    assert ToByte(SmallBig) == 110;
  }

  /** `WriteUInt64` appends the tag, the byte count n, a zero sign byte and the first n bytes
      of the value's 8-byte big-endian image. */
  lemma UInt64FrameBytes(v: uint64)
    ensures Serialize(UInt64Frame(v)) == [110, GetByteCount(v), 0] + BE(8, v as nat)[..GetByteCount(v)]
  {
    SmallBigBytes(UInt64Frame(v));
  }

  /** `WriteInt64` appends the tag, the byte count n of |v|, the sign bit, and the first n
      bytes of the 8-byte big-endian image of |v|. */
  lemma Int64FrameBytes(v: int64)
    requires v != -0x8000_0000_0000_0000
    ensures Serialize(Int64Frame(v))
            == [110, GetByteCount(Abs(v)), if v < 0 then 1 else 0] + BE(8, Abs(v) as nat)[..GetByteCount(Abs(v))]
  {
    SmallBigBytes(Int64Frame(v));
  }

  /** The digits are taken from the high-order end of the image, so below 2^32 they are all
      zero: they do not carry the value (ETF stores the least significant byte first). */
  lemma UInt64DigitsZeroBelow2To32(v: uint64)
    requires v < 0x1_0000_0000
    ensures UInt64Frame(v).digits == seq(GetByteCount(v) as nat, _ => 0 as byte)
  {
    var n := GetByteCount(v) as nat;
    if n > 4 {
      PowMonotone(4, n - 1);
      assert false;
    }
    BEZeroPadded(8, 4, v as nat);
    assert BE(8, v as nat)[..n] == seq(8 - 4, _ => 0 as byte)[..n];
  }

  /** Hence two `uint32_t` values above 255 that need the same number of bytes are written
      identically ... */
  lemma UInt32SameByteCountSameBytes(a: uint32, b: uint32)
    requires 0xFF < a && 0xFF < b
    requires GetByteCount(a as int as uint64) == GetByteCount(b as int as uint64)
    ensures Encode(U32(a)) == Encode(U32(b))
  {
    EncodeOfU32(a);
    EncodeOfU32(b);
    UnsignedClassification(UInt32, a as int);
    UnsignedClassification(UInt32, b as int);
    SameDigitsBelow2To32(a as int as uint64, b as int as uint64);
  }

  lemma SameDigitsBelow2To32(u: uint64, w: uint64)
    requires u < 0x1_0000_0000 && w < 0x1_0000_0000
    requires GetByteCount(u) == GetByteCount(w)
    ensures UInt64Frame(u) == UInt64Frame(w)
  {
    UInt64DigitsZeroBelow2To32(u);
    UInt64DigitsZeroBelow2To32(w);
  }

  /** Values from 256 to 65535 need two bytes. */
  lemma TwoByteCount(v: uint64)
    requires 0x100 <= v < 0x1_0000
    ensures GetByteCount(v) == 2
  {
    var n := GetByteCount(v) as nat;
    if n < 2 {
      assert false;
    } else if n > 2 {
      PowMonotone(2, n - 1);
      assert false;
    }
  }

  /** ... for instance every value from 256 to 65535, ... */
  lemma UInt32EncodingLosesValue(a: uint32, b: uint32)
    requires 0x100 <= a < 0x1_0000 && 0x100 <= b < 0x1_0000
    ensures Encode(U32(a)) == Encode(U32(b))
  {
    TwoByteCount(a as int as uint64);
    TwoByteCount(b as int as uint64);
    UInt32SameByteCountSameBytes(a, b);
  }

  /** ... each written as [110, 2, 0, 0, 0]. */
  lemma UInt32TwoByteBytes(v: uint32)
    requires 0x100 <= v < 0x1_0000
    ensures SerializeAll(Encode(U32(v)).frames) == [110, 2, 0, 0, 0]
  {
    var u := v as int as uint64;
    EncodeOfU32(v);
    UnsignedClassification(UInt32, v as int);
    UInt64TwoByteBytes(u);
    PutBytes([], UInt64Frame(u));
  }

  lemma UInt64TwoByteBytes(u: uint64)
    requires 0x100 <= u < 0x1_0000
    ensures Serialize(UInt64Frame(u)) == [110, 2, 0, 0, 0]
  {
    TwoByteCount(u);
    UInt64DigitsZeroBelow2To32(u);
    assert UInt64Frame(u) == SmallBigExt(0, [0, 0]);
    SmallBigBytes(UInt64Frame(u));
  }

  // ---------------------------------------------------------------------------------------
  // The other scalar overloads

  /** `Write(bool)` writes the true or false atom. */
  lemma BooleanIsAtom(b: bool)
    ensures SerializeAll(Encode(Boolean(b)).frames)
            == if b then [115, 4, 116, 114, 117, 101] else [115, 5, 102, 97, 108, 115, 101]
  {
    FixedAtomBytes();
    PutBytes([], if b then TrueAtom else FalseAtom);
  }

  /** `nullptr`, `std::nullopt` and an empty `std::optional` write the nil atom. */
  lemma NullIsNilAtom()
    ensures SerializeAll(Encode(Null).frames) == [115, 3, 110, 105, 108]
    ensures Encode(Optional(None)) == Encode(Null)
  {
    FixedAtomBytes();
    PutBytes([], NilAtom);
  }

  /** A present `std::optional` writes its value and nothing else. */
  lemma OptionalIsTransparent(x: Value)
    ensures Encode(Optional(Some(x))) == Encode(x)
  {
  }

  /** `std::string` and `std::string_view` always write BINARY_EXT, never an atom or STRING_EXT;
      beyond 2^32 - 1 bytes they throw and write nothing. */
  lemma TextIsBinary(bytes: seq<byte>)
    ensures Encode(Text(bytes)).outcome.Pass? <==> |bytes| <= MaxContainerSize
    ensures Encode(Text(bytes)).outcome.Pass? ==> Encode(Text(bytes)).frames == [BinaryExt(bytes)]
    ensures Encode(Text(bytes)).outcome.Fail? ==>
              Encode(Text(bytes)) == Emit([], Fail(LengthError("Binary value is too big")))
  {
  }

  /** A scalar overload writes one frame, a term with no parts. */
  lemma ScalarIsOneFrame(v: Value)
    requires !(v.Optional? || v.Tuple? || v.Sequence? || v.Pair? || v.Mapping?)
    requires Encode(v).outcome.Pass?
    ensures |Encode(v).frames| == 1
    ensures var f := Encode(v).frames[0]; Fits(f) && Children(f) == 0 && !f.VersionMagic?
  {
    match v
    case I8(_) => IntegerFrameFits(Int8, v.i8 as int);
    case U8(_) => IntegerFrameFits(UInt8, v.u8 as int);
    case I16(_) => IntegerFrameFits(Int16, v.i16 as int);
    case U16(_) => IntegerFrameFits(UInt16, v.u16 as int);
    case I32(_) => IntegerFrameFits(Int32, v.i32 as int);
    case U32(_) => IntegerFrameFits(UInt32, v.u32 as int);
    case I64(_) => IntegerFrameFits(Int64, v.i64 as int);
    case U64(_) => IntegerFrameFits(UInt64, v.u64 as int);
    case Boolean(_) =>
    case Double(_) =>
    case Text(_) =>
    case Null =>
  }

  // ---------------------------------------------------------------------------------------
  // Containers

  /** An empty `std::array` or `std::vector` writes NIL_EXT alone, with no list header. */
  lemma EmptySequenceIsNil()
    ensures Encode(Sequence([])) == Put(NilExt)
    ensures SerializeAll(Encode(Sequence([])).frames) == [106]
  {
    assert ToByte(Nil) == 106;
    PutBytes([], NilExt);
  }

  /** A container too large for its header throws before anything of it is written. */
  lemma OversizedContainersWriteNothing(xs: seq<Value>, es: seq<Entry>)
    ensures |xs| > MaxContainerSize ==>
              Encode(Tuple(xs)) == Emit([], Fail(LengthError("Tuple value is too big")))
    ensures |xs| > MaxContainerSize ==>
              Encode(Sequence(xs)) == Emit([], Fail(LengthError("List value is too big")))
    ensures |es| > MaxContainerSize ==>
              Encode(Mapping(es)) == Emit([], Fail(LengthError("Map value is too big")))
  {
  }

  /** A failing element ends the loop: what was written before it stays, and nothing after it
      is written. */
  lemma {:induction false} ElementFailureKeepsPrefix(xs: seq<Value>, i: nat)
    requires i < |xs|
    requires EncodeAll(xs[..i]).outcome == Pass && Encode(xs[i]).outcome.Fail?
    ensures EncodeAll(xs) == Emit(EncodeAll(xs[..i]).frames + Encode(xs[i]).frames, Encode(xs[i]).outcome)
  {
    var init := xs[..|xs| - 1];
    if i + 1 < |xs| {
      assert init[..i] == xs[..i] && init[i] == xs[i];
      ElementFailureKeepsPrefix(init, i);
    } else {
      assert init == xs[..i];
    }
  }

  /** The list header of a non-empty container counts its elements; the elements follow in
      order, then NIL_EXT. */
  lemma NonEmptySequenceLayout(xs: seq<Value>)
    requires 0 < |xs| <= MaxContainerSize && EncodeAll(xs).outcome == Pass
    ensures Encode(Sequence(xs)) == Emit([ListHeader(|xs|)] + EncodeAll(xs).frames + [NilExt], Pass)
  {
    var header := Attempt(ListHeaderFrame(|xs|));
    EncodeOfSequence(xs);
    assert header == Emit([ListHeader(|xs|)], Pass);
    ThenPassed(header, EncodeAll(xs));
    ThenPassed(Then(header, EncodeAll(xs)), Put(NilExt));
  }

  /** The list and map headers: the tag, then the count in four big-endian bytes. */
  lemma ContainerHeaderBytes(n: nat)
    ensures Serialize(ListHeader(n)) == [108] + BE(4, n)
    ensures Serialize(MapHeader(n)) == [116] + BE(4, n)
  {
    assert ToByte(List) == 108 && ToByte(Map) == 116;
  }

  /** A tuple writes its header for its arity, then the fields in order, with no tail. */
  lemma TupleLayout(xs: seq<Value>)
    requires |xs| <= MaxContainerSize
    ensures TupleHeaderFrame(|xs|).Ok?
    ensures Encode(Tuple(xs)) == Emit([TupleHeaderFrame(|xs|).value] + EncodeAll(xs).frames, EncodeAll(xs).outcome)
  {
    var header := Attempt(TupleHeaderFrame(|xs|));
    EncodeOfTuple(xs);
    assert header == Emit([TupleHeaderFrame(|xs|).value], Pass);
    ThenPassed(header, EncodeAll(xs));
  }

  /** The tuple header, small or large, announces the arity as its number of parts. */
  lemma TupleHeaderCountsFields(n: nat)
    requires n <= MaxContainerSize
    ensures Children(TupleHeaderFrame(n).value) == n
  {
  }

  // ---------------------------------------------------------------------------------------
  // Every frame fits its fields, so the output reads back

  lemma PutFits(f: Frame)
    requires Fits(f)
    ensures AllFit(Put(f).frames)
  {
  }

  lemma AttemptFits(r: Result<Frame>)
    requires r.Ok? ==> Fits(r.value)
    ensures AllFit(Attempt(r).frames)
  {
  }

  lemma ThenFits(a: Emit, b: Emit)
    requires AllFit(a.frames) && AllFit(b.frames)
    ensures AllFit(Then(a, b).frames)
  {
    if a.outcome.Pass? {
      var c := a.frames + b.frames;
      forall i | 0 <= i < |c|
        ensures Fits(c[i])
      {
        if i >= |a.frames| {
          assert c[i] == b.frames[i - |a.frames|];
        }
      }
    }
  }

  /** Every frame Encode produces fits its length and count fields. */
  lemma {:induction false} EncodeFits(v: Value)
    ensures AllFit(Encode(v).frames)
    decreases v, 1
  {
    match v
    case Optional(Some(inner)) => EncodeFits(inner);
    case Tuple(fields) => TupleFits(fields);
    case Sequence(elems) => SequenceFits(elems);
    case Pair(first, second) =>
      EncodeFits(first);
      EncodeFits(second);
      ThenFits(Encode(first), Encode(second));
    case Mapping(entries) => MappingFits(entries);
    case _ => ScalarFits(v);
  }

  lemma ScalarFits(v: Value)
    requires !(v.Optional? && v.opt.Some?) && !v.Tuple? && !v.Sequence? && !v.Pair? && !v.Mapping?
    ensures AllFit(Encode(v).frames)
  {
    if v.Text? {
      AttemptFits(BinaryFrame(v.bytes));
    } else if KindOf(v).Some? {
      var (k, x) := KindOf(v).value;
      IntegerFrameFits(k, x);
    } else {
      FixedAtomBytes();
    }
  }

  lemma {:induction false} TupleFits(fields: seq<Value>)
    ensures AllFit(Encode(Tuple(fields)).frames)
    decreases Tuple(fields), 0
  {
    AttemptFits(TupleHeaderFrame(|fields|));
    EncodeAllFits(fields);
    ThenFits(Attempt(TupleHeaderFrame(|fields|)), EncodeAll(fields));
  }

  lemma {:induction false} SequenceFits(elems: seq<Value>)
    ensures AllFit(Encode(Sequence(elems)).frames)
    decreases Sequence(elems), 0
  {
    if elems != [] {
      var header := Attempt(ListHeaderFrame(|elems|));
      AttemptFits(ListHeaderFrame(|elems|));
      EncodeAllFits(elems);
      ThenFits(header, EncodeAll(elems));
      ThenFits(Then(header, EncodeAll(elems)), Put(NilExt));
    }
  }

  lemma {:induction false} MappingFits(entries: seq<Entry>)
    ensures AllFit(Encode(Mapping(entries)).frames)
    decreases Mapping(entries), 0
  {
    AttemptFits(MapHeaderFrame(|entries|));
    EncodeEntriesFits(entries);
    ThenFits(Attempt(MapHeaderFrame(|entries|)), EncodeEntries(entries));
  }

  lemma {:induction false} EncodeAllFits(xs: seq<Value>)
    ensures AllFit(EncodeAll(xs).frames)
    decreases xs, 0
  {
    if xs != [] {
      EncodeAllFits(xs[..|xs| - 1]);
      EncodeFits(xs[|xs| - 1]);
      ThenFits(EncodeAll(xs[..|xs| - 1]), Encode(xs[|xs| - 1]));
    }
  }

  lemma {:induction false} EncodeEntriesFits(es: seq<Entry>)
    ensures AllFit(EncodeEntries(es).frames)
    decreases es, 0
  {
    if es != [] {
      EncodeEntriesFits(es[..|es| - 1]);
      EncodeEntryFits(es[|es| - 1]);
      ThenFits(EncodeEntries(es[..|es| - 1]), EncodeEntry(es[|es| - 1]));
    }
  }

  lemma {:induction false} EncodeEntryFits(e: Entry)
    ensures AllFit(EncodeEntry(e).frames)
    decreases e, 0
  {
    EncodeFits(e.key);
    EncodeFits(e.val);
    ThenFits(Encode(e.key), Encode(e.val));
  }

  /** What `Write(v)` appends is read back, frame for frame, by the ETF frame reader. */
  lemma EncodedBytesParse(v: Value)
    ensures ParseFrames(SerializeAll(Encode(v).frames)) == Some(Encode(v).frames)
  {
    EncodeFits(v);
    ParseFramesRoundTrip(Encode(v).frames);
  }

  // ---------------------------------------------------------------------------------------
  // Term structure

  /** How many terms `Write(v)` writes at the top level: a pair writes its two halves side by
      side and a present optional writes its value; everything else writes one term. */
  function Width(v: Value): nat {
    match v
    case Pair(first, second) => Width(first) + Width(second)
    case Optional(Some(inner)) => Width(inner)
    case _ => 1
  }

  /** Each part of a container writes exactly one term: no pair, and no optional holding a
      pair, directly inside a tuple, array, vector or as a map key or value. */
  predicate WellFramed(v: Value) {
    match v
    case Optional(Some(inner)) => WellFramed(inner)
    case Tuple(fields) => forall i :: 0 <= i < |fields| ==> Width(fields[i]) == 1 && WellFramed(fields[i])
    case Sequence(elems) => forall i :: 0 <= i < |elems| ==> Width(elems[i]) == 1 && WellFramed(elems[i])
    case Pair(first, second) => WellFramed(first) && WellFramed(second)
    case Mapping(entries) => forall i :: 0 <= i < |entries| ==> EntryWellFramed(entries[i])
    case _ => true
  }

  /** A map entry's key and value each write one term. */
  predicate EntryWellFramed(e: Entry) {
    Width(e.key) == 1 && WellFramed(e.key) && Width(e.val) == 1 && WellFramed(e.val)
  }

  /** A frame followed by its Children(f) terms is one term. */
  lemma SkipOne(f: Frame, rest: seq<Frame>, j: nat)
    requires !f.VersionMagic?
    ensures SkipTerms([f] + rest, 1 + j) == SkipTerms(rest, Children(f) + j)
  {
    assert ([f] + rest)[1..] == rest;
  }

  /** Encode(v) followed by anything: skipping Width(v) terms skips exactly Encode(v). */
  lemma {:induction false} EncodeSkips(v: Value, rest: seq<Frame>, j: nat)
    requires WellFramed(v) && Encode(v).outcome == Pass
    ensures SkipTerms(Encode(v).frames + rest, Width(v) + j) == SkipTerms(rest, j)
    decreases v, 1
  {
    if v.Optional? && v.opt.Some? {
      var inner := v.opt.value;
      OptionalIsTransparent(inner);
      assert Width(v) == Width(inner);
      EncodeSkips(inner, rest, j);
    } else if v.Tuple? {
      TupleSkips(v.fields, rest, j);
    } else if v.Sequence? {
      SequenceSkips(v.elems, rest, j);
    } else if v.Pair? {
      PairSkips(v.first, v.second, rest, j);
    } else if v.Mapping? {
      MappingSkips(v.entries, rest, j);
    } else {
      ScalarSkips(v, rest, j);
    }
  }

  lemma ScalarSkips(v: Value, rest: seq<Frame>, j: nat)
    requires !(v.Optional? && v.opt.Some?) && !v.Tuple? && !v.Sequence? && !v.Pair? && !v.Mapping?
    requires Encode(v).outcome == Pass
    ensures SkipTerms(Encode(v).frames + rest, Width(v) + j) == SkipTerms(rest, j)
  {
    ScalarOrNil(v);
    var f := Encode(v).frames[0];
    assert Encode(v).frames + rest == [f] + rest;
    SkipOne(f, rest, j);
  }

  /** n terms followed by k terms are n + k terms. */
  lemma SkipsAppend(a: seq<Frame>, b: seq<Frame>, rest: seq<Frame>, n: nat, k: nat, j: nat)
    requires SkipTerms(a + (b + rest), n + (k + j)) == SkipTerms(b + rest, k + j)
    requires SkipTerms(b + rest, k + j) == SkipTerms(rest, j)
    ensures SkipTerms((a + b) + rest, (n + k) + j) == SkipTerms(rest, j)
  {
    assert (a + b) + rest == a + (b + rest);
  }

  lemma {:induction false} PairSkips(first: Value, second: Value, rest: seq<Frame>, j: nat)
    requires WellFramed(Pair(first, second)) && Encode(Pair(first, second)).outcome == Pass
    ensures SkipTerms(Encode(Pair(first, second)).frames + rest, Width(first) + Width(second) + j)
            == SkipTerms(rest, j)
    decreases Pair(first, second), 0
  {
    var b := Encode(second).frames;
    EncodeOfPair(first, second);
    ThenPassed(Encode(first), Encode(second));
    EncodeSkips(first, b + rest, Width(second) + j);
    EncodeSkips(second, rest, j);
    SkipsAppend(Encode(first).frames, b, rest, Width(first), Width(second), j);
  }

  /** The cases of Encode that write one frame with no parts. */
  lemma ScalarOrNil(v: Value)
    requires !(v.Optional? && v.opt.Some?) && !v.Tuple? && !v.Sequence? && !v.Pair? && !v.Mapping?
    requires Encode(v).outcome == Pass
    ensures Width(v) == 1 && |Encode(v).frames| == 1
    ensures var f := Encode(v).frames[0]; Children(f) == 0 && !f.VersionMagic?
  {
    if v.Optional? {
      assert Encode(v) == Put(NilAtom);
    } else {
      ScalarIsOneFrame(v);
    }
  }

  lemma {:induction false} TupleSkips(fields: seq<Value>, rest: seq<Frame>, j: nat)
    requires WellFramed(Tuple(fields)) && Encode(Tuple(fields)).outcome == Pass
    ensures SkipTerms(Encode(Tuple(fields)).frames + rest, 1 + j) == SkipTerms(rest, j)
    decreases Tuple(fields), 0
  {
    var h := TupleHeaderFrame(|fields|).value;
    var body := EncodeAll(fields).frames;
    EncodeOfTuple(fields);
    assert Encode(Tuple(fields)).frames + rest == [h] + (body + rest);
    SkipOne(h, body + rest, j);
    EncodeAllSkips(fields, rest, j);
  }

  lemma {:induction false} SequenceSkips(elems: seq<Value>, rest: seq<Frame>, j: nat)
    requires WellFramed(Sequence(elems)) && Encode(Sequence(elems)).outcome == Pass
    ensures SkipTerms(Encode(Sequence(elems)).frames + rest, 1 + j) == SkipTerms(rest, j)
    decreases Sequence(elems), 0
  {
    if elems == [] {
      SkipOne(NilExt, rest, j);
    } else {
      var body := EncodeAll(elems).frames;
      EncodeOfSequence(elems);
      assert Encode(Sequence(elems)).frames + rest == [ListHeader(|elems|)] + (body + ([NilExt] + rest));
      SkipOne(ListHeader(|elems|), body + ([NilExt] + rest), j);
      EncodeAllSkips(elems, [NilExt] + rest, 1 + j);
      SkipOne(NilExt, rest, j);
    }
  }

  lemma {:induction false} MappingSkips(entries: seq<Entry>, rest: seq<Frame>, j: nat)
    requires WellFramed(Mapping(entries)) && Encode(Mapping(entries)).outcome == Pass
    ensures SkipTerms(Encode(Mapping(entries)).frames + rest, 1 + j) == SkipTerms(rest, j)
    decreases Mapping(entries), 0
  {
    var body := EncodeEntries(entries).frames;
    EncodeOfMapping(entries);
    assert Encode(Mapping(entries)).frames + rest == [MapHeader(|entries|)] + (body + rest);
    SkipOne(MapHeader(|entries|), body + rest, j);
    EncodeEntriesSkips(entries, rest, j);
  }

  /** The elements of a container, each one term, are |xs| terms. */
  lemma {:induction false} EncodeAllSkips(xs: seq<Value>, rest: seq<Frame>, j: nat)
    requires forall i :: 0 <= i < |xs| ==> Width(xs[i]) == 1 && WellFramed(xs[i])
    requires EncodeAll(xs).outcome == Pass
    ensures SkipTerms(EncodeAll(xs).frames + rest, |xs| + j) == SkipTerms(rest, j)
    decreases xs
  {
    if xs != [] {
      var init := xs[..|xs| - 1];
      var last := xs[|xs| - 1];
      EncodeAllLast(xs);
      assert EncodeAll(init).outcome == Pass;
      ThenPassed(EncodeAll(init), Encode(last));
      var b := Encode(last).frames;
      EncodeAllSkips(init, b + rest, 1 + j);
      EncodeSkips(last, rest, j);
      SkipsAppend(EncodeAll(init).frames, b, rest, |init|, 1, j);
    } else {
      assert EncodeAll(xs).frames + rest == rest;
    }
  }

  /** The entries of a map, each a key term and a value term, are 2|es| terms: the count the
      map header announces. */
  lemma {:induction false} EncodeEntriesSkips(es: seq<Entry>, rest: seq<Frame>, j: nat)
    requires forall i :: 0 <= i < |es| ==> EntryWellFramed(es[i])
    requires EncodeEntries(es).outcome == Pass
    ensures SkipTerms(EncodeEntries(es).frames + rest, 2 * |es| + j) == SkipTerms(rest, j)
    decreases es
  {
    if es != [] {
      var init := es[..|es| - 1];
      var e := es[|es| - 1];
      EncodeEntriesLast(es);
      assert EncodeEntries(init).outcome == Pass;
      ThenPassed(EncodeEntries(init), EncodeEntry(e));
      var b := EncodeEntry(e).frames;
      EncodeEntriesSkips(init, b + rest, 2 + j);
      EncodeEntrySkips(e, rest, j);
      SkipsAppend(EncodeEntries(init).frames, b, rest, 2 * |init|, 2, j);
    } else {
      assert EncodeEntries(es).frames + rest == rest;
    }
  }

  /** One entry: the key's term, then the value's. */
  lemma {:induction false} EncodeEntrySkips(e: Entry, rest: seq<Frame>, j: nat)
    requires EntryWellFramed(e) && EncodeEntry(e).outcome == Pass
    ensures SkipTerms(EncodeEntry(e).frames + rest, 2 + j) == SkipTerms(rest, j)
    decreases e
  {
    var k := Encode(e.key).frames;
    var w := Encode(e.val).frames;
    assert EncodeEntry(e).frames + rest == k + (w + rest);
    EncodeSkips(e.key, w + rest, 1 + j);
    EncodeSkips(e.val, rest, j);
  }

  /** A well-framed value of width one is written as exactly one complete term. */
  lemma EncodedTermIsComplete(v: Value)
    requires WellFramed(v) && Width(v) == 1 && Encode(v).outcome == Pass
    ensures IsTerms(Encode(v).frames, 1)
  {
    EncodeSkips(v, [], 0);
    assert Encode(v).frames + [] == Encode(v).frames;
  }

  /** A pair inside a vector breaks the framing: the list header announces one element, the
      pair writes two terms, and the NIL_EXT tail is left over as a term of its own. */
  lemma PairInSequenceIsMisframed(a: uint8, b: uint8)
    ensures Encode(Sequence([Pair(U8(a), U8(b))]))
            == Emit([ListHeader(1), SmallIntegerExt(a), SmallIntegerExt(b), NilExt], Pass)
    ensures SkipTerms(Encode(Sequence([Pair(U8(a), U8(b))])).frames, 1) == Some([NilExt])
  {
    var p := Pair(U8(a), U8(b));
    PairOfBytes(a, b);
    EncodeAllOne(p);
    NonEmptySequenceLayout([p]);
    MisframedSkip(a, b);
  }

  lemma PairOfBytes(a: uint8, b: uint8)
    ensures Encode(Pair(U8(a), U8(b))) == Emit([SmallIntegerExt(a), SmallIntegerExt(b)], Pass)
  {
    UInt8IsAlwaysSmallInteger(a);
    UInt8IsAlwaysSmallInteger(b);
  }

  lemma EncodeAllOne(x: Value)
    ensures EncodeAll([x]) == Encode(x)
  {
    assert [x][..0] == [];
  }

  lemma MisframedSkip(a: uint8, b: uint8)
    ensures SkipTerms([ListHeader(1), SmallIntegerExt(a), SmallIntegerExt(b), NilExt], 1) == Some([NilExt])
  {
    var fs := [ListHeader(1), SmallIntegerExt(a), SmallIntegerExt(b), NilExt];
    assert fs[1..] == [SmallIntegerExt(a), SmallIntegerExt(b), NilExt];
    assert fs[1..][1..] == [SmallIntegerExt(b), NilExt];
    assert fs[1..][1..][1..] == [NilExt];
    assert SkipTerms(fs[1..][1..], 1) == SkipTerms([NilExt], 0);
    assert SkipTerms(fs, 1) == SkipTerms(fs[1..][1..], 1);
  }
}
