/** `class Encoder`: the overload set that maps C++ values onto Writer calls. Which frames a
    value produces is the function Encode; the Encoder class performs the same calls on its
    Writer and is proved to append exactly the bytes of those frames. */
module EtfEncoder {
  import opened CppIntegers
  import opened EtfConstants
  import opened EtfWriter

  /** The values the `Write` overloads accept, one constructor per overload family.
      `std::string` and `std::string_view` both become Text; `nullptr` and `std::nullopt` both
      become Null; `std::array` and `std::vector` both become Sequence; an `std::unordered_map`
      is the sequence of its entries in iteration order. */
  datatype Value =
    | I8(i8: int8)
    | U8(u8: uint8)
    | I16(i16: int16)
    | U16(u16: uint16)
    | I32(i32: int32)
    | U32(u32: uint32)
    | I64(i64: int64)
    | U64(u64: uint64)
    | Boolean(b: bool)
    | Double(bits: uint64)
    | Text(bytes: seq<byte>)
    | Null
    | Optional(opt: Option<Value>)
    | Tuple(fields: seq<Value>)
    | Sequence(elems: seq<Value>)
    | Pair(first: Value, second: Value)
    | Mapping(entries: seq<Entry>)

  /** An element of an `std::unordered_map`, which the map overload passes to the pair overload. */
  datatype Entry = Entry(key: Value, val: Value)

  /** The integer overloads by the type of their argument. */
  function KindOf(v: Value): Option<(IntKind, int)>
    ensures KindOf(v).Some? ==> InRange(KindOf(v).value.0, KindOf(v).value.1)
  {
    match v
    case I8(x) => Some((Int8, x as int))
    case U8(x) => Some((UInt8, x as int))
    case I16(x) => Some((Int16, x as int))
    case U16(x) => Some((UInt16, x as int))
    case I32(x) => Some((Int32, x as int))
    case U32(x) => Some((UInt32, x as int))
    case I64(x) => Some((Int64, x as int))
    case U64(x) => Some((UInt64, x as int))
    case _ => None
  }

  /** `DoesOverlap<T>(Value)` for an argument x of type k: the built-in comparisons
      `numeric_limits<T>::min() <= x && x <= numeric_limits<T>::max()`, each under C++'s usual
      arithmetic conversions. */
  function DoesOverlap(t: IntKind, k: IntKind, x: int): bool
    requires InRange(k, x)
  {
    LessEqual(Min(t), t, x, k) && LessEqual(x, k, Max(t), t)
  }

  /** The frame the integer overload for type k writes for x, branch for branch. Every argument
      passed to a Writer method is converted to that method's parameter type. */
  function IntegerFrame(k: IntKind, x: int): Frame
    requires InRange(k, x)
  {
    match k
    case Int8 => IntegerExt(ToInt32(x))
    case UInt8 => SmallIntegerExt(ToUInt8(x))
    case Int16 | UInt16 | Int32 => MidFrame(k, x)
    case UInt32 | UInt64 => UnsignedFrame(k, x)
    case Int64 => Int64ValueFrame(x)
  }

  /** The `int16_t`, `uint16_t` and `int32_t` overloads, which share one body. */
  function MidFrame(k: IntKind, x: int): Frame
    requires k == Int16 || k == UInt16 || k == Int32
    requires InRange(k, x)
  {
    if DoesOverlap(UInt8, k, x) then SmallIntegerExt(ToUInt8(x))
    else IntegerExt(ToInt32(x))
  }

  /** The `uint32_t` and `uint64_t` overloads, which share one body. */
  function UnsignedFrame(k: IntKind, x: int): Frame
    requires k == UInt32 || k == UInt64
    requires InRange(k, x)
  {
    if DoesOverlap(UInt8, k, x) then SmallIntegerExt(ToUInt8(x))
    else if DoesOverlap(Int32, k, x) then IntegerExt(ToInt32(x))
    else UInt64Frame(ToUInt64(x))
  }

  /** The `int64_t` overload. Its last branch, `WriteInt64`, is never taken. */
  function Int64ValueFrame(x: int): Frame
    requires InRange(Int64, x)
  {
    if DoesOverlap(UInt8, Int64, x) then SmallIntegerExt(ToUInt8(x))
    else if DoesOverlap(Int32, Int64, x) then IntegerExt(ToInt32(x))
    else if DoesOverlap(UInt64, Int64, x) then UInt64Frame(ToUInt64(x))
    else OverlapsUInt64(x); assert false; NilExt
  }

  /** Every `int64_t` passes `DoesOverlap<uint64_t>`: both comparisons convert it to
      `uint64_t`, whose values all lie between 0 and the maximum. */
  lemma OverlapsUInt64(x: int)
    ensures InRange(Int64, x) ==> DoesOverlap(UInt64, Int64, x)
  {
    assert CommonType(Promote(UInt64), Promote(Int64)) == UInt64;
    assert CommonType(Promote(Int64), Promote(UInt64)) == UInt64;
  }

  /** What a sequence of Writer calls produces: the frames appended, and whether the last call
      threw `std::length_error` (which ends the whole `Write`). */
  datatype Emit = Emit(frames: seq<Frame>, outcome: Outcome)

  /** A Writer call that cannot fail. */
  function Put(f: Frame): Emit {
    Emit([f], Pass)
  }

  /** A Writer call that appends the frame or throws without appending anything. */
  function Attempt(r: Result<Frame>): Emit {
    match r
    case Ok(f) => Emit([f], Pass)
    case Err(e) => Emit([], Fail(e))
  }

  /** One call after another: an exception in the first skips the second. */
  function Then(a: Emit, b: Emit): Emit
  {
    if a.outcome.Fail? then a else Emit(a.frames + b.frames, b.outcome)
  }

  const Done: Emit := Emit([], Pass)

  /** The frames `Encoder::Write` appends for v. */
  function Encode(v: Value): Emit
    decreases v, 1
  {
    match v
    case I8(_) | U8(_) | I16(_) | U16(_) | I32(_) | U32(_) | I64(_) | U64(_) =>
      var (k, x) := KindOf(v).value;
      Put(IntegerFrame(k, x))
    case Boolean(b) => Put(if b then TrueAtom else FalseAtom)
    case Double(bits) => Put(NewFloatExt(bits))
    case Text(bytes) => Attempt(BinaryFrame(bytes))
    case Null => Put(NilAtom)
    case Optional(o) =>
      (match o
       case Some(inner) => Encode(inner)
       case None => Put(NilAtom))
    case Tuple(fields) => Then(Attempt(TupleHeaderFrame(|fields|)), EncodeAll(fields))
    case Sequence(elems) =>
      if |elems| == 0 then Put(NilExt)
      else Then(Then(Attempt(ListHeaderFrame(|elems|)), EncodeAll(elems)), Put(NilExt))
    case Pair(first, second) => Then(Encode(first), Encode(second))
    case Mapping(entries) => Then(Attempt(MapHeaderFrame(|entries|)), EncodeEntries(entries))
  }

  /** The elements one after another, stopping at the first exception. */
  function EncodeAll(xs: seq<Value>): Emit
    decreases xs, 0
  {
    if |xs| == 0 then Done else Then(EncodeAll(xs[..|xs| - 1]), Encode(xs[|xs| - 1]))
  }

  /** A map entry goes through the pair overload: key, then value. */
  function EncodeEntry(e: Entry): Emit
    decreases e, 1
  {
    Then(Encode(e.key), Encode(e.val))
  }

  function EncodeEntries(es: seq<Entry>): Emit
    decreases es, 0
  {
    if |es| == 0 then Done else Then(EncodeEntries(es[..|es| - 1]), EncodeEntry(es[|es| - 1]))
  }

  /** An exception ends the loop over a container: once a prefix of the elements fails, the
      remaining elements add nothing. */
  lemma {:induction false} EncodeAllStops(xs: seq<Value>, j: nat)
    requires j <= |xs| && EncodeAll(xs[..j]).outcome.Fail?
    ensures EncodeAll(xs) == EncodeAll(xs[..j])
  {
    if j < |xs| {
      var init := xs[..|xs| - 1];
      assert init[..j] == xs[..j];
      EncodeAllStops(init, j);
    } else {
      assert xs[..j] == xs;
    }
  }

  lemma {:induction false} EncodeEntriesStops(es: seq<Entry>, j: nat)
    requires j <= |es| && EncodeEntries(es[..j]).outcome.Fail?
    ensures EncodeEntries(es) == EncodeEntries(es[..j])
  {
    if j < |es| {
      var init := es[..|es| - 1];
      assert init[..j] == es[..j];
      EncodeEntriesStops(init, j);
    } else {
      assert es[..j] == es;
    }
  }

  lemma EncodeAllSnoc(xs: seq<Value>, i: nat)
    requires i < |xs|
    ensures EncodeAll(xs[..i + 1]) == Then(EncodeAll(xs[..i]), Encode(xs[i]))
  {
    assert xs[..i + 1][..i] == xs[..i];
  }


  lemma EncodeEntriesSnoc(es: seq<Entry>, i: nat)
    requires i < |es|
    ensures EncodeEntries(es[..i + 1]) == Then(EncodeEntries(es[..i]), EncodeEntry(es[i]))
  {
    assert es[..i + 1][..i] == es[..i];
  }


  // The bytes of the Writer calls a Write makes, appended one after another.

  lemma PutBytes(before: seq<byte>, f: Frame)
    ensures before + Serialize(f) == before + SerializeAll(Put(f).frames)
  {
    assert [f][1..] == [];
  }

  lemma AttemptBytes(before: seq<byte>, r: Result<Frame>)
    requires r.Ok?
    ensures before + Serialize(r.value) == before + SerializeAll(Attempt(r).frames)
  {
    PutBytes(before, r.value);
  }

  lemma ThenBytes(before: seq<byte>, a: Emit, b: Emit)
    requires a.outcome.Pass?
    ensures before + SerializeAll(a.frames) + SerializeAll(b.frames)
            == before + SerializeAll(Then(a, b).frames)
  {
    SerializeAllAppend(a.frames, b.frames);
  }

  /** `class Encoder`, which owns its Writer. */
  class Encoder {
    const writer: Writer

    /** The constructor writes the version byte. */
    constructor(initialCapacity: nat, host: Endian)
      ensures fresh(writer) && writer.buf == Serialize(VersionMagic)
    {
      writer := new Writer(initialCapacity, host);
      new;
      writer.WriteVersion();
    }

    function Get(): seq<byte>
      reads writer
    {
      writer.buf
    }

    /** `Reset` clears the buffer and does not write the version byte again. */
    method Reset()
      modifies writer
      ensures writer.buf == []
    {
      writer.Reset();
    }

    /** `Write`: overload resolution picks the method for the value's type. Appends the bytes
        of Encode(v), and reports the exception, if any, that ended it. */
    method Write(v: Value) returns (outcome: Outcome)
      modifies writer
      ensures writer.buf == old(writer.buf) + SerializeAll(Encode(v).frames)
      ensures outcome == Encode(v).outcome
      decreases v, 3
    {
      match v {
        case I8(_) | U8(_) | I16(_) | U16(_) | I32(_) | U32(_) | I64(_) | U64(_) =>
          var (k, x) := KindOf(v).value;
          outcome := WriteInteger(k, x);
        case Boolean(b) => outcome := WriteBool(b);
        case Double(bits) => outcome := WriteDouble(bits);
        case Text(bytes) => outcome := WriteText(bytes);
        case Null => outcome := WriteNull();
        case Optional(o) => outcome := WriteOptional(o);
        case Tuple(fields) => outcome := WriteTuple(fields);
        case Sequence(elems) => outcome := WriteSequence(elems);
        case Pair(first, second) => outcome := WritePair(first, second);
        case Mapping(entries) => outcome := WriteMap(entries);
      }
    }

    /** The eight integer overloads. */
    method WriteInteger(k: IntKind, x: int) returns (outcome: Outcome)
      requires InRange(k, x)
      modifies writer
      ensures writer.buf == old(writer.buf) + SerializeAll(Put(IntegerFrame(k, x)).frames)
      ensures outcome == Pass
    {
      match k {
        case Int8 => writer.WriteInt32(ToInt32(x));
        case UInt8 => writer.WriteUInt8(ToUInt8(x));
        case Int16 => WriteMid(k, x);
        case UInt16 => WriteMid(k, x);
        case Int32 => WriteMid(k, x);
        case UInt32 => WriteUnsigned(k, x);
        case UInt64 => WriteUnsigned(k, x);
        case Int64 => WriteInt64Value(x);
      }
      PutBytes(old(writer.buf), IntegerFrame(k, x));
      outcome := Pass;
    }

    /** The body shared by the `int16_t`, `uint16_t` and `int32_t` overloads. */
    method WriteMid(k: IntKind, x: int)
      requires k == Int16 || k == UInt16 || k == Int32
      requires InRange(k, x)
      modifies writer
      ensures writer.buf == old(writer.buf) + Serialize(MidFrame(k, x))
    {
      if DoesOverlap(UInt8, k, x) {
        writer.WriteUInt8(ToUInt8(x));
      } else {
        writer.WriteInt32(ToInt32(x));
      }
    }

    /** The body shared by the `uint32_t` and `uint64_t` overloads. */
    method WriteUnsigned(k: IntKind, x: int)
      requires k == UInt32 || k == UInt64
      requires InRange(k, x)
      modifies writer
      ensures writer.buf == old(writer.buf) + Serialize(UnsignedFrame(k, x))
    {
      var f := UnsignedFrame(k, x);
      if DoesOverlap(UInt8, k, x) {
        assert f == SmallIntegerExt(ToUInt8(x));
        writer.WriteUInt8(ToUInt8(x));
      } else if DoesOverlap(Int32, k, x) {
        assert f == IntegerExt(ToInt32(x));
        writer.WriteInt32(ToInt32(x));
      } else {
        assert f == UInt64Frame(ToUInt64(x));
        writer.WriteUInt64(ToUInt64(x));
      }
    }

    /** The `int64_t` overload. Its last branch, the call of `WriteInt64`, cannot be reached. */
    method WriteInt64Value(x: int)
      requires InRange(Int64, x)
      modifies writer
      ensures writer.buf == old(writer.buf) + Serialize(Int64ValueFrame(x))
    {
      if DoesOverlap(UInt8, Int64, x) {
        writer.WriteUInt8(ToUInt8(x));
      } else if DoesOverlap(Int32, Int64, x) {
        writer.WriteInt32(ToInt32(x));
      } else if DoesOverlap(UInt64, Int64, x) {
        writer.WriteUInt64(ToUInt64(x));
      } else {
        OverlapsUInt64(x);
        assert false;
      }
    }

    method WriteBool(b: bool) returns (outcome: Outcome)
      modifies writer
      ensures writer.buf == old(writer.buf) + SerializeAll(Encode(Boolean(b)).frames)
      ensures outcome == Encode(Boolean(b)).outcome
    {
      if b {
        writer.WriteTrue();
        PutBytes(old(writer.buf), TrueAtom);
      } else {
        writer.WriteFalse();
        PutBytes(old(writer.buf), FalseAtom);
      }
      outcome := Pass;
    }

    /** The `double` overload, on the value's bit pattern. */
    method WriteDouble(bits: uint64) returns (outcome: Outcome)
      modifies writer
      ensures writer.buf == old(writer.buf) + SerializeAll(Encode(Double(bits)).frames)
      ensures outcome == Encode(Double(bits)).outcome
    {
      writer.WriteDouble(bits);
      PutBytes(old(writer.buf), NewFloatExt(bits));
      outcome := Pass;
    }

    /** The `std::string` and `std::string_view` overloads. */
    method WriteText(bytes: seq<byte>) returns (outcome: Outcome)
      modifies writer
      ensures writer.buf == old(writer.buf) + SerializeAll(Encode(Text(bytes)).frames)
      ensures outcome == Encode(Text(bytes)).outcome
    {
      outcome := writer.WriteBinary(bytes);
      if outcome.Pass? {
        AttemptBytes(old(writer.buf), BinaryFrame(bytes));
      }
    }

    /** The `std::nullptr_t` and `std::nullopt_t` overloads. */
    method WriteNull() returns (outcome: Outcome)
      modifies writer
      ensures writer.buf == old(writer.buf) + SerializeAll(Encode(Null).frames)
      ensures outcome == Encode(Null).outcome
    {
      writer.WriteNil();
      PutBytes(old(writer.buf), NilAtom);
      outcome := Pass;
    }

    /** The `std::optional` overload: the value if there is one, otherwise `std::nullopt`. */
    method WriteOptional(o: Option<Value>) returns (outcome: Outcome)
      modifies writer
      ensures writer.buf == old(writer.buf) + SerializeAll(Encode(Optional(o)).frames)
      ensures outcome == Encode(Optional(o)).outcome
      decreases o, 2
    {
      if o.Some? {
        outcome := Write(o.value);
      } else {
        outcome := WriteNull();
      }
    }

    /** The tuple overload: the header, then each field. */
    method WriteTuple(fields: seq<Value>) returns (outcome: Outcome)
      modifies writer
      ensures writer.buf == old(writer.buf) + SerializeAll(Encode(Tuple(fields)).frames)
      ensures outcome == Encode(Tuple(fields)).outcome
      decreases fields, 2
    {
      outcome := writer.WriteTupleHeader(|fields|);
      if outcome.Fail? {
        return;
      }
      var header := Attempt(TupleHeaderFrame(|fields|));
      AttemptBytes(old(writer.buf), TupleHeaderFrame(|fields|));
      outcome := WriteAll(fields);
      ThenBytes(old(writer.buf), header, EncodeAll(fields));
    }

    /** The `std::array` and `std::vector` overloads: for a non-empty container the header and
        each element, then in every case the nil tail. */
    method WriteSequence(elems: seq<Value>) returns (outcome: Outcome)
      modifies writer
      ensures writer.buf == old(writer.buf) + SerializeAll(Encode(Sequence(elems)).frames)
      ensures outcome == Encode(Sequence(elems)).outcome
      decreases elems, 2
    {
      if |elems| == 0 {
        writer.WriteNilExt();
        PutBytes(old(writer.buf), NilExt);
        return Pass;
      }
      outcome := writer.WriteListHeader(|elems|);
      if outcome.Fail? {
        return;
      }
      var header := Attempt(ListHeaderFrame(|elems|));
      AttemptBytes(old(writer.buf), ListHeaderFrame(|elems|));
      outcome := WriteAll(elems);
      ThenBytes(old(writer.buf), header, EncodeAll(elems));
      if outcome.Fail? {
        return;
      }
      ghost var before := writer.buf;
      writer.WriteNilExt();
      PutBytes(before, NilExt);
      ThenBytes(old(writer.buf), Then(header, EncodeAll(elems)), Put(NilExt));
    }

    /** The pair overload: first, then second, with nothing around them. */
    method WritePair(first: Value, second: Value) returns (outcome: Outcome)
      modifies writer
      ensures writer.buf == old(writer.buf) + SerializeAll(Then(Encode(first), Encode(second)).frames)
      ensures outcome == Then(Encode(first), Encode(second)).outcome
      decreases Pair(first, second), 2
    {
      outcome := Write(first);
      if outcome.Pass? {
        outcome := Write(second);
        ThenBytes(old(writer.buf), Encode(first), Encode(second));
      }
    }

    /** The `std::unordered_map` overload: the header, then key and value of each entry. */
    method WriteMap(entries: seq<Entry>) returns (outcome: Outcome)
      modifies writer
      ensures writer.buf == old(writer.buf) + SerializeAll(Encode(Mapping(entries)).frames)
      ensures outcome == Encode(Mapping(entries)).outcome
      decreases entries, 2
    {
      outcome := writer.WriteMapHeader(|entries|);
      if outcome.Fail? {
        return;
      }
      var header := Attempt(MapHeaderFrame(|entries|));
      AttemptBytes(old(writer.buf), MapHeaderFrame(|entries|));
      outcome := WriteEntries(entries);
      ThenBytes(old(writer.buf), header, EncodeEntries(entries));
    }

    /** The loop over a container's elements; an exception ends it. */
    method WriteAll(xs: seq<Value>) returns (outcome: Outcome)
      modifies writer
      ensures writer.buf == old(writer.buf) + SerializeAll(EncodeAll(xs).frames)
      ensures outcome == EncodeAll(xs).outcome
      decreases xs, 1
    {
      var i := 0;
      while i < |xs|
        invariant 0 <= i <= |xs|
        invariant EncodeAll(xs[..i]).outcome == Pass
        invariant writer.buf == old(writer.buf) + SerializeAll(EncodeAll(xs[..i]).frames)
      {
        outcome := Write(xs[i]);
        EncodeAllSnoc(xs, i);
        ThenBytes(old(writer.buf), EncodeAll(xs[..i]), Encode(xs[i]));
        if outcome.Fail? {
          EncodeAllStops(xs, i + 1);
          return;
        }
        i := i + 1;
      }
      assert xs[..i] == xs;
      outcome := Pass;
    }

    /** The pair overload as the map overload calls it, on one entry. */
    method WriteEntry(e: Entry) returns (outcome: Outcome)
      modifies writer
      ensures writer.buf == old(writer.buf) + SerializeAll(EncodeEntry(e).frames)
      ensures outcome == EncodeEntry(e).outcome
      decreases e, 2
    {
      outcome := Write(e.key);
      if outcome.Pass? {
        outcome := Write(e.val);
        ThenBytes(old(writer.buf), Encode(e.key), Encode(e.val));
      }
    }

    /** The loop over a map's entries; an exception ends it. */
    method WriteEntries(es: seq<Entry>) returns (outcome: Outcome)
      modifies writer
      ensures writer.buf == old(writer.buf) + SerializeAll(EncodeEntries(es).frames)
      ensures outcome == EncodeEntries(es).outcome
      decreases es, 1
    {
      var i := 0;
      while i < |es|
        invariant 0 <= i <= |es|
        invariant EncodeEntries(es[..i]).outcome == Pass
        invariant writer.buf == old(writer.buf) + SerializeAll(EncodeEntries(es[..i]).frames)
      {
        outcome := WriteEntry(es[i]);
        EncodeEntriesSnoc(es, i);
        ThenBytes(old(writer.buf), EncodeEntries(es[..i]), EncodeEntry(es[i]));
        if outcome.Fail? {
          EncodeEntriesStops(es, i + 1);
          return;
        }
        i := i + 1;
      }
      assert es[..i] == es;
      outcome := Pass;
    }
  }
}
