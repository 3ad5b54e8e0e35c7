/** A reader for the frames the Writer appends, and the term structure of a run of frames.
    Nothing in the encoder reads bytes back; these functions are the yardstick its output is
    measured against: every frame's bytes are read back as that frame, and the frames of an
    encoded value form exactly the terms their headers announce. */
module EtfFraming {
  import opened CppIntegers
  import opened EtfConstants
  import opened EtfWriter

  /** Splits a w-byte big-endian length off the front, then that many bytes. */
  function LengthPrefixed(s: seq<byte>, w: nat): (r: Option<(seq<byte>, seq<byte>)>)
    ensures r.Some? ==> |r.value.0| < Pow256(w) && |r.value.0| + w + |r.value.1| == |s|
  {
    if |s| < w then None
    else
      var n := BEValue(s[..w]);
      if |s| < w + n then None else Some((s[w..w + n], s[w + n..]))
  }

  /** Splits a w-byte big-endian count off the front. */
  function Count(s: seq<byte>, w: nat): (r: Option<(nat, seq<byte>)>)
    ensures r.Some? ==> r.value.0 < Pow256(w) && w + |r.value.1| == |s|
  {
    if |s| < w then None else Some((BEValue(s[..w]), s[w..]))
  }

  /** Reads one frame off the front of s; None if s does not start with a whole frame. */
  function ParseFrame(s: seq<byte>): (r: Option<(Frame, seq<byte>)>)
    ensures r.Some? ==> Fits(r.value.0) && |r.value.1| < |s|
  {
    if |s| == 0 then None
    else
      match FromByte(s[0])
        case None => None
      case Some(tag) => ParseBody(tag, s[1..])
  }

  /** Reads the fields that follow a tag. */
  function ParseBody(tag: Constant, s: seq<byte>): (r: Option<(Frame, seq<byte>)>)
    ensures r.Some? ==> Fits(r.value.0) && TagOf(r.value.0) == tag && |r.value.1| <= |s|
  {
    match tag
    case Version => Some((VersionMagic, s))
    case Nil => Some((NilExt, s))
    case SmallInteger =>
      if |s| < 1 then None else Some((SmallIntegerExt(s[0]), s[1..]))
    case Integer =>
      if |s| < 4 then None
      else Some((IntegerExt(Convert(Int32, BEValue(s[..4])) as int32), s[4..]))
    case SmallBig =>
      if |s| < 2 || |s| < 2 + s[0] as nat then None
      else
        var n := s[0] as nat;
        Some((SmallBigExt(s[1], s[2..2 + n]), s[2 + n..]))
    case NewFloat =>
      if |s| < 8 then None else Some((NewFloatExt(BEValue(s[..8]) as uint64), s[8..]))
    case SmallAtom => ParseSmallAtom(Latin1, s)
    case SmallAtomUtf8 => ParseSmallAtom(Utf8, s)
    case Atom => ParseAtom(Latin1, s)
    case AtomUtf8 => ParseAtom(Utf8, s)
    case Binary =>
      (match LengthPrefixed(s, 4)
        case None => None
        case Some((data, rest)) => Some((BinaryExt(data), rest)))
    case String =>
      (match LengthPrefixed(s, 2)
        case None => None
        case Some((chars, rest)) => Some((StringExt(chars), rest)))
    case SmallTuple =>
      if |s| < 1 then None else Some((SmallTupleHeader(s[0]), s[1..]))
    case LargeTuple | List | Map => ParseHeader(tag, s)
  }

  function ParseSmallAtom(enc: AtomEncoding, s: seq<byte>): (r: Option<(Frame, seq<byte>)>)
    ensures r.Some? ==> Fits(r.value.0) && r.value.0.SmallAtomExt? && r.value.0.enc == enc
    ensures r.Some? ==> |r.value.1| <= |s|
  {
    match LengthPrefixed(s, 1)
    case None => None
    case Some((name, rest)) => Some((SmallAtomExt(enc, name), rest))
  }

  function ParseAtom(enc: AtomEncoding, s: seq<byte>): (r: Option<(Frame, seq<byte>)>)
    ensures r.Some? ==> Fits(r.value.0) && r.value.0.AtomExt? && r.value.0.enc == enc
    ensures r.Some? ==> |r.value.1| <= |s|
  {
    match LengthPrefixed(s, 2)
    case None => None
    case Some((name, rest)) => Some((AtomExt(enc, name), rest))
  }

  /** The three headers that carry a four-byte count. */
  function ParseHeader(tag: Constant, s: seq<byte>): (r: Option<(Frame, seq<byte>)>)
    requires tag == LargeTuple || tag == List || tag == Map
    ensures r.Some? ==> Fits(r.value.0) && TagOf(r.value.0) == tag && |r.value.1| <= |s|
  {
    match Count(s, 4)
    case None => None
    case Some((n, rest)) =>
      var f := if tag == LargeTuple then LargeTupleHeader(n) else if tag == List then ListHeader(n) else MapHeader(n);
      Some((f, rest))
  }

  /** Reads frames until the bytes run out; None if some prefix is not a whole frame. */
  function ParseFrames(s: seq<byte>): (r: Option<seq<Frame>>)
    ensures r.Some? ==> AllFit(r.value)
    decreases |s|
  {
    if |s| == 0 then Some([])
    else
      match ParseFrame(s)
        case None => None
      case Some((f, rest)) =>
        match ParseFrames(rest)
        case None => None
        case Some(fs) => Some([f] + fs)
  }

  lemma LengthPrefixedRoundTrip(w: nat, payload: seq<byte>, rest: seq<byte>)
    requires |payload| < Pow256(w)
    ensures LengthPrefixed(BE(w, |payload|) + payload + rest, w) == Some((payload, rest))
  {
    var s := BE(w, |payload|) + payload + rest;
    assert s[..w] == BE(w, |payload|);
    BEValueOfBE(w, |payload|);
    assert s[w..w + |payload|] == payload;
    assert s[w + |payload|..] == rest;
  }

  lemma CountRoundTrip(w: nat, n: nat, rest: seq<byte>)
    requires n < Pow256(w)
    ensures Count(BE(w, n) + rest, w) == Some((n, rest))
  {
    assert (BE(w, n) + rest)[..w] == BE(w, n);
    BEValueOfBE(w, n);
    assert (BE(w, n) + rest)[w..] == rest;
  }

  /** Each frame's bytes are read back as that frame, whatever follows them. */
  lemma ParseSerialize(f: Frame, rest: seq<byte>)
    requires Fits(f)
    ensures ParseFrame(Serialize(f) + rest) == Some((f, rest))
  {
    var s := Serialize(f) + rest;
    FromByteToByte(TagOf(f));
    assert s[1..] == Fields(f) + rest;
    ParseFields(f, rest);
  }

  lemma ParseFields(f: Frame, rest: seq<byte>)
    requires Fits(f)
    ensures ParseBody(TagOf(f), Fields(f) + rest) == Some((f, rest))
  {
    match f {
      case IntegerExt(i) => ParseIntegerFields(i, rest);
      case SmallBigExt(sign, digits) => ParseSmallBigFields(sign, digits, rest);
      case NewFloatExt(bits) => ParseFloatFields(bits, rest);
      case SmallAtomExt(enc, name) => ParseSmallAtomFields(enc, name, rest);
      case AtomExt(enc, name) => ParseAtomFields(enc, name, rest);
      case BinaryExt(data) => ParseBinaryFields(data, rest);
      case StringExt(chars) => ParseStringFields(chars, rest);
      case LargeTupleHeader(n) => CountRoundTrip(4, n, rest);
      case ListHeader(n) => CountRoundTrip(4, n, rest);
      case MapHeader(n) => CountRoundTrip(4, n, rest);
      case SmallIntegerExt(_) => assert (Fields(f) + rest)[1..] == rest;
      case SmallTupleHeader(_) => assert (Fields(f) + rest)[1..] == rest;
      case VersionMagic => assert Fields(f) + rest == rest;
      case NilExt => assert Fields(f) + rest == rest;
    }
  }

  lemma ParseIntegerFields(i: int32, rest: seq<byte>)
    ensures ParseBody(Integer, Fields(IntegerExt(i)) + rest) == Some((IntegerExt(i), rest))
  {
    var body := Fields(IntegerExt(i)) + rest;
    var pattern := Convert(UInt32, i as int);
    assert body[..4] == BE(4, pattern);
    BEValueOfBE(4, pattern);
    Int32PatternRoundTrip(i as int);
    assert body[4..] == rest;
  }

  lemma ParseSmallBigFields(sign: uint8, digits: seq<byte>, rest: seq<byte>)
    requires |digits| <= 0xFF
    ensures ParseBody(SmallBig, Fields(SmallBigExt(sign, digits)) + rest)
            == Some((SmallBigExt(sign, digits), rest))
  {
    var body := Fields(SmallBigExt(sign, digits)) + rest;
    assert body == [|digits| as byte, sign] + digits + rest;
    assert body[2..2 + |digits|] == digits;
    assert body[2 + |digits|..] == rest;
  }

  lemma ParseFloatFields(bits: uint64, rest: seq<byte>)
    ensures ParseBody(NewFloat, Fields(NewFloatExt(bits)) + rest) == Some((NewFloatExt(bits), rest))
  {
    var body := Fields(NewFloatExt(bits)) + rest;
    assert body[..8] == BE(8, bits as nat);
    BEValueOfBE(8, bits as nat);
    assert body[8..] == rest;
  }

  lemma ParseSmallAtomFields(enc: AtomEncoding, name: seq<byte>, rest: seq<byte>)
    requires |name| <= 0xFF
    ensures ParseBody(TagOf(SmallAtomExt(enc, name)), Fields(SmallAtomExt(enc, name)) + rest)
            == Some((SmallAtomExt(enc, name), rest))
  {
    assert Fields(SmallAtomExt(enc, name)) == BE(1, |name|) + name;
    LengthPrefixedRoundTrip(1, name, rest);
  }

  lemma ParseAtomFields(enc: AtomEncoding, name: seq<byte>, rest: seq<byte>)
    requires |name| <= MaxAtomSize
    ensures ParseBody(TagOf(AtomExt(enc, name)), Fields(AtomExt(enc, name)) + rest)
            == Some((AtomExt(enc, name), rest))
  {
    LengthPrefixedRoundTrip(2, name, rest);
  }

  lemma ParseBinaryFields(data: seq<byte>, rest: seq<byte>)
    requires |data| <= MaxContainerSize
    ensures ParseBody(Binary, Fields(BinaryExt(data)) + rest) == Some((BinaryExt(data), rest))
  {
    LengthPrefixedRoundTrip(4, data, rest);
  }

  lemma ParseStringFields(chars: seq<byte>, rest: seq<byte>)
    requires |chars| <= MaxStringSize
    ensures ParseBody(String, Fields(StringExt(chars)) + rest) == Some((StringExt(chars), rest))
  {
    LengthPrefixedRoundTrip(2, chars, rest);
  }

  /** Conversely, whatever is read as a frame is exactly that frame's bytes: the Writer's
      framing has one byte form per frame and no other. */
  lemma ParseFrameSound(s: seq<byte>)
    requires ParseFrame(s).Some?
    ensures var (f, rest) := ParseFrame(s).value; Serialize(f) + rest == s
  {
    var tag := FromByte(s[0]).value;
    var (f, rest) := ParseBody(tag, s[1..]).value;
    ParseBodySound(tag, s[1..]);
    assert Serialize(f) + rest == [s[0]] + (Fields(f) + rest);
    assert s == [s[0]] + s[1..];
  }

  lemma ParseBodySound(tag: Constant, body: seq<byte>)
    requires ParseBody(tag, body).Some?
    ensures var (f, rest) := ParseBody(tag, body).value; Fields(f) + rest == body
  {
    match tag {
      case Integer => IntegerSound(body);
      case NewFloat => FloatSound(body);
      case SmallBig => SmallBigSound(body);
      case SmallAtom | SmallAtomUtf8 | Atom | AtomUtf8 | String | Binary => PayloadSound(tag, body);
      case LargeTuple | List | Map => HeaderSound(tag, body);
      case SmallInteger | SmallTuple => assert body == [body[0]] + body[1..];
      case Version | Nil =>
    }
  }

  lemma IntegerSound(body: seq<byte>)
    requires ParseBody(Integer, body).Some?
    ensures var (f, rest) := ParseBody(Integer, body).value; Fields(f) + rest == body
  {
    UInt32PatternRoundTrip(BEValue(body[..4]));
    BEOfBEValue(body[..4]);
    assert body == body[..4] + body[4..];
  }

  lemma FloatSound(body: seq<byte>)
    requires ParseBody(NewFloat, body).Some?
    ensures var (f, rest) := ParseBody(NewFloat, body).value; Fields(f) + rest == body
  {
    BEOfBEValue(body[..8]);
    assert body == body[..8] + body[8..];
  }

  lemma SmallBigSound(body: seq<byte>)
    requires ParseBody(SmallBig, body).Some?
    ensures var (f, rest) := ParseBody(SmallBig, body).value; Fields(f) + rest == body
  {
    var n := body[0] as nat;
    assert body == [body[0], body[1]] + body[2..2 + n] + body[2 + n..];
  }

  lemma PayloadSound(tag: Constant, body: seq<byte>)
    requires tag in {SmallAtom, SmallAtomUtf8, Atom, AtomUtf8, String, Binary}
    requires ParseBody(tag, body).Some?
    ensures var (f, rest) := ParseBody(tag, body).value; Fields(f) + rest == body
  {
    if tag == SmallAtom || tag == SmallAtomUtf8 {
      LengthPrefixedSound(body, 1);
    } else if tag == Binary {
      LengthPrefixedSound(body, 4);
    } else {
      LengthPrefixedSound(body, 2);
    }
  }

  lemma HeaderSound(tag: Constant, body: seq<byte>)
    requires tag in {LargeTuple, List, Map}
    requires ParseBody(tag, body).Some?
    ensures var (f, rest) := ParseBody(tag, body).value; Fields(f) + rest == body
  {
    CountSound(body, 4);
  }

  lemma LengthPrefixedSound(s: seq<byte>, w: nat)
    requires LengthPrefixed(s, w).Some?
    ensures var (payload, rest) := LengthPrefixed(s, w).value;
      BE(w, |payload|) + payload + rest == s
  {
    var n := BEValue(s[..w]);
    BEOfBEValue(s[..w]);
    assert s == s[..w] + s[w..w + n] + s[w + n..];
  }

  lemma CountSound(s: seq<byte>, w: nat)
    requires Count(s, w).Some?
    ensures var (n, rest) := Count(s, w).value; BE(w, n) + rest == s
  {
    BEOfBEValue(s[..w]);
    assert s == s[..w] + s[w..];
  }

  /** No frame's bytes are a prefix of another's: two frames followed by anything give equal
      bytes only if they are the same frame followed by the same bytes. */
  lemma SerializeInjective(f: Frame, r: seq<byte>, g: Frame, t: seq<byte>)
    requires Fits(f) && Fits(g)
    requires Serialize(f) + r == Serialize(g) + t
    ensures f == g && r == t
  {
    ParseSerialize(f, r);
    ParseSerialize(g, t);
  }

  /** A run of frames is read back as the same run. */
  lemma {:induction false} ParseFramesRoundTrip(fs: seq<Frame>)
    requires AllFit(fs)
    ensures ParseFrames(SerializeAll(fs)) == Some(fs)
  {
    if fs != [] {
      assert AllFit(fs[1..]);
      ParseSerialize(fs[0], SerializeAll(fs[1..]));
      ParseFramesRoundTrip(fs[1..]);
      assert fs == [fs[0]] + fs[1..];
    }
  }

  /** How many terms follow a frame as its parts: a tuple's fields; a list's elements and its
      tail; a map's keys and values. */
  function Children(f: Frame): nat {
    match f
    case SmallTupleHeader(n) => n as nat
    case LargeTupleHeader(n) => n
    case ListHeader(n) => n + 1
    case MapHeader(n) => 2 * n
    case _ => 0
  }

  /** Drops k complete terms from the front of a run of frames. A frame stands for one term
      together with the Children(f) terms that follow it; the version byte is not a term. None
      if the run ends early or holds a version byte where a term should be. */
  function SkipTerms(fs: seq<Frame>, k: nat): Option<seq<Frame>>
    decreases |fs|
  {
    if k == 0 then Some(fs)
    else if |fs| == 0 || fs[0].VersionMagic? then None
    else SkipTerms(fs[1..], Children(fs[0]) + k - 1)
  }

  /** fs consists of exactly k complete terms. */
  predicate IsTerms(fs: seq<Frame>, k: nat) {
    SkipTerms(fs, k) == Some([])
  }
}
