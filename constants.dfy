/** Constants.h: the one-byte tags of the External Term Format and `AsBigEndian`, which turns
    an integer into one whose in-memory image is big-endian. */
module EtfConstants {
  import opened CppIntegers

  /** `std::byte` */
  type byte = uint8

  datatype Option<+T> = None | Some(value: T)

  /** `enum class Constants : uint8_t` */
  datatype Constant =
    | Version | NewFloat | SmallInteger | Integer | Atom | SmallTuple | LargeTuple | Nil
    | String | List | Binary | SmallBig | SmallAtom | Map | AtomUtf8 | SmallAtomUtf8

  /** The code of a character literal such as 'F'. */
  function Code(c: char): byte
    requires c as int < 0x80
  {
    c as int as byte
  }

  /** The enumerator's value, written as the source writes it. */
  function ToByte(c: Constant): byte {
    match c
    case Version => 131
    case NewFloat => Code('F')
    case SmallInteger => Code('a')
    case Integer => Code('b')
    case Atom => Code('d')
    case SmallTuple => Code('h')
    case LargeTuple => Code('i')
    case Nil => Code('j')
    case String => Code('k')
    case List => Code('l')
    case Binary => Code('m')
    case SmallBig => Code('n')
    case SmallAtom => Code('s')
    case Map => Code('t')
    case AtomUtf8 => Code('v')
    case SmallAtomUtf8 => Code('w')
  }

  /** The tag a byte stands for, if any: how a reader of the stream tells the term kinds apart. */
  function FromByte(b: byte): (r: Option<Constant>)
    ensures r.Some? ==> ToByte(r.value) == b
  {
    if b == 131 then Some(Version)
    else if b == Code('F') then Some(NewFloat)
    else if b == Code('a') then Some(SmallInteger)
    else if b == Code('b') then Some(Integer)
    else if b == Code('d') then Some(Atom)
    else if b == Code('h') then Some(SmallTuple)
    else if b == Code('i') then Some(LargeTuple)
    else if b == Code('j') then Some(Nil)
    else if b == Code('k') then Some(String)
    else if b == Code('l') then Some(List)
    else if b == Code('m') then Some(Binary)
    else if b == Code('n') then Some(SmallBig)
    else if b == Code('s') then Some(SmallAtom)
    else if b == Code('t') then Some(Map)
    else if b == Code('v') then Some(AtomUtf8)
    else if b == Code('w') then Some(SmallAtomUtf8)
    else None
  }

  /** The numeric values of the tags. */
  lemma TagValues()
    ensures ToByte(Version) == 131 && ToByte(NewFloat) == 70 && ToByte(SmallInteger) == 97
    ensures ToByte(Integer) == 98 && ToByte(Atom) == 100 && ToByte(SmallTuple) == 104
    ensures ToByte(LargeTuple) == 105 && ToByte(Nil) == 106 && ToByte(String) == 107
    ensures ToByte(List) == 108 && ToByte(Binary) == 109 && ToByte(SmallBig) == 110
    ensures ToByte(SmallAtom) == 115 && ToByte(Map) == 116 && ToByte(AtomUtf8) == 118
    ensures ToByte(SmallAtomUtf8) == 119
  {
  }

  /** Every tag byte is read back as its own tag ... */
  lemma FromByteToByte(c: Constant)
    ensures FromByte(ToByte(c)) == Some(c)
  {
  }

  /** ... so no two tags share a byte. */
  lemma TagsDistinct(a: Constant, b: Constant)
    requires a != b
    ensures ToByte(a) != ToByte(b)
  {
    FromByteToByte(a);
    FromByteToByte(b);
  }

  function Pow256(w: nat): (p: nat)
    ensures p >= 1
  {
    if w == 0 then 1 else 256 * Pow256(w - 1)
  }

  /** The w-byte big-endian image of v modulo 256^w: most-significant byte first. */
  function BE(w: nat, v: nat): (r: seq<byte>)
    ensures |r| == w
  {
    if w == 0 then [] else BE(w - 1, v / 256) + [(v % 256) as byte]
  }

  /** The unsigned number a big-endian byte sequence stands for. */
  function BEValue(s: seq<byte>): (n: nat)
    ensures n < Pow256(|s|)
  {
    if s == [] then 0
    else
      var high := BEValue(s[..|s| - 1]);
      assert high <= Pow256(|s| - 1) - 1;
      high * 256 + s[|s| - 1] as nat
  }

  /** Reading a big-endian image back recovers the number. */
  lemma {:induction false} BEValueOfBE(w: nat, v: nat)
    requires v < Pow256(w)
    ensures BEValue(BE(w, v)) == v
  {
    if w > 0 {
      var s := BE(w, v);
      assert s[..w - 1] == BE(w - 1, v / 256);
      BEValueOfBE(w - 1, v / 256);
    }
  }

  /** A one-byte image is the byte itself. */
  lemma BEOfByte(n: nat)
    requires n < 0x100
    ensures BE(1, n) == [n as byte]
  {
  }

  /** Every byte sequence is the big-endian image of the number it stands for. */
  lemma {:induction false} BEOfBEValue(s: seq<byte>)
    ensures BE(|s|, BEValue(s)) == s
  {
    if s != [] {
      var init := s[..|s| - 1];
      var n := BEValue(s);
      assert n / 256 == BEValue(init) && n % 256 == s[|s| - 1] as nat;
      BEOfBEValue(init);
      assert s == init + [s[|s| - 1]];
    }
  }

  /** A big-endian image is zero-padded on the left: the image of a number below 256^k in w
      bytes starts with w - k zero bytes and ends with its k-byte image. */
  lemma {:induction false} BEZeroPadded(w: nat, k: nat, v: nat)
    requires k <= w && v < Pow256(k)
    ensures BE(w, v) == seq(w - k, _ => 0 as byte) + BE(k, v)
  {
    if k == 0 {
      BEOfZero(w);
    } else {
      BEZeroPadded(w - 1, k - 1, v / 256);
    }
  }

  lemma {:induction false} BEOfZero(w: nat)
    ensures BE(w, 0) == seq(w, _ => 0 as byte)
  {
    if w > 0 {
      BEOfZero(w - 1);
    }
  }

  lemma {:induction false} PowMonotone(a: nat, b: nat)
    requires a <= b
    ensures Pow256(a) <= Pow256(b)
  {
    if a < b {
      PowMonotone(a, b - 1);
    }
  }

  function Reverse(s: seq<byte>): (r: seq<byte>)
    ensures |r| == |s|
    ensures forall i :: 0 <= i < |s| ==> r[i] == s[|s| - 1 - i]
  {
    if s == [] then [] else [s[|s| - 1]] + Reverse(s[..|s| - 1])
  }

  /** `std::endian::native` */
  datatype Endian = Little | Big

  /** The object representation of an unsigned w-byte integer holding v on a host of the
      given byte order. */
  function Image(host: Endian, w: nat, v: nat): (r: seq<byte>)
    requires v < Pow256(w)
    ensures |r| == w
  {
    if host == Big then BE(w, v) else Reverse(BE(w, v))
  }

  /** `std::byteswap` on a w-byte integer. */
  function ByteSwap(w: nat, v: nat): (r: nat)
    requires v < Pow256(w)
    ensures r < Pow256(w)
  {
    BEValue(Reverse(BE(w, v)))
  }

  /** `AsBigEndian<T>` for T of width w bytes: a byte swap on a little-endian host, the value
      itself on a big-endian one. A signed argument enters as its two's-complement pattern. */
  function AsBigEndian(host: Endian, w: nat, v: nat): (r: nat)
    requires v < Pow256(w)
    ensures r < Pow256(w)
  {
    if host == Little then ByteSwap(w, v) else v
  }

  /** On either host, the memory image of `AsBigEndian(v)` is the big-endian encoding of v. */
  lemma AsBigEndianImage(host: Endian, w: nat, v: nat)
    requires v < Pow256(w)
    ensures Image(host, w, AsBigEndian(host, w, v)) == BE(w, v)
  {
    if host == Little {
      var r := Reverse(BE(w, v));
      BEOfBEValue(r);
      assert Reverse(r) == BE(w, v);
    }
  }

  /** `AsBigEndian` undoes itself: a byte swap twice, or the identity twice. */
  lemma AsBigEndianInvolution(host: Endian, w: nat, v: nat)
    requires v < Pow256(w)
    ensures AsBigEndian(host, w, AsBigEndian(host, w, v)) == v
  {
    if host == Little {
      var r := Reverse(BE(w, v));
      BEOfBEValue(r);
      assert Reverse(r) == BE(w, v);
      BEValueOfBE(w, v);
    }
  }
}
