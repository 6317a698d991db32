/** Byte-level building blocks shared by the beacon, request and response
    layouts: bytes, the little-endian integer fields of Python's `struct`
    formats `B`, `H`, `I` and `i`, the fixed-width byte field `Ns`, and the
    "bytes up to the first NUL" split used for C strings. */
module Wire {

  datatype Option<+T> = None | Some(value: T)

  type Byte = b: int | 0 <= b < 0x100

  predicate IsU16(v: int) { 0 <= v < 0x1_0000 }
  predicate IsU32(v: int) { 0 <= v < 0x1_0000_0000 }
  predicate IsI32(v: int) { -0x8000_0000 <= v < 0x8000_0000 }

  /** `struct.unpack('<H', ...)` at offset `off`. */
  function ReadU16(s: seq<Byte>, off: nat): (v: int)
    requires off + 2 <= |s|
    ensures IsU16(v)
    ensures v % 0x100 == s[off] && v / 0x100 == s[off + 1]
  {
    s[off] as int + 0x100 * (s[off + 1] as int)
  }

  /** `struct.unpack('<I', ...)` at offset `off`. */
  function ReadU32(s: seq<Byte>, off: nat): (v: int)
    requires off + 4 <= |s|
    ensures IsU32(v)
    ensures v % 0x100 == s[off] && v / 0x100 % 0x100 == s[off + 1]
    ensures v / 0x1_0000 % 0x100 == s[off + 2] && v / 0x100_0000 == s[off + 3]
  {
    s[off] as int + 0x100 * (s[off + 1] as int) + 0x1_0000 * (s[off + 2] as int) + 0x100_0000 * (s[off + 3] as int)
  }

  /** `struct.unpack('<i', ...)` at offset `off`: two's complement of the
      unsigned reading; the sign is the top bit of the last byte. */
  function ReadI32(s: seq<Byte>, off: nat): (v: int)
    requires off + 4 <= |s|
    ensures IsI32(v)
    ensures v < 0 <==> s[off + 3] >= 0x80
    ensures v % 0x1_0000_0000 == ReadU32(s, off)
  {
    var u := ReadU32(s, off);
    if u < 0x8000_0000 then u else u - 0x1_0000_0000
  }

  /** `struct.pack('<H', v)`. */
  function U16Bytes(v: int): (r: seq<Byte>)
    requires IsU16(v)
    ensures |r| == 2 && ReadU16(r, 0) == v
  {
    [v % 0x100, v / 0x100]
  }

  /** `struct.pack('<I', v)`. */
  function U32Bytes(v: int): (r: seq<Byte>)
    requires IsU32(v)
    ensures |r| == 4 && ReadU32(r, 0) == v
  {
    var w1 := v / 0x100;
    var w2 := w1 / 0x100;
    assert v == v % 0x100 + 0x100 * w1;
    assert w1 == w1 % 0x100 + 0x100 * w2;
    assert w2 == w2 % 0x100 + 0x100 * (w2 / 0x100);
    [v % 0x100, w1 % 0x100, w2 % 0x100, w2 / 0x100]
  }

  /** `struct.pack('<i', v)`: the unsigned encoding of `v` modulo 2^32. */
  function I32Bytes(v: int): (r: seq<Byte>)
    requires IsI32(v)
    ensures |r| == 4 && ReadI32(r, 0) == v
  {
    U32Bytes(v % 0x1_0000_0000)
  }

  /** Reading four bytes and packing the value again gives back the bytes:
      every 4-byte string is the encoding of exactly one `I` value. */
  lemma U32BytesOfRead(s: seq<Byte>)
    requires |s| == 4
    ensures U32Bytes(ReadU32(s, 0)) == s
  {
  }

  /** The same for the `H` field. */
  lemma U16BytesOfRead(s: seq<Byte>)
    requires |s| == 2
    ensures U16Bytes(ReadU16(s, 0)) == s
  {
  }

  /** The same for the signed `i` field. */
  lemma I32BytesOfRead(s: seq<Byte>)
    requires |s| == 4
    ensures I32Bytes(ReadI32(s, 0)) == s
  {
  }

  /** Reading a field out of a larger buffer reads the slice it sits in. */
  lemma ReadI32OfSlice(s: seq<Byte>, off: nat, t: seq<Byte>)
    requires off + 4 <= |s| && s[off..off + 4] == t
    ensures ReadI32(s, off) == ReadI32(t, 0)
  {
  }

  lemma ReadU32OfSlice(s: seq<Byte>, off: nat, t: seq<Byte>)
    requires off + 4 <= |s| && s[off..off + 4] == t
    ensures ReadU32(s, off) == ReadU32(t, 0)
  {
  }

  lemma ReadU16OfSlice(s: seq<Byte>, off: nat, t: seq<Byte>)
    requires off + 2 <= |s| && s[off..off + 2] == t
    ensures ReadU16(s, off) == ReadU16(t, 0)
  {
  }

  function Zeros(n: nat): (r: seq<Byte>)
    ensures |r| == n && forall i :: 0 <= i < n ==> r[i] == 0
  {
    seq(n, _ => 0)
  }

  /** The `struct` field `Ns`: the bytes of `s`, cut to `n` bytes when longer
      and padded with zero bytes when shorter. */
  function FixedBytes(s: seq<Byte>, n: nat): (r: seq<Byte>)
    ensures |r| == n
    ensures forall i :: 0 <= i < n ==> r[i] == (if i < |s| then s[i] else 0)
  {
    if |s| >= n then s[..n] else s + Zeros(n - |s|)
  }

  /** `s.split(b'\x00')[0]`: the longest prefix of `s` that holds no zero
      byte. It stops either at the end of `s` or just before a zero byte. */
  function UpToNul(s: seq<Byte>): (r: seq<Byte>)
    ensures r <= s
    ensures 0 !in r
    ensures |r| < |s| ==> s[|r|] == 0
  {
    if |s| == 0 || s[0] == 0 then [] else [s[0]] + UpToNul(s[1..])
  }

  /** A name followed by a zero byte and anything else splits back to the
      name. */
  lemma {:induction false} UpToNulOfTerminated(name: seq<Byte>, rest: seq<Byte>)
    requires 0 !in name
    ensures UpToNul(name + [0] + rest) == name
  {
    if |name| > 0 {
      assert (name + [0] + rest)[1..] == name[1..] + [0] + rest;
      UpToNulOfTerminated(name[1..], rest);
    }
  }
}
