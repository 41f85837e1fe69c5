/** Octets and the fixed-width big-endian integer fields of Python's `struct` module. */
module Bytes {

  type byte = b: int | 0 <= b < 0x100

  const MaxU16: int := 0xFFFF
  const MaxI32: int := 0x7FFF_FFFF

  /** The field `>H`: an unsigned 16-bit integer, most significant octet first. */
  function BE16(n: int): (r: seq<byte>)
    requires 0 <= n <= MaxU16
    ensures |r| == 2
    ensures ReadU16(r[0], r[1]) == n
  {
    [n / 0x100, n % 0x100]
  }

  /** Reads a `>H` field from its two octets. */
  function ReadU16(hi: byte, lo: byte): (n: int)
    ensures 0 <= n <= MaxU16
  {
    hi * 0x100 + lo
  }

  /** The field `>i` for a non-negative value: a two's-complement 32-bit integer, most significant octet first. */
  function BE32(n: int): (r: seq<byte>)
    requires 0 <= n <= MaxI32
    ensures |r| == 4
    ensures ReadI32(r) == n
  {
    BE16(n / 0x1_0000) + BE16(n % 0x1_0000)
  }

  /** Reads a `>i` field: octets with the top bit set denote a negative count. */
  function ReadI32(b: seq<byte>): (n: int)
    requires |b| == 4
    ensures -0x8000_0000 <= n <= MaxI32
    ensures n < 0 <==> b[0] >= 0x80
  {
    var u := ReadU16(b[0], b[1]) * 0x1_0000 + ReadU16(b[2], b[3]);
    if u >= 0x8000_0000 then u - 0x1_0000_0000 else u
  }

  /** The field `>NH`: N unsigned 16-bit integers back to back. */
  function BE16s(ns: seq<int>): (r: seq<byte>)
    requires forall i :: 0 <= i < |ns| ==> 0 <= ns[i] <= MaxU16
    ensures |r| == 2 * |ns|
  {
    if |ns| == 0 then [] else BE16(ns[0]) + BE16s(ns[1..])
  }

  /** Reads `>NH` from exactly 2*N octets. */
  function ReadU16s(b: seq<byte>): (ns: seq<int>)
    requires |b| % 2 == 0
    ensures |ns| == |b| / 2
    ensures forall i :: 0 <= i < |ns| ==> 0 <= ns[i] <= MaxU16
  {
    if |b| == 0 then [] else [ReadU16(b[0], b[1])] + ReadU16s(b[2..])
  }

  /** Reading back a written `>NH` field gives the same integers in the same order. */
  lemma {:induction false} ReadU16sBE16s(ns: seq<int>)
    requires forall i :: 0 <= i < |ns| ==> 0 <= ns[i] <= MaxU16
    ensures ReadU16s(BE16s(ns)) == ns
  {
    if |ns| > 0 {
      var b := BE16s(ns);
      assert b == BE16(ns[0]) + BE16s(ns[1..]);
      assert b[2..] == BE16s(ns[1..]);
      ReadU16sBE16s(ns[1..]);
    }
  }
}
