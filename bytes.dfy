/**
 * Machine integers of the A2S_INFO wire format and their little-endian
 * byte layouts.  Dafny integers are unbounded, so every width the decoder
 * uses (u8, i16, i32, u64) is a newtype over its exact range, and signed
 * values are read in two's complement.
 */
module Bytes {

  newtype byte = x: int | 0 <= x < 0x100
  newtype int16 = x: int | -0x8000 <= x < 0x8000
  newtype int32 = x: int | -0x8000_0000 <= x < 0x8000_0000
  newtype uint64 = x: int | 0 <= x < 0x1_0000_0000_0000_0000

  /** Text as the decoder builds it: one byte per character. */
  type Text = seq<byte>

  function Pow256(n: nat): (r: nat)
    ensures r >= 1
  {
    if n == 0 then 1 else 256 * Pow256(n - 1)
  }

  /** The unsigned value of `b`, least significant byte first. */
  function LeValue(b: seq<byte>): (v: nat)
    ensures v < Pow256(|b|)
  {
    if |b| == 0 then 0 else b[0] as nat + 256 * LeValue(b[1..])
  }

  /** The `n`-byte little-endian layout of `v`. */
  function LeBytes(v: nat, n: nat): (b: seq<byte>)
    requires v < Pow256(n)
    ensures |b| == n && LeValue(b) == v
  {
    if n == 0 then []
    else
      var b := [(v % 256) as byte] + LeBytes(v / 256, n - 1);
      assert b[1..] == LeBytes(v / 256, n - 1);
      b
  }

  /** Layouts and values are in one-to-one correspondence. */
  lemma {:induction false} LeBytesOfValue(b: seq<byte>)
    ensures LeBytes(LeValue(b), |b|) == b
  {
    if |b| > 0 {
      var v := LeValue(b);
      assert v % 256 == b[0] as nat && v / 256 == LeValue(b[1..]);
      LeBytesOfValue(b[1..]);
    }
  }

  lemma LeValueInjective(a: seq<byte>, b: seq<byte>)
    requires |a| == |b| && LeValue(a) == LeValue(b)
    ensures a == b
  {
  }

  /** `i16` read little-endian, as `get_i16::<LittleEndian>` does. */
  function I16Le(b: seq<byte>): (v: int16)
    requires |b| == 2
  {
    var u := LeValue(b);
    assert Pow256(2) == 0x1_0000;
    if u < 0x8000 then u as int16 else (u - 0x1_0000) as int16
  }

  function I16ToLe(v: int16): (b: seq<byte>)
    ensures |b| == 2 && I16Le(b) == v
  {
    assert Pow256(2) == 0x1_0000;
    LeBytes(if v < 0 then v as int + 0x1_0000 else v as int, 2)
  }

  /** `i32` read little-endian, as `get_i32::<LittleEndian>` does. */
  function I32Le(b: seq<byte>): (v: int32)
    requires |b| == 4
  {
    var u := LeValue(b);
    assert Pow256(4) == 0x1_0000_0000;
    if u < 0x8000_0000 then u as int32 else (u - 0x1_0000_0000) as int32
  }

  function I32ToLe(v: int32): (b: seq<byte>)
    ensures |b| == 4 && I32Le(b) == v
  {
    assert Pow256(4) == 0x1_0000_0000;
    LeBytes(if v < 0 then v as int + 0x1_0000_0000 else v as int, 4)
  }

  /** `u64` read little-endian, as `get_u64::<LittleEndian>` does. */
  function U64Le(b: seq<byte>): (v: uint64)
    requires |b| == 8
  {
    assert Pow256(8) == 0x1_0000_0000_0000_0000;
    LeValue(b) as uint64
  }

  function U64ToLe(v: uint64): (b: seq<byte>)
    ensures |b| == 8 && U64Le(b) == v
  {
    assert Pow256(8) == 0x1_0000_0000_0000_0000;
    LeBytes(v as nat, 8)
  }

  /** Reading then writing a two-byte field gives back the bytes. */
  lemma I16LeBijective(b: seq<byte>)
    requires |b| == 2
    ensures I16ToLe(I16Le(b)) == b
  {
    LeValueInjective(I16ToLe(I16Le(b)), b);
  }

  lemma I32LeBijective(b: seq<byte>)
    requires |b| == 4
    ensures I32ToLe(I32Le(b)) == b
  {
    LeValueInjective(I32ToLe(I32Le(b)), b);
  }

  lemma U64LeBijective(b: seq<byte>)
    requires |b| == 8
    ensures U64ToLe(U64Le(b)) == b
  {
    LeValueInjective(U64ToLe(U64Le(b)), b);
  }

  /** The 32-bit value -1 is exactly the four bytes FF FF FF FF. */
  lemma MinusOneLayout(b: seq<byte>)
    requires |b| == 4
    ensures I32Le(b) == -1 <==> b == [0xFF, 0xFF, 0xFF, 0xFF]
  {
    var ones: seq<byte> := [0xFF, 0xFF, 0xFF, 0xFF];
    assert LeValue(ones) == 0xFFFF_FFFF by {
      assert ones[1..][1..][1..][1..] == [];
    }
    if I32Le(b) == -1 {
      LeValueInjective(b, ones);
    }
  }

  /** ASCII text as raw bytes, one byte per character. */
  function Ascii(t: string): (b: seq<byte>)
    requires forall i :: 0 <= i < |t| ==> t[i] as int < 0x100
    ensures |b| == |t| && forall i :: 0 <= i < |t| ==> b[i] as int == t[i] as int
  {
    seq(|t|, i requires 0 <= i < |t| => t[i] as int as byte)
  }
}
