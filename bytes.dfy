/**
 * Bytes, Java's 32-bit int, the little-endian wire encoding of integers,
 * and the ASCII case folding behind String.equalsIgnoreCase.
 */
module Bytes {

  /** One octet, as its unsigned value (Java's signed byte has the same bits). */
  newtype byte = x: int | 0 <= x < 256

  /** Java's int. */
  newtype int32 = x: int | -0x8000_0000 <= x < 0x8000_0000

  const Int32Max: int := 0x7fff_ffff
  const TwoTo32: int := 0x1_0000_0000

  /** A fresh Java byte array of length n: every element is zero. */
  function Zeros(n: nat): (z: seq<byte>)
    ensures |z| == n
    ensures forall i :: 0 <= i < n ==> z[i] == 0
  {
    seq(n, _ => 0)
  }

  lemma ZerosAppend(m: nat, n: nat)
    ensures Zeros(m) + Zeros(n) == Zeros(m + n)
  {
  }

  predicate AllZero(s: seq<byte>) { forall i :: 0 <= i < |s| ==> s[i] == 0 }

  function Pow256(n: nat): (p: nat)
    ensures p > 0
  {
    if n == 0 then 1 else 256 * Pow256(n - 1)
  }

  lemma Pow256Four()
    ensures Pow256(4) == TwoTo32
  {
    calc {
      Pow256(4);
      256 * Pow256(3);
      256 * (256 * Pow256(2));
      256 * (256 * (256 * Pow256(1)));
      256 * (256 * (256 * (256 * Pow256(0))));
    }
  }

  /** The n-byte little-endian representation of u: the low-order byte first. */
  function ToLittleEndian(u: nat, n: nat): (s: seq<byte>)
    requires u < Pow256(n)
    ensures |s| == n
    ensures n > 0 ==> s[0] as int == u % 256
  {
    if n == 0 then []
    else
      assert u / 256 < Pow256(n - 1) by { DivBound(u, Pow256(n - 1)); }
      [(u % 256) as byte] + ToLittleEndian(u / 256, n - 1)
  }

  /** The unsigned value of a little-endian byte sequence. */
  function FromLittleEndian(s: seq<byte>): (u: nat)
    ensures u < Pow256(|s|)
  {
    if s == [] then 0
    else
      var rest := FromLittleEndian(s[1..]);
      assert s[0] as int + 256 * rest < 256 * Pow256(|s| - 1) by {
        assert rest + 1 <= Pow256(|s| - 1);
        MulMono(rest + 1, Pow256(|s| - 1));
      }
      s[0] as int + 256 * rest
  }

  lemma DivBound(u: nat, p: nat)
    requires u < 256 * p
    ensures u / 256 < p
  {
  }

  lemma MulMono(a: nat, b: nat)
    requires a <= b
    ensures 256 * a <= 256 * b
  {
  }

  /** Decoding the encoding of u gives back u. */
  lemma {:induction false} FromToLittleEndian(u: nat, n: nat)
    requires u < Pow256(n)
    ensures FromLittleEndian(ToLittleEndian(u, n)) == u
  {
    if n > 0 {
      var s := ToLittleEndian(u, n);
      assert s[1..] == ToLittleEndian(u / 256, n - 1);
      FromToLittleEndian(u / 256, n - 1);
    }
  }

  /** Encoding the decoded value of s, at the width of s, gives back s. */
  lemma {:induction false} ToFromLittleEndian(s: seq<byte>)
    ensures ToLittleEndian(FromLittleEndian(s), |s|) == s
  {
    if s != [] {
      var u := FromLittleEndian(s);
      var rest := FromLittleEndian(s[1..]);
      assert u == s[0] as int + 256 * rest;
      assert u % 256 == s[0] as int && u / 256 == rest;
      ToFromLittleEndian(s[1..]);
    }
  }

  /** The two's-complement bit pattern of a 32-bit int, read as unsigned. */
  function ToUnsigned(i: int32): (u: nat)
    ensures u < TwoTo32
    ensures i >= 0 ==> u == i as int
    ensures i < 0 ==> u == i as int + TwoTo32
  {
    if i < 0 then i as int + TwoTo32 else i as int
  }

  /** The 32-bit int whose bit pattern is the unsigned u. */
  function ToSigned(u: nat): (i: int32)
    requires u < TwoTo32
    ensures ToUnsigned(i) == u
  {
    if u <= Int32Max then u as int32 else (u - TwoTo32) as int32
  }

  lemma SignedUnsigned(i: int32)
    ensures ToSigned(ToUnsigned(i)) == i
  {
  }

  // ASCII case folding. Java's equalsIgnoreCase folds every Unicode letter;
  // the modelled strings are byte sequences, so only A-Z fold here.

  function LowerByte(b: byte): byte { if 65 <= b <= 90 then b + 32 else b }

  /** String.equalsIgnoreCase on byte strings. */
  predicate EqualsIgnoreCaseBytes(a: seq<byte>, b: seq<byte>)
  {
    |a| == |b| && forall i :: 0 <= i < |a| ==> LowerByte(a[i]) == LowerByte(b[i])
  }

  function LowerChar(c: char): char { if 'A' <= c <= 'Z' then (c as int + 32) as char else c }

  /** String.equalsIgnoreCase on JSON strings. */
  predicate EqualsIgnoreCase(a: string, b: string)
  {
    |a| == |b| && forall i :: 0 <= i < |a| ==> LowerChar(a[i]) == LowerChar(b[i])
  }

  /** The clients' copy loops: src written into dst from offset off, the rest of dst untouched. */
  method CopyInto(dst: array<byte>, off: nat, src: seq<byte>)
    requires off + |src| <= dst.Length
    modifies dst
    ensures dst[..] == old(dst[..off]) + src + old(dst[off + |src|..])
  {
    for i := 0 to |src|
      invariant forall j :: 0 <= j < off ==> dst[j] == old(dst[j])
      invariant forall j :: 0 <= j < i ==> dst[off + j] == src[j]
      invariant forall j :: off + i <= j < dst.Length ==> dst[j] == old(dst[j])
    {
      dst[off + i] := src[i];
    }
    assert dst[..] == old(dst[..off]) + src + old(dst[off + |src|..]) by {
      forall j | 0 <= j < dst.Length
        ensures dst[..][j] == (old(dst[..off]) + src + old(dst[off + |src|..]))[j]
      {
        if j >= off + |src| {
          assert old(dst[off + |src|..])[j - off - |src|] == old(dst[j]);
        }
      }
    }
  }
}
