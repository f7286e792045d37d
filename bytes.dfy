/** Bytes, zero padding and the little-endian 32-bit integer layout used by
    Python's struct module with the '<' (little-endian, no alignment) prefix. */
module Bytes {

  newtype byte = x: int | 0 <= x < 256

  const U32Limit: nat := 0x1_0000_0000

  /** n zero bytes. */
  function Zeros(n: nat): (r: seq<byte>)
    ensures |r| == n
    ensures forall i :: 0 <= i < n ==> r[i] == 0
  {
    seq(n, _ => 0)
  }

  /** How struct.pack writes a byte string into an 's' slot of width n:
      a longer value is truncated, a shorter one is padded with zero bytes. */
  function Fit(s: seq<byte>, n: nat): (r: seq<byte>)
    ensures |r| == n
    ensures forall i :: 0 <= i < n && i < |s| ==> r[i] == s[i]
    ensures forall i :: |s| <= i < n ==> r[i] == 0
  {
    if |s| >= n then s[..n] else s + Zeros(n - |s|)
  }

  /** A value that already has the slot's width is written unchanged. */
  lemma FitExact(s: seq<byte>)
    ensures Fit(s, |s|) == s
  {
  }

  /** The 'I' code with '<': four bytes, least significant first. */
  function EncodeU32(x: nat): (r: seq<byte>)
    requires x < U32Limit
    ensures |r| == 4
  {
    [(x % 256) as byte, ((x / 256) % 256) as byte,
     ((x / 65536) % 256) as byte, ((x / 16777216) % 256) as byte]
  }

  /** The 'I' code read back from four bytes. */
  function DecodeU32(b: seq<byte>): (x: nat)
    requires |b| == 4
    ensures x < U32Limit
  {
    b[0] as nat + 256 * b[1] as nat + 65536 * b[2] as nat + 16777216 * b[3] as nat
  }

  lemma DecodeEncodeU32(x: nat)
    requires x < U32Limit
    ensures DecodeU32(EncodeU32(x)) == x
  {
    var b := EncodeU32(x);
    var q1 := x / 256;
    var q2 := q1 / 256;
    var q3 := q2 / 256;
    assert x == x % 256 + 256 * q1;
    assert q1 == q1 % 256 + 256 * q2;
    assert q2 == q2 % 256 + 256 * q3;
    assert q3 < 256;
    assert x / 65536 == q2;
    assert x / 16777216 == q3;
  }

  lemma EncodeDecodeU32(b: seq<byte>)
    requires |b| == 4
    ensures EncodeU32(DecodeU32(b)) == b
  {
    var x := DecodeU32(b);
    var b0, b1, b2, b3 := b[0] as nat, b[1] as nat, b[2] as nat, b[3] as nat;
    var t1 := b1 + 256 * b2 + 65536 * b3;
    var t2 := b2 + 256 * b3;
    assert x == b0 + 256 * t1;
    assert x / 256 == t1;
    assert t1 == b1 + 256 * t2;
    assert t1 / 256 == t2;
    assert x / 65536 == t2 by {
      assert x == b0 + 256 * b1 + 65536 * t2;
    }
    assert x / 16777216 == b3 by {
      assert x == b0 + 256 * b1 + 65536 * b2 + 16777216 * b3;
    }
  }
}
