/**
 * Binary ORB descriptors and their Hamming distance.
 *
 * ORB produces, per keypoint, a row of 32 bytes; a descriptor set is the
 * matrix of those rows (possibly with no rows at all, when no keypoint was
 * found). The matcher compares rows with the Hamming norm: the number of
 * bit positions in which two rows differ.
 */
module Descriptors {

  /** Bytes per ORB descriptor row. */
  const RowBytes: nat := 32

  /** One descriptor row: exactly `RowBytes` bytes. */
  type Descriptor = s: seq<bv8> | |s| == RowBytes witness seq(32, _ => 0 as bv8)

  /** The descriptor matrix of one image, one row per keypoint. */
  type DescriptorSet = seq<Descriptor>

  /** numpy's `.size` of the descriptor matrix: the number of byte elements. */
  function Size(ds: DescriptorSet): (n: nat)
    ensures n == 0 <==> ds == []
    ensures n % RowBytes == 0
  {
    |ds| * RowBytes
  }

  /** 1 if bit `i` of `b` is set, else 0. */
  function Bit(b: bv8, i: bv8): nat
    requires i < 8
  {
    if (b >> i) & 1 == 1 then 1 else 0
  }

  /** Number of set bits of one byte. */
  function PopCount(b: bv8): (n: nat)
    ensures n <= 8
    ensures n == 0 <==> b == 0
  {
    Bit(b, 0) + Bit(b, 1) + Bit(b, 2) + Bit(b, 3) + Bit(b, 4) + Bit(b, 5) + Bit(b, 6) + Bit(b, 7)
  }

  /** Hamming distance of two equally long byte strings: popcount of their XOR. */
  function Hamming(a: seq<bv8>, b: seq<bv8>): (d: nat)
    requires |a| == |b|
    ensures d <= 8 * |a|
  {
    if a == [] then 0 else PopCount(a[0] ^ b[0]) + Hamming(a[1..], b[1..])
  }

  /** The distance the matcher uses between two descriptor rows. */
  function Distance(a: Descriptor, b: Descriptor): (d: nat)
    ensures d <= 8 * RowBytes
  {
    Hamming(a, b)
  }

  /** Distance zero means identical rows, and only identical rows. */
  lemma {:induction false} HammingZeroIff(a: seq<bv8>, b: seq<bv8>)
    requires |a| == |b|
    ensures Hamming(a, b) == 0 <==> a == b
  {
    if a != [] {
      HammingZeroIff(a[1..], b[1..]);
      if a[0] == b[0] && a[1..] == b[1..] {
        assert a == [a[0]] + a[1..] && b == [b[0]] + b[1..];
      }
    }
  }

  /** The Hamming norm is symmetric. */
  lemma {:induction false} HammingSymmetric(a: seq<bv8>, b: seq<bv8>)
    requires |a| == |b|
    ensures Hamming(a, b) == Hamming(b, a)
  {
    if a != [] {
      HammingSymmetric(a[1..], b[1..]);
      assert a[0] ^ b[0] == b[0] ^ a[0];
    }
  }
}
