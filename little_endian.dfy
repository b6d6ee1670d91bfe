/** Bytes, 32-bit words and the little-endian reading of a byte string: the
    number whose base-256 digits, least significant first, are the bytes. */
module LittleEndian {
  import opened Arith

  type Byte = x: int | 0 <= x < 256

  /** Rust's `u32`: every value the extraction loop keeps in `seedval`. */
  type U32 = x: int | 0 <= x < 0x1_0000_0000

  /** The little-endian integer of `b`: byte 0 is the least significant. */
  function LE(b: seq<Byte>): nat
  {
    if b == [] then 0 else b[0] + 256 * LE(b[1..])
  }

  /** `n` bytes of `x`, least significant first (the inverse of `LE`). */
  function BytesOf(x: nat, n: nat): (b: seq<Byte>)
    ensures |b| == n
  {
    if n == 0 then [] else [x % 256] + BytesOf(x / 256, n - 1)
  }

  lemma {:induction false} LEBound(b: seq<Byte>)
    ensures LE(b) < Pow2(8 * |b|)
  {
    if b != [] {
      LEBound(b[1..]);
      Pow2Add(8, 8 * (|b| - 1));
      assert Pow2(8) == 256;
    }
  }

  /** Cutting `b` at `i`: the prefix gives the low digits, the suffix the high ones. */
  lemma {:induction false} LESplit(b: seq<Byte>, i: nat)
    requires i <= |b|
    ensures LE(b) == LE(b[..i]) + Pow2(8 * i) * LE(b[i..])
  {
    if i > 0 {
      var p, a, c := Pow2(8 * (i - 1)), LE(b[..i][1..]), LE(b[i..]);
      assert LE(b[1..]) == a + p * c by {
        LESplit(b[1..], i - 1);
        assert b[1..][..i - 1] == b[..i][1..];
        assert b[1..][i - 1..] == b[i..];
      }
      assert Pow2(8 * i) == 256 * p by {
        Pow2Add(8, 8 * (i - 1));
        assert Pow2(8) == 256;
      }
      assert LE(b[..i]) == b[0] + 256 * a by {
        assert b[..i][0] == b[0];
      }
      Recombine(LE(b), LE(b[..i]), b[0], a, p, c, Pow2(8 * i), LE(b[1..]));
    } else {
      assert b[..0] == [] && b[0..] == b;
    }
  }

  /** The arithmetic step of `LESplit`, on plain names. */
  lemma Recombine(x: int, l: int, b0: int, a: int, p: int, c: int, q: int, t: int)
    requires x == b0 + 256 * t && t == a + p * c && l == b0 + 256 * a && q == 256 * p
    ensures x == l + q * c
  {
    MulAssociates(256, p, c);
  }

  /** Dropping the `i` low bytes is dividing by `2^(8i)`. */
  lemma LEShift(b: seq<Byte>, i: nat)
    requires i <= |b|
    ensures LE(b) / Pow2(8 * i) == LE(b[i..])
  {
    LESplit(b, i);
    LEBound(b[..i]);
    DivModUnique(LE(b), Pow2(8 * i), LE(b[i..]), LE(b[..i]));
  }

  /** Reading bytes back from their little-endian integer recovers them. */
  lemma {:induction false} BytesOfLE(b: seq<Byte>)
    ensures BytesOf(LE(b), |b|) == b
  {
    if b != [] {
      DivAddMultiple(b[0], LE(b[1..]), 256);
      BytesOfLE(b[1..]);
    }
  }

  /** A string of zero bytes reads as 0. */
  lemma {:induction false} LEZeros(b: seq<Byte>)
    requires forall i :: 0 <= i < |b| ==> b[i] == 0
    ensures LE(b) == 0
  {
    if b != [] {
      LEZeros(b[1..]);
    }
  }

  /** A string of 0xFF bytes reads as the largest value that fits. */
  lemma {:induction false} LEAllOnes(b: seq<Byte>)
    requires forall i :: 0 <= i < |b| ==> b[i] == 0xFF
    ensures LE(b) == Pow2(8 * |b|) - 1
  {
    if b != [] {
      LEAllOnes(b[1..]);
      Pow2Add(8, 8 * (|b| - 1));
      assert Pow2(8) == 256;
    }
  }
}
