/** The extraction loop of src/main.rs (lines 152-205): the 33-byte buffer is
    read as a 264-bit little-endian number and cut into twenty-four 11-bit
    seed values, least significant group first. */
module ChunkExtraction {
  import opened Arith
  import opened LittleEndian
  import opened ChecksumBuffer

  const SeedCount: nat := 24
  /** The 11-bit mask `mask: u32 = 2047` of line 156. */
  const Mask: nat := 2047

  function Min(a: nat, b: nat): nat { if a <= b then a else b }

  /** Rust's `x << n` on `u32`: bits pushed past bit 31 are lost; when the
      product still fits, nothing is lost. */
  function Shl(x: U32, n: nat): (r: U32)
    ensures x * Pow2(n) < 0x1_0000_0000 ==> r == x * Pow2(n)
  {
    (x * Pow2(n)) % 0x1_0000_0000
  }

  /** Rust's `x >> n` on `u32`: the quotient by `2^n`, never above `x`. */
  function Shr(x: U32, n: nat): (r: U32)
    ensures r <= x
    ensures r * Pow2(n) <= x < (r + 1) * Pow2(n)
  {
    DivAtMost(x, Pow2(n));
    x / Pow2(n)
  }

  /** `x & 2047`: keep the 11 low bits, which leaves an 11-bit value as it is. */
  function And2047(x: U32): (r: U32)
    ensures r <= Mask
    ensures x - r == 2048 * (x / 2048)
    ensures x <= Mask ==> r == x
  {
    x % 2048
  }

  /** `(x >> 11k) & 0x7FF`: base-2048 digit `k` of `x`. */
  function Group(x: nat, k: nat): nat
  {
    (x / Pow2(11 * k)) % 2048
  }

  /** Seed value `k`: bits `11k .. 11k+10` of the buffer. */
  function Chunk(b: seq<Byte>, k: nat): nat
  {
    Group(LE(b), k)
  }

  /** The 24 seed values of buffer `b`, in the order they are written. */
  function Chunks(b: seq<Byte>): (vs: seq<nat>)
    ensures |vs| == SeedCount
  {
    seq(SeedCount, k requires 0 <= k < SeedCount => Chunk(b, k))
  }

  /** `Σ vs[k] * 2^(11k)`: the number whose base-2048 digits are `vs`. */
  function Recompose(vs: seq<nat>): nat
  {
    if vs == [] then 0 else Recompose(vs[..|vs| - 1]) + vs[|vs| - 1] * Pow2(11 * (|vs| - 1))
  }

  /** The 33 bytes whose little-endian value is the recomposed number. */
  function Decode(vs: seq<nat>): (b: seq<Byte>)
    ensures |b| == BufferLength
  {
    BytesOf(Recompose(vs), BufferLength)
  }

  /** One step of a shift chain: a value below 2^24 loses nothing to `<< 8`. */
  lemma ShlNoWrap(x: U32)
    requires x < 0x100_0000
    ensures Shl(x, 8) == 256 * x
  {
    assert Pow2(8) == 256;
    DivModUnique(x * 256, 0x1_0000_0000, 0, x * 256);
  }

  /** Up to four bytes, read the way lines 164-176 read them. */
  lemma LEUpToFour(s: seq<Byte>)
    requires 1 <= |s| <= 4
    ensures LE(s) == (s[0] as int)
      + 0x100 * (if 1 < |s| then s[1] as int else 0)
      + 0x1_0000 * (if 2 < |s| then s[2] as int else 0)
      + 0x100_0000 * (if 3 < |s| then s[3] as int else 0)
  {
    assert LE(s) == s[0] + 256 * LE(s[1..]);
    if |s| == 1 {
      assert s[1..] == [];
    } else {
      assert LE(s[1..]) == s[1] + 256 * LE(s[2..]);
      if |s| == 2 {
        assert s[2..] == [];
      } else {
        assert LE(s[2..]) == s[2] + 256 * LE(s[3..]);
        if |s| == 3 {
          assert s[3..] == [];
        } else {
          assert LE(s[3..]) == s[3] + 256 * LE(s[4..]);
          assert s[4..] == [];
        }
      }
    }
  }

  /** Lines 164-176: the 32-bit word of the (up to) four bytes at `bytecnt`,
      byte `bytecnt` lowest. Each `else { seedval = 0 }` only runs when every
      higher byte's guard has failed too, so it adds a zero byte: the result is
      the little-endian value of the bytes that exist. */
  method AssembleWord(hashcheck: array<Byte>, bytecnt: nat) returns (seedval: U32)
    requires hashcheck.Length == BufferLength && bytecnt < BufferLength
    ensures seedval == LE(hashcheck[bytecnt .. Min(bytecnt + 4, BufferLength)])
  {
    if bytecnt + 3 < 33 { seedval := hashcheck[bytecnt + 3]; } else { seedval := 0; }
    ShlNoWrap(seedval);
    seedval := Shl(seedval, 8);
    if bytecnt + 2 < 33 { seedval := seedval + hashcheck[bytecnt + 2]; } else { seedval := 0; }
    ShlNoWrap(seedval);
    seedval := Shl(seedval, 8);
    if bytecnt + 1 < 33 { seedval := seedval + hashcheck[bytecnt + 1]; } else { seedval := 0; }
    ShlNoWrap(seedval);
    seedval := Shl(seedval, 8);
    seedval := seedval + hashcheck[bytecnt];
    LEUpToFour(hashcheck[bytecnt .. Min(bytecnt + 4, BufferLength)]);
  }

  /** Bytes above bit `m` of a number do not reach the 11 bits taken at
      shift `s` when `s + 11 <= m`. */
  lemma DropHigh(w: nat, r: nat, s: nat, m: nat)
    requires s + 11 <= m
    ensures ((w + Pow2(m) * r) / Pow2(s)) % 2048 == (w / Pow2(s)) % 2048
  {
    var p, a := Pow2(s), Pow2(m - s - 11);
    var hi := a * r;
    HighPart(s, m, r);
    assert Pow2(m) * r == p * (2048 * hi);
    DivAddMultiple(w, 2048 * hi, p);
    DivAddMultiple(w / p, hi, 2048);
  }

  lemma HighPart(s: nat, m: nat, r: nat)
    requires s + 11 <= m
    ensures Pow2(m) * r == Pow2(s) * (2048 * (Pow2(m - s - 11) * r))
  {
    var p, a := Pow2(s), Pow2(m - s - 11);
    Pow2Add(s, m - s);
    Pow2Add(11, m - s - 11);
    assert Pow2(11) == 2048;
    assert Pow2(m) == p * (2048 * a);
    MulAssociates(p, 2048 * a, r);
    MulAssociates(2048, a, r);
  }

  /** Skipping whole bytes: shifting by `8o + s` bits is dropping `o` bytes
      and shifting the rest by `s`. */
  lemma ShiftToOffset(b: seq<Byte>, o: nat, s: nat)
    requires o <= |b|
    ensures LE(b) / Pow2(8 * o + s) == LE(b[o..]) / Pow2(s)
  {
    Pow2Add(8 * o, s);
    DivModNested(LE(b), Pow2(8 * o), Pow2(s));
    LEShift(b, o);
  }

  /** The 11 bits at shift `s < 8` of the bytes from `o` on only depend on the
      (up to) four bytes at `o`. */
  lemma WindowSuffices(b: seq<Byte>, o: nat, s: nat)
    requires o < |b| && s < 8
    ensures (LE(b[o..]) / Pow2(s)) % 2048 == (LE(b[o .. Min(o + 4, |b|)]) / Pow2(s)) % 2048
  {
    var e := Min(o + 4, |b|);
    var t, w, r := b[o..], LE(b[o..e]), LE(b[e..]);
    assert LE(t) == w + Pow2(8 * (e - o)) * r by {
      LESplit(t, e - o);
      assert t[..e - o] == b[o..e];
      assert t[e - o..] == b[e..];
    }
    if e == |b| {
      assert b[e..] == [];
    } else {
      DropHigh(w, r, s, 8 * (e - o));
    }
  }

  /** One pass of the loop computes seed value `k`: at bit count
      `11k` the byte offset is `11k / 8` (never beyond byte 31), the shift is
      `11k % 8`, and the shifted, masked window is group `k` of the buffer. */
  lemma ChunkFromWindow(b: seq<Byte>, k: nat)
    requires |b| == BufferLength && k < SeedCount
    ensures (11 * k) / 8 <= 31 && (11 * k) % 8 < 8
    ensures (LE(b[(11 * k) / 8 .. Min((11 * k) / 8 + 4, BufferLength)]) / Pow2((11 * k) % 8)) % 2048
            == Chunk(b, k)
  {
    var o, s := (11 * k) / 8, (11 * k) % 8;
    assert 11 * k == 8 * o + s;
    ShiftToOffset(b, o, s);
    WindowSuffices(b, o, s);
  }

  /** Lines 152-205: 24 passes, each storing one 11-bit value at `seedcnt` and
      advancing the bit count by 11. The floating-point `trunc(bitcnt / 8)`
      of lines 195-196 is the integer quotient. */
  method ExtractSeedValues(hashcheck: array<Byte>, seedvalues: array<U32>)
    requires hashcheck.Length == BufferLength && seedvalues.Length == SeedCount
    modifies seedvalues
    ensures seedvalues[..] == Chunks(hashcheck[..])
    ensures forall k :: 0 <= k < SeedCount ==> seedvalues[k] <= Mask
  {
    var bytecnt: nat := 0;
    var bitcnt: nat := 0;
    var bitshift: nat := 0;
    var seedval: U32 := 0;
    var seedcnt: nat := 0;
    while seedcnt < 24
      invariant seedcnt <= 24
      invariant bitcnt == 11 * seedcnt && bytecnt == bitcnt / 8 && bitshift == bitcnt % 8
      invariant forall k :: 0 <= k < seedcnt ==> seedvalues[k] == Chunk(hashcheck[..], k)
    {
      ChunkFromWindow(hashcheck[..], seedcnt);
      seedval := AssembleWord(hashcheck, bytecnt);
      seedval := Shr(seedval, bitshift);
      seedval := And2047(seedval);
      seedvalues[seedcnt] := seedval;
      seedval := 0;
      seedcnt := seedcnt + 1;
      bitcnt := bitcnt + 11;
      bytecnt := bitcnt / 8;
      bitshift := bitcnt - bytecnt * 8;
    }
  }

  /** The digits of `x` recompose to `x` modulo `2^(11n)`. */
  lemma {:induction false} RecomposeGroups(x: nat, n: nat)
    ensures Recompose(seq(n, k requires 0 <= k < n => Group(x, k))) == x % Pow2(11 * n)
  {
    var vs := seq(n, k requires 0 <= k < n => Group(x, k));
    if n == 0 {
      DivModUnique(x, 1, x, 0);
    } else {
      var prev := seq(n - 1, k requires 0 <= k < n - 1 => Group(x, k));
      assert vs[..n - 1] == prev;
      RecomposeLast(vs, prev, Group(x, n - 1));
      RecomposeGroups(x, n - 1);
      NextGroup(x, n - 1);
    }
  }

  /** Appending a last digit adds it at weight `2^(11(n-1))`. */
  lemma RecomposeLast(vs: seq<nat>, prev: seq<nat>, g: nat)
    requires |vs| >= 1 && vs[..|vs| - 1] == prev && vs[|vs| - 1] == g
    ensures Recompose(vs) == Recompose(prev) + g * Pow2(11 * |prev|)
  {
  }

  /** The remainder modulo `2^(11(n+1))` adds group `n` above the remainder
      modulo `2^(11n)`. */
  lemma NextGroup(x: nat, n: nat)
    ensures x % Pow2(11 * (n + 1)) == x % Pow2(11 * n) + Group(x, n) * Pow2(11 * n)
  {
    var p := Pow2(11 * n);
    assert Pow2(11 * (n + 1)) == p * 2048 by {
      Pow2Add(11 * n, 11);
      assert Pow2(11) == 2048;
    }
    DivModNested(x, p, 2048);
  }

  /** The 24 seed values re-encode all 264 bits: `Σ seed[k] * 2^(11k) == LE(b)`. */
  lemma ChunksRecompose(b: seq<Byte>)
    requires |b| == BufferLength
    ensures Recompose(Chunks(b)) == LE(b)
  {
    assert Chunks(b) == seq(SeedCount, k requires 0 <= k < SeedCount => Group(LE(b), k));
    RecomposeGroups(LE(b), SeedCount);
    LEBound(b);
    DivModUnique(LE(b), Pow2(264), 0, LE(b));
  }

  /** Round trip: the seed values determine the buffer they came from. */
  lemma DecodeChunks(b: seq<Byte>)
    requires |b| == BufferLength
    ensures Decode(Chunks(b)) == b
  {
    ChunksRecompose(b);
    BytesOfLE(b);
  }

  /** A buffer of zero bytes (the array's initial state) yields 24 zeros. */
  lemma ZeroBufferChunks(b: seq<Byte>)
    requires |b| == BufferLength
    requires forall i :: 0 <= i < |b| ==> b[i] == 0
    ensures forall k :: 0 <= k < SeedCount ==> Chunks(b)[k] == 0
  {
    LEZeros(b);
  }

  /** A buffer of 0xFF bytes saturates the mask: every seed value is 2047. */
  lemma AllOnesBufferChunks(b: seq<Byte>)
    requires |b| == BufferLength
    requires forall i :: 0 <= i < |b| ==> b[i] == 0xFF
    ensures forall k :: 0 <= k < SeedCount ==> Chunks(b)[k] == Mask
  {
    LEAllOnes(b);
    assert 8 * |b| == 11 * SeedCount;
    forall k | 0 <= k < SeedCount
      ensures Chunk(b, k) == Mask
    {
      AllOnesGroup(SeedCount, k);
    }
  }

  /** Every 11-bit group of `2^(11n) - 1` below group `n` is all ones. */
  lemma AllOnesGroup(n: nat, k: nat)
    requires k < n
    ensures Group(Pow2(11 * n) - 1, k) == Mask
  {
    var p, q, q' := Pow2(11 * k), Pow2(11 * (n - k)), Pow2(11 * (n - k - 1));
    assert Pow2(11 * n) == p * q by {
      Pow2Add(11 * k, 11 * (n - k));
    }
    assert (Pow2(11 * n) - 1) / p == q - 1 by {
      PredecessorDiv(Pow2(11 * n), p, q);
    }
    assert q == 2048 * q' by {
      Pow2Add(11, 11 * (n - k - 1));
      assert Pow2(11) == 2048;
    }
    assert (q - 1) % 2048 == 2047 by {
      PredecessorDiv(q, 2048, q');
    }
  }

  /** One less than a multiple `x == p * q`: quotient `q - 1`, remainder `p - 1`. */
  lemma PredecessorDiv(x: int, p: nat, q: nat)
    requires p >= 1 && q >= 1 && x == p * q
    ensures (x - 1) / p == q - 1 && (x - 1) % p == p - 1
  {
    MulDistributes(p, q - 1, 1);
    DivModUnique(x - 1, p, q - 1, p - 1);
  }
}
