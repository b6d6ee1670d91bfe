/** The 33-byte checksum buffer `hashcheck` of src/main.rs: the 32 digest
    bytes in reverse order, followed by a copy of the digest's last byte. */
module ChecksumBuffer {
  import opened LittleEndian

  const DigestLength: nat := 32
  const BufferLength: nat := 33

  /** Reversal of a byte string, stated recursively and independently of the
      index arithmetic of the fill loop. */
  function Reverse(s: seq<Byte>): (r: seq<Byte>)
    ensures |r| == |s|
  {
    if s == [] then [] else Reverse(s[1..]) + [s[0]]
  }

  lemma {:induction false} ReverseAt(s: seq<Byte>, i: nat)
    requires i < |s|
    ensures Reverse(s)[i] == s[|s| - 1 - i]
  {
    if i < |s| - 1 {
      ReverseAt(s[1..], i);
    }
  }

  lemma ReverseReverse(s: seq<Byte>)
    ensures Reverse(Reverse(s)) == s
  {
    forall i | 0 <= i < |s|
      ensures Reverse(Reverse(s))[i] == s[i]
    {
      ReverseAt(Reverse(s), i);
      ReverseAt(s, |s| - 1 - i);
    }
  }

  /** The buffer built from digest `d`: `d` reversed, then `d[31]` once more. */
  function Assemble(d: seq<Byte>): seq<Byte>
    requires |d| == DigestLength
  {
    Reverse(d) + [d[31]]
  }

  /** Byte `i < 32` of the buffer is digest byte `31 - i`; byte 32 repeats the
      digest's last byte, which is also buffer byte 0. */
  lemma AssembleAt(d: seq<Byte>)
    requires |d| == DigestLength
    ensures |Assemble(d)| == BufferLength
    ensures forall i :: 0 <= i < 32 ==> Assemble(d)[i] == d[31 - i]
    ensures Assemble(d)[32] == d[31] && Assemble(d)[32] == Assemble(d)[0]
  {
    forall i | 0 <= i < 32
      ensures Assemble(d)[i] == d[31 - i]
    {
      ReverseAt(d, i);
    }
  }

  /** Lines 64-75 (and their copy at 114-125): byte 32 and byte 31 are set
      first, then a loop counts `hascnt` up from 0 and `entrcnt` down from 31,
      copying `entropy[entrcnt]` to `hashcheck[hascnt]` until `entrcnt` is 0. */
  method FillChecksumBuffer(entropy: seq<Byte>, hashcheck: array<Byte>)
    requires |entropy| == DigestLength && hashcheck.Length == BufferLength
    modifies hashcheck
    ensures forall i :: 0 <= i < 32 ==> hashcheck[i] == entropy[31 - i]
    ensures hashcheck[32] == entropy[31]
    ensures hashcheck[..] == Assemble(entropy)
  {
    hashcheck[32] := entropy[31];
    var hascnt: nat := 0;
    var entrcnt: nat := 31;
    hashcheck[31] := entropy[0];
    while entrcnt != 0
      invariant entrcnt <= 31 && hascnt == 31 - entrcnt
      invariant forall i :: 0 <= i < hascnt ==> hashcheck[i] == entropy[31 - i]
      invariant hashcheck[31] == entropy[0] && hashcheck[32] == entropy[31]
    {
      hashcheck[hascnt] := entropy[entrcnt];
      hascnt := hascnt + 1;
      entrcnt := entrcnt - 1;
    }
    AssembleAt(entropy);
  }
}
