/** The encoder path of `main` in src/main.rs from a 32-byte digest to the
    24-word phrase: the checksum buffer, the extraction loop and the lookup
    loop, and what the encoding preserves. The digest stands for the double
    SHA-256 of the phrase or file; `None` stands for the branches of the
    command `match` that print a usage error or the help text (lines 80-83,
    130-147) and leave `hashcheck` all zero. A run without arguments (lines
    221-224) never reaches the encoder. */
module SeedPhrase {
  import opened LittleEndian
  import opened ChecksumBuffer
  import opened ChunkExtraction
  import opened WordLookup

  datatype Option<T> = None | Some(value: T)

  /** The 24 seed values the program derives from digest `d`. */
  function SeedValues(d: seq<Byte>): (vs: seq<nat>)
    requires |d| == DigestLength
    ensures |vs| == SeedCount
  {
    Chunks(Assemble(d))
  }

  /** The digest read back from 24 seed values: recompose the buffer, keep its
      first 32 bytes and undo the reversal. */
  function RecoverDigest(vs: seq<nat>): (d: seq<Byte>)
    ensures |d| == DigestLength
  {
    Reverse(Decode(vs)[..DigestLength])
  }

  /** Round trip: the seed values carry the whole digest. */
  lemma RecoverDigestRoundTrip(d: seq<Byte>)
    requires |d| == DigestLength
    ensures RecoverDigest(SeedValues(d)) == d
  {
    AssembleAt(d);
    DecodeChunks(Assemble(d));
    assert Assemble(d)[..DigestLength] == Reverse(d);
    ReverseReverse(d);
  }

  /** The checksum byte carried by the seed values is the copy of buffer byte 0. */
  lemma RecoveredChecksum(d: seq<Byte>)
    requires |d| == DigestLength
    ensures Decode(SeedValues(d))[32] == Decode(SeedValues(d))[0] == d[31]
  {
    AssembleAt(d);
    DecodeChunks(Assemble(d));
  }

  /** Every seed value lies in [0, 2047]. */
  lemma SeedValuesInRange(d: seq<Byte>)
    requires |d| == DigestLength
    ensures forall k :: 0 <= k < SeedCount ==> SeedValues(d)[k] <= Mask
  {
  }

  /** The all-zero digest gives the all-zero buffer, so seed value 0 is 0 and
      its one-based lookup underflows. */
  lemma ZeroDigestHasZeroSeed(d: seq<Byte>)
    requires |d| == DigestLength && forall i :: 0 <= i < |d| ==> d[i] == 0
    ensures SeedValues(d)[0] == 0
    ensures forall words: seq<string> :: WordFor(words, SeedValues(d)[0]) == Err(IndexUnderflow)
  {
    AssembleAt(d);
    ZeroBufferChunks(Assemble(d));
  }

  /** Lines 33-35 and 64-216: the buffer starts all zero and is filled only
      when a digest was computed; the extraction and lookup loops run either
      way. Lookup fails exactly when some seed value is 0, at the first such
      value, and on a usage error or `--help` it fails at position 0. */
  method Encode(digest: Option<seq<Byte>>, words: seq<string>)
    returns (r: Result<seq<string>, PhraseError>)
    requires digest.Some? ==> |digest.value| == DigestLength
    requires |words| == WordCount
    ensures digest.Some? ==>
      (r.Ok? <==> forall k :: 0 <= k < SeedCount ==> SeedValues(digest.value)[k] != 0)
    ensures digest.Some? && r.Ok? ==>
      |r.value| == SeedCount &&
      forall k :: 0 <= k < SeedCount ==> r.value[k] == words[SeedValues(digest.value)[k] - 1]
    ensures digest.Some? && r.Err? ==>
      r.error.position < SeedCount && r.error.failure == IndexUnderflow &&
      SeedValues(digest.value)[r.error.position] == 0 &&
      forall k :: 0 <= k < r.error.position ==> SeedValues(digest.value)[k] != 0
    ensures digest.None? ==> r == Err(PhraseError(0, 0, IndexUnderflow))
  {
    var hashcheck := new Byte[BufferLength](_ => 0);
    var seedvalues := new U32[SeedCount](_ => 0);
    if digest.Some? {
      FillChecksumBuffer(digest.value, hashcheck);
    } else {
      ZeroBufferChunks(hashcheck[..]);
    }
    ExtractSeedValues(hashcheck, seedvalues);
    assert digest.Some? ==> seedvalues[..] == SeedValues(digest.value);
    assert digest.None? ==> seedvalues[0] == 0;
    r := LookupPhrase(words, seedvalues);
    forall k | 0 <= k < SeedCount
      ensures 1 <= seedvalues[k] <= |words| <==> seedvalues[k] != 0
    {
    }
    if digest.None? {
      assert r.Err? && r.error.position == 0;
    }
  }

  /** The phrase the zero-based lookup gives: one word for every seed value. */
  function CorrectedPhrase(words: seq<string>, d: seq<Byte>): (ws: seq<string>)
    requires |words| == WordCount && |d| == DigestLength
  {
    seq(SeedCount, k requires 0 <= k < SeedCount => words[SeedValues(d)[k]])
  }

  /** With the zero-based lookup every digest has a phrase, and on a list of
      distinct words the phrase determines the digest. */
  lemma CorrectedPhraseDeterminesDigest(words: seq<string>, d: seq<Byte>, e: seq<Byte>)
    requires |words| == WordCount && |d| == DigestLength && |e| == DigestLength
    requires forall i, j :: 0 <= i < j < |words| ==> words[i] != words[j]
    ensures |CorrectedPhrase(words, d)| == SeedCount
    ensures forall k :: 0 <= k < SeedCount ==> WordForZeroBased(words, SeedValues(d)[k]).Ok?
    ensures CorrectedPhrase(words, d) == CorrectedPhrase(words, e) ==> d == e
  {
    if CorrectedPhrase(words, d) == CorrectedPhrase(words, e) {
      forall k | 0 <= k < SeedCount
        ensures SeedValues(d)[k] == SeedValues(e)[k]
      {
        var v, w := SeedValues(d)[k], SeedValues(e)[k];
        assert CorrectedPhrase(words, d)[k] == words[v];
        assert CorrectedPhrase(words, e)[k] == words[w];
        ZeroBasedLookupTotal(words, v, w);
      }
      assert SeedValues(d) == SeedValues(e);
      RecoverDigestRoundTrip(d);
      RecoverDigestRoundTrip(e);
    }
  }
}
