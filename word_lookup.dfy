/** The lookup loop of src/main.rs (lines 209-216): each seed value `v`
    selects `GBWORDS[v - 1]` from the 2048-word list. The subtraction is on
    `usize`, so `v == 0` does not yield a word (the program aborts there), and
    an index past the list's end aborts as well; both are modelled as errors. */
module WordLookup {
  import opened LittleEndian

  datatype Result<T, E> = Ok(value: T) | Err(error: E)

  /** Why one lookup yields no word: `v - 1` underflows, or is past the list. */
  datatype LookupFailure = IndexUnderflow | IndexOutOfBounds(index: nat)

  /** The first seed value, by position, whose lookup failed. */
  datatype PhraseError = PhraseError(position: nat, value: nat, failure: LookupFailure)

  const WordCount: nat := 2048

  /** `GBWORDS[v - 1]` (line 214): a word exactly when `v - 1` neither
      underflows nor runs past the list. */
  function WordFor(words: seq<string>, v: nat): (r: Result<string, LookupFailure>)
    ensures r.Ok? <==> 1 <= v <= |words|
    ensures r.Ok? ==> r.value == words[v - 1]
    ensures r == Err(IndexUnderflow) <==> v == 0
  {
    if v == 0 then Err(IndexUnderflow)
    else if v - 1 < |words| then Ok(words[v - 1])
    else Err(IndexOutOfBounds(v - 1))
  }

  /** For an 11-bit seed value the lookup fails exactly when the value is 0;
      otherwise it selects a word at index 0..2046, never the last one. */
  lemma SeedValueLookup(words: seq<string>, v: nat)
    requires |words| == WordCount && v < WordCount
    ensures WordFor(words, v).Ok? <==> v != 0
    ensures WordFor(words, v).Err? ==> WordFor(words, v).error == IndexUnderflow
    ensures WordFor(words, v).Ok? ==> v - 1 < WordCount - 1 && WordFor(words, v).value == words[v - 1]
  {
  }

  /** Lines 209-216: the seed values are looked up in order; the first failing
      lookup ends the run, otherwise the phrase has one word per value. */
  method LookupPhrase(words: seq<string>, seedvalues: array<U32>)
    returns (r: Result<seq<string>, PhraseError>)
    ensures r.Ok? <==> forall k :: 0 <= k < seedvalues.Length ==> 1 <= seedvalues[k] <= |words|
    ensures r.Ok? ==> |r.value| == seedvalues.Length
    ensures r.Ok? ==> forall k :: 0 <= k < seedvalues.Length ==> r.value[k] == words[seedvalues[k] - 1]
    ensures r.Err? ==> r.error.position < seedvalues.Length
    ensures r.Err? ==> forall k :: 0 <= k < r.error.position ==> 1 <= seedvalues[k] <= |words|
    ensures r.Err? ==> r.error.value == seedvalues[r.error.position]
    ensures r.Err? ==> (r.error.failure == IndexUnderflow <==> r.error.value == 0)
    ensures r.Err? ==> r.error.value > |words| || r.error.value == 0
  {
    var phrase: seq<string> := [];
    var seedcnt := 0;
    while seedcnt < seedvalues.Length
      invariant seedcnt <= seedvalues.Length
      invariant |phrase| == seedcnt
      invariant forall k :: 0 <= k < seedcnt ==> 1 <= seedvalues[k] <= |words|
      invariant forall k :: 0 <= k < seedcnt ==> phrase[k] == words[seedvalues[k] - 1]
    {
      match WordFor(words, seedvalues[seedcnt])
      case Err(failure) =>
        return Err(PhraseError(seedcnt, seedvalues[seedcnt], failure));
      case Ok(word) =>
        phrase := phrase + [word];
      seedcnt := seedcnt + 1;
    }
    return Ok(phrase);
  }

  /** The lookup the one-based index evidently stands in for: value `v`
      selects `words[v]`, so every 11-bit value has a word. */
  function WordForZeroBased(words: seq<string>, v: nat): Result<string, LookupFailure>
  {
    if v < |words| then Ok(words[v]) else Err(IndexOutOfBounds(v))
  }

  /** The zero-based lookup never fails on an 11-bit value, and on a list of
      distinct words different values give different words. */
  lemma ZeroBasedLookupTotal(words: seq<string>, v: nat, w: nat)
    requires |words| == WordCount && v < WordCount && w < WordCount
    requires forall i, j :: 0 <= i < j < |words| ==> words[i] != words[j]
    ensures WordForZeroBased(words, v).Ok?
    ensures v != w ==> WordForZeroBased(words, v) != WordForZeroBased(words, w)
  {
  }
}
