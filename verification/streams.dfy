/** The byte view of the bit streams: what readBits(BITS_PER_WORD) yields from an
    input stream, and what writeBits(BITS_PER_WORD, v) appends to an output stream. */
module Streams {
  import opened Bits
  import opened Format

  /** The values that repeated readBits(BITS_PER_WORD) calls return from the
      stream s before the first -1. */
  function Words(s: seq<bool>): (w: seq<int>)
    ensures |w| == |s| / BITS_PER_WORD
    ensures forall i :: 0 <= i < |w| ==> 0 <= w[i] < ALPH_SIZE
    decreases |s|
  {
    WordPowers();
    var (v, rest) := ReadBits(s, BITS_PER_WORD);
    if v == -1 then [] else [v] + Words(rest)
  }

  /** One readBits(BITS_PER_WORD) call: -1 with fewer than BITS_PER_WORD bits
      left, else the next byte. */
  lemma WordsStep(s: seq<bool>)
    ensures |s| < BITS_PER_WORD ==> Words(s) == []
    ensures |s| >= BITS_PER_WORD ==>
      Words(s) == [ReadBits(s, BITS_PER_WORD).0] + Words(ReadBits(s, BITS_PER_WORD).1)
  {
  }

  /** The bits writeBits(BITS_PER_WORD, v) appends: the low eight bits of v. */
  function Emit(v: int): (s: seq<bool>)
    ensures |s| == BITS_PER_WORD
    ensures 0 <= v < ALPH_SIZE ==> FromBits(s) == v
  {
    WordPowers();
    LowBits(v, BITS_PER_WORD)
  }

  /** The bits written for a sequence of byte values, in order. */
  function EmitAll(words: seq<int>): (s: seq<bool>)
    ensures |s| == BITS_PER_WORD * |words|
  {
    if words == [] then [] else Emit(words[0]) + EmitAll(words[1..])
  }

  /** The bits of s that make up whole bytes: all of s for a file. */
  function WholeBytes(s: seq<bool>): seq<bool>
  {
    s[..|s| - |s| % BITS_PER_WORD]
  }

  /** The whole bytes of a stream: its first byte, then the whole bytes of the rest. */
  lemma WholeBytesCons(s: seq<bool>, first: seq<bool>, rest: seq<bool>)
    requires |first| == BITS_PER_WORD && s == first + rest
    ensures WholeBytes(s) == first + WholeBytes(rest)
  {
    assert |rest| % BITS_PER_WORD == |s| % BITS_PER_WORD;
    assert s[..|s| - |s| % BITS_PER_WORD] == first + rest[..|rest| - |rest| % BITS_PER_WORD];
  }

  /** Writing back every byte read from a stream reproduces its whole bytes. */
  lemma {:induction false} EmitWords(s: seq<bool>)
    ensures EmitAll(Words(s)) == WholeBytes(s)
    decreases |s|
  {
    WordPowers();
    var (v, rest) := ReadBits(s, BITS_PER_WORD);
    if v == -1 {
      assert |s| < BITS_PER_WORD;
    } else {
      EmitWords(rest);
      FromBitsInverse(ToBits(v, BITS_PER_WORD));
      assert Emit(v) == ToBits(v, BITS_PER_WORD);
      WholeBytesCons(s, ToBits(v, BITS_PER_WORD), rest);
    }
  }
}
