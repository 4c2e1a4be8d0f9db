/** readForCounts: the first pass of compression. */
module Counting {
  import opened Bits
  import opened Format
  import opened Streams

  /** How often each symbol occurs in the input stream s, with PSEUDO_EOF forced to 1. */
  function CountsOf(s: seq<bool>): seq<nat>
  {
    seq(ALPH_SIZE + 1, v => if v == PSEUDO_EOF then 1 else multiset(Words(s))[v])
  }

  /** Every byte of the input has a nonzero count. */
  lemma CountedByte(input: seq<bool>, w: int)
    requires w in Words(input)
    ensures 0 <= w < ALPH_SIZE && CountsOf(input)[w] > 0
  {
    assert w in multiset(Words(input));
  }

  /** The counts readForCounts returns are CountsOf. */
  lemma CountsAre(c: seq<nat>, input: seq<bool>)
    requires |c| == ALPH_SIZE + 1 && c[PSEUDO_EOF] == 1
    requires forall v :: 0 <= v < ALPH_SIZE ==> c[v] == multiset(Words(input))[v]
    ensures c == CountsOf(input)
  {
  }

  /** How often v occurs in the words w. */
  function Occurs(w: seq<int>, v: int): nat
  {
    if w == [] then 0 else (if w[0] == v then 1 else 0) + Occurs(w[1..], v)
  }

  /** Occurs counts exactly the multiplicity of v in w. */
  lemma {:induction false} OccursMultiplicity(w: seq<int>, v: int)
    ensures Occurs(w, v) == multiset(w)[v]
  {
    if w != [] {
      OccursMultiplicity(w[1..], v);
      assert w == [w[0]] + w[1..];
    }
  }

  /** counts holds the counts of the bytes of input read so far, rest being
      the bits not yet read. */
  predicate Counted(counts: array<nat>, rest: seq<bool>, input: seq<bool>)
    reads counts
  {
    && counts.Length == ALPH_SIZE + 1
    && forall v :: 0 <= v < ALPH_SIZE ==> counts[v] + Occurs(Words(rest), v) == Occurs(Words(input), v)
  }

  /** One readBits(BITS_PER_WORD) call of the counting loop: the value read
      is a byte, and the unread bytes lose exactly that one occurrence. */
  lemma CountStep(rest: seq<bool>)
    requires |rest| >= BITS_PER_WORD
    ensures var (value, r) := ReadBits(rest, BITS_PER_WORD);
      && 0 <= value < ALPH_SIZE
      && forall v :: Occurs(Words(rest), v) == Occurs(Words(r), v) + (if v == value then 1 else 0)
  {
    WordsStep(rest);
    WordPowers();
    var (value, r) := ReadBits(rest, BITS_PER_WORD);
    assert ([value] + Words(r))[1..] == Words(r);
  }

  /** Reads the input to its end, one byte at a time, and counts each byte
      value; the PSEUDO_EOF slot is then set to 1, even for an empty input. */
  method ReadForCounts(input: seq<bool>) returns (counts: array<nat>)
    ensures fresh(counts)
    ensures counts.Length == ALPH_SIZE + 1
    ensures forall v :: 0 <= v < ALPH_SIZE ==> counts[v] == multiset(Words(input))[v]
    ensures counts[PSEUDO_EOF] == 1
  {
    counts := new nat[ALPH_SIZE + 1](_ => 0);
    var rest := input;
    while true
      invariant Counted(counts, rest, input)
      decreases |rest|
    {
      var (value, r) := ReadBits(rest, BITS_PER_WORD);
      if value == -1 {
        break;
      }
      CountStep(rest);
      counts[value] := counts[value] + 1;
      rest := r;
    }
    CountedAll(counts, rest, input);
    counts[PSEUDO_EOF] := 1;
  }

  /** Once fewer than BITS_PER_WORD bits are left, every byte is counted. */
  lemma CountedAll(counts: array<nat>, rest: seq<bool>, input: seq<bool>)
    requires Counted(counts, rest, input) && |rest| < BITS_PER_WORD
    ensures forall v :: 0 <= v < ALPH_SIZE ==> counts[v] == multiset(Words(input))[v]
  {
    WordsStep(rest);
    forall v | 0 <= v < ALPH_SIZE
      ensures counts[v] == multiset(Words(input))[v]
    {
      OccursMultiplicity(Words(input), v);
    }
  }
}
