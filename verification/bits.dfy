/** Fixed-width bit strings, as the bit-stream collaborators read and write them.
    A bit string is a seq<bool> (true is 1), most significant bit first. */
module Bits {

  /** 2 to the power n. */
  function Pow2(n: nat): (r: nat)
    ensures r > 0
  {
    if n == 0 then 1 else 2 * Pow2(n - 1)
  }

  lemma {:induction false} Pow2Add(a: nat, b: nat)
    ensures Pow2(a + b) == Pow2(a) * Pow2(b)
  {
    if b > 0 {
      Pow2Add(a, b - 1);
    }
  }

  /** The unsigned value of a bit string read most significant bit first. */
  function FromBits(s: seq<bool>): (v: nat)
    ensures v < Pow2(|s|)
  {
    if s == [] then 0
    else 2 * FromBits(s[..|s| - 1]) + (if s[|s| - 1] then 1 else 0)
  }

  /** The n-bit representation of a value that fits in n bits. */
  function ToBits(v: nat, n: nat): (s: seq<bool>)
    requires v < Pow2(n)
    ensures |s| == n && FromBits(s) == v
  {
    if n == 0 then []
    else
      var s := ToBits(v / 2, n - 1) + [v % 2 == 1];
      assert s[..n - 1] == ToBits(v / 2, n - 1);
      s
  }

  /** ToBits undoes FromBits. */
  lemma {:induction false} FromBitsInverse(s: seq<bool>)
    ensures ToBits(FromBits(s), |s|) == s
  {
    if s != [] {
      var p := s[..|s| - 1];
      FromBitsInverse(p);
      assert FromBits(s) / 2 == FromBits(p);
      assert s == p + [s[|s| - 1]];
    }
  }

  /** What writeBits(n, v) appends to an output stream: the low n bits of v,
      most significant first (two's complement for a negative v). */
  function LowBits(v: int, n: nat): (s: seq<bool>)
    ensures |s| == n && FromBits(s) == v % Pow2(n)
  {
    ToBits(v % Pow2(n), n)
  }

  /** What readBits(n) does to an input stream whose unread bits are s: the
      value of the next n bits and the bits after them, or -1 at end of data,
      after which the stream has nothing left to read. */
  function ReadBits(s: seq<bool>, n: nat): (r: (int, seq<bool>))
    ensures n <= |s| ==> 0 <= r.0 < Pow2(n) && s == ToBits(r.0, n) + r.1
    ensures n > |s| ==> r == (-1, [])
  {
    if n > |s| then (-1 as int, [])
    else
      FromBitsInverse(s[..n]);
      assert s == s[..n] + s[n..];
      (FromBits(s[..n]), s[n..])
  }

  /** Reading back n bits that were just written gives the low n bits of the value. */
  lemma ReadWritten(v: int, n: nat, rest: seq<bool>)
    ensures ReadBits(LowBits(v, n) + rest, n) == (v % Pow2(n), rest)
  {
    var s := LowBits(v, n) + rest;
    assert s[..n] == LowBits(v, n);
    assert s[n..] == rest;
  }

  /** readBits(1) on a stream whose next bit is b. */
  lemma ReadOneBit(b: bool, rest: seq<bool>)
    ensures ReadBits([b] + rest, 1) == (if b then 1 else 0, rest)
  {
    var s := [b] + rest;
    assert s[..1] == [b] && s[1..] == rest;
    assert [b][..0] == [];
  }

  lemma AppendAssoc(a: seq<bool>, b: seq<bool>, c: seq<bool>)
    ensures a + b + c == a + (b + c)
  {
  }

  /** A proper prefix of a + b is a proper prefix of a, or a followed by a
      proper prefix of b. */
  lemma PrefixSplit(q: seq<bool>, a: seq<bool>, b: seq<bool>)
    requires q < a + b
    ensures |q| < |a| ==> q < a
    ensures |q| >= |a| ==> q == a + q[|a|..] && q[|a|..] < b
  {
    if |q| >= |a| {
      assert q[..|a|] == a;
    }
  }

  /** A nonempty proper prefix of [b] + rest is b followed by a proper prefix of rest. */
  lemma PrefixTail(p: seq<bool>, b: bool, rest: seq<bool>)
    requires p != [] && p < [b] + rest
    ensures p == [b] + p[1..] && p[1..] < rest
  {
    assert p[0] == ([b] + rest)[0];
  }
}
