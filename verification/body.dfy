/** writeCompressedBits and readCompressedBits: the body of a compressed
    stream, one code per input byte and the code of PSEUDO_EOF last. */
module Body {
  import opened Bits
  import opened Format
  import opened HuffTree
  import opened Codings
  import opened Streams

  /** The code table has a code for PSEUDO_EOF and for every byte value in words. */
  predicate Encodable(codings: seq<Option<seq<bool>>>, words: seq<int>)
  {
    && |codings| == ALPH_SIZE + 1
    && codings[PSEUDO_EOF].Some?
    && forall i :: 0 <= i < |words| ==> 0 <= words[i] < ALPH_SIZE && codings[words[i]].Some?
  }

  /** The codes of words, one after the other. */
  function EncodeWords(codings: seq<Option<seq<bool>>>, words: seq<int>): seq<bool>
    requires Encodable(codings, words)
  {
    if words == [] then []
    else codings[words[0]].value + EncodeWords(codings, words[1..])
  }

  /** The body written for words: their codes, then the code of PSEUDO_EOF. */
  function EncodeBody(codings: seq<Option<seq<bool>>>, words: seq<int>): seq<bool>
    requires Encodable(codings, words)
  {
    EncodeWords(codings, words) + codings[PSEUDO_EOF].value
  }

  /** writeCompressedBits: reads the input to its end one byte at a time,
      appending each byte's code, and appends the code of PSEUDO_EOF when
      readBits returns -1. The input's bytes are its whole bytes; a trailing
      partial byte is never read as one. */
  method WriteCompressedBits(codings: array<Option<seq<bool>>>, input: seq<bool>) returns (out: seq<bool>)
    requires Encodable(codings[..], Words(input))
    ensures out == EncodeBody(codings[..], Words(input))
  {
    ghost var cs := codings[..];
    out := [];
    var rest := input;
    while true
      invariant Encodable(cs, Words(rest))
      invariant out + EncodeWords(cs, Words(rest)) == EncodeWords(cs, Words(input))
      decreases |rest|
    {
      WordsStep(rest);
      var (bits, r) := ReadBits(rest, BITS_PER_WORD);
      if bits == -1 {
        assert out + [] == out;
        out := out + codings[PSEUDO_EOF].value;
        break;
      }
      EncodeWordsCons(cs, Words(rest));
      var code := codings[bits].value;
      assert out + code + EncodeWords(cs, Words(r)) == out + (code + EncodeWords(cs, Words(r)));
      out := out + code;
      rest := r;
    }
  }

  /** The codes of a nonempty sequence of words: the first word's code, then
      the others'. */
  lemma EncodeWordsCons(codings: seq<Option<seq<bool>>>, words: seq<int>)
    requires Encodable(codings, words) && words != []
    ensures Encodable(codings, words[1..])
    ensures EncodeWords(codings, words) == codings[words[0]].value + EncodeWords(codings, words[1..])
  {
    assert Encodable(codings, words[1..]);
  }

  /** The output written so far in front of the result of the rest of a
      decoding; a failure stays a failure. */
  function Prepend(out: seq<bool>, r: Result<(seq<bool>, seq<bool>)>): Result<(seq<bool>, seq<bool>)>
  {
    match r
    case Fail(e) => Fail(e)
    case Ok((o, rest)) => Ok((out + o, rest))
  }

  /** readCompressedBits from the tree node curr with s unread: the bits
      written out and the bits left unread once the walk reaches the
      PSEUDO_EOF leaf. Each bit read moves to the left (0) or right (1)
      child; a leaf other than PSEUDO_EOF writes its value in BITS_PER_WORD
      bits and the walk restarts at the root. Running out of bits is
      NoPseudoEof; stepping below a leaf (a root that is a single leaf) is
      NullChild. */
  function DecodeFrom(root: Tree, curr: Tree, s: seq<bool>): Result<(seq<bool>, seq<bool>)>
    decreases |s|
  {
    var (bit, s1) := ReadBits(s, 1);
    if bit == -1 then Fail(NoPseudoEof)
    else if curr.Leaf? then Fail(NullChild)
    else
      var next := if bit == 0 then curr.left else curr.right;
      if next.Leaf? then
        if next.value == PSEUDO_EOF then Ok(([], s1))
        else Prepend(Emit(next.value), DecodeFrom(root, root, s1))
      else DecodeFrom(root, next, s1)
  }

  lemma PrependNothing(r: Result<(seq<bool>, seq<bool>)>)
    ensures Prepend([], r) == r
  {
    match r
    case Fail(_) =>
    case Ok((o, rest)) =>
      assert [] + o == o;
  }

  lemma PrependPrepend(a: seq<bool>, b: seq<bool>, r: Result<(seq<bool>, seq<bool>)>)
    ensures Prepend(a, Prepend(b, r)) == Prepend(a + b, r)
  {
    match r
    case Fail(_) =>
    case Ok((o, rest)) =>
      assert a + (b + o) == a + b + o;
  }

  /** readCompressedBits: walks the tree bit by bit as DecodeFrom says,
      collecting the bytes written. */
  method ReadCompressedBits(root: Tree, input: seq<bool>) returns (r: Result<(seq<bool>, seq<bool>)>)
    ensures r == DecodeFrom(root, root, input)
  {
    var curr := root;
    var rest := input;
    var out: seq<bool> := [];
    PrependNothing(DecodeFrom(root, root, input));
    while true
      invariant DecodeFrom(root, root, input) == Prepend(out, DecodeFrom(root, curr, rest))
      decreases |rest|
    {
      var (bit, r1) := ReadBits(rest, 1);
      if bit == -1 {
        return Fail(NoPseudoEof);
      }
      if curr.Leaf? {
        return Fail(NullChild);
      }
      curr := if bit == 0 then curr.left else curr.right;
      rest := r1;
      if curr.Leaf? {
        if curr.value == PSEUDO_EOF {
          assert out + [] == out;
          return Ok((out, rest));
        }
        PrependPrepend(out, Emit(curr.value), DecodeFrom(root, root, rest));
        out := out + Emit(curr.value);
        curr := root;
      }
    }
  }

  /** Reading a path that leads from the node curr to a leaf, followed by any
      bits: at PSEUDO_EOF the walk stops with those bits unread; at any other
      leaf its byte is written and the walk goes on from the root. */
  lemma {:induction false} WalkPath(root: Tree, curr: Tree, p: seq<bool>, s: seq<bool>)
    requires p != [] && Follow(curr, p).Some? && Follow(curr, p).value.Leaf?
    ensures DecodeFrom(root, curr, p + s) ==
      if Follow(curr, p).value.value == PSEUDO_EOF then Ok(([], s))
      else Prepend(Emit(Follow(curr, p).value.value), DecodeFrom(root, root, s))
    decreases |p|
  {
    var next := if p[0] then curr.right else curr.left;
    assert p + s == [p[0]] + (p[1..] + s);
    ReadOneBit(p[0], p[1..] + s);
    if p[1..] != [] {
      WalkPath(root, next, p[1..], s);
    } else {
      assert p[1..] + s == s;
    }
  }

  /** Reading a proper prefix of a path from the internal node curr to a leaf
      runs out of bits before reaching any leaf. */
  lemma {:induction false} WalkCut(root: Tree, curr: Tree, p: seq<bool>, code: seq<bool>)
    requires curr.Node? && p < code
    requires Follow(curr, code).Some? && Follow(curr, code).value.Leaf?
    ensures DecodeFrom(root, curr, p) == Fail(NoPseudoEof)
    decreases |p|
  {
    if p != [] {
      var next := if p[0] then curr.right else curr.left;
      assert p == [p[0]] + p[1..];
      ReadOneBit(p[0], p[1..]);
      assert code[0] == p[0];
      assert p[1..] < code[1..];
      WalkCut(root, next, p[1..], code[1..]);
    }
  }

  /** Every code of m leads from the internal node t to a leaf holding its
      symbol: what CodeReachesLeaf proves of t's own codes. */
  predicate Leads(t: Tree, m: map<int, seq<bool>>)
  {
    && t.Node?
    && forall v :: v in m ==>
      m[v] != [] && Follow(t, m[v]).Some? && Follow(t, m[v]).value.Leaf? && Follow(t, m[v]).value.value == v
  }

  lemma CodesLead(t: Tree)
    requires t.Node?
    ensures Leads(t, Codes(t))
  {
    forall v | v in Codes(t)
      ensures Codes(t)[v] != [] && Follow(t, Codes(t)[v]).Some?
      ensures Follow(t, Codes(t)[v]).value.Leaf? && Follow(t, Codes(t)[v]).value.value == v
    {
      CodeReachesLeaf(t, v);
    }
  }

  /** The code map has a code for PSEUDO_EOF and for every byte in words. */
  predicate Decodable(m: map<int, seq<bool>>, words: seq<int>)
  {
    && PSEUDO_EOF in m
    && forall i :: 0 <= i < |words| ==> 0 <= words[i] < ALPH_SIZE && words[i] in m
  }

  /** The code table of m has the codes Decodable asks for. */
  lemma TableEncodable(m: map<int, seq<bool>>, words: seq<int>)
    requires Decodable(m, words)
    ensures Encodable(Table(m), words)
    ensures Table(m)[PSEUDO_EOF].value == m[PSEUDO_EOF]
    ensures words != [] ==> Table(m)[words[0]].value == m[words[0]]
    ensures words != [] ==> Decodable(m, words[1..])
  {
  }

  lemma EncodeBodyCons(codings: seq<Option<seq<bool>>>, words: seq<int>)
    requires Encodable(codings, words) && words != []
    ensures Encodable(codings, words[1..])
    ensures EncodeBody(codings, words) == codings[words[0]].value + EncodeBody(codings, words[1..])
  {
    EncodeWordsCons(codings, words);
  }

  /** Decoding one code from the root, followed by the bits tail. */
  lemma DecodeCode(t: Tree, m: map<int, seq<bool>>, v: int, tail: seq<bool>)
    requires Leads(t, m) && v in m
    ensures DecodeFrom(t, t, m[v] + tail) ==
      if v == PSEUDO_EOF then Ok(([], tail)) else Prepend(Emit(v), DecodeFrom(t, t, tail))
  {
    WalkPath(t, t, m[v], tail);
  }

  /** Decoding a byte's code in front of bits that decode to out. */
  lemma DecodeCons(t: Tree, m: map<int, seq<bool>>, v: int, tail: seq<bool>, out: seq<bool>, suffix: seq<bool>)
    requires Leads(t, m) && v in m && v != PSEUDO_EOF
    requires DecodeFrom(t, t, tail) == Ok((out, suffix))
    ensures DecodeFrom(t, t, m[v] + tail) == Ok((Emit(v) + out, suffix))
  {
    DecodeCode(t, m, v, tail);
  }

  /** Decoding the body written with the code table of m, whose codes lead
      through t, gives back the bytes and stops right after the code of
      PSEUDO_EOF, whatever follows it. */
  lemma {:induction false} BodyRoundTrip(t: Tree, m: map<int, seq<bool>>, words: seq<int>, suffix: seq<bool>)
    requires Leads(t, m) && Decodable(m, words)
    ensures Encodable(Table(m), words)
    ensures DecodeFrom(t, t, EncodeBody(Table(m), words) + suffix) == Ok((EmitAll(words), suffix))
    decreases |words|
  {
    var codings := Table(m);
    TableEncodable(m, words);
    if words == [] {
      assert EncodeBody(codings, words) == m[PSEUDO_EOF];
      DecodeCode(t, m, PSEUDO_EOF, suffix);
    } else {
      var v := words[0];
      BodyRoundTrip(t, m, words[1..], suffix);
      EncodeBodyCons(codings, words);
      var rest := EncodeBody(codings, words[1..]);
      assert EncodeBody(codings, words) == m[v] + rest;
      AppendAssoc(m[v], rest, suffix);
      var tail := rest + suffix;
      DecodeCons(t, m, v, tail, EmitAll(words[1..]), suffix);
    }
  }

  /** Decoding stops only at the code of PSEUDO_EOF: every proper prefix of a
      body written with the code table of m fails for want of PSEUDO_EOF. */
  lemma {:induction false} BodyNeedsPseudoEof(t: Tree, m: map<int, seq<bool>>, words: seq<int>, p: seq<bool>)
    requires Leads(t, m) && Decodable(m, words)
    ensures Encodable(Table(m), words)
    ensures p < EncodeBody(Table(m), words) ==> DecodeFrom(t, t, p) == Fail(NoPseudoEof)
    decreases |words|
  {
    var codings := Table(m);
    TableEncodable(m, words);
    if p < EncodeBody(codings, words) {
      if words == [] {
        assert EncodeBody(codings, words) == m[PSEUDO_EOF];
        WalkCut(t, t, p, m[PSEUDO_EOF]);
      } else {
        var code := m[words[0]];
        EncodeBodyCons(codings, words);
        var tail := EncodeBody(codings, words[1..]);
        PrefixSplit(p, code, tail);
        if |p| < |code| {
          WalkCut(t, t, p, code);
        } else {
          var p' := p[|code|..];
          BodyNeedsPseudoEof(t, m, words[1..], p');
          DecodeCode(t, m, words[0], p');
        }
      }
    }
  }
}
