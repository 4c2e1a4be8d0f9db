/** HuffProcessor: compress and decompress, and what they promise together. */
module HuffProcessor {
  import opened Bits
  import opened Format
  import opened Streams
  import opened HuffTree
  import opened Counting
  import opened TreeBuilding
  import opened Codings
  import opened Header
  import opened Body

  /** The tree built for an input has an internal root, a code for PSEUDO_EOF
      and for every byte of the input, and only symbols from 0 to PSEUDO_EOF
      at its leaves. */
  lemma BuiltCodes(input: seq<bool>, root: Tree)
    requires BuiltFrom(root, CountsOf(input))
    ensures root.Node?
    ensures forall v :: v in LeafValues(root) ==> 0 <= v <= PSEUDO_EOF
    ensures Decodable(Codes(root), Words(input))
    ensures Encodable(Table(Codes(root)), Words(input))
  {
    BuiltSymbols(input, root);
    BuiltDecodable(input, root);
    TableEncodable(Codes(root), Words(input));
  }

  /** The tree built for an input has an internal root and only symbols from
      0 to PSEUDO_EOF at its leaves. */
  lemma BuiltSymbols(input: seq<bool>, root: Tree)
    requires BuiltFrom(root, CountsOf(input))
    ensures root.Node?
    ensures forall v :: v in LeafValues(root) ==> 0 <= v <= PSEUDO_EOF
  {
    var c := CountsOf(input);
    BuiltLeaves(root, c);
    BuiltRoot(root, c);
  }

  /** The tree built for an input has a code for PSEUDO_EOF and for every
      byte of the input. */
  lemma BuiltDecodable(input: seq<bool>, root: Tree)
    requires BuiltFrom(root, CountsOf(input))
    ensures Decodable(Codes(root), Words(input))
  {
    var c := CountsOf(input);
    var words := Words(input);
    BuiltLeaves(root, c);
    LeafHasCode(root, Leaf(PSEUDO_EOF, 0));
    forall i | 0 <= i < |words|
      ensures words[i] in Codes(root)
    {
      var w := words[i];
      CountedByte(input, w);
      LeafHasCode(root, Leaf(w, c[w]));
    }
  }

  /** The bits compress writes for input with the tree root: HUFF_TREE in
      BITS_PER_INT bits, the tree header, and the body. */
  ghost function Compressed(input: seq<bool>, root: Tree): seq<bool>
    requires BuiltFrom(root, CountsOf(input))
  {
    BuiltCodes(input, root);
    LowBits(HUFF_TREE, BITS_PER_INT) + WriteHeader(root) + EncodeBody(Table(Codes(root)), Words(input))
  }

  /** compress: counts the bytes, builds the tree and its code table, writes
      the magic number and the header, rereads the input from its start
      (in.reset()) and writes the body. root is the tree it built. */
  method Compress(input: seq<bool>) returns (out: seq<bool>, root: Tree)
    ensures BuiltFrom(root, CountsOf(input))
    ensures out == Compressed(input, root)
  {
    var counts := ReadForCounts(input);
    CountsAre(counts[..], input);
    root := MakeTreeFromCounts(counts);
    BuiltCodes(input, root);
    var codings := MakeCodingsFromTree(root);
    out := LowBits(HUFF_TREE, BITS_PER_INT);
    out := out + WriteHeader(root);
    var body := WriteCompressedBits(codings, input);
    out := out + body;
  }

  /** What decompress does with a stream whose bits are s: the magic number
      must come first, then the tree header, then the body, read up to the
      code of PSEUDO_EOF; anything after it is ignored. */
  function Decompression(s: seq<bool>): Result<seq<bool>>
  {
    var (magic, s1) := ReadBits(s, BITS_PER_INT);
    if magic != HUFF_TREE then Fail(IllegalHeader(magic))
    else
      match ReadTreeHeader(s1)
      case None => Fail(HeaderEndOfData)
      case Some((root, s2)) => Output(DecodeFrom(root, root, s2))
  }

  /** The bytes written by a decoding, without the bits it left unread. */
  function Output(r: Result<(seq<bool>, seq<bool>)>): Result<seq<bool>>
  {
    match r
    case Fail(e) => Fail(e)
    case Ok((out, _)) => Ok(out)
  }

  /** After the magic number, decompress reads the header and the body. */
  lemma AfterMagic(magic: seq<bool>, rest: seq<bool>)
    requires |magic| == BITS_PER_INT && FromBits(magic) == HUFF_TREE
    ensures Decompression(magic + rest) ==
      match ReadTreeHeader(rest)
      case None => Fail(HeaderEndOfData)
      case Some((root, s2)) => Output(DecodeFrom(root, root, s2))
  {
    assert (magic + rest)[..BITS_PER_INT] == magic;
    assert (magic + rest)[BITS_PER_INT..] == rest;
  }

  /** The bits compress writes first hold the magic number. */
  lemma MagicBits()
    ensures |LowBits(HUFF_TREE, BITS_PER_INT)| == BITS_PER_INT
    ensures FromBits(LowBits(HUFF_TREE, BITS_PER_INT)) == HUFF_TREE
  {
    IntPowers();
  }

  /** The tree read back from the header of a tree with an internal root and
      symbols below 2^(BITS_PER_WORD + 1) decodes with the original's codes. */
  lemma SkeletonLeads(root: Tree)
    requires root.Node?
    requires forall v :: v in LeafValues(root) ==> 0 <= v <= PSEUDO_EOF
    ensures Leads(Skeleton(root), Codes(root))
  {
    WordPowers();
    SkeletonCodes(root);
    CodesLead(Skeleton(root));
  }

  /** decompress: checks the magic number, reads the tree header, then
      decodes the body with readCompressedBits. */
  method Decompress(input: seq<bool>) returns (r: Result<seq<bool>>)
    ensures r == Decompression(input)
  {
    var (magic, rest) := ReadBits(input, BITS_PER_INT);
    if magic != HUFF_TREE {
      return Fail(IllegalHeader(magic));
    }
    var header := ReadTreeHeader(rest);
    if header.None? {
      return Fail(HeaderEndOfData);
    }
    var (root, body) := header.value;
    var decoded := ReadCompressedBits(root, body);
    if decoded.Fail? {
      return Fail(decoded.error);
    }
    r := Ok(decoded.value.0);
    assert r == Output(decoded);
  }

  /** What the magic number, the header of root and the body for words
      need to be read back: magic holds HUFF_TREE in BITS_PER_INT bits, root
      is an internal node whose symbols lie in 0..PSEUDO_EOF, and PSEUDO_EOF
      and every word have a code in root. */
  ghost predicate Framed(magic: seq<bool>, root: Tree, words: seq<int>)
  {
    && |magic| == BITS_PER_INT && FromBits(magic) == HUFF_TREE
    && root.Node? && (forall v :: v in LeafValues(root) ==> 0 <= v <= PSEUDO_EOF)
    && Decodable(Codes(root), words)
  }

  /** The magic number, a header and a body, whatever follows them,
      decompress to the body's bytes. */
  lemma {:induction false} FramedRoundTrip(magic: seq<bool>, root: Tree, words: seq<int>, suffix: seq<bool>)
    requires Framed(magic, root, words)
    ensures Encodable(Table(Codes(root)), words)
    ensures Decompression(magic + WriteHeader(root) + EncodeBody(Table(Codes(root)), words) + suffix)
      == Ok(EmitAll(words))
  {
    TableEncodable(Codes(root), words);
    var header, body := WriteHeader(root), EncodeBody(Table(Codes(root)), words);
    AppendAssoc(magic + header, body, suffix);
    AppendAssoc(magic, header, body + suffix);
    AfterMagic(magic, header + (body + suffix));
    HeaderRoundTrip(root, body + suffix);
    SkeletonLeads(root);
    BodyRoundTrip(Skeleton(root), Codes(root), words, suffix);
  }

  /** Decompressing what compress wrote gives back the input's bytes, whatever
      follows the compressed bits. */
  lemma RoundTrip(input: seq<bool>, root: Tree, suffix: seq<bool>)
    requires BuiltFrom(root, CountsOf(input))
    ensures Decompression(Compressed(input, root) + suffix) == Ok(WholeBytes(input))
  {
    BuiltCodes(input, root);
    MagicBits();
    FramedRoundTrip(LowBits(HUFF_TREE, BITS_PER_INT), root, Words(input), suffix);
    EmitWords(input);
  }

  /** A header cut short, after the magic number, fails to decompress. */
  lemma HeaderCut(magic: seq<bool>, root: Tree, q: seq<bool>)
    requires |magic| == BITS_PER_INT && FromBits(magic) == HUFF_TREE
    requires q < WriteHeader(root)
    ensures Decompression(magic + q).Fail?
  {
    AfterMagic(magic, q);
    TruncatedHeader(root, q);
  }

  /** A body cut short, after the magic number and the header, fails to
      decompress. */
  lemma BodyCut(magic: seq<bool>, root: Tree, words: seq<int>, q: seq<bool>)
    requires Framed(magic, root, words)
    ensures Encodable(Table(Codes(root)), words)
    ensures q < EncodeBody(Table(Codes(root)), words) ==>
      Decompression(magic + (WriteHeader(root) + q)).Fail?
  {
    TableEncodable(Codes(root), words);
    AfterMagic(magic, WriteHeader(root) + q);
    HeaderRoundTrip(root, q);
    SkeletonLeads(root);
    BodyNeedsPseudoEof(Skeleton(root), Codes(root), words, q);
  }

  /** Every proper prefix of the magic number, a header and a body fails to
      decompress. */
  lemma {:induction false} FramedTruncated(magic: seq<bool>, root: Tree, words: seq<int>, p: seq<bool>)
    requires Framed(magic, root, words)
    ensures Encodable(Table(Codes(root)), words)
    ensures p < magic + WriteHeader(root) + EncodeBody(Table(Codes(root)), words) ==> Decompression(p).Fail?
  {
    TableEncodable(Codes(root), words);
    var header := WriteHeader(root);
    var body := EncodeBody(Table(Codes(root)), words);
    if p < magic + header + body {
      AppendAssoc(magic, header, body);
      PrefixSplit(p, magic, header + body);
      if |p| < BITS_PER_INT {
        ShortStream(p);
      } else {
        TailCut(magic, root, words, p[BITS_PER_INT..]);
      }
    }
  }

  /** A stream cut short after the magic number, in the header or in the
      body, fails to decompress. */
  lemma TailCut(magic: seq<bool>, root: Tree, words: seq<int>, q: seq<bool>)
    requires Framed(magic, root, words) && Encodable(Table(Codes(root)), words)
    requires q < WriteHeader(root) + EncodeBody(Table(Codes(root)), words)
    ensures Decompression(magic + q).Fail?
  {
    var header := WriteHeader(root);
    PrefixSplit(q, header, EncodeBody(Table(Codes(root)), words));
    if |q| < |header| {
      HeaderCut(magic, root, q);
    } else {
      BodyCut(magic, root, words, q[|header|..]);
    }
  }

  /** Decompressing any proper prefix of what compress wrote fails: a cut in
      the magic number is an illegal header, and a cut in the tree header or
      the body leaves a tag bit or the code of PSEUDO_EOF unread. */
  lemma TruncatedFails(input: seq<bool>, root: Tree, p: seq<bool>)
    requires BuiltFrom(root, CountsOf(input))
    requires p < Compressed(input, root)
    ensures Decompression(p).Fail?
  {
    BuiltCodes(input, root);
    MagicBits();
    FramedTruncated(LowBits(HUFF_TREE, BITS_PER_INT), root, Words(input), p);
  }

  /** A stream that does not start with the magic number fails with an
      illegal header, whatever follows the first BITS_PER_INT bits. */
  lemma WrongMagic(first: seq<bool>, rest: seq<bool>)
    requires |first| == BITS_PER_INT && FromBits(first) != HUFF_TREE
    ensures Decompression(first + rest) == Fail(IllegalHeader(FromBits(first)))
  {
    assert (first + rest)[..BITS_PER_INT] == first;
  }

  /** A stream shorter than the magic number fails with an illegal header
      reporting -1. */
  lemma ShortStream(s: seq<bool>)
    requires |s| < BITS_PER_INT
    ensures Decompression(s) == Fail(IllegalHeader(-1))
  {
  }

  /** A stream holding only the magic number has no tree. */
  lemma MagicOnly()
    ensures Decompression(LowBits(HUFF_TREE, BITS_PER_INT)) == Fail(HeaderEndOfData)
  {
    MagicBits();
    AfterMagic(LowBits(HUFF_TREE, BITS_PER_INT), []);
    assert LowBits(HUFF_TREE, BITS_PER_INT) + [] == LowBits(HUFF_TREE, BITS_PER_INT);
  }
}
