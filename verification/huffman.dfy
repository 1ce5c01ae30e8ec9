/** The two entry points: compression of a text into a packed byte stream
    plus the reverse code table, and decompression of such a stream with
    that table. */
module Huffman {
  import opened Results
  import opened Bits
  import opened HuffmanTree
  import opened Codes
  import opened Codec
  import opened Packing

  /** What compression leaves behind: the bytes written to the output file
      and the reverse code table kept in the codec's own state, which the
      file does not carry. */
  datatype Compressed = Compressed(bytes: seq<Byte>, reverse: map<Bits, char>)

  /** The code tables derived from the root: the source's walk, or with
      `repaired` the walk with the one-symbol case given a one-bit code. */
  function TablesFor(root: Tree, repaired: bool): CodeTables {
    if repaired then BuildCodesFixed(root) else BuildCodes(root)
  }

  /** The output of compression for an encoded text: the padded text
      packed into bytes, with the reverse table alongside. The first byte
      is the pad amount, and one byte follows per full group of 8 encoded
      bits plus one for the last bits and the padding. */
  function Pack(encoded: Bits, reverse: map<Bits, char>): (c: Compressed)
    ensures |c.bytes| == |encoded| / 8 + 2
    ensures c.bytes[0] == PadAmount(|encoded|)
    ensures c.reverse == reverse
  {
    var padded := GetPaddedText(encoded);
    var bytes := GetBytesArray(padded);
    PackedByteCount(encoded);
    assert bytes[0] == FromBits(padded[..8]);
    Compressed(bytes, reverse)
  }

  /** Encodes the text with the given tables and packs the result. It
      fails exactly when some character has no code. */
  function EncodeAndPack(text: string, tables: CodeTables): (r: Result<Compressed>)
    ensures r.Success? <==> forall i :: 0 <= i < |text| ==> text[i] in tables.codes
    ensures r.Failure? ==> r.error.MissingCode?
    ensures r.Success? ==> |r.value.bytes| >= 2 && 1 <= r.value.bytes[0] <= 8
  {
    match GetEncodedText(text, tables.codes)
    case Failure(e) => Failure(e)
    case Success(encoded) => Success(Pack(encoded, tables.reverse))
  }

  /** The compression pipeline. An empty text leaves the heap empty, and
      popping the root fails; otherwise the output starts with a byte
      holding the pad amount, 1..8, and is followed by at least one more. */
  function CompressWith(text: string, repaired: bool): (r: Result<Compressed>)
    ensures |text| == 0 <==> r == Failure(EmptyHeap)
    ensures r.Success? ==> |r.value.bytes| >= 2 && 1 <= r.value.bytes[0] <= 8
  {
    var heap := TreeOf(text);
    if |heap| == 0 then Failure(EmptyHeap)
    else EncodeAndPack(text, TablesFor(heap[0], repaired))
  }

  /** Compression of a non-empty text never fails: every character of the
      text labels a leaf of the tree and so has a code. */
  lemma {:induction false} CompressSucceeds(text: string, repaired: bool)
    requires |text| > 0
    ensures forall i :: 0 <= i < |text| ==> text[i] in TablesFor(TreeOf(text)[0], repaired).codes
    ensures CompressWith(text, repaired)
         == Success(Pack(Encode(text, TablesFor(TreeOf(text)[0], repaired).codes),
                         TablesFor(TreeOf(text)[0], repaired).reverse))
  {
    TextHasCodes(text, repaired);
    EncodeAndPackSucceeds(text, TablesFor(TreeOf(text)[0], repaired));
  }

  /** When every character has a code, encoding and packing yields the
      packed, padded encoding with the given reverse table. */
  lemma EncodeAndPackSucceeds(text: string, tables: CodeTables)
    requires forall i :: 0 <= i < |text| ==> text[i] in tables.codes
    ensures EncodeAndPack(text, tables) == Success(Pack(Encode(text, tables.codes), tables.reverse))
  {
    assert GetEncodedText(text, tables.codes) == Success(Encode(text, tables.codes));
  }

  /** Every character of a non-empty text has a code in the tables
      derived from its tree. */
  lemma {:induction false} TextHasCodes(text: string, repaired: bool)
    requires |text| > 0
    ensures forall i :: 0 <= i < |text| ==> text[i] in TablesFor(TreeOf(text)[0], repaired).codes
  {
    var root := TreeOf(text)[0];
    var tables := TablesFor(root, repaired);
    TextSymbolsInTree(text);
    assert forall c :: c in tables.codes <==> c in Syms(root);
  }

  /** Every character of a non-empty text labels a leaf of its tree. */
  lemma {:induction false} TextSymbolsInTree(text: string)
    requires |text| > 0
    ensures forall i :: 0 <= i < |text| ==> text[i] in Syms(TreeOf(text)[0])
  {
    TreeOfText(text);
    forall i | 0 <= i < |text| ensures text[i] in Syms(TreeOf(text)[0]) {
      assert text[i] in text;
    }
  }

  /** Compression with the one-symbol case repaired. It fails exactly on
      the empty text, with the empty-heap error. */
  function Compress(text: string): (r: Result<Compressed>)
    ensures r.Success? <==> |text| > 0
    ensures r.Failure? ==> r.error == EmptyHeap
  {
    if |text| == 0 then CompressWith(text, true)
    else CompressSucceeds(text, true); CompressWith(text, true)
  }

  /** Compression exactly as the source derives its code tables. It also
      fails exactly on the empty text. */
  function CompressAsWritten(text: string): (r: Result<Compressed>)
    ensures r.Success? <==> |text| > 0
    ensures r.Failure? ==> r.error == EmptyHeap
  {
    if |text| == 0 then CompressWith(text, false)
    else CompressSucceeds(text, false); CompressWith(text, false)
  }

  /** The decompression pipeline: expand the bytes to bits, strip the
      header and the padding, decode greedily with the reverse table. It
      fails only on an empty stream, which has no header. */
  function Decompress(bytes: seq<Byte>, reverse: map<Bits, char>): (r: Result<string>)
    ensures r.Failure? <==> |bytes| == 0
    ensures r.Success? ==> |r.value| < 8 * |bytes|
  {
    match RemovePadding(BytesToBits(bytes))
    case Failure(e) => Failure(e)
    case Success(encoded) => Success(DecodeText(encoded, reverse))
  }

  /** The text has at least two distinct symbols. */
  ghost predicate TwoSymbols(text: string) {
    exists i, j :: 0 <= i < |text| && 0 <= j < |text| && text[i] != text[j]
  }

  /** The text is non-empty and repeats a single symbol. */
  ghost predicate OneSymbol(text: string) {
    |text| > 0 && forall i :: 0 <= i < |text| ==> text[i] == text[0]
  }

  /** Compressing and then decompressing the repaired way gives back every
      non-empty text. */
  lemma {:induction false} RoundTrip(text: string)
    requires |text| > 0
    ensures Compress(text).Success?
    ensures Decompress(Compress(text).value.bytes, Compress(text).value.reverse) == Success(text)
  {
    var root := TreeOf(text)[0];
    TreeOfText(text);
    BuildCodesFixedValid(root);
    CompressSucceeds(text, true);
    PipelineRoundTrip(text, TablesFor(root, true));
  }

  /** The stages after code derivation undo each other for valid tables. */
  lemma {:induction false} PipelineRoundTrip(text: string, tables: CodeTables)
    requires Decodable(tables)
    requires forall i :: 0 <= i < |text| ==> text[i] in tables.codes
    ensures Decompress(Pack(Encode(text, tables.codes), tables.reverse).bytes, tables.reverse)
         == Success(text)
  {
    var encoded := Encode(text, tables.codes);
    var padded := GetPaddedText(encoded);
    var bytes := GetBytesArray(padded);
    BitsBytesRoundTrip(padded);
    assert BytesToBits(bytes) == padded;
    UnpadAfterPad(encoded);
    assert RemovePadding(BytesToBits(bytes)) == Success(encoded);
    DecodeRoundTrip(text, tables);
  }

  /** With at least two distinct symbols the root is an internal node, the
      repair changes nothing, and the source's own tables round-trip. */
  lemma {:induction false} AsWrittenRoundTrip(text: string)
    requires TwoSymbols(text)
    ensures CompressAsWritten(text) == Compress(text)
    ensures CompressAsWritten(text).Success?
    ensures Decompress(CompressAsWritten(text).value.bytes, CompressAsWritten(text).value.reverse)
         == Success(text)
  {
    RootOfTwoSymbols(text);
    var root := TreeOf(text)[0];
    assert TablesFor(root, false) == TablesFor(root, true);
    CompressSucceeds(text, false);
    CompressSucceeds(text, true);
    RoundTrip(text);
  }

  /** Two distinct symbols cannot share one leaf, so the root is internal. */
  lemma {:induction false} RootOfTwoSymbols(text: string)
    requires TwoSymbols(text)
    ensures |text| > 0 && TreeOf(text)[0].Node?
  {
    var i, j :| 0 <= i < |text| && 0 <= j < |text| && text[i] != text[j];
    TextSymbolsInTree(text);
    TwoSymbolsNeedNode(TreeOf(text)[0], text[i], text[j]);
  }

  /** A one-symbol text builds a single leaf carrying that symbol. */
  lemma {:induction false} RootOfOneSymbol(text: string)
    requires OneSymbol(text)
    ensures TreeOf(text)[0].Leaf? && TreeOf(text)[0].sym == text[0]
  {
    var root := TreeOf(text)[0];
    TreeOfText(text);
    assert text[0] in text;
    if root.Node? {
      NodeHasTwoSymbols(root);

    }
  }

  /** A text of one repeated symbol builds a single-leaf root, whose code
      is empty: the source writes the two bytes [8, 0] and decompression
      returns the empty text, losing every symbol. */
  lemma {:induction false} AsWrittenLosesOneSymbolText(text: string)
    requires OneSymbol(text)
    ensures CompressAsWritten(text) == Success(Compressed([8, 0], map[[] := text[0]]))
    ensures Decompress([8, 0], map[[] := text[0]]) == Success([])
  {
    var root := TreeOf(text)[0];
    RootOfOneSymbol(text);
    var tables := TablesFor(root, false);
    assert tables == CodeTables(map[text[0] := []], map[[] := text[0]]);
    CompressSucceeds(text, false);
    EncodeOneSymbol(text, tables.codes);
    EmptyEncodingPacksToHeader();
    HeaderOnlyStreamDecodesToNothing(text[0]);
  }

  /** The empty encoding packs into the header byte 8 and one zero byte. */
  lemma EmptyEncodingPacksToHeader()
    ensures GetBytesArray(GetPaddedText([])) == [8, 0]
  {
    var padded := GetPaddedText([]);
    assert padded == BytesToBits([8, 0]) by {
      ZerosToBits(8);
      assert BytesToBits([8, 0]) == ToBits(8, 8) + ToBits(0, 8) + [];
      assert padded == ToBits(8, 8) + [] + seq(8, _ => false);
    }
    BytesBitsRoundTrip([8, 0]);
  }

  /** The stream [8, 0] holds no encoded bits, whatever the table. */
  lemma {:induction false} HeaderOnlyStreamDecodesToNothing(c: char)
    ensures Decompress([8, 0], map[[] := c]) == Success([])
  {
    EmptyEncodingPacksToHeader();
    BitsBytesRoundTrip(GetPaddedText([]));
    UnpadAfterPad([]);
  }

  lemma {:induction false} EncodeOneSymbol(text: string, codes: map<char, Bits>)
    requires OneSymbol(text)
    requires codes == map[text[0] := []]
    ensures Encode(text, codes) == []
  {
    if |text| > 1 {
      var rest := text[1..];
      assert rest[0] == text[0];
      assert OneSymbol(rest) by {
        forall i | 0 <= i < |rest| ensures rest[i] == rest[0] {
          assert rest[i] == text[i + 1];
        }
      }
      EncodeOneSymbol(rest, codes);
    }
  }

  lemma {:induction false} ZerosToBits(w: nat)
    ensures ToBits(0, w) == seq(w, _ => false)
  {
    if w > 0 {
      ZerosToBits(w - 1);
    }
  }
}
