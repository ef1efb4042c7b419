/**
  `huffman_compress`: counts the pixel values, builds the tree and the code
  table, concatenates the codes in pixel order, pads to a byte boundary,
  prefixes a one-byte padding header and packs the bits into bytes.
  `HuffmanDecompress` is the model's inverse, used to state the round trip.
 */
module HuffmanCompression {
  import opened Pixels
  import opened Wrappers
  import opened Bits
  import opened Frequency
  import opened HuffmanTree
  import opened HuffmanCodes
  import opened BitPacking

  /**
    The dict `huffman_compress` returns: the packed bytes, the code table,
    the image shape (here the number of pixel values) and the padding count.
   */
  datatype HuffmanBlock = HuffmanBlock(compressedData: seq<Byte>, codes: CodeTable, shape: nat, padding: nat)

  /** The model's decoder: unpack the bits, then read `shape` symbols with the code table. */
  ghost function HuffmanDecompress(block: HuffmanBlock): Option<seq<Byte>>
  {
    match Unpack(block.compressedData)
    case None => None
    case Some(bits) => DecodeSymbols(block.codes, bits, block.shape)
  }

  /**
    The packing loop: eight characters at a time, `int(byte, 2)` appended
    to a `bytearray`. The input length is a multiple of 8, so every slice
    is a full byte.
   */
  method PackBytes(bits: Code) returns (data: seq<Byte>)
    requires |bits| % 8 == 0
    ensures |data| == |bits| / 8
    ensures BytesToBits(data) == bits
  {
    data := [];
    var i := 0;
    ghost var byteCount := |bits| / 8;
    while i < |bits|
      invariant i == 8 * |data| && |data| <= byteCount
      invariant BytesToBits(data) == bits[..i]
      decreases |bits| - i
    {
      var chunk := bits[i..i + 8];
      BinaryValueBound(chunk);
      BinaryOfBinaryValue(chunk);
      BytesToBitsAppend(data, BinaryValue(chunk));
      data := data + [BinaryValue(chunk)];
      assert bits[..i + 8] == bits[..i] + chunk;
      i := i + 8;
    }
    assert bits[..i] == bits;
  }

  /** The header and the padding read back from a packed buffer. */
  lemma UnpackPacked(data: seq<Byte>, pad: nat, encoded: Code)
    requires pad < 256
    requires BytesToBits(data) == ToBinary(pad, 8) + encoded + Zeros(pad)
    ensures |data| > 0 && data[0] == pad
    ensures Unpack(data) == Some(encoded)
  {
    assert Pow2(8) == 256;
    var bits := BytesToBits(data);
    assert data != [];
    assert bits == ToBinary(data[0], 8) + BytesToBits(data[1..]);
    assert bits[..8] == ToBinary(data[0], 8) == ToBinary(pad, 8);
    BinaryValueOfBinary(data[0], 8);
    BinaryValueOfBinary(pad, 8);
    var rest := BytesToBits(data[1..]);
    assert rest == bits[8..] == encoded + Zeros(pad);
    assert rest[..|rest| - pad] == encoded;
  }

  /**
    `huffman_compress`. The packed buffer holds the header byte (equal to
    the padding count), the code bits and 1..8 zero bits, so its length is
    1 + len(code bits) // 8 + 1; unpacking and decoding it gives the image
    back. The table covers exactly the image's values and is prefix-free;
    an image of one repeated value gets the empty code.
   */
  method HuffmanCompress(flat: seq<Byte>) returns (block: HuffmanBlock)
    ensures block.shape == |flat|
    ensures forall x :: x in block.codes <==> x in flat
    ensures Covers(block.codes, flat) && PrefixFree(block.codes)
    ensures |flat| > 0 && (forall i :: 0 <= i < |flat| ==> flat[i] == flat[0]) ==>
      block.codes == map[flat[0] := []]
    ensures (exists i, j :: 0 <= i < j < |flat| && flat[i] != flat[j]) ==>
      forall x :: x in block.codes ==> |block.codes[x]| > 0
    ensures block.padding == Padding(|Encode(block.codes, flat)|)
    ensures |block.compressedData| == 1 + |Encode(block.codes, flat)| / 8 + 1
    ensures block.compressedData[0] == block.padding
    ensures BytesToBits(block.compressedData) ==
      ToBinary(block.padding, 8) + Encode(block.codes, flat) + Zeros(block.padding)
    ensures Unpack(block.compressedData) == Some(Encode(block.codes, flat))
    ensures HuffmanDecompress(block) == Some(flat)
  {
    var freq := Frequencies(flat);
    var root := BuildHuffmanTree(freq);
    var codes := BuildCodes(root);
    CodeTableOfImage(flat, freq, root, codes);

    var encoded := ConcatCodes(codes, flat);
    var data, extraPadding := PackCodeBits(encoded);
    block := HuffmanBlock(data, codes, |flat|, extraPadding);
    DecompressBlock(block, flat);
  }

  /**
    Padding, header and packing of the code bits: `extra_padding` zero bits
    are appended, the 8-bit binary text of `extra_padding` is put in front,
    and the result is packed into bytes. The first byte is the padding
    count, and unpacking gives the code bits back.
   */
  method PackCodeBits(codeBits: Code) returns (data: seq<Byte>, extraPadding: nat)
    ensures extraPadding == Padding(|codeBits|)
    ensures |data| == 1 + |codeBits| / 8 + 1
    ensures |data| > 0 && data[0] == extraPadding
    ensures BytesToBits(data) == ToBinary(extraPadding, 8) + codeBits + Zeros(extraPadding)
    ensures Unpack(data) == Some(codeBits)
  {
    var encoded := codeBits;
    extraPadding := Padding(|encoded|);
    encoded := encoded + Zeros(extraPadding);
    assert Pow2(8) == 256;
    var paddedInfo := ToBinary(extraPadding, 8);
    encoded := paddedInfo + encoded;
    data := PackBytes(encoded);
    UnpackPacked(data, extraPadding, codeBits);
  }

  /** A block whose buffer unpacks to the encoding of `flat` under a prefix-free table decodes to `flat`. */
  lemma DecompressBlock(block: HuffmanBlock, flat: seq<Byte>)
    requires PrefixFree(block.codes) && Covers(block.codes, flat) && block.shape == |flat|
    requires Unpack(block.compressedData) == Some(Encode(block.codes, flat))
    ensures HuffmanDecompress(block) == Some(flat)
  {
    DecodeEncode(block.codes, flat);
  }

  /** `"".join([codes[pixel] for pixel in flat])`: the pixels' codes, in pixel order. */
  method ConcatCodes(codes: CodeTable, flat: seq<Byte>) returns (encoded: Code)
    requires Covers(codes, flat)
    ensures encoded == Encode(codes, flat)
  {
    encoded := [];
    for i := 0 to |flat|
      invariant encoded == Encode(codes, flat[..i])
    {
      EncodeAppend(codes, flat[..i], flat[i]);
      assert flat[..i + 1] == flat[..i] + [flat[i]];
      encoded := encoded + codes[flat[i]];
    }
    assert flat[..|flat|] == flat;
  }

  /**
    The table built from `Counter(flat)` covers exactly the image's values,
    is prefix-free, is the empty code for an image of one repeated value,
    and has only non-empty codes for an image with two distinct values.
   */
  lemma CodeTableOfImage(flat: seq<Byte>, freq: Table, root: Option<Tree>, codes: CodeTable)
    requires freq == Frequencies(flat)
    requires root.None? <==> |freq| == 0
    requires root.Some? ==> Symbols(root.value) == multiset(freq.Keys)
    requires root.Some? ==> InternalCount(root.value) == |freq| - 1
    requires root.None? ==> codes == map[]
    requires root.Some? ==> codes == PathCodes(root.value, [])
    ensures forall x :: x in codes <==> x in flat
    ensures Covers(codes, flat)
    ensures |flat| > 0 && (forall i :: 0 <= i < |flat| ==> flat[i] == flat[0]) ==>
      codes == map[flat[0] := []]
    ensures (exists i, j :: 0 <= i < j < |flat| && flat[i] != flat[j]) ==>
      forall x :: x in codes ==> |codes[x]| > 0
  {
    if root.Some? {
      PathCodesDomain(root.value, []);
      PathCodesExtend(root.value, []);
      forall x ensures x in codes <==> x in flat {
        assert x in freq <==> x in multiset(freq.Keys);
      }
      SingleValueCode(flat, freq, root.value, codes);
      DistinctValuesCodes(flat, freq, root.value, codes);
    } else {
      assert forall x :: x !in flat by {
        forall x ensures x !in flat {
          assert x !in freq;
        }
      }
    }
  }

  /** With a single distinct value the tree is one leaf and its symbol gets the empty code. */
  lemma SingleValueCode(flat: seq<Byte>, freq: Table, root: Tree, codes: CodeTable)
    requires freq == Frequencies(flat)
    requires Symbols(root) == multiset(freq.Keys) && InternalCount(root) == |freq| - 1
    requires codes == PathCodes(root, [])
    ensures |flat| > 0 && (forall i :: 0 <= i < |flat| ==> flat[i] == flat[0]) ==>
      codes == map[flat[0] := []]
  {
    if |flat| > 0 && forall i :: 0 <= i < |flat| ==> flat[i] == flat[0] {
      assert freq.Keys == {flat[0]};
      assert |freq| == 1;
      assert root.Leaf?;
      assert root.symbol in multiset(freq.Keys);
    }
  }

  /** With two distinct values the tree has an internal root, so every code is non-empty. */
  lemma DistinctValuesCodes(flat: seq<Byte>, freq: Table, root: Tree, codes: CodeTable)
    requires freq == Frequencies(flat)
    requires Symbols(root) == multiset(freq.Keys) && InternalCount(root) == |freq| - 1
    requires codes == PathCodes(root, [])
    ensures (exists i, j :: 0 <= i < j < |flat| && flat[i] != flat[j]) ==>
      forall x :: x in codes ==> |codes[x]| > 0
  {
    if exists i, j :: 0 <= i < j < |flat| && flat[i] != flat[j] {
      var i, j :| 0 <= i < j < |flat| && flat[i] != flat[j];
      assert {flat[i], flat[j]} <= freq.Keys;
      assert |freq| >= |{flat[i], flat[j]}| == 2 by {
        SubsetCard({flat[i], flat[j]}, freq.Keys);
      }
      assert root.Node?;
      PathCodesDomain(root, []);
      PathCodesExtend(root, []);
    }
  }

  lemma SubsetCard(a: set<Byte>, b: set<Byte>)
    requires a <= b
    ensures |a| <= |b|
  {
    assert b == a + (b - a);
  }
}
