/**
  Size accounting (`calculate_compression_ratio`): a byte size chosen by the
  kind of representation, then the percentage saved. Serialised sizes
  (`pickle.dumps`, the text of the code table) are inputs of the model.
 */
module SizeRatio {
  import opened Pixels
  import opened Wrappers
  import opened RunLength
  import opened HuffmanCodes
  import opened HuffmanCompression

  /** The original image as `calculate_compression_ratio` sees it. */
  datatype Original =
    | NdArray(elementCount: nat, itemSize: nat)  // a numpy array, sized by `nbytes`
    | PickledOriginal(pickledLength: nat)         // anything else, sized by `len(pickle.dumps(...))`

  /** The compressed representation, by the kind the size rule looks at. */
  datatype Compressed =
    | RawBytes(data: seq<Byte>)          // `bytes` / `bytearray`
    | TokenList(runs: seq<Run>)          // a list: the run-length output
    | BlockDict(block: HuffmanBlock)     // a dict holding "compressed_data": the Huffman output
    | PickledOther(pickledLength: nat)   // anything else, sized by `len(pickle.dumps(...))`

  datatype RatioError = ZeroDivisionError

  /** Byte size of the original: `nbytes` for an array, the pickled length otherwise. */
  function OriginalSize(original: Original): nat
  {
    match original
    case NdArray(count, width) => count * width
    case PickledOriginal(n) => n
  }

  /**
    Byte size of the compressed form: the length of a byte string, two
    bytes per list entry, the packed bytes plus the length of the encoded
    text of the code table (`codesTextLength`) for a Huffman dict, the
    pickled length otherwise.
   */
  function CompressedSize(compressed: Compressed, codesTextLength: CodeTable -> nat): nat
  {
    match compressed
    case RawBytes(data) => |data|
    case TokenList(runs) => |runs| * 2
    case BlockDict(block) => |block.compressedData| + codesTextLength(block.codes)
    case PickledOther(n) => n
  }

  /**
    `calculate_compression_ratio`: `(1 - compressed / original) * 100`, the
    percentage of the original's size that is saved. The division is not
    guarded, so an original of size 0 raises. The ratio is below 100
    exactly when the compressed size is positive, and non-negative exactly
    when nothing was lost to expansion.
   */
  function CalculateCompressionRatio(original: Original, compressed: Compressed, codesTextLength: CodeTable -> nat)
    : (r: Result<real, RatioError>)
    ensures r.Err? <==> OriginalSize(original) == 0
    ensures r.Ok? ==> var o, c := OriginalSize(original) as real, CompressedSize(compressed, codesTextLength) as real;
      && r.value * o == 100.0 * (o - c)
      && (r.value < 100.0 <==> c > 0.0)
      && (r.value >= 0.0 <==> c <= o)
  {
    var originalSize := OriginalSize(original);
    var compressedSize := CompressedSize(compressed, codesTextLength);
    if originalSize == 0 then Err(ZeroDivisionError)
    else Ok((1.0 - compressedSize as real / originalSize as real) * 100.0)
  }

  /**
    The ratio with an original of size 0 defined as 0, the behaviour the
    video summary already has; otherwise it is the source's ratio.
   */
  function GuardedCompressionRatio(original: Original, compressed: Compressed, codesTextLength: CodeTable -> nat)
    : (r: real)
    ensures OriginalSize(original) == 0 ==> r == 0.0
    ensures OriginalSize(original) > 0 ==>
      CalculateCompressionRatio(original, compressed, codesTextLength) == Ok(r)
    ensures r < 100.0 <==> OriginalSize(original) == 0 || CompressedSize(compressed, codesTextLength) > 0
  {
    match CalculateCompressionRatio(original, compressed, codesTextLength)
    case Err(_) => 0.0
    case Ok(ratio) => ratio
  }

  /**
    An empty uint8 image (0 bytes) with any compressed form: the source's
    ratio raises instead of reporting a value, while the guarded ratio is 0.
   */
  lemma EmptyImageRatio(compressed: Compressed, codesTextLength: CodeTable -> nat)
    ensures CalculateCompressionRatio(NdArray(0, 1), compressed, codesTextLength) == Err(ZeroDivisionError)
    ensures GuardedCompressionRatio(NdArray(0, 1), compressed, codesTextLength) == 0.0
  {
  }

  /**
    For a uint8 image and its run-length output the ratio is never below
    -100 (two bytes per run, at most one run per pixel), and it is exactly
    -100 when no two neighbouring pixel values repeat.
   */
  lemma {:induction false} RleRatioBound(flat: seq<Byte>, runs: seq<Run>, codesTextLength: CodeTable -> nat)
    requires |flat| > 0 && Expand(runs) == flat && Maximal(runs)
    ensures CalculateCompressionRatio(NdArray(|flat|, 1), TokenList(runs), codesTextLength).Ok?
    ensures var r := CalculateCompressionRatio(NdArray(|flat|, 1), TokenList(runs), codesTextLength).value;
      r >= -100.0 && (r == -100.0 <==> NoAdjacentRepeats(flat))
  {
    RunCountBound(runs);
    var r := CalculateCompressionRatio(NdArray(|flat|, 1), TokenList(runs), codesTextLength).value;
    RunListRatio(|runs|, |flat|, r);
  }

  /** A ratio `r` of 2k bytes against n bytes, k <= n: never below -100, and -100 exactly when k = n. */
  lemma RunListRatio(k: nat, n: nat, r: real)
    requires 0 < n && k <= n
    requires r * n as real == 100.0 * (n as real - (k * 2) as real)
    ensures r >= -100.0 && (r == -100.0 <==> k == n)
  {
    assert (k * 2) as real == 2.0 * k as real;
    ScaleCompare(-100.0, r, n as real);
  }

  /** Comparing two reals scaled by the same positive factor. */
  lemma ScaleCompare(x: real, y: real, m: real)
    requires m > 0.0
    ensures x * m <= y * m <==> x <= y
    ensures x * m == y * m <==> x == y
  {
    if x <= y {
      assert (y - x) * m >= 0.0;
    } else {
      assert (x - y) * m > 0.0;
    }
  }
}
