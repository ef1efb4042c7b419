/**
  The code table builder (`build_codes` / `_generate_codes`): a walk of the
  Huffman tree that appends '0' towards `left` and '1' towards `right` and
  records the path at each leaf in a shared dict. Codes are strings of the
  characters '0' and '1', as in the source. `DecodeSymbols` is the model's
  decoder, used to state that the codes can be read back.
 */
module HuffmanCodes {
  import opened Pixels
  import opened Wrappers
  import opened Bits
  import opened HuffmanTree

  type CodeTable = map<Byte, Code>

  /** The table `_generate_codes(t, path)` writes: each leaf symbol with its path from the root. */
  function PathCodes(t: Tree, path: Code): CodeTable
  {
    match t
    case Leaf(s, _) => map[s := path]
    case Node(_, l, r) => PathCodes(l, path + ['0']) + PathCodes(r, path + ['1'])
  }

  predicate IsPrefix(a: Code, b: Code)
  {
    |a| <= |b| && b[..|a|] == a
  }

  /** No symbol's code begins another symbol's code. */
  ghost predicate PrefixFree(codes: CodeTable)
  {
    forall a, b :: a in codes && b in codes && a != b ==> !IsPrefix(codes[a], codes[b])
  }

  /** The walk records a code for exactly the tree's symbols. */
  lemma {:induction false} PathCodesDomain(t: Tree, path: Code)
    ensures forall x :: x in PathCodes(t, path) <==> x in Symbols(t)
  {
    match t
    case Leaf(_, _) =>
    case Node(_, l, r) =>
      PathCodesDomain(l, path + ['0']);
      PathCodesDomain(r, path + ['1']);
  }

  /** Every code extends the starting path, strictly so below an internal node. */
  lemma {:induction false} PathCodesExtend(t: Tree, path: Code)
    ensures forall x :: x in PathCodes(t, path) ==> IsPrefix(path, PathCodes(t, path)[x])
    ensures t.Node? ==> forall x :: x in PathCodes(t, path) ==> |PathCodes(t, path)[x]| > |path|
  {
    match t
    case Leaf(_, _) =>
    case Node(_, l, r) =>
      var p0, p1 := path + ['0'], path + ['1'];
      var left, right := PathCodes(l, p0), PathCodes(r, p1);
      PathCodesExtend(l, p0);
      PathCodesExtend(r, p1);
      var all: CodeTable := left + right;
      forall x | x in all
        ensures IsPrefix(path, all[x]) && |all[x]| > |path|
      {
        var p: Code := if x in right then p1 else p0;
        var c: Code := if x in right then right[x] else left[x];
        assert all[x] == c;
        assert IsPrefix(p, c);
        assert c[..|path|] == p[..|path|] == path;
      }
  }

  /** Paths to different leaves are never prefixes of one another: the table is prefix-free. */
  lemma {:induction false} PathCodesPrefixFree(t: Tree, path: Code)
    ensures PrefixFree(PathCodes(t, path))
  {
    match t
    case Leaf(_, _) =>
    case Node(_, l, r) =>
      var p0, p1 := path + ['0'], path + ['1'];
      var left, right := PathCodes(l, p0), PathCodes(r, p1);
      PathCodesPrefixFree(l, p0);
      PathCodesPrefixFree(r, p1);
      PathCodesDomain(l, p0);
      PathCodesExtend(l, p0);
      PathCodesDomain(r, p1);
      PathCodesExtend(r, p1);
      var codes := PathCodes(t, path);
      forall a, b | a in codes && b in codes && a != b
        ensures !IsPrefix(codes[a], codes[b])
      {
        if a in right && b in right {
        } else if a !in right && b !in right {
        } else {
          // One code continues with '0' after `path`, the other with '1'.
          var ca, cb := codes[a], codes[b];
          var pa := if a in right then p1 else p0;
          var pb := if b in right then p1 else p0;
          assert IsPrefix(pa, ca) && IsPrefix(pb, cb);
          assert ca[|path|] == pa[|path|] != pb[|path|] == cb[|path|];
        }
      }
  }

  lemma UnionAssociative(a: CodeTable, b: CodeTable, c: CodeTable)
    ensures (a + b) + c == a + (b + c)
  {
  }

  /**
    The shared `codes` dict of `build_codes`, filled in place by the
    recursive `_generate_codes`.
   */
  class CodeBuilder {
    var codes: CodeTable

    constructor ()
      ensures codes == map[]
    {
      codes := map[];
    }

    /**
      `_generate_codes(node, code)`: a leaf records `code` for its symbol,
      an internal node recurses left with '0' and then right with '1'. The
      children of a leaf are `None`, so the recursion stops there.
     */
    method Generate(node: Tree, code: Code)
      modifies this
      ensures codes == old(codes) + PathCodes(node, code)
      decreases node
    {
      match node
      case Leaf(s, _) =>
        codes := codes[s := code];
      case Node(_, l, r) =>
        Generate(l, code + ['0']);
        Generate(r, code + ['1']);
        UnionAssociative(old(codes), PathCodes(l, code + ['0']), PathCodes(r, code + ['1']));
    }
  }

  /**
    `build_codes`: the code table of a tree (empty for `None`). With two or
    more leaves every code is non-empty; a tree that is a single leaf gives
    its symbol the empty code, since the walk never takes a step. Either
    way the table covers exactly the tree's symbols and is prefix-free.
   */
  method BuildCodes(root: Option<Tree>) returns (codes: CodeTable)
    ensures root.None? ==> codes == map[]
    ensures root.Some? ==> codes == PathCodes(root.value, [])
    ensures root.Some? ==> forall x :: x in codes <==> x in Symbols(root.value)
    ensures root.Some? && root.value.Leaf? ==> codes == map[root.value.symbol := []]
    ensures root.Some? && root.value.Node? ==> forall x :: x in codes ==> |codes[x]| > 0
    ensures PrefixFree(codes)
  {
    var builder := new CodeBuilder();
    if root.Some? {
      builder.Generate(root.value, []);
      PathCodesDomain(root.value, []);
      PathCodesExtend(root.value, []);
      PathCodesPrefixFree(root.value, []);
    }
    codes := builder.codes;
  }

  /** Every symbol of the stream has a code. */
  ghost predicate Covers(codes: CodeTable, s: seq<Byte>)
  {
    forall x :: x in s ==> x in codes
  }

  /** `"".join(codes[p] for p in flat)`: the codes of the stream, in order. */
  function Encode(codes: CodeTable, s: seq<Byte>): Code
    requires Covers(codes, s)
  {
    if s == [] then [] else codes[s[0]] + Encode(codes, s[1..])
  }

  lemma {:induction false} EncodeAppend(codes: CodeTable, s: seq<Byte>, x: Byte)
    requires Covers(codes, s + [x])
    ensures Encode(codes, s + [x]) == Encode(codes, s) + codes[x]
  {
    if s == [] {
      assert s + [x] == [x];
    } else {
      assert (s + [x])[1..] == s[1..] + [x];
      EncodeAppend(codes, s[1..], x);
    }
  }

  /** Two prefixes of one bit string: the shorter begins the longer. */
  lemma PrefixesOfSameBits(a: Code, b: Code, bits: Code)
    requires IsPrefix(a, bits) && IsPrefix(b, bits)
    ensures IsPrefix(a, b) || IsPrefix(b, a)
  {
    if |a| <= |b| {
      assert b[..|a|] == bits[..|a|];
    } else {
      assert a[..|b|] == bits[..|b|];
    }
  }

  /** Some symbol whose code begins `bits`, if there is one. */
  ghost function MatchCode(codes: CodeTable, bits: Code): (r: Option<Byte>)
    ensures r.Some? ==> r.value in codes && IsPrefix(codes[r.value], bits)
    ensures r.None? ==> forall x :: x in codes ==> !IsPrefix(codes[x], bits)
  {
    if exists x :: x in codes && IsPrefix(codes[x], bits) then
      var x :| x in codes && IsPrefix(codes[x], bits);
      Some(x)
    else
      None
  }

  /** In a prefix-free table at most one code begins a bit string. */
  lemma MatchUnique(codes: CodeTable, bits: Code, y: Byte)
    requires PrefixFree(codes) && y in codes && IsPrefix(codes[y], bits)
    ensures MatchCode(codes, bits) == Some(y)
  {
    var r := MatchCode(codes, bits);
    assert r.Some?;
    PrefixesOfSameBits(codes[r.value], codes[y], bits);
  }

  /**
    Reads `n` symbols back from a bit string: at each step a symbol whose
    code begins the remaining bits is taken. Fails when no code matches or
    bits are left over.
   */
  ghost function DecodeSymbols(codes: CodeTable, bits: Code, n: nat): Option<seq<Byte>>
    decreases n
  {
    if n == 0 then
      if bits == [] then Some([]) else None
    else
      match MatchCode(codes, bits)
      case None => None
      case Some(x) =>
        match DecodeSymbols(codes, bits[|codes[x]|..], n - 1)
        case None => None
        case Some(rest) => Some([x] + rest)
  }

  /**
    With a prefix-free table, decoding the encoding of a stream, given its
    length, gives the stream back. This includes the single-symbol table
    whose one code is empty.
   */
  lemma {:induction false} DecodeEncode(codes: CodeTable, s: seq<Byte>)
    requires PrefixFree(codes) && Covers(codes, s)
    ensures DecodeSymbols(codes, Encode(codes, s), |s|) == Some(s)
  {
    if s != [] {
      var bits := Encode(codes, s);
      var rest := Encode(codes, s[1..]);
      assert bits == codes[s[0]] + rest;
      MatchUnique(codes, bits, s[0]);
      assert bits[|codes[s[0]]|..] == rest;
      DecodeEncode(codes, s[1..]);
      assert [s[0]] + s[1..] == s;
    }
  }
}
