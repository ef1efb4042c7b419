/**
  Frequency tables: `Counter(flat)` maps each symbol of the stream to its
  number of occurrences. `TableSum` adds up a table's counts over the whole
  byte alphabet.
 */
module Frequency {
  import opened Pixels

  /** A symbol-to-count table, as a Python dict from pixel value to int. */
  type Table = map<Byte, nat>

  /** `Counter(flat)`: the symbols of the stream, each with its occurrence count. */
  function Frequencies(s: seq<Byte>): (freq: Table)
    ensures forall b :: b in freq <==> b in s
    ensures forall b :: b in freq ==> freq[b] > 0
    ensures forall b :: b in freq ==> freq[b] == multiset(s)[b]
  {
    map b | b in multiset(s) :: multiset(s)[b]
  }

  /** The count a table records for `b`, zero for an absent symbol. */
  function CountOf(freq: Table, b: Byte): nat
  {
    if b in freq then freq[b] else 0
  }

  /** Sum of the counts of the symbols `from`..255. */
  function SumFrom(freq: Table, from: nat): nat
    requires from <= 256
    decreases 256 - from
  {
    if from == 256 then 0 else CountOf(freq, from) + SumFrom(freq, from + 1)
  }

  /** Sum of all the counts in a table. */
  function TableSum(freq: Table): nat
  {
    SumFrom(freq, 0)
  }

  lemma {:induction false} SumFromRemove(freq: Table, k: Byte, from: nat)
    requires k in freq && from <= 256
    ensures SumFrom(freq, from) == (if from <= k then freq[k] else 0) + SumFrom(freq - {k}, from)
    decreases 256 - from
  {
    if from < 256 {
      SumFromRemove(freq, k, from + 1);
    }
  }

  /** Taking a symbol out of a table removes exactly its count from the sum. */
  lemma TableSumRemove(freq: Table, k: Byte)
    requires k in freq
    ensures TableSum(freq) == freq[k] + TableSum(freq - {k})
  {
    SumFromRemove(freq, k, 0);
  }

  lemma {:induction false} SumFromEmpty(from: nat)
    requires from <= 256
    ensures SumFrom(map[], from) == 0
    decreases 256 - from
  {
    if from < 256 {
      SumFromEmpty(from + 1);
    }
  }

  /** The empty table sums to zero. */
  lemma TableSumEmpty()
    ensures TableSum(map[]) == 0
  {
    SumFromEmpty(0);
  }

  /**
    If table `g` counts one more `x` than table `f` and agrees with it
    elsewhere, its partial sums exceed `f`'s by one exactly when they cover `x`.
   */
  lemma {:induction false} SumFromBump(f: Table, g: Table, x: Byte, from: nat)
    requires from <= 256
    requires forall b: Byte :: CountOf(g, b) == CountOf(f, b) + (if b == x then 1 else 0)
    ensures SumFrom(g, from) == SumFrom(f, from) + (if from <= x then 1 else 0)
    decreases 256 - from
  {
    if from < 256 {
      SumFromBump(f, g, x, from + 1);
    }
  }

  /** The counts of `Counter(flat)` add up to the number of pixel values. */
  lemma {:induction false} FrequenciesTotal(s: seq<Byte>)
    ensures TableSum(Frequencies(s)) == |s|
    decreases |s|
  {
    if s == [] {
      assert Frequencies(s) == map[];
      TableSumEmpty();
    } else {
      var init, x := s[..|s| - 1], s[|s| - 1];
      assert s == init + [x];
      FrequenciesTotal(init);
      assert forall b: Byte ::
        CountOf(Frequencies(s), b) == CountOf(Frequencies(init), b) + (if b == x then 1 else 0);
      SumFromBump(Frequencies(init), Frequencies(s), x, 0);
    }
  }
}
