/**
  Run-length encoding of a flattened pixel stream (`rle_compress`).
  The encoder emits one (value, count) pair per maximal run, scanning left to
  right. `Expand` is the model's decoder, used to state the round trip.
 */
module RunLength {
  import opened Pixels
  import opened Wrappers

  /** The only way the encoder fails: reading the first pixel of an empty image. */
  datatype RleError = EmptyImage

  /** One emitted pair: the repeated value and how many times it repeats. */
  datatype Run = Run(value: Byte, count: nat)

  /** `count` copies of `value`. */
  function Repeat(value: Byte, count: nat): (s: seq<Byte>)
    ensures |s| == count && forall i :: 0 <= i < count ==> s[i] == value
  {
    seq(count, _ => value)
  }

  /** The stream a run list stands for: each run expanded, in order. */
  function Expand(runs: seq<Run>): seq<Byte>
  {
    if runs == [] then [] else Repeat(runs[0].value, runs[0].count) + Expand(runs[1..])
  }

  /** Sum of the run counts. */
  function SumCounts(runs: seq<Run>): nat
  {
    if runs == [] then 0 else runs[0].count + SumCounts(runs[1..])
  }

  /** Every run is non-empty and neighbouring runs hold different values, so no run can be extended. */
  ghost predicate Maximal(runs: seq<Run>)
  {
    (forall i :: 0 <= i < |runs| ==> runs[i].count >= 1) &&
    (forall i :: 0 <= i < |runs| - 1 ==> runs[i].value != runs[i + 1].value)
  }

  /** No two neighbouring values of the stream are equal. */
  ghost predicate NoAdjacentRepeats(s: seq<Byte>)
  {
    forall i :: 0 <= i < |s| - 1 ==> s[i] != s[i + 1]
  }

  /** Extending a run list at the end keeps it maximal exactly when the new run is non-empty and differs from the last one. */
  lemma MaximalSnoc(runs: seq<Run>, r: Run)
    ensures Maximal(runs + [r]) <==>
      Maximal(runs) && r.count >= 1 && (runs != [] ==> runs[|runs| - 1].value != r.value)
  {
    var t := runs + [r];
    assert forall i :: 0 <= i < |runs| ==> t[i] == runs[i];
    assert t[|runs|] == r;
  }

  lemma {:induction false} ExpandAppend(runs: seq<Run>, r: Run)
    ensures Expand(runs + [r]) == Expand(runs) + Repeat(r.value, r.count)
  {
    if runs == [] {
      assert runs + [r] == [r];
    } else {
      assert (runs + [r])[1..] == runs[1..] + [r];
      ExpandAppend(runs[1..], r);
    }
  }

  /** The counts add up to the length of the stream the runs stand for. */
  lemma {:induction false} SumCountsIsLength(runs: seq<Run>)
    ensures SumCounts(runs) == |Expand(runs)|
  {
    if runs != [] {
      SumCountsIsLength(runs[1..]);
    }
  }

  /**
    `rle_compress`: one pass over the stream with the value of the current
    run (`prev`) and its length so far (`count`). Reading `flat[0]` raises
    an index error on an empty image, modelled as `Err(EmptyImage)`.
   */
  method RleCompress(flat: seq<Byte>) returns (result: Result<seq<Run>, RleError>)
    ensures result.Err? <==> flat == []
    ensures result.Ok? ==> Expand(result.value) == flat
    ensures result.Ok? ==> Maximal(result.value)
    ensures result.Ok? ==> SumCounts(result.value) == |flat|
  {
    if |flat| == 0 {
      return Err(EmptyImage);
    }
    var runs := [];
    var prev := flat[0];
    var count := 1;
    for i := 1 to |flat|
      invariant count >= 1
      invariant prev == flat[i - 1]
      invariant Expand(runs) + Repeat(prev, count) == flat[..i]
      invariant Maximal(runs) && (runs != [] ==> runs[|runs| - 1].value != prev)
    {
      if flat[i] == prev {
        count := count + 1;
        assert Repeat(prev, count) == Repeat(prev, count - 1) + [flat[i]];
      } else {
        ExpandAppend(runs, Run(prev, count));
        MaximalSnoc(runs, Run(prev, count));
        runs := runs + [Run(prev, count)];
        prev := flat[i];
        count := 1;
      }
      assert flat[..i + 1] == flat[..i] + [flat[i]];
    }
    ExpandAppend(runs, Run(prev, count));
    MaximalSnoc(runs, Run(prev, count));
    runs := runs + [Run(prev, count)];
    assert flat[..|flat|] == flat;
    SumCountsIsLength(runs);
    result := Ok(runs);
  }

  /**
    A stream has exactly one maximal run list: the encoder's output is
    determined by its input.
   */
  lemma {:induction false} MaximalRunsUnique(a: seq<Run>, b: seq<Run>)
    requires Maximal(a) && Maximal(b)
    requires Expand(a) == Expand(b)
    ensures a == b
  {
    if a == [] || b == [] {
    } else {
      var s := Expand(a);
      assert s == Repeat(a[0].value, a[0].count) + Expand(a[1..]);
      assert s == Repeat(b[0].value, b[0].count) + Expand(b[1..]);
      assert a[0].value == s[0] == b[0].value;
      if a[0].count < b[0].count {
        RunBoundary(a);
        assert false;
      } else if b[0].count < a[0].count {
        RunBoundary(b);
        assert false;
      }
      assert a[0] == b[0];
      assert Expand(a[1..]) == s[a[0].count..] == Expand(b[1..]);
      MaximalRunsUnique(a[1..], b[1..]);
    }
  }

  /** The stream starts with the first run's value repeated `count` times. */
  lemma HeadRun(runs: seq<Run>)
    requires runs != []
    ensures |Expand(runs)| >= runs[0].count
    ensures forall i :: 0 <= i < runs[0].count ==> Expand(runs)[i] == runs[0].value
  {
    assert Expand(runs) == Repeat(runs[0].value, runs[0].count) + Expand(runs[1..]);
  }

  /**
    In a maximal run list the first run ends where the stream ends or where
    the value changes.
   */
  lemma {:induction false} RunBoundary(runs: seq<Run>)
    requires Maximal(runs) && runs != []
    ensures |Expand(runs)| == runs[0].count ||
            (|Expand(runs)| > runs[0].count && Expand(runs)[runs[0].count] != runs[0].value)
  {
    var rest := runs[1..];
    assert Expand(runs) == Repeat(runs[0].value, runs[0].count) + Expand(rest);
    if rest != [] {
      assert Maximal(rest);
      assert Expand(rest) == Repeat(rest[0].value, rest[0].count) + Expand(rest[1..]);
      assert Expand(rest)[0] == rest[0].value;
    }
  }

  /**
    The encoder never emits more pairs than the stream has values, and it
    emits exactly as many precisely when no two neighbouring values repeat
    (the worst case, where the list is twice the size of the image).
   */
  lemma {:induction false} RunCountBound(runs: seq<Run>)
    requires Maximal(runs)
    ensures |runs| <= |Expand(runs)|
    ensures |runs| == |Expand(runs)| <==> NoAdjacentRepeats(Expand(runs))
  {
    if runs != [] {
      var rest := runs[1..];
      var head := Repeat(runs[0].value, runs[0].count);
      assert Maximal(rest);
      RunCountBound(rest);
      assert Expand(runs) == head + Expand(rest);
      var s := Expand(runs);
      if |runs| == |s| {
        // Every count is 1 and the rest has no repeats.
        assert runs[0].count == 1 && |rest| == |Expand(rest)|;
        forall i | 0 <= i < |s| - 1
          ensures s[i] != s[i + 1]
        {
          if i == 0 {
            assert rest != [];
            assert Expand(rest) == Repeat(rest[0].value, rest[0].count) + Expand(rest[1..]);
            assert s[1] == Expand(rest)[0] == rest[0].value;
          } else {
            assert s[i] == Expand(rest)[i - 1] && s[i + 1] == Expand(rest)[i];
          }
        }
      }
      if NoAdjacentRepeats(s) {
        HeadRun(runs);
        assert |s| >= 2 ==> s[0] != s[1];
        assert runs[0].count == 1;
        assert NoAdjacentRepeats(Expand(rest)) by {
          forall i | 0 <= i < |Expand(rest)| - 1
            ensures Expand(rest)[i] != Expand(rest)[i + 1]
          {
            assert Expand(rest)[i] == s[i + 1] && Expand(rest)[i + 1] == s[i + 2];
          }
        }
      }
    }
  }
}
