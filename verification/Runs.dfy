/** Physical memory runs, their geometry and their totals. */
module Runs {
  import opened Words

  /** One run of the frozen table; `driverIndex` is its position in the driver's own order. */
  datatype MemoryRun = MemoryRun(driverIndex: u32, base: u64, length: u64) {
    function End(): nat {
      base + length
    }

    predicate Covers(a: int) {
      base <= a < base + length
    }
  }

  /** Every run is non-empty and ends inside the 64-bit address domain. */
  ghost predicate Sane(runs: seq<MemoryRun>) {
    forall i :: 0 <= i < |runs| ==> runs[i].length > 0 && runs[i].End() <= U64_MAX
  }

  ghost predicate SortedDisjoint(runs: seq<MemoryRun>) {
    forall i, j :: 0 <= i < j < |runs| ==> runs[i].End() <= runs[j].base
  }

  /** No run starts exactly where another one ends. */
  ghost predicate NoneTouch(runs: seq<MemoryRun>) {
    forall i, j :: 0 <= i < |runs| && 0 <= j < |runs| ==> runs[i].End() != runs[j].base
  }

  ghost predicate InRuns(runs: seq<MemoryRun>, a: int) {
    exists i :: 0 <= i < |runs| && runs[i].Covers(a)
  }

  function SumLengths(runs: seq<MemoryRun>): nat {
    if |runs| == 0 then 0 else SumLengths(runs[..|runs| - 1]) + runs[|runs| - 1].length
  }

  /** Greatest run end, 0 for no runs. */
  function HighestEnd(runs: seq<MemoryRun>): nat {
    if |runs| == 0 then 0 else Max(HighestEnd(runs[..|runs| - 1]), runs[|runs| - 1].End())
  }

  lemma {:induction false} SumLengthsPrefix(runs: seq<MemoryRun>, n: nat)
    requires n <= |runs|
    ensures SumLengths(runs[..n]) <= SumLengths(runs)
    decreases |runs|
  {
    if n < |runs| {
      assert runs[..|runs| - 1][..n] == runs[..n];
      SumLengthsPrefix(runs[..|runs| - 1], n);
    } else {
      assert runs[..n] == runs;
    }
  }

  /** Sorted disjoint runs never hold more bytes than the address they end at. */
  lemma {:induction false} SumWithinLastEnd(runs: seq<MemoryRun>)
    requires SortedDisjoint(runs)
    ensures |runs| > 0 ==> SumLengths(runs) <= runs[|runs| - 1].End()
    ensures |runs| == 0 ==> SumLengths(runs) == 0
  {
    if |runs| > 0 {
      var init := runs[..|runs| - 1];
      SumWithinLastEnd(init);
      if |init| > 0 {
        assert init[|init| - 1] == runs[|runs| - 2];
      }
    }
  }

  lemma {:induction false} HighestEndIsLastEnd(runs: seq<MemoryRun>)
    requires SortedDisjoint(runs) && |runs| > 0
    ensures HighestEnd(runs) == runs[|runs| - 1].End()
  {
    if |runs| > 1 {
      var init := runs[..|runs| - 1];
      HighestEndIsLastEnd(init);
      assert init[|init| - 1] == runs[|runs| - 2];
    }
  }

  lemma {:induction false} HighestEndBounds(runs: seq<MemoryRun>)
    ensures forall i :: 0 <= i < |runs| ==> runs[i].End() <= HighestEnd(runs)
    ensures |runs| > 0 ==> exists i :: 0 <= i < |runs| && runs[i].End() == HighestEnd(runs)
  {
    if |runs| > 0 {
      var init := runs[..|runs| - 1];
      HighestEndBounds(init);
      forall i | 0 <= i < |runs|
        ensures runs[i].End() <= HighestEnd(runs)
      {
        if i < |init| {
          assert init[i] == runs[i];
        }
      }
      if HighestEnd(init) >= runs[|runs| - 1].End() && |init| > 0 {
        var i :| 0 <= i < |init| && init[i].End() == HighestEnd(init);
        assert runs[i].End() == HighestEnd(runs);
      } else {
        assert runs[|runs| - 1].End() == HighestEnd(runs);
      }
    }
  }

  /** An unbroken stretch of populated addresses lies inside one run when no two runs touch. */
  lemma {:induction false} StretchInOneRun(runs: seq<MemoryRun>, lo: nat, hi: nat)
    requires SortedDisjoint(runs) && NoneTouch(runs)
    requires lo < hi && forall a :: lo <= a < hi ==> InRuns(runs, a)
    ensures exists i :: 0 <= i < |runs| && runs[i].base <= lo && hi <= runs[i].End()
    decreases hi - lo
  {
    assert InRuns(runs, hi - 1);
    var j :| 0 <= j < |runs| && runs[j].Covers(hi - 1);
    if hi - lo == 1 {
    } else {
      StretchInOneRun(runs, lo, hi - 1);
      var i :| 0 <= i < |runs| && runs[i].base <= lo && hi - 1 <= runs[i].End();
      assert runs[i].End() != runs[j].base;
    }
  }
}
