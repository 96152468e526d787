/**
 * The run extraction of DataHandler.save_maskfile: consecutive samples with
 * the same mask byte form a run, and every run with a non-zero mask becomes
 * one line of the mask file (mask, time of its first sample, time of its last
 * sample).  Opening and writing the file and formatting the times are not
 * modelled.
 *
 * The extraction is stated for any key type with a distinguished "no mask"
 * key; the mask file uses the mask byte of each status word, with 0 for none.
 */
module SaveMask {
  import opened Common
  import opened FlagWord

  /** One line of a mask file. */
  datatype Run<T> = Run(key: T, first: real, last: real)

  /** Whether a run's time span contains time t (both ends included). */
  predicate Within<T>(r: Run<T>, t: real) {
    r.first <= t <= r.last
  }

  /** n copies of v. */
  function Repeat(v: int, n: nat): (s: seq<int>)
    ensures |s| == n && forall i :: 0 <= i < n ==> s[i] == v
  {
    seq(n, _ => v)
  }

  /** Run r covers sample position j. */
  ghost predicate Owns(los: seq<nat>, his: seq<nat>, r: int, j: int) {
    0 <= r < |los| && r < |his| && los[r] <= j <= his[r]
  }

  lemma OwnsExtend(los: seq<nat>, his: seq<nat>, a: nat, b: nat, r: int, j: int)
    requires Owns(los, his, r, j)
    ensures Owns(los + [a], his + [b], r, j)
  {
  }

  /** On strictly increasing times, the order of two samples' times is the order of their positions. */
  lemma TimeOrder(times: seq<real>, i: int, j: int)
    requires StrictlySorted(times) && 0 <= i < |times| && 0 <= j < |times|
    ensures times[i] <= times[j] ==> i <= j
  {
    if j < i {
      assert times[j] < times[i];
    }
  }

  /**
   * What the loop of save_maskfile leaves behind, in terms of sample
   * positions: run r covers the samples los[r] .. his[r], all with its key;
   * the open block covers the samples from lo on, all with its key; and
   * owner[j] is the run holding the masked sample j before lo.
   */
  ghost predicate ScanFacts<T>(keys: seq<T>, times: seq<real>, none: T, closed: seq<Run<T>>, open: Run<T>,
                               lo: nat, los: seq<nat>, his: seq<nat>, owner: seq<int>)
    requires |keys| == |times|
  {
    && lo <= |keys| && |los| == |his| == |closed| && |owner| == lo
    && (forall j :: lo <= j < |keys| ==> keys[j] == open.key)
    && (open.key != none ==> lo < |keys| && open.first == times[lo] && open.last == times[|keys| - 1])
    && (forall r :: 0 <= r < |closed| ==>
          los[r] <= his[r] < lo && closed[r].key != none
          && closed[r].first == times[los[r]] && closed[r].last == times[his[r]])
    && (forall r, j :: 0 <= r < |closed| && los[r] <= j <= his[r] ==> keys[j] == closed[r].key)
    && (forall j :: 0 <= j < lo && keys[j] != none ==> Owns(los, his, owner[j], j))
  }

  /**
   * The loop of save_maskfile: the runs written inside the loop, and the
   * block still open when the loop ends (key, first time, last time).  The
   * open block starts with the "no mask" key at time 0, and a run is written
   * when the key changes and the finished block had a mask.
   */
  method ScanLoop<T(==)>(keys: seq<T>, times: seq<real>, none: T)
    returns (closed: seq<Run<T>>, open: Run<T>,
             ghost lo: nat, ghost los: seq<nat>, ghost his: seq<nat>, ghost owner: seq<int>)
    requires |keys| == |times|
    ensures open.key == if |keys| == 0 then none else keys[|keys| - 1]
    ensures ScanFacts(keys, times, none, closed, open, lo, los, his, owner)
  {
    var n := |keys|;
    var flags, ta, tb := none, 0.0, 0.0;
    closed := [];
    var k := 0;
    lo, los, his, owner := 0, [], [], [];
    while k < n
      invariant lo <= k <= n
      invariant |los| == |his| == |closed| && |owner| == lo
      invariant forall j :: lo <= j < k ==> keys[j] == flags
      invariant k > lo ==> tb == times[k - 1]
      invariant flags != none ==> k > lo && ta == times[lo]
      invariant flags == if k == 0 then none else keys[k - 1]
      invariant forall r :: 0 <= r < |closed| ==>
        los[r] <= his[r] < lo && closed[r].key != none
        && closed[r].first == times[los[r]] && closed[r].last == times[his[r]]
      invariant forall r, j :: 0 <= r < |closed| && los[r] <= j <= his[r] ==> keys[j] == closed[r].key
      invariant forall j :: 0 <= j < lo && keys[j] != none ==> Owns(los, his, owner[j], j)
    {
      var x := keys[k];
      if x == flags {
        tb := times[k];
      } else {
        if flags != none {
          forall j | 0 <= j < lo && keys[j] != none ensures Owns(los + [lo], his + [k - 1], owner[j], j) {
            OwnsExtend(los, his, lo, k - 1, owner[j], j);
          }
          closed := closed + [Run(flags, ta, tb)];
          los, his := los + [lo], his + [k - 1];
          owner := owner + Repeat(|closed| - 1, k - lo);
        } else {
          owner := owner + Repeat(-1, k - lo);
        }
        ta, tb := times[k], times[k];
        flags := x;
        lo := k;
      }
      k := k + 1;
    }
    open := Run(flags, ta, tb);
  }

  /** On strictly increasing times, a closed run's time span holds only its own samples. */
  lemma ClosedKeys<T>(keys: seq<T>, times: seq<real>, none: T, closed: seq<Run<T>>, open: Run<T>,
                      lo: nat, los: seq<nat>, his: seq<nat>, owner: seq<int>, r: int, i: int)
    requires |keys| == |times| && StrictlySorted(times)
    requires ScanFacts(keys, times, none, closed, open, lo, los, his, owner)
    requires 0 <= r < |closed| && 0 <= i < |keys| && Within(closed[r], times[i])
    ensures keys[i] == closed[r].key
  {
    TimeOrder(times, los[r], i);
    TimeOrder(times, i, his[r]);
  }

  /** On strictly increasing times, the open block's time span holds only its own samples. */
  lemma OpenKeys<T>(keys: seq<T>, times: seq<real>, none: T, closed: seq<Run<T>>, open: Run<T>,
                    lo: nat, los: seq<nat>, his: seq<nat>, owner: seq<int>, i: int)
    requires |keys| == |times| && StrictlySorted(times)
    requires ScanFacts(keys, times, none, closed, open, lo, los, his, owner)
    requires open.key != none && 0 <= i < |keys| && Within(open, times[i])
    ensures keys[i] == open.key
  {
    TimeOrder(times, lo, i);
  }

  /** Every masked sample lies within a closed run or within the open block. */
  lemma MaskedCovered<T>(keys: seq<T>, times: seq<real>, none: T, closed: seq<Run<T>>, open: Run<T>,
                         lo: nat, los: seq<nat>, his: seq<nat>, owner: seq<int>, i: int)
    returns (r: int)
    requires |keys| == |times| && StrictlySorted(times)
    requires ScanFacts(keys, times, none, closed, open, lo, los, his, owner)
    requires 0 <= i < |keys| && keys[i] != none
    ensures (0 <= r < |closed| && Within(closed[r], times[i]))
      || (r == |closed| && open.key != none && Within(open, times[i]))
  {
    if i < lo {
      r := owner[i];
      assert Owns(los, his, r, i);
      TimeOrder(times, los[r], i);
      TimeOrder(times, i, his[r]);
      assert times[los[r]] <= times[i] <= times[his[r]];
    } else {
      r := |closed|;
      assert times[lo] <= times[i] <= times[|keys| - 1];
    }
  }

  /** The runs written in the end: the closed runs, and the open block when it has a mask. */
  function Finish<T(==)>(closed: seq<Run<T>>, open: Run<T>, none: T): (runs: seq<Run<T>>)
    ensures |runs| == |closed| + (if open.key != none then 1 else 0)
    ensures forall r :: 0 <= r < |closed| ==> runs[r] == closed[r]
    ensures open.key != none ==> runs[|closed|] == open
  {
    if open.key != none then closed + [open] else closed
  }

  lemma FinishRuns<T>(keys: seq<T>, times: seq<real>, none: T, closed: seq<Run<T>>, open: Run<T>,
                          lo: nat, los: seq<nat>, his: seq<nat>, owner: seq<int>)
    requires |keys| == |times| && StrictlySorted(times)
    requires ScanFacts(keys, times, none, closed, open, lo, los, his, owner)
    ensures var runs := Finish(closed, open, none);
      forall r :: 0 <= r < |runs| ==> runs[r].key != none && runs[r].first <= runs[r].last
  {
    var runs := Finish(closed, open, none);
    forall r | 0 <= r < |runs| ensures runs[r].key != none && runs[r].first <= runs[r].last {
      if r == |closed| {
        assert times[lo] <= times[|keys| - 1];
      } else {
        assert times[los[r]] <= times[his[r]];
      }
    }
  }

  lemma FinishKeys<T>(keys: seq<T>, times: seq<real>, none: T, closed: seq<Run<T>>, open: Run<T>,
                          lo: nat, los: seq<nat>, his: seq<nat>, owner: seq<int>)
    requires |keys| == |times| && StrictlySorted(times)
    requires ScanFacts(keys, times, none, closed, open, lo, los, his, owner)
    ensures var runs := Finish(closed, open, none);
      forall r, i :: 0 <= r < |runs| && 0 <= i < |keys| && Within(runs[r], times[i]) ==> keys[i] == runs[r].key
  {
    var runs := Finish(closed, open, none);
    forall r, i | 0 <= r < |runs| && 0 <= i < |keys| && Within(runs[r], times[i])
      ensures keys[i] == runs[r].key
    {
      if r == |closed| {
        OpenKeys(keys, times, none, closed, open, lo, los, his, owner, i);
      } else {
        ClosedKeys(keys, times, none, closed, open, lo, los, his, owner, r, i);
      }
    }
  }

  lemma FinishCovers<T>(keys: seq<T>, times: seq<real>, none: T, closed: seq<Run<T>>, open: Run<T>,
                            lo: nat, los: seq<nat>, his: seq<nat>, owner: seq<int>)
    requires |keys| == |times| && StrictlySorted(times)
    requires ScanFacts(keys, times, none, closed, open, lo, los, his, owner)
    ensures var runs := Finish(closed, open, none);
      forall i :: 0 <= i < |keys| && keys[i] != none ==> exists r :: 0 <= r < |runs| && Within(runs[r], times[i])
  {
    var runs := Finish(closed, open, none);
    forall i | 0 <= i < |keys| && keys[i] != none
      ensures exists r :: 0 <= r < |runs| && Within(runs[r], times[i])
    {
      var r := MaskedCovered(keys, times, none, closed, open, lo, los, his, owner, i);
      assert Within(runs[r], times[i]);
    }
  }

  /** Outcome of save_maskfile's extraction: the runs written, or the exception that ended it. */
  datatype Saved<T> = Written(runs: seq<Run<T>>) | NameError(written: seq<Run<T>>)

  /** The lines that reach the file, whichever way the extraction ends. */
  function Lines<T>(s: Saved<T>): seq<Run<T>> {
    match s
    case Written(runs) => runs
    case NameError(written) => written
  }

  /** Sample i's block of equal keys ends before the last sample. */
  ghost predicate BlockClosed<T>(keys: seq<T>, i: int) {
    0 <= i && exists k :: i < k < |keys| && keys[k] != keys[i]
  }

  /**
   * save_maskfile as written: the final run is written with the undefined
   * name `flag` instead of `flags`, so whenever the last sample is masked the
   * function raises NameError after writing the earlier runs.  The handler
   * for file errors does not catch it.  Every line that does reach the file
   * has a mask, and on times in ascending order every masked sample whose
   * block closes before the last sample lies within a line with its mask.
   */
  method SaveRunsAsWritten<T(==)>(keys: seq<T>, times: seq<real>, none: T) returns (s: Saved<T>)
    requires |keys| == |times|
    ensures s.NameError? <==> |keys| > 0 && keys[|keys| - 1] != none
    ensures forall r :: 0 <= r < |Lines(s)| ==> Lines(s)[r].key != none
    ensures Sorted(times) ==> forall i :: 0 <= i < |keys| && keys[i] != none && BlockClosed(keys, i) ==>
      exists r :: 0 <= r < |Lines(s)| && Within(Lines(s)[r], times[i]) && Lines(s)[r].key == keys[i]
  {
    var closed, open, lo, los, his, owner := ScanLoop(keys, times, none);
    if Sorted(times) {
      ClosedCover(keys, times, none, closed, open, lo, los, his, owner);
    }
    s := if open.key != none then NameError(closed) else Written(closed);
    assert Lines(s) == closed;
  }

  /**
   * On times in ascending order, every masked sample whose block closes
   * before the last sample lies within a closed run carrying its key.
   */
  lemma ClosedCover<T>(keys: seq<T>, times: seq<real>, none: T, closed: seq<Run<T>>, open: Run<T>,
                       lo: nat, los: seq<nat>, his: seq<nat>, owner: seq<int>)
    requires |keys| == |times| && Sorted(times)
    requires ScanFacts(keys, times, none, closed, open, lo, los, his, owner)
    ensures forall i :: 0 <= i < |keys| && keys[i] != none && BlockClosed(keys, i) ==>
      exists r :: 0 <= r < |closed| && Within(closed[r], times[i]) && closed[r].key == keys[i]
  {
    forall i | 0 <= i < |keys| && keys[i] != none && BlockClosed(keys, i)
      ensures exists r :: 0 <= r < |closed| && Within(closed[r], times[i]) && closed[r].key == keys[i]
    {
      var k :| i < k < |keys| && keys[k] != keys[i];
      assert i < lo;
      var r := owner[i];
      assert Owns(los, his, r, i);
      assert times[los[r]] <= times[i] <= times[his[r]];
    }
  }

  /**
   * The extraction as evidently intended (the final run written with
   * `flags`): every written run has a mask, and on strictly increasing times
   * a sample lies within some written run exactly when it is masked, with
   * the mask of every run containing it.
   */
  method SaveRuns<T(==)>(keys: seq<T>, times: seq<real>, none: T) returns (runs: seq<Run<T>>)
    requires |keys| == |times| && StrictlySorted(times)
    ensures forall r :: 0 <= r < |runs| ==> runs[r].key != none && runs[r].first <= runs[r].last
    ensures forall i :: 0 <= i < |keys| ==>
      (keys[i] != none <==> exists r :: 0 <= r < |runs| && Within(runs[r], times[i]))
    ensures forall r, i :: 0 <= r < |runs| && 0 <= i < |keys| && Within(runs[r], times[i]) ==>
      keys[i] == runs[r].key
  {
    var closed, open, lo, los, his, owner := ScanLoop(keys, times, none);
    runs := Finish(closed, open, none);
    FinishRuns(keys, times, none, closed, open, lo, los, his, owner);
    FinishKeys(keys, times, none, closed, open, lo, los, his, owner);
    FinishCovers(keys, times, none, closed, open, lo, los, his, owner);
  }

  /** The mask byte of every status word. */
  function MaskKeys(flags: seq<Word>): (keys: seq<Word>)
    ensures |keys| == |flags| && forall i :: 0 <= i < |flags| ==> keys[i] == Masked(flags[i])
  {
    seq(|flags|, i requires 0 <= i < |flags| => Masked(flags[i]))
  }

  /**
   * save_maskfile on the status words, with the final run written: a sample
   * lies within a written run exactly when its mask byte is non-zero, and
   * every run containing it carries that mask byte.
   */
  method SaveMaskRuns(flags: seq<Word>, times: seq<real>) returns (runs: seq<Run<Word>>)
    requires |flags| == |times| && StrictlySorted(times)
    ensures forall r :: 0 <= r < |runs| ==> runs[r].key != 0 && runs[r].first <= runs[r].last
    ensures forall i :: 0 <= i < |flags| ==>
      (Masked(flags[i]) != 0 <==> exists r :: 0 <= r < |runs| && Within(runs[r], times[i]))
    ensures forall r, i :: 0 <= r < |runs| && 0 <= i < |flags| && Within(runs[r], times[i]) ==>
      runs[r].key == Masked(flags[i])
  {
    runs := SaveRuns(MaskKeys(flags), times, 0);
  }

  /**
   * On the status words: a table whose last sample carries a mask makes
   * save_maskfile raise NameError, e.g. two samples with the second masked.
   */
  method SaveMaskfileCrashes() returns (s: Saved<Word>)
    ensures s.NameError?
  {
    var flags: seq<Word> := [0, 0x0100_0001];
    var keys := MaskKeys(flags);
    assert keys[1] == 1;
    s := SaveRunsAsWritten(keys, [0.0, 1.0], 0);
  }
}
