/**
 * Applying a mask file to the status words (the apply loop of
 * DataHandler.load_maskfile).  Reading and parsing the file are not modelled:
 * each mask block arrives as its start and end time, already converted to
 * seconds on the table's time axis, and its channel field.
 */
module MaskFile {
  import opened Common
  import opened FlagWord

  /** The program's initial "previous end", below any real time. */
  const EARLIEST: real := -100000000000000000000.0

  /** A mask block; a missing end or channel field is None (the program's NaN). */
  datatype MaskBlock = MaskBlock(start: real, end: Option<real>, chan: Option<int>)

  /** Channel bits of a block, limited to eight bits as the program's `0xFF & chan`; a missing channel masks nothing. */
  function ChannelMask(b: MaskBlock): (m: Word)
    ensures m & 0xFF == m
  {
    match b.chan
    case None => 0
    case Some(c) => LowByte(c)
  }

  /**
   * Whole days added to an end before the start (blocks may span midnight):
   * the program adds 86400 s until the end is no longer before the start.
   */
  function WrapDays(start: real, end: real): (k: nat)
    ensures start <= end + k as real * 86400.0
    ensures k > 0 ==> end + (k - 1) as real * 86400.0 < start
    decreases if end < start then (start - end).Floor + 1 else 0
  {
    if end < start then WrapDays(start, end + 86400.0) + 1 else 0
  }

  /** End of a block: a missing end gives a block of 0.05 s. */
  function EndOf(b: MaskBlock): (e: real)
    ensures b.start <= e
    ensures b.end == None ==> e == b.start + 0.05
  {
    match b.end
    case None => b.start + 0.05
    case Some(x) => x + WrapDays(b.start, x) as real * 86400.0
  }

  /**
   * A block as the apply loop sees it after the head of an iteration: start,
   * end after wrapping past midnight, and the word OR-ed into every sample it
   * covers (the channel byte in the mask byte and in the gathered byte).
   */
  datatype Span = Span(start: real, end: real, bits: Word)

  function Resolve(b: MaskBlock): (s: Span)
    ensures s.start == b.start <= s.end
    ensures Masked(s.bits) == ChannelMask(b) && Gathered(s.bits) == ChannelMask(b)
    ensures Filtered(s.bits) == 0 && Transferred(s.bits) == 0 && High(s.bits) == 0
  {
    Span(b.start, EndOf(b), MaskWord(ChannelMask(b)))
  }

  function Resolved(blocks: seq<MaskBlock>): (r: seq<Span>)
    ensures |r| == |blocks|
    ensures forall k :: 0 <= k < |r| ==> r[k] == Resolve(blocks[k])
  {
    seq(|blocks|, k requires 0 <= k < |blocks| => Resolve(blocks[k]))
  }

  /** A block masks the samples from its start up to, not including, its end. */
  predicate Covers(s: Span, t: real) {
    s.start <= t < s.end
  }

  /** Bits span s puts on a sample at time t. */
  function Contribution(s: Span, t: real): Word {
    if Covers(s, t) then s.bits else 0
  }

  /** Word of a sample at time t after span s. */
  function ApplyTo(w: Word, s: Span, t: real): Word {
    w | Contribution(s, t)
  }

  /** Word of a sample at time t after the spans of `ss`, applied in order, starting from f. */
  function RowWord(f: Word, ss: seq<Span>, t: real): Word {
    if |ss| == 0 then f else ApplyTo(RowWord(f, ss[..|ss| - 1], t), ss[|ss| - 1], t)
  }

  /** Number of samples of `times` that span s covers. */
  function CoveredRows(s: Span, times: seq<real>): nat {
    if |times| == 0 then 0
    else CoveredRows(s, times[..|times| - 1]) + if Covers(s, times[|times| - 1]) then 1 else 0
  }

  /** Total number of (span, sample) pairs with the span covering the sample. */
  function Count(ss: seq<Span>, times: seq<real>): nat {
    if |ss| == 0 then 0 else Count(ss[..|ss| - 1], times) + CoveredRows(ss[|ss| - 1], times)
  }

  // ---------------------------------------------------------------------------
  // Facts about RowWord and Count

  /** Two spans give the same word in either order. */
  lemma ApplyToCommute(w: Word, x: Span, y: Span, t: real)
    ensures ApplyTo(ApplyTo(w, x, t), y, t) == ApplyTo(ApplyTo(w, y, t), x, t)
  {
    OrCommute(w, Contribution(x, t), Contribution(y, t));
  }

  /** Applying the spans `a` and then the spans `b` is applying `a + b`. */
  lemma {:induction false} RowWordAppend(f: Word, a: seq<Span>, b: seq<Span>, t: real)
    ensures RowWord(f, a + b, t) == RowWord(RowWord(f, a, t), b, t)
    decreases |b|
  {
    if |b| == 0 {
      assert a + b == a;
    } else {
      assert (a + b)[..|a + b| - 1] == a + b[..|b| - 1];
      assert (a + b)[|a + b| - 1] == b[|b| - 1];
      RowWordAppend(f, a, b[..|b| - 1], t);
    }
  }

  /** A span applied first can be applied last instead. */
  lemma {:induction false} ApplyFirst(f: Word, x: Span, q: seq<Span>, t: real)
    ensures RowWord(ApplyTo(f, x, t), q, t) == ApplyTo(RowWord(f, q, t), x, t)
    decreases |q|
  {
    if |q| > 0 {
      ApplyFirst(f, x, q[..|q| - 1], t);
      ApplyToCommute(RowWord(f, q[..|q| - 1], t), x, q[|q| - 1], t);
    }
  }

  /** b without its element at position k, as a multiset split. */
  lemma RemoveAt(b: seq<Span>, k: nat)
    requires k < |b|
    ensures multiset(b) == multiset(b[..k] + b[k + 1..]) + multiset{b[k]}
  {
    assert b == b[..k] + [b[k]] + b[k + 1..];
    assert multiset(b) == multiset(b[..k]) + multiset([b[k]]) + multiset(b[k + 1..]);
    assert multiset(b[..k] + b[k + 1..]) == multiset(b[..k]) + multiset(b[k + 1..]);
  }

  lemma MultisetCancel(p: multiset<Span>, q: multiset<Span>, x: Span)
    requires p + multiset{x} == q + multiset{x}
    ensures p == q
  {
    assert p == (p + multiset{x}) - multiset{x};
    assert q == (q + multiset{x}) - multiset{x};
  }

  /**
   * When a and b hold the same spans, the last span of a sits at some
   * position k of b, and the rest of a holds the same spans as b without it.
   */
  lemma MatchLast(a: seq<Span>, b: seq<Span>) returns (k: nat)
    requires |a| > 0 && multiset(a) == multiset(b)
    ensures k < |b| && b[k] == a[|a| - 1]
    ensures multiset(a[..|a| - 1]) == multiset(b[..k] + b[k + 1..])
  {
    var x := a[|a| - 1];
    assert a == a[..|a| - 1] + [x];
    assert multiset(a) == multiset(a[..|a| - 1]) + multiset{x};
    assert x in multiset(b);
    k :| 0 <= k < |b| && b[k] == x;
    RemoveAt(b, k);
    MultisetCancel(multiset(a[..|a| - 1]), multiset(b[..k] + b[k + 1..]), x);
  }

  /** The order of the spans does not matter: the word depends only on which spans there are. */
  lemma {:induction false} RowWordPermutation(f: Word, a: seq<Span>, b: seq<Span>, t: real)
    requires multiset(a) == multiset(b)
    ensures RowWord(f, a, t) == RowWord(f, b, t)
    decreases |a|
  {
    if |a| == 0 {
      assert b == [];
    } else {
      var k := MatchLast(a, b);
      var x := b[k];
      var p, q := b[..k], b[k + 1..];
      RowWordPermutation(f, a[..|a| - 1], p + q, t);
      assert b == p + [x] + q;
      RowWordAppend(f, p + [x], q, t);
      assert (p + [x])[..|p + [x]| - 1] == p;
      ApplyFirst(RowWord(f, p, t), x, q, t);
      RowWordAppend(f, p, q, t);
    }
  }

  lemma {:induction false} CountAppend(a: seq<Span>, b: seq<Span>, times: seq<real>)
    ensures Count(a + b, times) == Count(a, times) + Count(b, times)
    decreases |b|
  {
    if |b| == 0 {
      assert a + b == a;
    } else {
      assert (a + b)[..|a + b| - 1] == a + b[..|b| - 1];
      CountAppend(a, b[..|b| - 1], times);
    }
  }

  lemma SingleSpan(s: Span, times: seq<real>)
    ensures Count([s], times) == CoveredRows(s, times)
  {
    assert [s][..0] == [];
  }

  /** The order of the spans does not matter for the count either. */
  lemma {:induction false} CountPermutation(a: seq<Span>, b: seq<Span>, times: seq<real>)
    requires multiset(a) == multiset(b)
    ensures Count(a, times) == Count(b, times)
    decreases |a|
  {
    if |a| == 0 {
      assert b == [];
    } else {
      var k := MatchLast(a, b);
      var x := b[k];
      var p, q := b[..k], b[k + 1..];
      CountPermutation(a[..|a| - 1], p + q, times);
      assert b == p + [x] + q;
      CountAppend(p + [x], q, times);
      CountAppend(p, [x], times);
      CountAppend(p, q, times);
      SingleSpan(x, times);
      assert a == a[..|a| - 1] + [x];
      CountAppend(a[..|a| - 1], [x], times);
    }
  }

  /** A sample that no span covers keeps its word. */
  lemma {:induction false} RowWordUncovered(f: Word, ss: seq<Span>, t: real)
    requires forall k :: 0 <= k < |ss| ==> !Covers(ss[k], t)
    ensures RowWord(f, ss, t) == f
    decreases |ss|
  {
    if |ss| > 0 {
      RowWordUncovered(f, ss[..|ss| - 1], t);
      OrZero(f);
    }
  }

  /** A sample covered by span k carries that span's bits in the final word. */
  lemma RowWordCovered(f: Word, ss: seq<Span>, t: real, k: nat)
    requires k < |ss| && Covers(ss[k], t)
    ensures RowWord(f, ss, t) | ss[k].bits == RowWord(f, ss, t)
  {
    var x := ss[k];
    var p, q := ss[..k], ss[k + 1..];
    assert ss == p + [x] + q;
    RowWordAppend(f, p + [x], q, t);
    assert (p + [x])[..|p + [x]| - 1] == p;
    ApplyFirst(RowWord(f, p, t), x, q, t);
    OrTwice(RowWord(RowWord(f, p, t), q, t), x.bits);
  }

  /** A prefix of samples none of which the span covers contributes nothing. */
  lemma {:induction false} CoveredRowsNone(s: Span, times: seq<real>)
    requires forall i :: 0 <= i < |times| ==> !Covers(s, times[i])
    ensures CoveredRows(s, times) == 0
    decreases |times|
  {
    if |times| > 0 {
      CoveredRowsNone(s, times[..|times| - 1]);
    }
  }

  /** Samples after the last covered one add nothing to the count. */
  lemma {:induction false} CoveredRowsTail(s: Span, times: seq<real>, m: int)
    requires 0 <= m <= |times|
    requires forall i :: m <= i < |times| ==> !Covers(s, times[i])
    ensures CoveredRows(s, times) == CoveredRows(s, times[..m])
    decreases |times| - m
  {
    if m < |times| {
      assert times[..|times| - 1][..m] == times[..m];
      CoveredRowsTail(s, times[..|times| - 1], m);
    } else {
      assert times[..m] == times;
    }
  }

  /** With the covered samples exactly lo .. |times|-1, the count is their number. */
  lemma {:induction false} CoveredRowsSuffix(s: Span, times: seq<real>, lo: nat)
    requires lo <= |times|
    requires forall i :: 0 <= i < |times| ==> (Covers(s, times[i]) <==> lo <= i)
    ensures CoveredRows(s, times) == |times| - lo
    decreases |times|
  {
    if |times| == lo {
      CoveredRowsNone(s, times);
    } else {
      CoveredRowsSuffix(s, times[..|times| - 1], lo);
    }
  }

  /** A covered sample counts. */
  lemma {:induction false} CoveredRowsCounts(s: Span, times: seq<real>, i: nat)
    requires i < |times| && Covers(s, times[i])
    ensures CoveredRows(s, times) > 0
    decreases |times|
  {
    if i < |times| - 1 {
      CoveredRowsCounts(s, times[..|times| - 1], i);
    }
  }

  /** The count includes every span's covered samples. */
  lemma {:induction false} CountIncludes(ss: seq<Span>, times: seq<real>, k: nat)
    requires k < |ss|
    ensures Count(ss, times) >= CoveredRows(ss[k], times)
    decreases |ss|
  {
    if k < |ss| - 1 {
      CountIncludes(ss[..|ss| - 1], times, k);
    }
  }

  /** With nothing counted, every sample keeps its word. */
  lemma CountZeroUnchanged(flags: seq<Word>, ss: seq<Span>, times: seq<real>, i: nat)
    requires |flags| == |times| && i < |times| && Count(ss, times) == 0
    ensures RowWord(flags[i], ss, times[i]) == flags[i]
  {
    forall k | 0 <= k < |ss| ensures !Covers(ss[k], times[i]) {
      CountIncludes(ss, times, k);
      if Covers(ss[k], times[i]) {
        CoveredRowsCounts(ss[k], times, i);
      }
    }
    RowWordUncovered(flags[i], ss, times[i]);
  }

  // ---------------------------------------------------------------------------
  // One sweep over the pending blocks

  /** Step over the samples before `start`, from position `from` on. */
  method SkipBefore(times: seq<real>, from: nat, start: real) returns (next: nat)
    requires from <= |times|
    ensures from <= next <= |times|
    ensures forall j :: from <= j < next ==> times[j] < start
    ensures next < |times| ==> start <= times[next]
  {
    next := from;
    while next < |times| && times[next] < start
      invariant from <= next <= |times|
      invariant forall j :: from <= j < next ==> times[j] < start
    {
      next := next + 1;
    }
  }

  /**
   * From position `from` on, take the rows of `b` in place of those of `a`
   * while the sample lies before `end`; returns where the run stopped.
   */
  method CopyRun<T>(a: seq<T>, b: seq<T>, times: seq<real>, from: nat, end: real)
    returns (r: seq<T>, next: nat)
    requires |a| == |b| == |times| && from <= |times|
    ensures from <= next <= |times| && |r| == |a|
    ensures forall j :: from <= j < next ==> times[j] < end
    ensures next < |times| ==> end <= times[next]
    ensures forall i :: 0 <= i < |r| ==> r[i] == if from <= i < next then b[i] else a[i]
  {
    var n := |times|;
    r, next := a, from;
    while next < n && times[next] < end
      invariant from <= next <= n && |r| == n
      invariant forall j :: from <= j < next ==> times[j] < end
      invariant forall i :: 0 <= i < n ==> r[i] == if from <= i < next then b[i] else a[i]
    {
      r := r[next := b[next]];
      next := next + 1;
    }
  }

  /** Within sorted samples, the samples a span covers are the run lo .. hi-1. */
  lemma CoveredRun(times: seq<real>, s: Span, lo: nat, hi: nat)
    requires Sorted(times) && lo <= hi <= |times|
    requires forall j :: 0 <= j < lo ==> times[j] < s.start
    requires lo < |times| ==> s.start <= times[lo]
    requires forall j :: lo <= j < hi ==> times[j] < s.end
    requires hi < |times| ==> s.end <= times[hi]
    ensures forall i :: 0 <= i < |times| ==> (Covers(s, times[i]) <==> lo <= i < hi)
    ensures CoveredRows(s, times) == hi - lo
  {
    forall i | 0 <= i < |times| ensures Covers(s, times[i]) <==> lo <= i < hi {
      if lo <= i {
        assert times[lo] <= times[i];
      }
      if hi <= i {
        assert times[hi] <= times[i];
      }
    }
    CoveredRowsTail(s, times, hi);
    CoveredRowsSuffix(s, times[..hi], lo);
  }

  /** A span leaves the samples it does not cover alone. */
  lemma ApplyToUncovered(f: Word, s: Span, t: real)
    requires !Covers(s, t)
    ensures ApplyTo(f, s, t) == f
  {
    OrZero(f);
  }

  /**
   * Masking of one applied block: from `dataIndex`, step over the samples
   * before the block's start, then OR its bits into every sample before its
   * end.  All samples before `dataIndex` lie before the start.
   */
  method ApplyBlock(flags: seq<Word>, times: seq<real>, dataIndex: nat, s: Span)
    returns (r: seq<Word>, next: nat, count: nat)
    requires |flags| == |times| && Sorted(times) && dataIndex <= |times| && s.start <= s.end
    requires forall j :: 0 <= j < dataIndex ==> times[j] < s.start
    ensures dataIndex <= next <= |times| && |r| == |flags|
    ensures forall j :: 0 <= j < next ==> times[j] < s.end
    ensures forall i :: 0 <= i < |r| ==> r[i] == ApplyTo(flags[i], s, times[i])
    ensures count == CoveredRows(s, times)
  {
    var lo := SkipBefore(times, dataIndex, s.start);
    var masked := seq(|flags|, i requires 0 <= i < |flags| => ApplyTo(flags[i], s, times[i]));
    r, next := CopyRun(flags, masked, times, lo, s.end);
    CoveredRun(times, s, lo, next);
    forall i | 0 <= i < |r| ensures r[i] == ApplyTo(flags[i], s, times[i]) {
      if !(lo <= i < next) {
        ApplyToUncovered(flags[i], s, times[i]);
      }
    }
    count := next - lo;
  }

  /** Every sample's word is its original word after the applied spans. */
  ghost predicate RowsMasked(flags: seq<Word>, r: seq<Word>, applied: seq<Span>, times: seq<real>)
    requires |flags| == |times| == |r|
  {
    forall i :: 0 <= i < |r| ==> r[i] == RowWord(flags[i], applied, times[i])
  }

  /**
   * One pass of the apply loop.  Spans are taken in order; a span starting
   * before the end of the last applied one is postponed to the next pass, any
   * other is applied from the position where the previous one stopped.
   * Returns the new words, the number of samples masked, the spans applied
   * and the spans postponed.
   */
  method Sweep(flags: seq<Word>, times: seq<real>, spans: seq<Span>)
    returns (r: seq<Word>, count: nat, applied: seq<Span>, postponed: seq<Span>)
    requires |flags| == |times| && Sorted(times)
    requires forall k :: 0 <= k < |spans| ==> spans[k].start <= spans[k].end
    ensures multiset(applied) + multiset(postponed) == multiset(spans)
    ensures |spans| > 0 && spans[0].start >= EARLIEST ==> |applied| > 0
    ensures |r| == |flags|
    ensures forall i :: 0 <= i < |r| ==> r[i] == RowWord(flags[i], applied, times[i])
    ensures count == Count(applied, times)
  {
    var n := |times|;
    r, count, applied, postponed := flags, 0, [], [];
    var dataIndex: nat := 0;
    var k := 0;
    var endTime := EARLIEST;
    while k < |spans|
      invariant 0 <= k <= |spans| && dataIndex <= n && |r| == n
      invariant multiset(applied) + multiset(postponed) == multiset(spans[..k])
      invariant |applied| == 0 ==> endTime == EARLIEST
      invariant k > 0 && spans[0].start >= EARLIEST ==> |applied| > 0
      invariant forall j :: 0 <= j < dataIndex ==> times[j] < endTime
      invariant RowsMasked(flags, r, applied, times)
      invariant count == Count(applied, times)
    {
      var s := spans[k];
      assert spans[..k + 1] == spans[..k] + [s];
      if s.start < endTime {
        postponed := postponed + [s];
        k := k + 1;
        continue;
      }
      var r1, next, c := ApplyBlock(r, times, dataIndex, s);
      SweepStep(flags, r, r1, applied, times, s);
      CountAppend(applied, [s], times);
      SingleSpan(s, times);
      r, count, dataIndex := r1, count + c, next;
      applied := applied + [s];
      endTime := s.end;
      k := k + 1;
    }
    assert spans[..k] == spans;
  }

  /** Applying span s to words that already carry the spans `applied`. */
  lemma SweepStep(flags: seq<Word>, r0: seq<Word>, r1: seq<Word>, applied: seq<Span>,
                  times: seq<real>, s: Span)
    requires |flags| == |times| == |r0| == |r1|
    requires RowsMasked(flags, r0, applied, times)
    requires forall i :: 0 <= i < |r1| ==> r1[i] == ApplyTo(r0[i], s, times[i])
    ensures RowsMasked(flags, r1, applied + [s], times)
  {
    assert (applied + [s])[..|applied|] == applied;
  }

  /**
   * The apply loop of load_maskfile: resolve every block, then sweep over the
   * pending spans until none is left.  No blocks: (false, 0) and nothing
   * changes.  Otherwise every sample's word carries the bits of every span
   * covering it, and the count is the number of (span, sample) pairs masked.
   * A start below the initial "previous end" would never be applied, so the
   * program would not finish; such starts are excluded.
   */
  method ApplyMaskBlocks(flags: seq<Word>, times: seq<real>, blocks: seq<MaskBlock>)
    returns (ok: bool, r: seq<Word>, count: nat)
    requires |flags| == |times| && Sorted(times)
    requires forall k :: 0 <= k < |blocks| ==> blocks[k].start >= EARLIEST
    ensures ok <==> |blocks| > 0
    ensures |r| == |flags|
    ensures forall i :: 0 <= i < |r| ==> r[i] == RowWord(flags[i], Resolved(blocks), times[i])
    ensures count == Count(Resolved(blocks), times)
  {
    r, count := flags, 0;
    if |blocks| == 0 {
      return false, r, count;
    }
    var spans := Resolved(blocks);
    var remaining := spans;
    ghost var done: seq<Span> := [];
    while |remaining| > 0
      invariant multiset(done) + multiset(remaining) == multiset(spans)
      invariant forall k :: 0 <= k < |remaining| ==> EARLIEST <= remaining[k].start <= remaining[k].end
      invariant |r| == |flags|
      invariant RowsMasked(flags, r, done, times)
      invariant count == Count(done, times)
      decreases |remaining|
    {
      var r1, c, applied, postponed := Sweep(r, times, remaining);
      assert |multiset(applied) + multiset(postponed)| == |multiset(remaining)|;
      forall k | 0 <= k < |postponed| ensures EARLIEST <= postponed[k].start <= postponed[k].end {
        assert postponed[k] in multiset(postponed);
        assert postponed[k] in multiset(remaining);
      }
      forall i | 0 <= i < |r1| ensures r1[i] == RowWord(flags[i], done + applied, times[i]) {
        RowWordAppend(flags[i], done, applied, times[i]);
      }
      CountAppend(done, applied, times);
      r, count := r1, count + c;
      done, remaining := done + applied, postponed;
    }
    forall i | 0 <= i < |r| ensures r[i] == RowWord(flags[i], spans, times[i]) {
      RowWordPermutation(flags[i], done, spans, times[i]);
    }
    CountPermutation(done, spans, times);
    ok := true;
  }
}
