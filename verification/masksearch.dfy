/**
 * Locating samples by time and masking a selected time span
 * (DataHandler.binary_search_data and DataHandler.add_to_mask).
 */
module MaskSearch {
  import opened Common
  import opened FlagWord

  /** Result of a search: whether the time lies within the table's time span, and a row index. */
  datatype Hit = Hit(inRange: bool, index: nat)

  /** Final state of the bisection: an exact hit, the last probe, and the lower end of the open bracket. */
  datatype Probe = Probe(found: bool, mid: int, first: int)

  /**
   * The bisection loop of binary_search_data from the bracket [first, last]
   * with last probe `mid`.  On sorted times every row before `first` lies
   * before `time` and every row after `last` after it.
   */
  function Bisect(times: seq<real>, time: real, first: int, last: int, mid: int): (p: Probe)
    requires Sorted(times) && 0 <= first <= last + 1 <= |times| && 0 <= mid < |times|
    requires forall k :: 0 <= k < first ==> times[k] < time
    requires forall k :: last < k < |times| ==> time < times[k]
    ensures 0 <= p.mid < |times|
    ensures p.found ==> times[p.mid] == time
    ensures !p.found ==>
      && 0 <= p.first <= |times|
      && (forall k :: 0 <= k < p.first ==> times[k] < time)
      && (forall k :: p.first <= k < |times| ==> time < times[k])
      && (p.mid == p.first || p.mid == p.first - 1 || (p.mid == mid && first == p.first && last == first - 1))
    decreases last - first + 1
  {
    if first <= last then
      var m := (first + last) / 2;
      if times[m] == time then Probe(true, m, first)
      else if time < times[m] then Bisect(times, time, first, m - 1, m)
      else Bisect(times, time, m + 1, last, m)
    else Probe(false, mid, first)
  }

  /**
   * Row k sits next to `time`: it holds the time itself, or the time lies
   * strictly between row k and the row before or after it.
   */
  ghost predicate Adjacent(times: seq<real>, time: real, k: int) {
    0 <= k < |times|
    && (times[k] == time
        || (0 < k && times[k - 1] < time < times[k])
        || (k + 1 < |times| && times[k] < time < times[k + 1]))
  }

  /**
   * binary_search_data as written.  Outside the time span it reports the first
   * or last row; an exact match reports that row; otherwise it compares the
   * last probe with the lower end `first` of the final bracket only, so the
   * row it reports is one of the two rows around the time but not
   * necessarily the nearer one.
   */
  function BinarySearchData(times: seq<real>, time: real): (h: Hit)
    requires |times| > 0 && Sorted(times)
    ensures h.index < |times|
    ensures !h.inRange <==> time < times[0] || times[|times| - 1] < time
    ensures !h.inRange && time < times[0] ==> h.index == 0
    ensures !h.inRange && times[0] <= time ==> h.index == |times| - 1
    ensures h.inRange ==> Adjacent(times, time, h.index)
    ensures (exists k :: 0 <= k < |times| && times[k] == time) ==> h.inRange && times[h.index] == time
  {
    var n := |times|;
    if times[0] > time then Hit(false, 0)
    else if times[n - 1] < time then Hit(false, n - 1)
    else
      var p := Bisect(times, time, 0, n - 1, 0);
      if p.found then Hit(true, p.mid)
      else
        assert 0 < p.first < n;
        if Abs(times[p.mid] - time) < Abs(times[p.first] - time) then Hit(true, p.mid)
        else Hit(true, p.first)
  }

  /**
   * When the last probe is the row just above the time, binary_search_data
   * reports that row without comparing it with the row below: on times 0 and
   * 10 a search for 1 reports the row at 10.
   */
  lemma BinarySearchDataNotNearest()
    ensures var times := [0.0, 10.0];
      BinarySearchData(times, 1.0) == Hit(true, 1)
      && Abs(times[0] - 1.0) < Abs(times[1] - 1.0)
  {
    var times := [0.0, 10.0];
    assert Sorted(times);
    assert Bisect(times, 1.0, 1, 1, 0) == Bisect(times, 1.0, 1, 0, 1);
    assert Bisect(times, 1.0, 0, 1, 0) == Probe(false, 1, 1);
  }

  /**
   * The search as evidently intended: inside the time span it reports the
   * nearer of the two rows bracketing the time (the later one on a tie).
   */
  function NearestSample(times: seq<real>, time: real): (h: Hit)
    requires |times| > 0 && Sorted(times)
    ensures h.index < |times|
    ensures h.inRange <==> times[0] <= time <= times[|times| - 1]
    ensures forall k :: 0 <= k < |times| ==> Abs(times[h.index] - time) <= Abs(times[k] - time)
  {
    var n := |times|;
    if times[0] > time then Hit(false, 0)
    else if times[n - 1] < time then Hit(false, n - 1)
    else
      var p := Bisect(times, time, 0, n - 1, 0);
      if p.found then Hit(true, p.mid)
      else
        assert 0 < p.first < n;
        if Abs(times[p.first - 1] - time) < Abs(times[p.first] - time) then Hit(true, p.first - 1)
        else Hit(true, p.first)
  }

  // ---------------------------------------------------------------------------
  // add_to_mask

  /** Rows first .. last (inclusive) get the mask word; the others stay. */
  function MaskRows(flags: seq<Word>, first: int, last: int, word: Word): (r: seq<Word>)
    ensures |r| == |flags|
    ensures forall i :: 0 <= i < |r| ==> r[i] == if first <= i <= last then SetBits(flags[i], word) else flags[i]
  {
    seq(|flags|, i requires 0 <= i < |flags| => if first <= i <= last then SetBits(flags[i], word) else flags[i])
  }

  /**
   * Masking the rows from hit s to hit e, as add_to_mask does once both
   * searches are done: nothing (count 0) when both lie outside the time span
   * or the rows come out in reverse order, else rows s .. e get the word.
   */
  function MaskSpan(flags: seq<Word>, s: Hit, e: Hit, word: Word): (res: (seq<Word>, int))
    ensures var (r, count) := res;
      && |r| == |flags|
      && (count == 0 <==> (!s.inRange && !e.inRange) || s.index > e.index)
      && (count == 0 ==> r == flags)
      && (count != 0 ==> count == e.index - s.index + 1)
      && (count != 0 ==> forall i :: 0 <= i < |r| ==>
            r[i] == if s.index <= i <= e.index then SetBits(flags[i], word) else flags[i])
  {
    if !s.inRange && !e.inRange then (flags, 0)
    else if s.index > e.index then (flags, 0)
    else (MaskRows(flags, s.index, e.index, word), e.index - s.index + 1)
  }

  /**
   * add_to_mask as written: mask the rows from the row binary_search_data
   * reports for tstart to the row it reports for tend with channel bits m, in
   * the mask byte and the gathered byte.
   */
  function AddToMask(flags: seq<Word>, times: seq<real>, tstart: real, tend: real, m: int)
    : (res: (seq<Word>, int))
    requires |flags| == |times| > 0 && Sorted(times)
    ensures var (r, count) := res;
      var s := BinarySearchData(times, tstart); var e := BinarySearchData(times, tend);
      && |r| == |flags|
      && (count == 0 <==> (!s.inRange && !e.inRange) || s.index > e.index)
      && (count == 0 ==> r == flags)
      && (count != 0 ==> count == e.index - s.index + 1)
      && (count != 0 ==> forall i :: 0 <= i < |r| ==>
            r[i] == if s.index <= i <= e.index then SetBits(flags[i], MaskWord(LowByte(m))) else flags[i])
  {
    MaskSpan(flags, BinarySearchData(times, tstart), BinarySearchData(times, tend), MaskWord(LowByte(m)))
  }

  /**
   * The row binary_search_data reports for the start of a span lies at or
   * before every sample inside the span; on strictly increasing times.
   */
  lemma SearchStartBefore(times: seq<real>, tstart: real, i: int)
    requires |times| > 0 && StrictlySorted(times)
    requires 0 <= i < |times| && tstart <= times[i]
    ensures BinarySearchData(times, tstart).index <= i
  {
    var h := BinarySearchData(times, tstart);
  }

  /** Symmetrically, the row it reports for the end lies at or after every sample inside the span. */
  lemma SearchEndAfter(times: seq<real>, tend: real, i: int)
    requires |times| > 0 && StrictlySorted(times)
    requires 0 <= i < |times| && times[i] <= tend
    ensures i <= BinarySearchData(times, tend).index
  {
    var h := BinarySearchData(times, tend);
  }

  /**
   * On strictly increasing times, once either end lies within the time span,
   * every sample whose time lies between tstart and tend is masked.
   */
  lemma AddToMaskCovers(flags: seq<Word>, times: seq<real>, tstart: real, tend: real, m: int, i: int)
    requires |flags| == |times| > 0 && StrictlySorted(times)
    requires BinarySearchData(times, tstart).inRange || BinarySearchData(times, tend).inRange
    requires 0 <= i < |times| && tstart <= times[i] <= tend
    ensures AddToMask(flags, times, tstart, tend, m).0[i] == SetBits(flags[i], MaskWord(LowByte(m)))
  {
    SearchStartBefore(times, tstart, i);
    SearchEndAfter(times, tend, i);
  }

  /** Masking the same span twice leaves the flags as masking it once. */
  lemma AddToMaskIdempotent(flags: seq<Word>, times: seq<real>, tstart: real, tend: real, m: int)
    requires |flags| == |times| > 0 && Sorted(times)
    ensures var once := AddToMask(flags, times, tstart, tend, m).0;
      AddToMask(once, times, tstart, tend, m).0 == once
  {
    var once := AddToMask(flags, times, tstart, tend, m).0;
    var twice := AddToMask(once, times, tstart, tend, m).0;
    var w := MaskWord(LowByte(m));
    forall i | 0 <= i < |once| ensures twice[i] == once[i] {
      SetBitsTwice(flags[i], w);
    }
  }

  /**
   * add_to_mask with the search as evidently intended: the rows from the
   * sample nearest tstart to the sample nearest tend.
   */
  function AddToMaskNearest(flags: seq<Word>, times: seq<real>, tstart: real, tend: real, m: int)
    : (res: (seq<Word>, int))
    requires |flags| == |times| > 0 && Sorted(times)
    ensures var (r, count) := res; var s := NearestSample(times, tstart); var e := NearestSample(times, tend);
      && |r| == |flags|
      && (count == 0 <==> (!s.inRange && !e.inRange) || s.index > e.index)
      && (count == 0 ==> r == flags)
      && (count != 0 ==> count == e.index - s.index + 1)
      && (count != 0 ==> forall i :: 0 <= i < |r| ==>
            r[i] == if s.index <= i <= e.index then SetBits(flags[i], MaskWord(LowByte(m))) else flags[i])
  {
    MaskSpan(flags, NearestSample(times, tstart), NearestSample(times, tend), MaskWord(LowByte(m)))
  }

  /** The nearest-sample variant masks every sample inside the span just the same. */
  lemma AddToMaskNearestCovers(flags: seq<Word>, times: seq<real>, tstart: real, tend: real, m: int, i: int)
    requires |flags| == |times| > 0 && StrictlySorted(times)
    requires NearestSample(times, tstart).inRange || NearestSample(times, tend).inRange
    requires 0 <= i < |times| && tstart <= times[i] <= tend
    ensures AddToMaskNearest(flags, times, tstart, tend, m).0[i] == SetBits(flags[i], MaskWord(LowByte(m)))
  {
    var s := NearestSample(times, tstart);
    var e := NearestSample(times, tend);
    assert Abs(times[s.index] - tstart) <= Abs(times[i] - tstart);
    assert Abs(times[e.index] - tend) <= Abs(times[i] - tend);
  }

  lemma SetBitsTwice(f: Word, w: Word)
    ensures SetBits(SetBits(f, w), w) == SetBits(f, w)
  {
  }
}
