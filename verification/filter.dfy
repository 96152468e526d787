/**
 * The automatic filter pass over the status words (DataHandler.filter_data and
 * the stages it calls): reset to the manual mask, band filter with forward and
 * backward overhang, transfer from critical channels, outlier pass, gather.
 */
module FilterEngine {
  import opened Common
  import opened FlagWord

  // ---------------------------------------------------------------------------
  // Band filter of one channel

  predicate OutOfBand(vals: seq<real>, band: real, j: int)
    requires 0 <= j < |vals|
  {
    Abs(vals[j]) > band
  }

  /** Row i lies in the forward window [j, j + fwd] of an out-of-band row j. */
  ghost predicate ForwardCovered(vals: seq<real>, band: real, fwd: int, i: int) {
    exists j :: 0 <= j <= i && i <= j + fwd && j < |vals| && OutOfBand(vals, band, j)
  }

  /** Row i lies in the backward window [j - back, j] of a row j that carries `bit`. */
  ghost predicate BackCovered(flags: seq<Word>, bit: Word, back: int, i: int) {
    exists j :: i <= j < |flags| && j <= i + back && 0 <= j && Carries(flags, bit, j)
  }

  predicate Carries(flags: seq<Word>, bit: Word, j: int)
    requires 0 <= j < |flags|
  {
    Has(flags[j], bit)
  }

  /**
   * The forward pass of filter_unlocked: a counter restarted at fwd + 1 on
   * every out-of-band row marks that row and the fwd rows after it.
   */
  method ForwardPass(flags: seq<Word>, vals: seq<real>, band: real, fwd: int, bit: Word)
    returns (r: seq<Word>)
    requires |vals| == |flags|
    ensures |r| == |flags|
    ensures forall i :: 0 <= i < |r| ==>
      r[i] == if ForwardCovered(vals, band, fwd, i) then SetBits(flags[i], bit) else flags[i]
  {
    r := flags;
    var blockCnt := 0;
    var i := 0;
    ghost var last := -1;  // latest out-of-band row before i
    while i < |flags|
      invariant 0 <= i <= |flags| && |r| == |flags|
      invariant -1 <= last < i
      invariant last >= 0 ==> OutOfBand(vals, band, last)
      invariant forall j :: last < j < i ==> !OutOfBand(vals, band, j)
      invariant last < 0 ==> blockCnt == 0
      invariant last >= 0 && fwd >= 0 && i - last <= fwd ==> blockCnt == fwd + 1 - (i - last)
      invariant last >= 0 && fwd >= 0 && i - last > fwd ==> blockCnt == 0
      invariant last >= 0 && fwd < 0 ==> blockCnt == fwd + 1
      invariant forall k :: 0 <= k < i ==>
        r[k] == if ForwardCovered(vals, band, fwd, k) then SetBits(flags[k], bit) else flags[k]
      invariant forall k :: i <= k < |r| ==> r[k] == flags[k]
    {
      if Abs(vals[i]) > band {
        blockCnt := fwd + 1;
        last := i;
      }
      ForwardCoveredByLast(vals, band, fwd, i, last);
      if blockCnt > 0 {
        blockCnt := blockCnt - 1;
        r := r[i := SetBits(r[i], bit)];
      }
      i := i + 1;
    }
  }

  /** With `last` the latest out-of-band row at or before i, i is forward-covered iff last is near. */
  lemma ForwardCoveredByLast(vals: seq<real>, band: real, fwd: int, i: int, last: int)
    requires -1 <= last <= i < |vals|
    requires last >= 0 ==> OutOfBand(vals, band, last)
    requires forall j :: last < j <= i ==> !OutOfBand(vals, band, j)
    ensures ForwardCovered(vals, band, fwd, i) <==> last >= 0 && i <= last + fwd
  {
    if last >= 0 && i <= last + fwd {
      assert OutOfBand(vals, band, last);
    }
  }

  /** With `next` the first row at or after k that carries `bit`, k is backward-covered iff next is near. */
  lemma BackCoveredByNext(flags: seq<Word>, bit: Word, back: int, k: int, next: int)
    requires 0 <= k <= next <= |flags|
    requires next < |flags| ==> Carries(flags, bit, next)
    requires forall j :: k <= j < next ==> !Carries(flags, bit, j)
    ensures BackCovered(flags, bit, back, k) <==> next < |flags| && next <= k + back
  {
    if next < |flags| && next <= k + back {
      assert Carries(flags, bit, next);
    }
  }

  ghost predicate BackResult(flags: seq<Word>, bit: Word, back: int, r: seq<Word>, m: int)
    requires 0 <= m < |flags| == |r|
  {
    r[m] == if BackCovered(flags, bit, back, m) then SetBits(flags[m], bit) else flags[m]
  }

  /**
   * The backward pass of filter_unlocked: walking from the last row to the
   * first, a counter restarted at back + 1 on every row that carries `bit`
   * marks that row and the back rows before it.
   */
  method BackwardPass(flags: seq<Word>, back: int, bit: Word) returns (r: seq<Word>)
    ensures |r| == |flags|
    ensures forall i :: 0 <= i < |r| ==>
      r[i] == if BackCovered(flags, bit, back, i) then SetBits(flags[i], bit) else flags[i]
  {
    r := flags;
    var blockCnt := 0;
    var k := |flags|;
    ghost var next := |flags|;  // earliest row at or after k carrying the bit
    while k > 0
      invariant 0 <= k <= next <= |flags| && |r| == |flags|
      invariant next < |flags| ==> Carries(flags, bit, next)
      invariant forall j :: k <= j < next ==> !Carries(flags, bit, j)
      invariant next == |flags| ==> blockCnt == 0
      invariant next < |flags| && back >= 0 && next - k <= back ==> blockCnt == back - (next - k)
      invariant next < |flags| && back >= 0 && next - k > back ==> blockCnt == 0
      invariant next < |flags| && back < 0 ==> blockCnt == back + 1
      invariant forall m :: k <= m < |r| ==> BackResult(flags, bit, back, r, m)
      invariant forall m :: 0 <= m < k ==> r[m] == flags[m]
    {
      ghost var r0 := r;
      var row := r[k - 1];
      assert row == flags[k - 1];
      if Carries(r, bit, k - 1) {
        blockCnt := back + 1;
        next := k - 1;
      }
      BackCoveredByNext(flags, bit, back, k - 1, next);
      if blockCnt > 0 {
        blockCnt := blockCnt - 1;
        r := r[k - 1 := SetBits(row, bit)];
      }
      forall m | k <= m < |r| ensures BackResult(flags, bit, back, r, m) {
        assert BackResult(flags, bit, back, r0, m);
      }
      k := k - 1;
    }
    forall i | 0 <= i < |r|
      ensures r[i] == if BackCovered(flags, bit, back, i) then SetBits(flags[i], bit) else flags[i]
    {
      assert BackResult(flags, bit, back, r, i);
    }
  }

  // ---------------------------------------------------------------------------
  // Effect of one channel's stage on a single row

  /** y agrees with x everywhere except possibly channel c's filter bit and the transfer byte. */
  ghost predicate OthersKept(x: Word, y: Word, c: nat)
    requires c < CHANNELS
  {
    && (forall d: nat :: d < CHANNELS && d != c ==> (Has(y, FilterBit(d)) <==> Has(x, FilterBit(d))))
    && Gathered(y) == Gathered(x) && Masked(y) == Masked(x) && High(y) == High(x)
    && Filtered(y) & 0xF0 == Filtered(x) & 0xF0
  }

  /**
   * One channel's stage took row word x to y: y carries c's filter bit exactly
   * when the row is `rejected`, the transfer byte is saturated when the channel
   * is critical and the row rejected, and nothing else changed.
   */
  ghost predicate ChannelStepRow(x: Word, y: Word, c: nat, rejected: bool, critical: bool)
    requires c < CHANNELS
  {
    && OthersKept(x, y, c)
    && (Has(y, FilterBit(c)) <==> rejected)
    && Transferred(y) == if critical && rejected then 0xFF else Transferred(x)
  }

  lemma SetFilterBitRow(x: Word, c: nat)
    requires c < CHANNELS
    ensures ChannelStepRow(x, SetBits(x, FilterBit(c)), c, true, false)
  {
    SetFilterBitBytes(x, c);
    forall d: nat | d < CHANNELS
      ensures Has(SetBits(x, FilterBit(c)), FilterBit(d)) <==> c == d || Has(x, FilterBit(d))
    {
      SetFilterBitHas(x, c, d);
    }
  }

  /** The transfer stage changes no filter bit and no byte but the transfer byte. */
  lemma TransferRow(x: Word, c: nat)
    requires c < CHANNELS
    ensures ChannelStepRow(x, TransferWord(x, c), c, Has(x, FilterBit(c)), true)
  {
    var y := TransferWord(x, c);
    TransferWordBytes(x, c);
    forall d: nat | d < CHANNELS
      ensures Has(y, FilterBit(d)) <==> Has(x, FilterBit(d))
    {
      SameFilterByte(x, y, d);
    }
  }

  /** Two stages on the same channel compose; the second sees the first one's bit. */
  lemma ChannelStepCompose(x: Word, y: Word, z: Word, c: nat, r1: bool, r2: bool, critical: bool)
    requires c < CHANNELS
    requires ChannelStepRow(x, y, c, r1, false)
    requires ChannelStepRow(y, z, c, r2, critical)
    ensures ChannelStepRow(x, z, c, r2, critical)
  {
  }

  // ---------------------------------------------------------------------------
  // Passes over all rows

  /** Transfer pass of a critical channel over every row. */
  method TransferPass(flags: seq<Word>, c: nat) returns (r: seq<Word>)
    requires c < CHANNELS
    ensures |r| == |flags|
    ensures forall i :: 0 <= i < |r| ==> ChannelStepRow(flags[i], r[i], c, Has(flags[i], FilterBit(c)), true)
  {
    r := flags;
    var i := 0;
    while i < |flags|
      invariant 0 <= i <= |flags| && |r| == |flags|
      invariant forall k :: 0 <= k < i ==> r[k] == TransferWord(flags[k], c)
      invariant forall k :: i <= k < |r| ==> r[k] == flags[k]
    {
      r := r[i := TransferWord(r[i], c)];
      i := i + 1;
    }
    forall i | 0 <= i < |r|
      ensures ChannelStepRow(flags[i], r[i], c, Has(flags[i], FilterBit(c)), true)
    {
      TransferRow(flags[i], c);
    }
  }

  /** A row is a seed of channel c's backward pass: it carried the bit already or the forward pass marked it. */
  ghost predicate Seeded(flags: seq<Word>, vals: seq<real>, band: real, fwd: int, c: nat, j: int)
    requires c < CHANNELS && 0 <= j < |flags|
  {
    Has(flags[j], FilterBit(c)) || ForwardCovered(vals, band, fwd, j)
  }

  /** Channel c's band filter rejects row i: row i is a seed, or a seed follows it within `back` rows. */
  ghost predicate BandRejected(flags: seq<Word>, vals: seq<real>, band: real, fwd: int, back: int, c: nat, i: int)
    requires c < CHANNELS && 0 <= i < |flags|
  {
    Seeded(flags, vals, band, fwd, c, i)
    || exists j :: i < j < |flags| && j <= i + back && Seeded(flags, vals, band, fwd, c, j)
  }

  /** A row to which the bit of channel c is added when `s` holds. */
  lemma MaybeSetRow(x: Word, y: Word, c: nat, s: bool)
    requires c < CHANNELS
    requires y == if s then SetBits(x, FilterBit(c)) else x
    ensures ChannelStepRow(x, y, c, s || Has(x, FilterBit(c)), false)
  {
    if s {
      SetFilterBitRow(x, c);
    }
  }

  lemma ForwardSeeds(flags: seq<Word>, r1: seq<Word>, vals: seq<real>, band: real, fwd: int, c: nat)
    requires c < CHANNELS && |r1| == |flags|
    requires forall i :: 0 <= i < |r1| ==>
      r1[i] == if ForwardCovered(vals, band, fwd, i) then SetBits(flags[i], FilterBit(c)) else flags[i]
    ensures forall j :: 0 <= j < |r1| ==> (Carries(r1, FilterBit(c), j) <==> Seeded(flags, vals, band, fwd, c, j))
    ensures forall j :: 0 <= j < |r1| ==> ChannelStepRow(flags[j], r1[j], c, Seeded(flags, vals, band, fwd, c, j), false)
  {
    forall j | 0 <= j < |r1|
      ensures ChannelStepRow(flags[j], r1[j], c, Seeded(flags, vals, band, fwd, c, j), false)
    {
      MaybeSetRow(flags[j], r1[j], c, ForwardCovered(vals, band, fwd, j));
    }
  }

  /** With the seeds known, the backward window of row i is exactly the band-filter verdict. */
  lemma BackCoveredSeeds(flags: seq<Word>, r1: seq<Word>, vals: seq<real>, band: real,
                         fwd: int, back: int, c: nat, i: int)
    requires c < CHANNELS && |r1| == |flags| && 0 <= i < |r1|
    requires forall j :: 0 <= j < |r1| ==> (Carries(r1, FilterBit(c), j) <==> Seeded(flags, vals, band, fwd, c, j))
    ensures BackCovered(r1, FilterBit(c), back, i) || Carries(r1, FilterBit(c), i)
        <==> BandRejected(flags, vals, band, fwd, back, c, i)
  {
    if BackCovered(r1, FilterBit(c), back, i) {
      var j :| i <= j < |r1| && j <= i + back && 0 <= j && Carries(r1, FilterBit(c), j);
      assert Seeded(flags, vals, band, fwd, c, j);
    }
    if exists j :: i < j < |flags| && j <= i + back && Seeded(flags, vals, band, fwd, c, j) {
      var j :| i < j < |flags| && j <= i + back && Seeded(flags, vals, band, fwd, c, j);
      assert Carries(r1, FilterBit(c), j);
    }
  }

  lemma BackwardRows(flags: seq<Word>, r1: seq<Word>, r2: seq<Word>, vals: seq<real>, band: real,
                     fwd: int, back: int, c: nat)
    requires c < CHANNELS && |r1| == |flags| == |r2|
    requires forall j :: 0 <= j < |r1| ==> (Carries(r1, FilterBit(c), j) <==> Seeded(flags, vals, band, fwd, c, j))
    requires forall i :: 0 <= i < |r2| ==>
      r2[i] == if BackCovered(r1, FilterBit(c), back, i) then SetBits(r1[i], FilterBit(c)) else r1[i]
    ensures forall i :: 0 <= i < |r2| ==>
      ChannelStepRow(r1[i], r2[i], c, BandRejected(flags, vals, band, fwd, back, c, i), false)
  {
    forall i | 0 <= i < |r2|
      ensures ChannelStepRow(r1[i], r2[i], c, BandRejected(flags, vals, band, fwd, back, c, i), false)
    {
      BackCoveredSeeds(flags, r1, vals, band, fwd, back, c, i);
      MaybeSetRow(r1[i], r2[i], c, BackCovered(r1, FilterBit(c), back, i));
    }
  }

  /**
   * Band filter of channel c (one iteration of filter_unlocked's channel loop):
   * forward pass, backward pass, and the transfer when the channel is critical.
   */
  method UnlockChannel(flags: seq<Word>, vals: seq<real>, band: real, fwd: int, back: int,
                       c: nat, critical: bool)
    returns (r: seq<Word>)
    requires c < CHANNELS && |vals| == |flags|
    ensures |r| == |flags|
    ensures forall i :: 0 <= i < |r| ==>
      ChannelStepRow(flags[i], r[i], c, BandRejected(flags, vals, band, fwd, back, c, i), critical)
  {
    var bit := FilterBit(c);
    var r1 := ForwardPass(flags, vals, band, fwd, bit);
    ForwardSeeds(flags, r1, vals, band, fwd, c);
    var r2 := BackwardPass(r1, back, bit);
    BackwardRows(flags, r1, r2, vals, band, fwd, back, c);
    r := r2;
    if critical {
      r := TransferPass(r2, c);
    }
    forall i | 0 <= i < |r|
      ensures ChannelStepRow(flags[i], r[i], c, BandRejected(flags, vals, band, fwd, back, c, i), critical)
    {
      var rej := BandRejected(flags, vals, band, fwd, back, c, i);
      ChannelStepCompose(flags[i], r1[i], r2[i], c, Seeded(flags, vals, band, fwd, c, i), rej, false);
      if critical {
        ChannelStepCompose(flags[i], r2[i], r[i], c, rej, rej, true);
      }
    }
  }

  // ---------------------------------------------------------------------------
  // All four channels

  /**
   * Row word y is x after the stages of channels 0 .. c-1: channel d < c
   * carries its filter bit exactly when rejected[d], later channels keep
   * theirs, the transfer byte is saturated once some channel d < c with
   * transfer[d] rejected the row, and every other byte is unchanged.
   */
  ghost predicate RowAfter(x: Word, y: Word, rejected: seq<bool>, transfer: seq<bool>, c: nat)
    requires c <= CHANNELS == |rejected| == |transfer|
  {
    && (forall d: nat :: d < CHANNELS ==>
          (Has(y, FilterBit(d)) <==> if d < c then rejected[d] else Has(x, FilterBit(d))))
    && Gathered(y) == Gathered(x) && Masked(y) == Masked(x) && High(y) == High(x)
    && Filtered(y) & 0xF0 == Filtered(x) & 0xF0
    && Transferred(y) == if exists d: nat :: d < c && transfer[d] && rejected[d] then 0xFF else Transferred(x)
  }

  lemma RowAfterStart(x: Word, rejected: seq<bool>, transfer: seq<bool>)
    requires CHANNELS == |rejected| == |transfer|
    ensures RowAfter(x, x, rejected, transfer, 0)
  {
  }

  lemma RowAfterStep(x: Word, y: Word, z: Word, rejected: seq<bool>, transfer: seq<bool>, c: nat)
    requires c < CHANNELS == |rejected| == |transfer|
    requires RowAfter(x, y, rejected, transfer, c)
    requires ChannelStepRow(y, z, c, rejected[c], transfer[c])
    ensures RowAfter(x, z, rejected, transfer, c + 1)
  {
    forall d: nat | d < CHANNELS
      ensures Has(z, FilterBit(d)) <==> if d < c + 1 then rejected[d] else Has(x, FilterBit(d))
    {
      if d != c {
        assert Has(z, FilterBit(d)) <==> Has(y, FilterBit(d));
      }
    }
    if transfer[c] && rejected[c] {
      assert exists d: nat :: d < c + 1 && transfer[d] && rejected[d] by {
        assert c < c + 1 && transfer[c] && rejected[c];
      }
    } else if exists d: nat :: d < c + 1 && transfer[d] && rejected[d] {
      var d: nat :| d < c + 1 && transfer[d] && rejected[d];
      assert d < c;
    }
  }

  /** The band-filter verdict depends only on which rows carry the channel's bit. */
  lemma BandRejectedCongruent(f: seq<Word>, g: seq<Word>, vals: seq<real>, band: real,
                              fwd: int, back: int, c: nat, i: int)
    requires c < CHANNELS && |f| == |g| && 0 <= i < |f|
    requires forall j :: 0 <= j < |f| ==> (Has(f[j], FilterBit(c)) <==> Has(g[j], FilterBit(c)))
    ensures BandRejected(f, vals, band, fwd, back, c, i) <==> BandRejected(g, vals, band, fwd, back, c, i)
  {
    assert forall j :: 0 <= j < |f| ==>
      (Seeded(f, vals, band, fwd, c, j) <==> Seeded(g, vals, band, fwd, c, j));
  }

  /** The band-filter verdicts of all channels for row i. */
  ghost function BandVerdicts(flags: seq<Word>, cols: seq<seq<real>>, bands: seq<real>,
                              fwd: int, back: int, i: int): (v: seq<bool>)
    requires |cols| == CHANNELS == |bands| && 0 <= i < |flags|
    ensures |v| == CHANNELS
    ensures forall d :: 0 <= d < CHANNELS ==> v[d] == BandRejected(flags, cols[d], bands[d], fwd, back, d, i)
  {
    seq(CHANNELS, d requires 0 <= d < CHANNELS => BandRejected(flags, cols[d], bands[d], fwd, back, d, i))
  }

  /** Every channel column has one value per row. */
  ghost predicate ColumnsFit(cols: seq<seq<real>>, n: nat) {
    |cols| == CHANNELS && forall d :: 0 <= d < CHANNELS ==> |cols[d]| == n
  }

  /**
   * filter_unlocked: the band filter of every channel in turn.  Unless exactly
   * one criticality flag and one band per channel are given, nothing happens
   * and the program's -1 is reported as ok = false.
   */
  method FilterUnlocked(flags: seq<Word>, cols: seq<seq<real>>, bands: seq<real>, critical: seq<bool>,
                        fwd: int, back: int)
    returns (ok: bool, r: seq<Word>)
    requires ColumnsFit(cols, |flags|)
    ensures ok <==> |critical| == CHANNELS && |bands| == CHANNELS
    ensures !ok ==> r == flags
    ensures ok ==> |r| == |flags| && forall i :: 0 <= i < |r| ==>
      RowAfter(flags[i], r[i], BandVerdicts(flags, cols, bands, fwd, back, i), critical, CHANNELS)
  {
    if |critical| != CHANNELS || |bands| != CHANNELS {
      return false, flags;
    }
    ok := true;
    r := flags;
    forall i | 0 <= i < |r|
      ensures RowAfter(flags[i], r[i], BandVerdicts(flags, cols, bands, fwd, back, i), critical, 0)
    {
      RowAfterStart(flags[i], BandVerdicts(flags, cols, bands, fwd, back, i), critical);
    }
    var c: nat := 0;
    while c < CHANNELS
      invariant c <= CHANNELS && |r| == |flags|
      invariant forall i :: 0 <= i < |r| ==>
        RowAfter(flags[i], r[i], BandVerdicts(flags, cols, bands, fwd, back, i), critical, c)
    {
      var next := UnlockChannel(r, cols[c], bands[c], fwd, back, c, critical[c]);
      forall i | 0 <= i < |r|
        ensures RowAfter(flags[i], next[i], BandVerdicts(flags, cols, bands, fwd, back, i), critical, c + 1)
      {
        var v := BandVerdicts(flags, cols, bands, fwd, back, i);
        forall j | 0 <= j < |r|
          ensures Has(r[j], FilterBit(c)) <==> Has(flags[j], FilterBit(c))
        {
          var vj := BandVerdicts(flags, cols, bands, fwd, back, j);
          assert RowAfter(flags[j], r[j], vj, critical, c);
        }
        BandRejectedCongruent(r, flags, cols[c], bands[c], fwd, back, c, i);
        RowAfterStep(flags[i], r[i], next[i], v, critical, c);
      }
      r := next;
      c := c + 1;
    }
  }

  // ---------------------------------------------------------------------------
  // Outlier stage

  /**
   * Result of a channel's outlier statistic: with fewer than 100 usable rows
   * the channel is skipped (no marks, no transfer); otherwise the rows whose
   * deviation from the running average exceeds the limit.
   */
  datatype OutlierScan = TooFewRows | Outliers(rows: seq<bool>)

  predicate ScanFits(scan: OutlierScan, n: nat) {
    scan.Outliers? ==> |scan.rows| == n
  }

  predicate Flagged(scan: OutlierScan, i: int) {
    scan.Outliers? && 0 <= i < |scan.rows| && scan.rows[i]
  }

  /** The outlier stage's marking loop for channel c. */
  method MarkOutliers(flags: seq<Word>, scan: OutlierScan, c: nat) returns (r: seq<Word>)
    requires c < CHANNELS && ScanFits(scan, |flags|)
    ensures |r| == |flags|
    ensures forall i :: 0 <= i < |r| ==>
      ChannelStepRow(flags[i], r[i], c, Has(flags[i], FilterBit(c)) || Flagged(scan, i), false)
  {
    r := flags;
    var i := 0;
    while i < |flags|
      invariant 0 <= i <= |flags| && |r| == |flags|
      invariant forall k :: 0 <= k < i ==>
        r[k] == if Flagged(scan, k) then SetBits(flags[k], FilterBit(c)) else flags[k]
      invariant forall k :: i <= k < |r| ==> r[k] == flags[k]
    {
      if Flagged(scan, i) {
        r := r[i := SetBits(r[i], FilterBit(c))];
      }
      i := i + 1;
    }
    forall i | 0 <= i < |r|
      ensures ChannelStepRow(flags[i], r[i], c, Has(flags[i], FilterBit(c)) || Flagged(scan, i), false)
    {
      MaybeSetRow(flags[i], r[i], c, Flagged(scan, i));
    }
  }

  /** Outlier stage of channel c: the marks, then the transfer when the channel is critical and was scanned. */
  method OutlierChannel(flags: seq<Word>, scan: OutlierScan, c: nat, critical: bool) returns (r: seq<Word>)
    requires c < CHANNELS && ScanFits(scan, |flags|)
    ensures |r| == |flags|
    ensures forall i :: 0 <= i < |r| ==>
      ChannelStepRow(flags[i], r[i], c, Has(flags[i], FilterBit(c)) || Flagged(scan, i),
                     critical && scan.Outliers?)
  {
    if scan.TooFewRows? {
      r := flags;
      forall i | 0 <= i < |r|
        ensures ChannelStepRow(flags[i], r[i], c, Has(flags[i], FilterBit(c)) || Flagged(scan, i), false)
      {
        assert !Flagged(scan, i);
      }
      return;
    }
    var marked := MarkOutliers(flags, scan, c);
    r := marked;
    if critical {
      r := TransferPass(marked, c);
      forall i | 0 <= i < |r|
        ensures ChannelStepRow(flags[i], r[i], c, Has(flags[i], FilterBit(c)) || Flagged(scan, i), true)
      {
        var rej := Has(flags[i], FilterBit(c)) || Flagged(scan, i);
        ChannelStepCompose(flags[i], marked[i], r[i], c, rej, rej, true);
      }
    }
  }

  /** Per-channel verdicts of the outlier stage for row i: the bit it already had, or an outlier mark. */
  ghost function OutlierVerdicts(flags: seq<Word>, scans: seq<OutlierScan>, i: int): (v: seq<bool>)
    requires |scans| == CHANNELS && 0 <= i < |flags|
    ensures |v| == CHANNELS
    ensures forall d :: 0 <= d < CHANNELS ==> v[d] == (Has(flags[i], FilterBit(d)) || Flagged(scans[d], i))
  {
    seq(CHANNELS, d requires 0 <= d < CHANNELS => Has(flags[i], FilterBit(d)) || Flagged(scans[d], i))
  }

  /** Channels whose outlier stage ends with a transfer: critical and actually scanned. */
  function OutlierTransfers(scans: seq<OutlierScan>, critical: seq<bool>): (t: seq<bool>)
    requires |scans| == CHANNELS <= |critical|
    ensures |t| == CHANNELS
    ensures forall d :: 0 <= d < CHANNELS ==> t[d] == (critical[d] && scans[d].Outliers?)
  {
    seq(CHANNELS, d requires 0 <= d < CHANNELS => critical[d] && scans[d].Outliers?)
  }

  predicate ScansFit(scans: seq<OutlierScan>, n: nat) {
    |scans| == CHANNELS && forall d :: 0 <= d < CHANNELS ==> ScanFits(scans[d], n)
  }

  /**
   * filter_outliers with each channel's statistic given as its scan result.
   * The program reads a channel's criticality only when it scans that
   * channel; the channel table always supplies four flags, and the model
   * requires them.
   */
  method FilterOutliers(flags: seq<Word>, scans: seq<OutlierScan>, critical: seq<bool>) returns (r: seq<Word>)
    requires ScansFit(scans, |flags|) && |critical| >= CHANNELS
    ensures |r| == |flags|
    ensures forall i :: 0 <= i < |r| ==>
      RowAfter(flags[i], r[i], OutlierVerdicts(flags, scans, i), OutlierTransfers(scans, critical), CHANNELS)
  {
    var t := OutlierTransfers(scans, critical);
    r := flags;
    forall i | 0 <= i < |r|
      ensures RowAfter(flags[i], r[i], OutlierVerdicts(flags, scans, i), t, 0)
    {
      RowAfterStart(flags[i], OutlierVerdicts(flags, scans, i), t);
    }
    var c: nat := 0;
    while c < CHANNELS
      invariant c <= CHANNELS && |r| == |flags|
      invariant forall i :: 0 <= i < |r| ==> RowAfter(flags[i], r[i], OutlierVerdicts(flags, scans, i), t, c)
    {
      var next := OutlierChannel(r, scans[c], c, critical[c]);
      forall i | 0 <= i < |r|
        ensures RowAfter(flags[i], next[i], OutlierVerdicts(flags, scans, i), t, c + 1)
      {
        var v := OutlierVerdicts(flags, scans, i);
        assert Has(r[i], FilterBit(c)) <==> Has(flags[i], FilterBit(c));
        RowAfterStep(flags[i], r[i], next[i], v, t, c);
      }
      r := next;
      c := c + 1;
    }
  }

  // ---------------------------------------------------------------------------
  // The whole filter pass

  /** The reset loop of filter_data over every row. */
  method ResetPass(flags: seq<Word>) returns (r: seq<Word>)
    ensures |r| == |flags|
    ensures forall i :: 0 <= i < |r| ==> r[i] == ResetWord(flags[i])
  {
    r := flags;
    var i := 0;
    while i < |flags|
      invariant 0 <= i <= |flags| && |r| == |flags|
      invariant forall k :: 0 <= k < i ==> r[k] == ResetWord(flags[k])
      invariant forall k :: i <= k < |r| ==> r[k] == flags[k]
    {
      r := r[i := ResetWord(r[i])];
      i := i + 1;
    }
  }

  /** filter_gather_results: the gather loop runs once per channel over every row. */
  method GatherResults(flags: seq<Word>) returns (r: seq<Word>)
    ensures |r| == |flags|
    ensures forall i :: 0 <= i < |r| ==> r[i] == GatherWord(flags[i])
  {
    r := flags;
    var c := 0;
    while c < CHANNELS
      invariant 0 <= c <= CHANNELS && |r| == |flags|
      invariant forall i :: 0 <= i < |r| ==> r[i] == if c == 0 then flags[i] else GatherWord(flags[i])
    {
      var i := 0;
      ghost var r0 := r;
      while i < |r|
        invariant 0 <= i <= |r| == |r0|
        invariant forall k :: 0 <= k < i ==> r[k] == GatherWord(r0[k])
        invariant forall k :: i <= k < |r| ==> r[k] == r0[k]
      {
        r := r[i := GatherWord(r[i])];
        i := i + 1;
      }
      forall k | 0 <= k < |r| && c > 0
        ensures r[k] == GatherWord(flags[k])
      {
        GatherIdempotent(flags[k]);
      }
      c := c + 1;
    }
  }

  /**
   * Reference reading of the band filter on freshly reset words: row i lies at
   * most fwd rows after, or at most back rows before, some out-of-band row.
   * A negative forward overhang rejects nothing; a negative backward overhang
   * extends nothing backwards.
   */
  ghost predicate InWindow(vals: seq<real>, band: real, fwd: int, back: int, i: int) {
    fwd >= 0 &&
    exists k :: 0 <= k < |vals| && OutOfBand(vals, band, k) && k - (if back < 0 then 0 else back) <= i <= k + fwd
  }

  /** Without filter bits beforehand, the two passes reject exactly the rows in a window. */
  lemma UnseededWindow(flags: seq<Word>, vals: seq<real>, band: real, fwd: int, back: int, c: nat, i: int)
    requires c < CHANNELS && |vals| == |flags| && 0 <= i < |flags|
    requires forall j :: 0 <= j < |flags| ==> !Has(flags[j], FilterBit(c))
    ensures BandRejected(flags, vals, band, fwd, back, c, i) <==> InWindow(vals, band, fwd, back, i)
  {
    var b := if back < 0 then 0 else back;
    if BandRejected(flags, vals, band, fwd, back, c, i) {
      if Seeded(flags, vals, band, fwd, c, i) {
        var k :| 0 <= k <= i && i <= k + fwd && k < |vals| && OutOfBand(vals, band, k);
        assert k - b <= i <= k + fwd;
      } else {
        var j :| i < j < |flags| && j <= i + back && Seeded(flags, vals, band, fwd, c, j);
        var k :| 0 <= k <= j && j <= k + fwd && k < |vals| && OutOfBand(vals, band, k);
        assert k - b <= i <= k + fwd;
      }
    }
    if InWindow(vals, band, fwd, back, i) {
      var k :| 0 <= k < |vals| && OutOfBand(vals, band, k) && k - b <= i <= k + fwd;
      if k <= i {
        assert ForwardCovered(vals, band, fwd, i);
      } else {
        assert ForwardCovered(vals, band, fwd, k);
        assert Seeded(flags, vals, band, fwd, c, k);
      }
    }
  }

  /**
   * Final state of a row after filter_data: channel d carries its filter bit
   * exactly when rejected[d]; the transfer byte is full when a critical channel
   * rejected the row and empty otherwise; the gathered byte is the OR of the
   * mask, transfer and filter bytes; the mask byte is the row's manual mask.
   */
  ghost predicate FilteredRow(x0: Word, y: Word, rejected: seq<bool>, critical: seq<bool>)
    requires |rejected| == CHANNELS <= |critical|
  {
    && (forall d: nat :: d < CHANNELS ==> (Has(y, FilterBit(d)) <==> rejected[d]))
    && Filtered(y) & 0xF0 == 0
    && Transferred(y) == (if exists d: nat :: d < CHANNELS && critical[d] && rejected[d] then 0xFF else 0)
    && Gathered(y) == Masked(y) | Transferred(y) | Filtered(y)
    && Masked(y) == Masked(x0) && High(y) == 0
  }

  /** Per channel, the row is rejected by its band window (when the band filter ran) or as an outlier. */
  ghost function FinalVerdicts(cols: seq<seq<real>>, bands: seq<real>, bandsRan: bool, fwd: int, back: int,
                               scans: seq<OutlierScan>, i: int): (v: seq<bool>)
    requires |cols| == CHANNELS == |scans| && (bandsRan ==> |bands| == CHANNELS)
    ensures |v| == CHANNELS
    ensures forall d :: 0 <= d < CHANNELS ==>
      v[d] == ((bandsRan && InWindow(cols[d], bands[d], fwd, back, i)) || Flagged(scans[d], i))
  {
    seq(CHANNELS, d requires 0 <= d < CHANNELS =>
      (bandsRan && InWindow(cols[d], bands[d], fwd, back, i)) || Flagged(scans[d], i))
  }

  lemma ResetHasNoFilterBits(f: Word, d: nat)
    requires d < CHANNELS
    ensures !Has(ResetWord(f), FilterBit(d))
  {
    ResetWordBytes(f);
    FilterBitInByte(ResetWord(f), d);
  }

  /** Chains the stage summaries of one row into its final state. */
  lemma FinalRow(x0: Word, x1: Word, x2: Word, x3: Word, x4: Word,
                 band: seq<bool>, ran: bool, critical: seq<bool>,
                 outl: seq<bool>, flagged: seq<bool>, scanned: seq<bool>, t: seq<bool>, fin: seq<bool>)
    requires |band| == |outl| == |flagged| == |scanned| == |t| == |fin| == CHANNELS <= |critical|
    requires x1 == ResetWord(x0)
    requires ran ==> |critical| == CHANNELS && RowAfter(x1, x2, band, critical, CHANNELS)
    requires !ran ==> x2 == x1
    requires forall d :: 0 <= d < CHANNELS ==> outl[d] == (Has(x2, FilterBit(d)) || flagged[d])
    requires forall d :: 0 <= d < CHANNELS ==> t[d] == (critical[d] && scanned[d])
    requires forall d :: 0 <= d < CHANNELS ==> (flagged[d] ==> scanned[d])
    requires RowAfter(x2, x3, outl, t, CHANNELS)
    requires x4 == GatherWord(x3)
    requires forall d :: 0 <= d < CHANNELS ==> fin[d] == ((ran && band[d]) || flagged[d])
    ensures FilteredRow(x0, x4, fin, critical)
  {
    ResetWordBytes(x0);
    forall d: nat | d < CHANNELS ensures !Has(x1, FilterBit(d)) {
      ResetHasNoFilterBits(x0, d);
    }
    assert forall d: nat :: d < CHANNELS ==> outl[d] == fin[d];
    FinalTransfer(x1, x2, x3, band, ran, critical, outl, flagged, scanned, t, fin);
    GatherWordBytes(x3);
    FinalBytes(x0, x1, x2, x3, x4, ran);
    forall d: nat | d < CHANNELS ensures Has(x4, FilterBit(d)) <==> fin[d] {
      SameFilterByte(x3, x4, d);
    }
  }

  /** The byte equations of the four stages compose into the final bytes of a row. */
  lemma FinalBytes(x0: Word, x1: Word, x2: Word, x3: Word, x4: Word, ran: bool)
    requires Masked(x1) == Masked(x0) && Filtered(x1) == 0 && High(x1) == 0
    requires ran ==> Masked(x2) == Masked(x1) && High(x2) == High(x1) && Filtered(x2) & 0xF0 == Filtered(x1) & 0xF0
    requires !ran ==> x2 == x1
    requires Masked(x3) == Masked(x2) && High(x3) == High(x2) && Filtered(x3) & 0xF0 == Filtered(x2) & 0xF0
    requires Gathered(x4) == Masked(x3) | Transferred(x3) | Filtered(x3)
    requires Filtered(x4) == Filtered(x3) && Transferred(x4) == Transferred(x3)
    requires Masked(x4) == Masked(x3) && High(x4) == 0
    ensures Filtered(x4) & 0xF0 == 0
    ensures Gathered(x4) == Masked(x4) | Transferred(x4) | Filtered(x4)
    ensures Masked(x4) == Masked(x0) && High(x4) == 0
  {
  }

  /** The transfer byte after both stages: full exactly when a critical channel rejected the row. */
  lemma FinalTransfer(x1: Word, x2: Word, x3: Word, band: seq<bool>, ran: bool, critical: seq<bool>,
                      outl: seq<bool>, flagged: seq<bool>, scanned: seq<bool>, t: seq<bool>, fin: seq<bool>)
    requires |band| == |outl| == |flagged| == |scanned| == |t| == |fin| == CHANNELS <= |critical|
    requires Transferred(x1) == 0
    requires ran ==> |critical| == CHANNELS && RowAfter(x1, x2, band, critical, CHANNELS)
    requires !ran ==> x2 == x1
    requires forall d: nat :: d < CHANNELS ==> !Has(x1, FilterBit(d))
    requires forall d :: 0 <= d < CHANNELS ==> t[d] == (critical[d] && scanned[d])
    requires forall d :: 0 <= d < CHANNELS ==> (flagged[d] ==> scanned[d])
    requires forall d :: 0 <= d < CHANNELS ==> fin[d] == ((ran && band[d]) || flagged[d])
    requires forall d :: 0 <= d < CHANNELS ==> outl[d] == fin[d]
    requires Transferred(x3) == if exists d: nat :: d < CHANNELS && t[d] && outl[d] then 0xFF else Transferred(x2)
    ensures Transferred(x3) == if exists d: nat :: d < CHANNELS && critical[d] && fin[d] then 0xFF else 0
  {
    assert Transferred(x2) == if ran && exists d: nat :: d < CHANNELS && critical[d] && band[d] then 0xFF else 0;
    if exists d: nat :: d < CHANNELS && t[d] && outl[d] {
      var d: nat :| d < CHANNELS && t[d] && outl[d];
      assert critical[d] && fin[d];
    } else if exists d: nat :: d < CHANNELS && critical[d] && fin[d] {
      var d: nat :| d < CHANNELS && critical[d] && fin[d];
      assert ran && band[d];
    }
  }

  /**
   * filter_data: reset every word to its manual mask, run the band filter, the
   * outlier stage and the gather.  `bands` and `critical` are the channel
   * table's tolerances and criticality flags, `fwd` and `back` the overhangs,
   * and `scans` the outlier statistic's result for each channel.  Each row ends
   * up rejected for a channel exactly when it lies in that channel's band
   * window (if the band filter ran) or was marked as an outlier.
   */
  method FilterData(flags: seq<Word>, cols: seq<seq<real>>, bands: seq<real>, critical: seq<bool>,
                    fwd: int, back: int, scans: seq<OutlierScan>)
    returns (r: seq<Word>)
    requires ColumnsFit(cols, |flags|) && ScansFit(scans, |flags|) && |critical| >= CHANNELS
    ensures |r| == |flags|
    ensures forall i :: 0 <= i < |r| ==>
      FilteredRow(flags[i], r[i],
                  FinalVerdicts(cols, bands, |critical| == CHANNELS && |bands| == CHANNELS, fwd, back, scans, i),
                  critical)
  {
    var x1 := ResetPass(flags);
    var ok, x2 := FilterUnlocked(x1, cols, bands, critical, fwd, back);
    var x3 := FilterOutliers(x2, scans, critical);
    r := GatherResults(x3);
    forall d: nat, j | d < CHANNELS && 0 <= j < |x1|
      ensures !Has(x1[j], FilterBit(d))
    {
      ResetHasNoFilterBits(flags[j], d);
    }
    forall i | 0 <= i < |r|
      ensures FilteredRow(flags[i], r[i], FinalVerdicts(cols, bands, ok, fwd, back, scans, i), critical)
    {
      var band := if ok then BandVerdicts(x1, cols, bands, fwd, back, i) else [false, false, false, false];
      if ok {
        forall d: nat | d < CHANNELS
          ensures band[d] == InWindow(cols[d], bands[d], fwd, back, i)
        {
          UnseededWindow(x1, cols[d], bands[d], fwd, back, d, i);
        }
      }
      var flagged := seq(CHANNELS, d requires 0 <= d < CHANNELS => Flagged(scans[d], i));
      var scanned := seq(CHANNELS, d requires 0 <= d < CHANNELS => scans[d].Outliers?);
      FinalRow(flags[i], x1[i], x2[i], x3[i], r[i], band, ok, critical,
               OutlierVerdicts(x2, scans, i), flagged, scanned, OutlierTransfers(scans, critical),
               FinalVerdicts(cols, bands, ok, fwd, back, scans, i));
    }
  }
}
