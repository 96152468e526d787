/**
 * The selection views of DataHandler: the good points of one or several
 * channels (rows whose requested gathered bits are all clear), the masked,
 * filter-rejected and transfer-rejected points of one channel, and the cache
 * that memoises the good points.
 */
module Selection {
  import opened Common
  import opened FlagWord
  import opened SampleTable

  /** Positions of the true entries of `keep`, in increasing order. */
  function Picks(keep: seq<bool>): (p: seq<nat>)
    ensures forall j :: 0 <= j < |p| ==> p[j] < |keep| && keep[p[j]]
    ensures forall j, k :: 0 <= j < k < |p| ==> p[j] < p[k]
    ensures forall i :: 0 <= i < |keep| && keep[i] ==> i in p
  {
    if |keep| == 0 then []
    else Picks(keep[..|keep| - 1]) + if keep[|keep| - 1] then [|keep| - 1] else []
  }

  /** Every channel number names a channel of the table. */
  predicate ChannelsFit(chans: seq<nat>) {
    forall k :: 0 <= k < |chans| ==> chans[k] < CHANNELS
  }

  /** The gathered bits of the four channels, as flags. */
  function ChannelFlags(f: Word): (b: seq<bool>)
    ensures |b| == CHANNELS
  {
    [f & 1 != 0, f & 2 != 0, f & 4 != 0, f & 8 != 0]
  }

  lemma ChannelFlagsHas(f: Word, c: nat)
    requires c < CHANNELS
    ensures ChannelFlags(f)[c] <==> Has(f, ChannelBit(c))
  {
  }

  lemma ChannelFlagsBit(c: nat, d: nat)
    requires c < CHANNELS && d < CHANNELS
    ensures ChannelFlags(ChannelBit(c))[d] <==> c == d
  {
  }

  lemma ChannelFlagsOr(x: Word, y: Word, c: nat)
    requires c < CHANNELS
    ensures ChannelFlags(x | y)[c] == (ChannelFlags(x)[c] || ChannelFlags(y)[c])
  {
    if c == 0 {
      assert (x | y) & 1 != 0 <==> x & 1 != 0 || y & 1 != 0;
    } else if c == 1 {
      assert (x | y) & 2 != 0 <==> x & 2 != 0 || y & 2 != 0;
    } else if c == 2 {
      assert (x | y) & 4 != 0 <==> x & 4 != 0 || y & 4 != 0;
    } else {
      assert (x | y) & 8 != 0 <==> x & 8 != 0 || y & 8 != 0;
    }
  }

  lemma LowNibbleOr(x: Word, y: Word)
    requires x & 0xF == x && y & 0xF == y
    ensures (x | y) & 0xF == x | y
  {
  }

  /** A word within the gathered bits of the four channels shares no bit with f exactly when no channel is flagged in both. */
  lemma ClearOfNibble(f: Word, m: Word)
    requires m & 0xF == m
    ensures f & m == 0 <==> forall c :: 0 <= c < CHANNELS ==> !(ChannelFlags(f)[c] && ChannelFlags(m)[c])
  {
    ClearOfNibbleBits(f, m);
  }

  lemma ClearOfNibbleBits(f: Word, m: Word)
    requires m & 0xF == m
    ensures f & m == 0 <==>
      !(ChannelFlags(f)[0] && ChannelFlags(m)[0]) && !(ChannelFlags(f)[1] && ChannelFlags(m)[1])
      && !(ChannelFlags(f)[2] && ChannelFlags(m)[2]) && !(ChannelFlags(f)[3] && ChannelFlags(m)[3])
  {
  }

  /**
   * The channel mask of get_good_points_multiple: the OR of the gathered bits
   * `1 << c` of the requested channels, or None as soon as a channel number
   * is 4 or more.  The mask holds exactly the requested channels.
   */
  function ChannelMask(chans: seq<nat>): (m: Option<Word>)
    ensures m.Some? <==> ChannelsFit(chans)
    ensures m.Some? ==> m.value & 0xF == m.value
    ensures m.Some? ==> forall c :: 0 <= c < CHANNELS ==> (ChannelFlags(m.value)[c] <==> c in chans)
  {
    if |chans| == 0 then Some(0)
    else if chans[0] >= CHANNELS then None
    else match ChannelMask(chans[1..])
      case None => None
      case Some(rest) =>
        LowNibbleOr(ChannelBit(chans[0]), rest);
        ConsFlags(chans, rest);
        Some(ChannelBit(chans[0]) | rest)
  }

  /** Adding the first channel's bit to the mask of the others flags exactly the list's channels. */
  lemma ConsFlags(chans: seq<nat>, rest: Word)
    requires |chans| > 0 && chans[0] < CHANNELS
    requires forall c :: 0 <= c < CHANNELS ==> (ChannelFlags(rest)[c] <==> c in chans[1..])
    ensures forall c :: 0 <= c < CHANNELS ==> (ChannelFlags(ChannelBit(chans[0]) | rest)[c] <==> c in chans)
  {
    forall c | 0 <= c < CHANNELS ensures ChannelFlags(ChannelBit(chans[0]) | rest)[c] <==> c in chans {
      ChannelFlagsOr(ChannelBit(chans[0]), rest, c);
      ChannelFlagsBit(chans[0], c);
      ConsMember(chans, c);
    }
  }

  lemma ConsMember(chans: seq<nat>, c: nat)
    requires |chans| > 0
    ensures c in chans <==> c == chans[0] || c in chans[1..]
  {
    assert chans == [chans[0]] + chans[1..];
  }

  /** No channel of the list is flagged. */
  predicate GoodFor(flagged: seq<bool>, chans: seq<nat>)
    requires |flagged| == CHANNELS && ChannelsFit(chans)
  {
    forall k :: 0 <= k < |chans| ==> !flagged[chans[k]]
  }

  /** A row is good for a list of channels when none of their gathered bits is set. */
  predicate GoodRow(f: Word, chans: seq<nat>)
    requires ChannelsFit(chans)
  {
    GoodFor(ChannelFlags(f), chans)
  }

  lemma GoodForMask(flagged: seq<bool>, inMask: seq<bool>, chans: seq<nat>)
    requires |flagged| == |inMask| == CHANNELS && ChannelsFit(chans)
    requires forall c :: 0 <= c < CHANNELS ==> (inMask[c] <==> c in chans)
    ensures GoodFor(flagged, chans) <==> forall c :: 0 <= c < CHANNELS ==> !(flagged[c] && inMask[c])
  {
  }

  /** Testing against the OR-ed mask is testing every requested channel's bit. */
  lemma ChannelMaskClear(f: Word, chans: seq<nat>)
    requires ChannelsFit(chans)
    ensures f & ChannelMask(chans).value == 0 <==> GoodRow(f, chans)
  {
    var m := ChannelMask(chans).value;
    ClearOfNibble(f, m);
    GoodForMask(ChannelFlags(f), ChannelFlags(m), chans);
  }

  /** A result row: the time followed by the requested channels' values. */
  function RowOf(t: Table, i: nat, chans: seq<nat>): (row: seq<real>)
    requires ValidTable(t) && i < |t.times| && ChannelsFit(chans)
    ensures |row| == |chans| + 1 && row[0] == t.times[i]
    ensures forall k :: 0 <= k < |chans| ==> row[k + 1] == t.cols[chans[k]][i]
  {
    [t.times[i]] + seq(|chans|, k requires 0 <= k < |chans| => t.cols[chans[k]][i])
  }

  /** The result rows at the given positions, in their order. */
  function RowsAt(t: Table, p: seq<nat>, chans: seq<nat>): (rows: seq<seq<real>>)
    requires ValidTable(t) && ChannelsFit(chans) && forall j :: 0 <= j < |p| ==> p[j] < |t.times|
    ensures |rows| == |p| && forall j :: 0 <= j < |p| ==> rows[j] == RowOf(t, p[j], chans)
  {
    seq(|p|, j requires 0 <= j < |p| => RowOf(t, p[j], chans))
  }

  /** Which rows are good for the channels, by testing each channel's bit. */
  function GoodKeep(t: Table, chans: seq<nat>): (keep: seq<bool>)
    requires ChannelsFit(chans)
    ensures |keep| == |t.flags| && forall i :: 0 <= i < |keep| ==> (keep[i] <==> GoodRow(t.flags[i], chans))
  {
    seq(|t.flags|, i requires 0 <= i < |t.flags| => GoodRow(t.flags[i], chans))
  }

  /**
   * get_good_points_multiple without its cache: None when a channel number is
   * 4 or more; otherwise, in the table's order, the rows whose gathered bits
   * of all requested channels are clear, each as its time followed by the
   * requested channels' values in the order requested.
   */
  function GoodPointsMultiple(t: Table, chans: seq<nat>): (res: Option<seq<seq<real>>>)
    requires ValidTable(t)
    ensures res.None? <==> !ChannelsFit(chans)
    ensures res.Some? ==> res.value == RowsAt(t, Picks(GoodKeep(t, chans)), chans)
  {
    match ChannelMask(chans)
    case None => None
    case Some(m) =>
      var clear := seq(|t.flags|, i requires 0 <= i < |t.flags| => t.flags[i] & m == 0);
      assert clear == GoodKeep(t, chans) by {
        forall i | 0 <= i < |t.flags| ensures clear[i] == GoodKeep(t, chans)[i] {
          ChannelMaskClear(t.flags[i], chans);
        }
      }
      Some(RowsAt(t, Picks(clear), chans))
  }

  // ---------------------------------------------------------------------------
  // get_good_points

  /** Rows of one channel with the display range of get_good_points. */
  datatype GoodPoints = GoodPoints(rows: seq<seq<real>>, range: Range)

  /** The display range of an empty selection. */
  const DEFAULT_RANGE := Range(-1.0, 1.0, 0.0, 1.0)

  /**
   * get_good_points(c): None for a channel number of 4 or more; otherwise
   * the good rows of channel c as get_good_points_multiple([c]) gives them,
   * with the value extremes and the first and last time as range, or the
   * default range when no row is good.
   */
  function GetGoodPoints(t: Table, c: nat): (res: Option<GoodPoints>)
    requires ValidTable(t)
    ensures res.None? <==> c >= CHANNELS
    ensures res.Some? ==> Some(res.value.rows) == GoodPointsMultiple(t, [c]) && Wide(res.value.rows)
    ensures res.Some? && |res.value.rows| == 0 ==> res.value.range == DEFAULT_RANGE
    ensures res.Some? && |res.value.rows| > 0 ==> res.value.range == RowsRange(res.value.rows)
  {
    if c >= CHANNELS then None
    else
      var rows := GoodPointsMultiple(t, [c]).value;
      SelectionWide(t, [c]);
      Some(GoodPoints(rows, RangeFor(rows)))
  }

  /** Selected rows hold the time and one value per requested channel. */
  lemma SelectionWide(t: Table, chans: seq<nat>)
    requires ValidTable(t) && ChannelsFit(chans) && |chans| > 0
    ensures Wide(GoodPointsMultiple(t, chans).value)
  {
  }

  /** Result rows all hold a time and at least one value. */
  predicate Wide(rows: seq<seq<real>>) {
    forall j :: 0 <= j < |rows| ==> |rows[j]| >= 2
  }

  /** The range get_good_points reports for its rows. */
  function RangeFor(rows: seq<seq<real>>): Range {
    if |rows| > 0 && Wide(rows) then RowsRange(rows) else DEFAULT_RANGE
  }

  /**
   * Range of non-empty (time, value) rows: the extremes of the values, the
   * time of the first row and the time of the last row.
   */
  function RowsRange(rows: seq<seq<real>>): (g: Range)
    requires |rows| > 0 && Wide(rows)
    ensures forall j :: 0 <= j < |rows| ==> g.yMin <= rows[j][1] <= g.yMax
    ensures (exists j :: 0 <= j < |rows| && rows[j][1] == g.yMin)
    ensures (exists j :: 0 <= j < |rows| && rows[j][1] == g.yMax)
    ensures g.tMin == rows[0][0] && g.tMax == rows[|rows| - 1][0]
  {
    var ys := seq(|rows|, j requires 0 <= j < |rows| => rows[j][1]);
    var ts := seq(|rows|, j requires 0 <= j < |rows| => rows[j][0]);
    var g := RangeOf(ys, ts);
    assert forall j :: 0 <= j < |rows| ==> ys[j] == rows[j][1];
    g
  }

  // ---------------------------------------------------------------------------
  // Masked and rejected points

  /** The three views of one channel's rejected points. */
  datatype View = MaskedView | RejectedView | TransferRejectedView

  /**
   * Whether a row belongs to a view of channel c: get_mskd_points takes the
   * rows with the channel's mask bit; get_rej1_points those with its filter
   * bit but not its mask bit; get_rej2_points those with its transfer bit but
   * neither its filter bit nor its mask bit.
   */
  predicate InView(f: Word, c: nat, v: View)
    requires c < CHANNELS
  {
    match v
    case MaskedView => InMasked(f, c)
    case RejectedView => InRejected(f, c)
    case TransferRejectedView => InTransferRejected(f, c)
  }

  predicate InMasked(f: Word, c: nat)
    requires c < CHANNELS
  {
    f & MaskBit(c) != 0
  }

  predicate InRejected(f: Word, c: nat)
    requires c < CHANNELS
  {
    f & FilterBit(c) != 0 && f & MaskBit(c) == 0
  }

  predicate InTransferRejected(f: Word, c: nat)
    requires c < CHANNELS
  {
    f & TransferBit(c) != 0 && f & (FilterBit(c) | MaskBit(c)) == 0
  }

  /** The three views in terms of the bytes of the status word. */
  lemma ViewBytes(f: Word, c: nat)
    requires c < CHANNELS
    ensures InMasked(f, c) <==> Has(Masked(f), ChannelBit(c))
    ensures InRejected(f, c) <==> Has(Filtered(f), ChannelBit(c)) && !Has(Masked(f), ChannelBit(c))
    ensures InTransferRejected(f, c) <==>
      Has(Transferred(f), ChannelBit(c)) && !Has(Filtered(f), ChannelBit(c)) && !Has(Masked(f), ChannelBit(c))
  {
    MaskBitInByte(f, c);
    FilterBitInByte(f, c);
    TransferBitInByte(f, c);
    AndOrZero(f, FilterBit(c), MaskBit(c));
  }

  /** No row is in two of the masked, rejected and transfer-rejected views of a channel. */
  lemma ViewsDisjoint(f: Word, c: nat)
    requires c < CHANNELS
    ensures !(InMasked(f, c) && InRejected(f, c))
    ensures !(InMasked(f, c) && InTransferRejected(f, c))
    ensures !(InRejected(f, c) && InTransferRejected(f, c))
  {
    ViewBytes(f, c);
  }

  lemma OrAndZero(x: Word, y: Word, b: Word)
    ensures (x | y) & b == 0 <==> x & b == 0 && y & b == 0
  {
    AndDistributesRight(x, y, b);
    OrIsZero(x & b, y & b);
  }

  lemma AndDistributesRight(x: Word, y: Word, b: Word)
    ensures (x | y) & b == (x & b) | (y & b)
  {
  }

  /**
   * Once the gathered byte is the OR of the mask, transfer and filter bytes
   * (as after filter_gather_results), a row is good for channel c exactly
   * when it is in none of the three views of c.
   */
  lemma GoodIsOutsideViews(f: Word, c: nat)
    requires c < CHANNELS && Gathered(f) == Masked(f) | Transferred(f) | Filtered(f)
    ensures GoodRow(f, [c]) <==> !InMasked(f, c) && !InRejected(f, c) && !InTransferRejected(f, c)
  {
    GoodForSingle(ChannelFlags(f), c);
    ChannelFlagsHas(f, c);
    ChannelBitInByte(f, c);
    GatheredHas(f, c);
    ViewBytes(f, c);
  }

  /** A row is good for one channel exactly when that channel is not flagged. */
  lemma GoodForSingle(flagged: seq<bool>, c: nat)
    requires |flagged| == CHANNELS && c < CHANNELS
    ensures GoodFor(flagged, [c]) <==> !flagged[c]
  {
    assert [c][0] == c;
  }

  /** With the gathered byte the OR of the other three, a channel is gathered when it is in one of them. */
  lemma GatheredHas(f: Word, c: nat)
    requires c < CHANNELS && Gathered(f) == Masked(f) | Transferred(f) | Filtered(f)
    ensures Has(Gathered(f), ChannelBit(c)) <==>
      Has(Masked(f), ChannelBit(c)) || Has(Transferred(f), ChannelBit(c)) || Has(Filtered(f), ChannelBit(c))
  {
    OrAndZero(Masked(f) | Transferred(f), Filtered(f), ChannelBit(c));
    OrAndZero(Masked(f), Transferred(f), ChannelBit(c));
  }

  /** Which rows belong to a view of channel c. */
  function ViewKeep(t: Table, c: nat, v: View): (keep: seq<bool>)
    requires c < CHANNELS
    ensures |keep| == |t.flags| && forall i :: 0 <= i < |keep| ==> (keep[i] <==> InView(t.flags[i], c, v))
  {
    seq(|t.flags|, i requires 0 <= i < |t.flags| => InView(t.flags[i], c, v))
  }

  /**
   * get_mskd_points, get_rej1_points and get_rej2_points: None for a channel
   * number of 4 or more; otherwise, in the table's order, time and value of
   * channel c of the rows in the view.
   */
  function ViewPoints(t: Table, c: nat, v: View): (res: Option<seq<seq<real>>>)
    requires ValidTable(t)
    ensures res.None? <==> c >= CHANNELS
    ensures res.Some? ==> res.value == RowsAt(t, Picks(ViewKeep(t, c, v)), [c])
  {
    if c >= CHANNELS then None else Some(RowsAt(t, Picks(ViewKeep(t, c, v)), [c]))
  }

  /** A row is picked exactly when it is kept. */
  lemma PicksExactly(keep: seq<bool>, i: nat)
    requires i < |keep|
    ensures i in Picks(keep) <==> keep[i]
  {
  }

  /**
   * The three views of a channel pick pairwise disjoint rows of the table,
   * and after the gather they pick exactly the rows that are not good for
   * the channel.
   */
  lemma ViewsPartition(t: Table, c: nat, i: nat)
    requires c < CHANNELS && i < |t.flags|
    ensures var (m, r1, r2) := (Picks(ViewKeep(t, c, MaskedView)), Picks(ViewKeep(t, c, RejectedView)),
                                Picks(ViewKeep(t, c, TransferRejectedView)));
      !(i in m && i in r1) && !(i in m && i in r2) && !(i in r1 && i in r2)
    ensures var f := t.flags[i];
      Gathered(f) == Masked(f) | Transferred(f) | Filtered(f) ==>
        (i in Picks(GoodKeep(t, [c])) <==>
          !(i in Picks(ViewKeep(t, c, MaskedView)) || i in Picks(ViewKeep(t, c, RejectedView))
            || i in Picks(ViewKeep(t, c, TransferRejectedView))))
  {
    PicksExactly(ViewKeep(t, c, MaskedView), i);
    PicksExactly(ViewKeep(t, c, RejectedView), i);
    PicksExactly(ViewKeep(t, c, TransferRejectedView), i);
    PicksExactly(GoodKeep(t, [c]), i);
    ViewsDisjoint(t.flags[i], c);
    if Gathered(t.flags[i]) == Masked(t.flags[i]) | Transferred(t.flags[i]) | Filtered(t.flags[i]) {
      GoodIsOutsideViews(t.flags[i], c);
    }
  }

  // ---------------------------------------------------------------------------
  // The cache of good points

  /** The set of requested channels. */
  function ChannelSet(chans: seq<nat>): set<nat> {
    set c | c in chans
  }

  /** Two words within the low nibble that flag the same channels are equal. */
  lemma NibbleFlagsInjective(m: Word, n: Word)
    requires m & 0xF == m && n & 0xF == n && ChannelFlags(m) == ChannelFlags(n)
    ensures m == n
  {
    assert ChannelFlags(m)[0] == ChannelFlags(n)[0] && ChannelFlags(m)[1] == ChannelFlags(n)[1];
    assert ChannelFlags(m)[2] == ChannelFlags(n)[2] && ChannelFlags(m)[3] == ChannelFlags(n)[3];
  }

  /**
   * The channel mask is the set of requested channels in another form: two
   * channel lists get the same mask exactly when they request the same
   * channels, in whatever order and with whatever repetitions.
   */
  lemma MaskIsChannelSet(a: seq<nat>, b: seq<nat>)
    requires ChannelsFit(a) && ChannelsFit(b)
    ensures ChannelMask(a) == ChannelMask(b) <==> ChannelSet(a) == ChannelSet(b)
  {
    var ma, mb := ChannelMask(a).value, ChannelMask(b).value;
    if ChannelSet(a) == ChannelSet(b) {
      assert ChannelFlags(ma) == ChannelFlags(mb) by {
        forall c | 0 <= c < CHANNELS ensures ChannelFlags(ma)[c] == ChannelFlags(mb)[c] {
          assert c in a <==> c in ChannelSet(a);
          assert c in b <==> c in ChannelSet(b);
        }
      }
      NibbleFlagsInjective(ma, mb);
    }
    if ma == mb {
      forall c ensures c in ChannelSet(a) <==> c in ChannelSet(b) {
        if c in a { assert c < CHANNELS; }
        if c in b { assert c < CHANNELS; }
      }
    }
  }

  /** Whether a row is good depends on the set of requested channels only. */
  lemma SameSetSameRows(t: Table, a: seq<nat>, b: seq<nat>)
    requires ChannelsFit(a) && ChannelsFit(b) && ChannelSet(a) == ChannelSet(b)
    ensures GoodKeep(t, a) == GoodKeep(t, b)
  {
    forall i | 0 <= i < |t.flags| ensures GoodKeep(t, a)[i] == GoodKeep(t, b)[i] {
      var flagged := ChannelFlags(t.flags[i]);
      forall k | 0 <= k < |a| ensures a[k] in b { assert a[k] in ChannelSet(a); }
      forall k | 0 <= k < |b| ensures b[k] in a { assert b[k] in ChannelSet(b); }
    }
  }

  /**
   * The cache as the program keeps it, with each key written as the set of
   * channels its bit mask holds (MaskIsChannelSet): selected rows by mask.
   */
  type MaskCache = map<set<nat>, seq<seq<real>>>

  /**
   * get_good_points_multiple with its cache: a mask already in the cache
   * returns the cached rows; otherwise the rows are selected and stored
   * under the mask.
   */
  function CachedGoodPointsMultiple(t: Table, cache: MaskCache, chans: seq<nat>)
    : (res: (Option<seq<seq<real>>>, MaskCache))
    requires ValidTable(t)
    ensures !ChannelsFit(chans) ==> res == (None, cache)
    ensures ChannelsFit(chans) ==>
      var m := ChannelSet(chans);
      && m in res.1 && res.0 == Some(res.1[m])
      && (m in cache ==> res.1 == cache)
      && (m !in cache ==> res.0 == GoodPointsMultiple(t, chans) && res.1 == cache[m := res.0.value])
  {
    if !ChannelsFit(chans) then (None, cache)
    else
      var m := ChannelSet(chans);
      if m in cache then (Some(cache[m]), cache)
      else
        var rows := GoodPointsMultiple(t, chans).value;
        (Some(rows), cache[m := rows])
  }

  /** get_good_points with the shared cache: the key of channel c is its bit `1 << c`. */
  function CachedGetGoodPoints(t: Table, cache: MaskCache, c: nat): (res: (Option<GoodPoints>, MaskCache))
    requires ValidTable(t)
    ensures c >= CHANNELS ==> res == (None, cache)
    ensures c < CHANNELS ==>
      && {c} in res.1 && res.0 == Some(GoodPoints(res.1[{c}], RangeFor(res.1[{c}])))
      && ({c} in cache ==> res.1 == cache)
      && ({c} !in cache ==> res.0 == GetGoodPoints(t, c))
  {
    if c >= CHANNELS then (None, cache)
    else
      assert ChannelSet([c]) == {c};
      var (sel, cache') := CachedGoodPointsMultiple(t, cache, [c]);
      (Some(GoodPoints(sel.value, RangeFor(sel.value))), cache')
  }

  /** rows are the selection of some channel list whose set is m. */
  ghost predicate Explains(t: Table, m: set<nat>, rows: seq<seq<real>>)
    requires ValidTable(t)
  {
    exists chans :: ChannelsFit(chans) && ChannelSet(chans) == m && Some(rows) == GoodPointsMultiple(t, chans)
  }

  /**
   * Every entry of the program's cache holds the selection of some channel
   * list with that mask.
   */
  ghost predicate MaskCacheSound(t: Table, cache: MaskCache)
    requires ValidTable(t)
  {
    forall m :: m in cache ==> Explains(t, m, cache[m])
  }

  /** Rows explained by some list with the same set have the selection's length and times. */
  lemma ExplainedRowsRight(t: Table, chans: seq<nat>, rows: seq<seq<real>>)
    requires ValidTable(t) && ChannelsFit(chans) && Explains(t, ChannelSet(chans), rows)
    ensures |rows| == |GoodPointsMultiple(t, chans).value|
    ensures forall j :: 0 <= j < |rows| ==> rows[j][0] == GoodPointsMultiple(t, chans).value[j][0]
  {
    var other :| ChannelsFit(other) && ChannelSet(other) == ChannelSet(chans) && Some(rows) == GoodPointsMultiple(t, other);
    SameSetSameRows(t, chans, other);
  }

  /** Storing explained rows keeps a sound cache sound. */
  lemma SoundInsert(t: Table, cache: MaskCache, m: set<nat>, rows: seq<seq<real>>)
    requires ValidTable(t) && MaskCacheSound(t, cache) && Explains(t, m, rows)
    ensures MaskCacheSound(t, cache[m := rows])
  {
  }

  /**
   * A sound cache stays sound, and what it returns has the right rows: the
   * same number as the selection, with the same times.  Only the value
   * columns may belong to another order of the same channels.
   */
  lemma MaskCacheRowsRight(t: Table, cache: MaskCache, chans: seq<nat>)
    requires ValidTable(t) && MaskCacheSound(t, cache) && ChannelsFit(chans)
    ensures MaskCacheSound(t, CachedGoodPointsMultiple(t, cache, chans).1)
    ensures |CachedGoodPointsMultiple(t, cache, chans).0.value| == |GoodPointsMultiple(t, chans).value|
    ensures forall j :: 0 <= j < |CachedGoodPointsMultiple(t, cache, chans).0.value| ==>
      CachedGoodPointsMultiple(t, cache, chans).0.value[j][0] == GoodPointsMultiple(t, chans).value[j][0]
  {
    var m := ChannelSet(chans);
    var res := CachedGoodPointsMultiple(t, cache, chans);
    if m in cache {
      ExplainedRowsRight(t, chans, cache[m]);
    } else {
      var rows := GoodPointsMultiple(t, chans).value;
      assert Explains(t, m, rows);
      SoundInsert(t, cache, m, rows);
    }
  }

  /**
   * Rows explained by some list whose set is {c} are the selection of
   * channel c in the columns get_good_points reads: the same rows, each with
   * the time and channel c's value first (the list may repeat c).
   */
  lemma ExplainedSingle(t: Table, c: nat, rows: seq<seq<real>>)
    requires ValidTable(t) && c < CHANNELS && Explains(t, {c}, rows)
    ensures var sel := GoodPointsMultiple(t, [c]).value;
      && |rows| == |sel| && Wide(rows) && Wide(sel)
      && forall j :: 0 <= j < |rows| ==> rows[j][0] == sel[j][0] && rows[j][1] == sel[j][1]
  {
    var other := ExplainedWitness(t, c, rows);
    var picks := Picks(GoodKeep(t, [c]));
    assert rows == RowsAt(t, picks, other);
    assert GoodPointsMultiple(t, [c]).value == RowsAt(t, picks, [c]);
    LeadingColumns(t, picks, other, c);
  }

  /** Rows explained by {c} are the selection of a list that starts with c and keeps channel c's rows. */
  lemma ExplainedWitness(t: Table, c: nat, rows: seq<seq<real>>) returns (other: seq<nat>)
    requires ValidTable(t) && c < CHANNELS && Explains(t, {c}, rows)
    ensures ChannelsFit(other) && |other| > 0 && other[0] == c
    ensures GoodKeep(t, other) == GoodKeep(t, [c]) && Some(rows) == GoodPointsMultiple(t, other)
  {
    other :| ChannelsFit(other) && ChannelSet(other) == {c} && Some(rows) == GoodPointsMultiple(t, other);
    SingletonList(other, c);
    SameSetSameRows(t, [c], other);
  }

  /** A list whose set of channels is {c} is c, possibly repeated. */
  lemma SingletonList(chans: seq<nat>, c: nat)
    requires ChannelSet(chans) == {c}
    ensures |chans| > 0 && chans[0] == c && ChannelSet([c]) == ChannelSet(chans)
  {
    assert c in ChannelSet(chans);
    assert chans[0] in ChannelSet(chans);
    assert ChannelSet([c]) == {c};
  }

  /** Rows for a channel list that starts with c agree with channel c's rows in the time and first value. */
  lemma LeadingColumns(t: Table, picks: seq<nat>, chans: seq<nat>, c: nat)
    requires ValidTable(t) && ChannelsFit(chans) && |chans| > 0 && chans[0] == c
    requires forall j :: 0 <= j < |picks| ==> picks[j] < |t.times|
    ensures var a := RowsAt(t, picks, chans); var b := RowsAt(t, picks, [c]);
      && |a| == |b| && Wide(a) && Wide(b)
      && forall j :: 0 <= j < |a| ==> a[j][0] == b[j][0] && a[j][1] == b[j][1]
  {
    var a := RowsAt(t, picks, chans);
    var b := RowsAt(t, picks, [c]);
    forall j | 0 <= j < |a| ensures |a[j]| >= 2 && |b[j]| >= 2 && a[j][0] == b[j][0] && a[j][1] == b[j][1] {
      assert a[j] == RowOf(t, picks[j], chans);
      assert b[j] == RowOf(t, picks[j], [c]);
    }
  }

  /** Two row sets that agree in their time and first value column have the same display range. */
  lemma RangeForColumns(a: seq<seq<real>>, b: seq<seq<real>>)
    requires |a| == |b| && Wide(a) && Wide(b)
    requires forall j :: 0 <= j < |a| ==> a[j][0] == b[j][0] && a[j][1] == b[j][1]
    ensures RangeFor(a) == RangeFor(b)
  {
    if |a| > 0 {
      var ysa := seq(|a|, j requires 0 <= j < |a| => a[j][1]);
      var ysb := seq(|b|, j requires 0 <= j < |b| => b[j][1]);
      var tsa := seq(|a|, j requires 0 <= j < |a| => a[j][0]);
      var tsb := seq(|b|, j requires 0 <= j < |b| => b[j][0]);
      assert ysa == ysb && tsa == tsb;
    }
  }

  /**
   * get_good_points through a sound cache: the cache stays sound, and the
   * result is the fresh one in every part get_good_points' callers read (the
   * rows' times and channel c's values, and the display range), with the
   * entry under {c} possibly holding further columns.
   */
  lemma MaskCacheGoodPointsRight(t: Table, cache: MaskCache, c: nat)
    requires ValidTable(t) && MaskCacheSound(t, cache) && c < CHANNELS
    ensures MaskCacheSound(t, CachedGetGoodPoints(t, cache, c).1)
    ensures CachedGetGoodPoints(t, cache, c).0.Some?
    ensures SingleRight(t, c, CachedGetGoodPoints(t, cache, c).0.value)
  {
    GetGoodPointsShares(t, cache, c);
    MultipleSingleRight(t, cache, c);
  }

  /** The entry get_good_points_multiple([c]) leaves behind, with its range, is channel c's good points. */
  lemma MultipleSingleRight(t: Table, cache: MaskCache, c: nat)
    requires ValidTable(t) && MaskCacheSound(t, cache) && c < CHANNELS
    ensures var multi := CachedGoodPointsMultiple(t, cache, [c]);
      && MaskCacheSound(t, multi.1) && multi.0.Some?
      && SingleRight(t, c, GoodPoints(multi.0.value, RangeFor(multi.0.value)))
  {
    var multi := CachedGoodPointsMultiple(t, cache, [c]);
    MaskCacheMultipleRight(t, cache, [c]);
    assert ChannelSet([c]) == {c};
    SingleFromExplained(t, c, multi.0.value);
  }

  /** Rows explained by the set {c}, with their range, are channel c's good points. */
  lemma SingleFromExplained(t: Table, c: nat, rows: seq<seq<real>>)
    requires ValidTable(t) && c < CHANNELS && Explains(t, {c}, rows)
    ensures SingleRight(t, c, GoodPoints(rows, RangeFor(rows)))
  {
    ExplainedSingle(t, c, rows);
    RangeForColumns(rows, GetGoodPoints(t, c).value.rows);
  }

  /**
   * g is channel c's good points as far as get_good_points' callers read
   * them: rows of some selection whose channel set is {c}, with the fresh
   * result's number of rows, times, channel c values and display range.
   */
  ghost predicate SingleRight(t: Table, c: nat, g: GoodPoints)
    requires ValidTable(t) && c < CHANNELS
  {
    var sel := GetGoodPoints(t, c).value;
    && Explains(t, {c}, g.rows)
    && |g.rows| == |sel.rows| && Wide(g.rows)
    && (forall j :: 0 <= j < |sel.rows| ==> g.rows[j][0] == sel.rows[j][0] && g.rows[j][1] == sel.rows[j][1])
    && g.range == sel.range
  }

  /** get_good_points reads and fills the entry get_good_points_multiple([c]) does. */
  lemma GetGoodPointsShares(t: Table, cache: MaskCache, c: nat)
    requires ValidTable(t) && c < CHANNELS
    ensures var multi := CachedGoodPointsMultiple(t, cache, [c]);
      multi.0.Some? && CachedGetGoodPoints(t, cache, c) == (Some(GoodPoints(multi.0.value, RangeFor(multi.0.value))), multi.1)
  {
  }

  /**
   * get_good_points_multiple through a sound cache: the cache stays sound,
   * and the rows returned are the selection of some order of the requested
   * channels, with the fresh selection's length and times.
   */
  lemma MaskCacheMultipleRight(t: Table, cache: MaskCache, chans: seq<nat>)
    requires ValidTable(t) && MaskCacheSound(t, cache) && ChannelsFit(chans)
    ensures var (rows, cache') := CachedGoodPointsMultiple(t, cache, chans);
      && MaskCacheSound(t, cache') && rows.Some?
      && Explains(t, ChannelSet(chans), rows.value)
      && |rows.value| == |GoodPointsMultiple(t, chans).value|
      && forall j :: 0 <= j < |rows.value| ==> rows.value[j][0] == GoodPointsMultiple(t, chans).value[j][0]
  {
    MaskCacheRowsRight(t, cache, chans);
    var m := ChannelSet(chans);
    if m !in cache {
      assert Explains(t, m, GoodPointsMultiple(t, chans).value);
    }
  }

  /**
   * The key collides for two orders of the same channels: after a request
   * for channels 0 and 1, a request for channels 1 and 0 returns the columns
   * in the order 0, 1 instead of 1, 0.
   */
  lemma MaskCacheCollision()
    ensures var t := CollisionTable();
      var first := CachedGoodPointsMultiple(t, map[], [0, 1]);
      && CachedGoodPointsMultiple(t, first.1, [1, 0]).0 == Some([[0.0, 10.0, 20.0]])
      && GoodPointsMultiple(t, [1, 0]) == Some([[0.0, 20.0, 10.0]])
  {
    var t := CollisionTable();
    CollisionSelections();
    assert ChannelSet([0, 1]) == {0, 1} == ChannelSet([1, 0]);
    var first := CachedGoodPointsMultiple(t, map[], [0, 1]);
    assert first.1 == map[{0, 1} := [[0.0, 10.0, 20.0]]];
    assert ChannelSet([1, 0]) in first.1;
  }

  /**
   * get_good_points shares its key with get_good_points_multiple: after a
   * request for channel 0 twice, get_good_points(0) returns rows of three
   * columns where the selection has two.
   */
  lemma SingleKeyShared()
    ensures var t := CollisionTable();
      var first := CachedGoodPointsMultiple(t, map[], [0, 0]);
      && CachedGetGoodPoints(t, first.1, 0).0.value.rows == [[0.0, 10.0, 10.0]]
      && GetGoodPoints(t, 0).value.rows == [[0.0, 10.0]]
  {
    var t := CollisionTable();
    SingleClearRow(t, [0, 0]);
    SingleClearRow(t, [0]);
    assert RowOf(t, 0, [0, 0]) == [0.0, 10.0, 10.0];
    assert RowOf(t, 0, [0]) == [0.0, 10.0];
    assert ChannelSet([0, 0]) == {0} == ChannelSet([0]);
    var first := CachedGoodPointsMultiple(t, map[], [0, 0]);
    assert first.1 == map[{0} := [[0.0, 10.0, 10.0]]];
    GetGoodPointsShares(t, first.1, 0);
  }

  /** One good row at time 0 with values 10, 20, 30 and 40. */
  function CollisionTable(): (t: Table)
    ensures ValidTable(t)
  {
    Table([0.0], [[10.0], [20.0], [30.0], [40.0]], [0])
  }

  /** A table of one row with a clear status word selects that row for any channels. */
  lemma SingleClearRow(t: Table, chans: seq<nat>)
    requires ValidTable(t) && |t.times| == 1 && t.flags[0] == 0 && ChannelsFit(chans)
    ensures GoodPointsMultiple(t, chans) == Some([RowOf(t, 0, chans)])
  {
    ClearWordGood(chans);
    var keep := GoodKeep(t, chans);
    assert keep == [true];
    assert Picks(keep) == [0];
    var rows := RowsAt(t, Picks(keep), chans);
    assert rows == [RowOf(t, 0, chans)];
  }

  /** A clear status word is good for every channel. */
  lemma ClearWordGood(chans: seq<nat>)
    requires ChannelsFit(chans)
    ensures GoodRow(0, chans)
  {
    assert ChannelFlags(0) == [false, false, false, false];
  }

  /** The selections of channels 0, 1 and of channels 1, 0 on that table. */
  lemma CollisionSelections()
    ensures GoodPointsMultiple(CollisionTable(), [0, 1]) == Some([[0.0, 10.0, 20.0]])
    ensures GoodPointsMultiple(CollisionTable(), [1, 0]) == Some([[0.0, 20.0, 10.0]])
  {
    var t := CollisionTable();
    SingleClearRow(t, [0, 1]);
    SingleClearRow(t, [1, 0]);
    assert RowOf(t, 0, [0, 1]) == [0.0, 10.0, 20.0];
    assert RowOf(t, 0, [1, 0]) == [0.0, 20.0, 10.0];
  }

  /** The cache as evidently intended: selected rows by the channel list itself. */
  type ListCache = map<seq<nat>, seq<seq<real>>>

  /** Every entry holds the selection of its own key. */
  ghost predicate CacheAgrees(t: Table, cache: ListCache)
    requires ValidTable(t)
  {
    forall k :: k in cache ==> Some(cache[k]) == GoodPointsMultiple(t, k)
  }

  /**
   * get_good_points_multiple with a cache keyed by the channel list: while
   * every entry agrees with its key, the result is the selection itself and
   * the cache keeps agreeing.
   */
  function CachedSelection(t: Table, cache: ListCache, chans: seq<nat>)
    : (res: (Option<seq<seq<real>>>, ListCache))
    requires ValidTable(t)
    ensures CacheAgrees(t, cache) ==> res.0 == GoodPointsMultiple(t, chans) && CacheAgrees(t, res.1)
    ensures cache.Keys <= res.1.Keys
  {
    if !ChannelsFit(chans) then (None, cache)
    else if chans in cache then (Some(cache[chans]), cache)
    else
      var rows := GoodPointsMultiple(t, chans).value;
      (Some(rows), cache[chans := rows])
  }

  /** get_good_points through the list-keyed cache, under the key [c]. */
  function CachedGoodPoints(t: Table, cache: ListCache, c: nat): (res: (Option<GoodPoints>, ListCache))
    requires ValidTable(t)
    ensures CacheAgrees(t, cache) ==> res.0 == GetGoodPoints(t, c) && CacheAgrees(t, res.1)
  {
    if c >= CHANNELS then (None, cache)
    else
      var (sel, cache') := CachedSelection(t, cache, [c]);
      (Some(GoodPoints(sel.value, RangeFor(sel.value))), cache')
  }
}
