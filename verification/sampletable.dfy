/**
 * Loading a data file into the sample table (DataHandler.load_file): status
 * flags from the status text, the time axis shifted to start within the first
 * day, baselines subtracted from the channel columns, and a display range per
 * channel.  Parsing the CSV text is not modelled; rows arrive already split.
 */
module SampleTable {
  import opened Common
  import opened FlagWord

  const SECONDS_PER_DAY: real := 86400.0

  /** One line of a data file: status text, time in seconds, one frequency per channel. */
  datatype RawRow = RawRow(stat: string, time: real, freqs: seq<real>)

  /** The in-memory table, column by column. */
  datatype Table = Table(times: seq<real>, cols: seq<seq<real>>, flags: seq<Word>)

  ghost predicate ValidTable(t: Table) {
    |t.cols| == CHANNELS && |t.flags| == |t.times|
    && forall d :: 0 <= d < CHANNELS ==> |t.cols[d]| == |t.times|
  }

  /** Display range of a channel: value extremes and the first and last time. */
  datatype Range = Range(yMin: real, yMax: real, tMin: real, tMax: real)

  // ---------------------------------------------------------------------------
  // Status text

  /**
   * The characters str.strip removes: those Python's str.isspace accepts, the
   * ASCII tab to carriage return and space, the separators 0x1C to 0x1F, and
   * the Unicode spaces and line and paragraph separators.
   */
  predicate IsSpace(ch: char) {
    var c := ch as int;
    (0x09 <= c <= 0x0D) || (0x1C <= c <= 0x20) || c == 0x85 || c == 0xA0 || c == 0x1680
    || (0x2000 <= c <= 0x200A) || c == 0x2028 || c == 0x2029 || c == 0x202F
    || c == 0x205F || c == 0x3000
  }

  /** s without its leading whitespace. */
  function TrimStart(s: string): (r: string)
    ensures |r| <= |s| && r == s[|s| - |r|..]
    ensures forall k :: 0 <= k < |s| - |r| ==> IsSpace(s[k])
    ensures |r| > 0 ==> !IsSpace(r[0])
  {
    if |s| > 0 && IsSpace(s[0]) then TrimStart(s[1..]) else s
  }

  /** s without its trailing whitespace. */
  function TrimEnd(s: string): (r: string)
    ensures |r| <= |s| && r == s[..|r|]
    ensures forall k :: |r| <= k < |s| ==> IsSpace(s[k])
    ensures |r| > 0 ==> !IsSpace(r[|r| - 1])
  {
    if |s| > 0 && IsSpace(s[|s| - 1]) then TrimEnd(s[..|s| - 1]) else s
  }

  /** r is s[a..a + |r|] with only whitespace cut off on either side. */
  ghost predicate TrimmedAt(s: string, r: string, a: int) {
    0 <= a <= a + |r| <= |s| && r == s[a..a + |r|]
    && (forall k :: 0 <= k < a ==> IsSpace(s[k]))
    && (forall k :: a + |r| <= k < |s| ==> IsSpace(s[k]))
  }

  /** Python's str.strip without arguments. */
  function Strip(s: string): (r: string)
    ensures exists a :: TrimmedAt(s, r, a)
    ensures |r| > 0 ==> !IsSpace(r[0]) && !IsSpace(r[|r| - 1])
  {
    var t := TrimStart(s);
    var r := TrimEnd(t);
    TrimBoth(s, t, r);
    r
  }

  /** Cutting leading and then trailing whitespace cuts s at |s| - |t|. */
  lemma TrimBoth(s: string, t: string, r: string)
    requires |t| <= |s| && t == s[|s| - |t|..] && forall k :: 0 <= k < |s| - |t| ==> IsSpace(s[k])
    requires |r| <= |t| && r == t[..|r|] && forall k :: |r| <= k < |t| ==> IsSpace(t[k])
    ensures TrimmedAt(s, r, |s| - |t|)
  {
    var a := |s| - |t|;
    SliceOfSuffix(s, t, r, a);
    forall k | a + |r| <= k < |s| ensures IsSpace(s[k]) {
      assert s[k] == t[k - a];
    }
  }

  /** A prefix r of the suffix t = s[a..] is the slice of s that starts at a. */
  lemma SliceOfSuffix<T>(s: seq<T>, t: seq<T>, r: seq<T>, a: nat)
    requires a <= |s| && t == s[a..] && |r| <= |t| && r == t[..|r|]
    ensures r == s[a..a + |r|]
    ensures forall k :: a <= k < |s| ==> s[k] == t[k - a]
  {
  }

  /** Stripping is idempotent: a stripped string has nothing left to strip. */
  lemma StripIdempotent(s: string)
    ensures Strip(Strip(s)) == Strip(s)
  {
    var r := Strip(s);
    var r2 := Strip(r);
    if |r| > 0 {
      assert TrimStart(r) == r;
      assert TrimEnd(r) == r;
    }
  }

  /**
   * Flag word given at load time to a row whose status is not GOOD: the
   * program sets the word to 1 and ORs in 0x11111111 shifted by 16 and by 0.
   */
  const BAD_ROW_FLAG: Word := 1 | (0x1111_1111 << 16) | 0x1111_1111

  /** A row whose stripped status reads GOOD starts clean; any other row gets the bad-row word. */
  function LoadFlag(stat: string): (w: Word)
    ensures w == 0 <==> Strip(stat) == "GOOD"
    ensures w != 0 ==> Gathered(w) == 0x11 && Filtered(w) == 0x11
    ensures w != 0 ==> Transferred(w) == 0x11 && Masked(w) == 0x11
  {
    BadRowFlagBytes();
    if Strip(stat) == "GOOD" then 0 else BAD_ROW_FLAG
  }

  /**
   * The bad-row word sets bits 0 and 4 of every byte up to bit 44: per
   * category it rejects channel 0 only, never channels 1 to 3.
   */
  lemma BadRowFlagBytes()
    ensures BAD_ROW_FLAG == 0x1111_1111_1111
    ensures Gathered(BAD_ROW_FLAG) == 0x11 && Filtered(BAD_ROW_FLAG) == 0x11
    ensures Transferred(BAD_ROW_FLAG) == 0x11 && Masked(BAD_ROW_FLAG) == 0x11
  {
  }

  /** A loaded row is rejected for channel c exactly when it is channel 0 of a row not marked GOOD. */
  lemma LoadFlagRejects(stat: string, c: nat)
    requires c < CHANNELS
    ensures Has(LoadFlag(stat), ChannelBit(c)) <==> c == 0 && Strip(stat) != "GOOD"
    ensures Has(LoadFlag(stat), FilterBit(c)) <==> c == 0 && Strip(stat) != "GOOD"
  {
    if Strip(stat) == "GOOD" {
      assert LoadFlag(stat) == 0;
    } else {
      BadRowBits(c);
    }
  }

  /** The bad-row word holds channel 0's gathered and filter bits and no other channel's. */
  lemma BadRowBits(c: nat)
    requires c < CHANNELS
    ensures Has(BAD_ROW_FLAG, ChannelBit(c)) <==> c == 0
    ensures Has(BAD_ROW_FLAG, FilterBit(c)) <==> c == 0
  {
    var w: Word := 0x1111_1111_1111;
    assert BAD_ROW_FLAG == w by {
      BadRowFlagBytes();
    }
    if c == 0 {
      assert w & 1 != 0 && w & 0x100 != 0;
    } else if c == 1 {
      assert w & 2 == 0 && w & 0x200 == 0;
    } else if c == 2 {
      assert w & 4 == 0 && w & 0x400 == 0;
    } else {
      assert w & 8 == 0 && w & 0x800 == 0;
    }
  }

  /** After filter_data's reset a bad row keeps channel 0 rejected, through its mask byte. */
  lemma BadRowAfterReset()
    ensures ResetWord(BAD_ROW_FLAG) == 0x1100_0011
    ensures Masked(ResetWord(BAD_ROW_FLAG)) == 0x11
  {
    BadRowFlagBytes();
    ResetWordBytes(BAD_ROW_FLAG);
  }

  // ---------------------------------------------------------------------------
  // Load

  /** The day a time in seconds falls in, as Python's t // 86400: the day's start is at most t. */
  function DayIndex(t: real): (day: int)
    ensures day as real * SECONDS_PER_DAY <= t < (day + 1) as real * SECONDS_PER_DAY
  {
    (t / SECONDS_PER_DAY).Floor
  }

  /** Whole days before the earliest sample, as the program's floor(min(time) / 86400). */
  function DayOffset(times: seq<real>): (day: int)
    requires |times| > 0
    ensures day as real * SECONDS_PER_DAY <= SeqMin(times) < (day + 1) as real * SECONDS_PER_DAY
  {
    DayIndex(SeqMin(times))
  }

  /** Result of a load: the table, the day offset and its time in seconds, a range per channel. */
  datatype Loaded = Loaded(table: Table, tday: int, tmin: real, ranges: seq<Range>)

  function Times(raw: seq<RawRow>): (t: seq<real>)
    ensures |t| == |raw| && forall i :: 0 <= i < |raw| ==> t[i] == raw[i].time
  {
    seq(|raw|, i requires 0 <= i < |raw| => raw[i].time)
  }

  ghost predicate RowsFit(raw: seq<RawRow>) {
    forall i :: 0 <= i < |raw| ==> |raw[i].freqs| == CHANNELS
  }

  /** Channel d's readings with its baseline subtracted. */
  function Column(raw: seq<RawRow>, base: real, d: nat): (col: seq<real>)
    requires RowsFit(raw) && d < CHANNELS
    ensures |col| == |raw| && forall i :: 0 <= i < |raw| ==> col[i] + base == raw[i].freqs[d]
  {
    seq(|raw|, i requires 0 <= i < |raw| => raw[i].freqs[d] - base)
  }

  /** The display range of one non-empty column over a non-empty time axis. */
  function RangeOf(col: seq<real>, times: seq<real>): (g: Range)
    requires |col| > 0 && |times| > 0
    ensures forall i :: 0 <= i < |col| ==> g.yMin <= col[i] <= g.yMax
    ensures g.yMin in col && g.yMax in col
    ensures g.tMin == times[0] && g.tMax == times[|times| - 1]
  {
    Range(SeqMin(col), SeqMax(col), times[0], times[|times| - 1])
  }

  /**
   * load_file on already parsed rows.  The program takes the minimum of the
   * time column, which fails on an empty file, so at least one row is needed;
   * `baselines` is the channel table's baseline per channel.
   */
  function Load(raw: seq<RawRow>, baselines: seq<real>): (l: Loaded)
    requires |raw| > 0 && RowsFit(raw) && |baselines| == CHANNELS
    ensures ValidTable(l.table) && |l.table.times| == |raw| && |l.ranges| == CHANNELS
    ensures l.tmin == l.tday as real * SECONDS_PER_DAY
    ensures forall i :: 0 <= i < |raw| ==> l.table.times[i] + l.tmin == raw[i].time
    ensures forall i :: 0 <= i < |raw| ==> l.table.flags[i] == LoadFlag(raw[i].stat)
    ensures forall d, i :: 0 <= d < CHANNELS && 0 <= i < |raw| ==>
      l.table.cols[d][i] + baselines[d] == raw[i].freqs[d]
    ensures forall d :: 0 <= d < CHANNELS ==> l.ranges[d] == RangeOf(l.table.cols[d], l.table.times)
    ensures Sorted(Times(raw)) ==> Sorted(l.table.times)
  {
    var tday := DayOffset(Times(raw));
    var tmin := tday as real * SECONDS_PER_DAY;
    var times := seq(|raw|, i requires 0 <= i < |raw| => raw[i].time - tmin);
    var cols := seq(CHANNELS, d requires 0 <= d < CHANNELS => Column(raw, baselines[d], d));
    var flags := seq(|raw|, i requires 0 <= i < |raw| => LoadFlag(raw[i].stat));
    var ranges := seq(CHANNELS, d requires 0 <= d < CHANNELS => RangeOf(cols[d], times));
    Loaded(Table(times, cols, flags), tday, tmin, ranges)
  }

  /** After loading, every time is non-negative and the earliest lies within the first day. */
  lemma LoadTimesInFirstDay(raw: seq<RawRow>, baselines: seq<real>)
    requires |raw| > 0 && RowsFit(raw) && |baselines| == CHANNELS
    ensures var t := Load(raw, baselines).table.times;
      (forall i :: 0 <= i < |t| ==> t[i] >= 0.0)
      && exists i :: 0 <= i < |t| && t[i] < SECONDS_PER_DAY
  {
    var l := Load(raw, baselines);
    var m := SeqMin(Times(raw));
    forall i | 0 <= i < |raw| ensures l.table.times[i] >= 0.0 {
      assert Times(raw)[i] == raw[i].time;
    }
    var k :| 0 <= k < |raw| && Times(raw)[k] == m;
    assert l.table.times[k] < SECONDS_PER_DAY;
  }

  /** The shift keeps the order of samples. */
  lemma LoadKeepsOrder(raw: seq<RawRow>, baselines: seq<real>, i: int, j: int)
    requires |raw| > 0 && RowsFit(raw) && |baselines| == CHANNELS
    requires 0 <= i < |raw| && 0 <= j < |raw|
    ensures var t := Load(raw, baselines).table.times; t[i] <= t[j] <==> raw[i].time <= raw[j].time
  {
  }

}
