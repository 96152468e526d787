/**
 * The channel table (ChannelTableModel): one record per comb channel with
 * its name, baseline frequency, unlock band, filter switch, correction,
 * Allan deviation reference and the mean value last shown.
 */
module ChannelTable {
  import opened Common

  /** One channel's record; a mean that is NaN is None. */
  datatype Channel = Channel(name: string, base: real, band: real, filt: bool,
                             corr: real, aref: real, mean: Option<real>)

  /** The table always holds one record per row. */
  const ROW_NUMBER: nat := 4

  type Table = t: seq<Channel> | |t| == ROW_NUMBER witness INITIAL

  /** The records the table starts with. */
  const INITIAL: seq<Channel> := [
    Channel("f_CEO", 12000000.0, 1.0, true, 100000000.0, 429000000000000.0, None),
    Channel("f_rep", 433500.0, 300.0, true, 1000000000.0, 1000000000.0, Some(1000000000.123456789)),
    Channel("Sr beat", 58000000.0, 300.0, true, 80500000.0, 429000000000000.0, None),
    Channel("In beat", 1500000.0, 0.0, false, 130000000.0, 317000000000000.0, None)
  ]

  /** The column getters: one entry per row, in row order. */
  function Names(t: Table): (r: seq<string>)
    ensures |r| == ROW_NUMBER && forall i :: 0 <= i < ROW_NUMBER ==> r[i] == t[i].name
  {
    seq(ROW_NUMBER, i requires 0 <= i < ROW_NUMBER => t[i].name)
  }

  function FilterState(t: Table): (r: seq<bool>)
    ensures |r| == ROW_NUMBER && forall i :: 0 <= i < ROW_NUMBER ==> r[i] == t[i].filt
  {
    seq(ROW_NUMBER, i requires 0 <= i < ROW_NUMBER => t[i].filt)
  }

  function Baselines(t: Table): (r: seq<real>)
    ensures |r| == ROW_NUMBER && forall i :: 0 <= i < ROW_NUMBER ==> r[i] == t[i].base
  {
    seq(ROW_NUMBER, i requires 0 <= i < ROW_NUMBER => t[i].base)
  }

  function Bands(t: Table): (r: seq<real>)
    ensures |r| == ROW_NUMBER && forall i :: 0 <= i < ROW_NUMBER ==> r[i] == t[i].band
  {
    seq(ROW_NUMBER, i requires 0 <= i < ROW_NUMBER => t[i].band)
  }

  function AdevRef(t: Table): (r: seq<real>)
    ensures |r| == ROW_NUMBER && forall i :: 0 <= i < ROW_NUMBER ==> r[i] == t[i].aref
  {
    seq(ROW_NUMBER, i requires 0 <= i < ROW_NUMBER => t[i].aref)
  }

  /** Two tables with the same getters differ at most in corrections and means. */
  lemma GettersDetermineColumns(t: Table, u: Table)
    requires Names(t) == Names(u) && FilterState(t) == FilterState(u) && Baselines(t) == Baselines(u)
    requires Bands(t) == Bands(u) && AdevRef(t) == AdevRef(u)
    ensures forall i :: 0 <= i < ROW_NUMBER ==> t[i] == u[i].(corr := t[i].corr, mean := t[i].mean)
  {
    forall i | 0 <= i < ROW_NUMBER
      ensures t[i] == u[i].(corr := t[i].corr, mean := t[i].mean)
    {
      assert Names(t)[i] == Names(u)[i] && FilterState(t)[i] == FilterState(u)[i];
      assert Baselines(t)[i] == Baselines(u)[i] && Bands(t)[i] == Bands(u)[i] && AdevRef(t)[i] == AdevRef(u)[i];
    }
  }

  /** The channel colours. */
  datatype Colour = Sea | Purple | Magenta | Red

  const COLOURS: seq<Colour> := [Sea, Purple, Magenta, Red]

  /** color: the channel's colour, None for an index outside the list. */
  function Color(c: int): (r: Option<Colour>)
    ensures r.Some? <==> 0 <= c < |COLOURS|
    ensures r.Some? ==> r.value == COLOURS[c]
  {
    if c < 0 || c >= |COLOURS| then None else Some(COLOURS[c])
  }

  /** Different channels get different colours. */
  lemma ColorInjective(a: int, b: int)
    requires Color(a).Some? && Color(a) == Color(b)
    ensures a == b
  {
  }

  /**
   * set_mean: for a row index, the row's mean becomes the value plus the
   * row's baseline; any other index leaves the table as it was.  Nothing
   * but that one mean changes.
   */
  function SetMean(t: Table, index: int, value: real): (t': Table)
    ensures !(0 <= index < ROW_NUMBER) ==> t' == t
    ensures 0 <= index < ROW_NUMBER ==>
      && t'[index].mean.Some? && t'[index].mean.value - t'[index].base == value
      && t'[index] == t[index].(mean := t'[index].mean)
      && forall j :: 0 <= j < ROW_NUMBER && j != index ==> t'[j] == t[j]
  {
    if index < 0 || index >= ROW_NUMBER then t
    else t[index := t[index].(mean := Some(value + t[index].base))]
  }

  /** Setting a mean leaves every column getter as it was. */
  lemma SetMeanKeepsColumns(t: Table, index: int, value: real)
    ensures var t' := SetMean(t, index, value);
      && Names(t') == Names(t) && FilterState(t') == FilterState(t) && Baselines(t') == Baselines(t)
      && Bands(t') == Bands(t) && AdevRef(t') == AdevRef(t)
  {
  }

  /** Setting a row's mean twice keeps only the second value. */
  lemma SetMeanTwice(t: Table, index: int, a: real, b: real)
    ensures SetMean(SetMean(t, index, a), index, b) == SetMean(t, index, b)
  {
  }
}
