/**
 * The DataHandler object as a whole: the sample table together with the
 * cache of good points, keyed by channel mask as the program keeps it.
 * Every operation that changes the status words empties the cache, so each
 * entry stays the selection of some channel list with that mask: what the
 * cache returns has the fresh selection's rows and times, though its value
 * columns may follow another order of the same channels.
 */
module Handler {
  import opened Common
  import opened FlagWord
  import opened SampleTable
  import Selection
  import MaskSearch
  import MaskFile
  import FilterEngine

  datatype DataHandler = DataHandler(table: Table, cache: Selection.MaskCache)

  /** The table is well formed and every cache entry is a selection under its mask. */
  ghost predicate Coherent(h: DataHandler) {
    ValidTable(h.table) && Selection.MaskCacheSound(h.table, h.cache)
  }

  /** The handler after load_file: the loaded table and an empty cache. */
  function AfterLoad(l: Loaded): (h: DataHandler)
    requires ValidTable(l.table)
    ensures Coherent(h) && h.table == l.table && |h.cache| == 0
  {
    DataHandler(l.table, map[])
  }

  /** The table with new status words and the cache emptied. */
  function Reflagged(h: DataHandler, flags: seq<Word>): (h': DataHandler)
    requires ValidTable(h.table) && |flags| == |h.table.flags|
    ensures Coherent(h') && |h'.cache| == 0
    ensures h'.table == h.table.(flags := flags)
  {
    DataHandler(h.table.(flags := flags), map[])
  }

  /**
   * filter_data on the handler: the status words come out of the filter
   * pipeline and the cache is emptied.
   */
  method FilterData(h: DataHandler, bands: seq<real>, critical: seq<bool>, fwd: int, back: int,
                    scans: seq<FilterEngine.OutlierScan>)
    returns (h': DataHandler)
    requires ValidTable(h.table) && FilterEngine.ScansFit(scans, |h.table.flags|) && |critical| >= CHANNELS
    ensures Coherent(h') && |h'.cache| == 0
    ensures h'.table.times == h.table.times && h'.table.cols == h.table.cols
    ensures |h'.table.flags| == |h.table.flags|
    ensures forall i :: 0 <= i < |h'.table.flags| ==>
      FilterEngine.FilteredRow(h.table.flags[i], h'.table.flags[i],
        FilterEngine.FinalVerdicts(h.table.cols, bands, |critical| == CHANNELS && |bands| == CHANNELS,
                                   fwd, back, scans, i),
        critical)
  {
    var r := FilterEngine.FilterData(h.table.flags, h.table.cols, bands, critical, fwd, back, scans);
    h' := Reflagged(h, r);
  }

  /**
   * add_to_mask on the handler: when rows are masked the cache is emptied;
   * when nothing is masked the handler is left exactly as it was.
   */
  function AddToMask(h: DataHandler, tstart: real, tend: real, m: int): (res: (DataHandler, int))
    requires Coherent(h) && |h.table.times| > 0 && Sorted(h.table.times)
    ensures Coherent(res.0)
    ensures res.0.table == h.table.(flags := MaskSearch.AddToMask(h.table.flags, h.table.times, tstart, tend, m).0)
    ensures res.1 == MaskSearch.AddToMask(h.table.flags, h.table.times, tstart, tend, m).1
    ensures res.1 == 0 ==> res.0 == h
    ensures res.1 != 0 ==> |res.0.cache| == 0
  {
    var (r, count) := MaskSearch.AddToMask(h.table.flags, h.table.times, tstart, tend, m);
    if count == 0 then (h, 0) else (Reflagged(h, r), count)
  }

  /**
   * The masking part of load_maskfile on the handler: the blocks' bits are
   * OR-ed into the rows they cover; the cache is emptied only when some row
   * was masked, which is safe because otherwise no status word changed.
   */
  method LoadMaskfile(h: DataHandler, blocks: seq<MaskFile.MaskBlock>)
    returns (ok: bool, h': DataHandler, count: nat)
    requires Coherent(h) && Sorted(h.table.times)
    requires forall k :: 0 <= k < |blocks| ==> blocks[k].start >= MaskFile.EARLIEST
    ensures Coherent(h')
    ensures ok <==> |blocks| > 0
    ensures count == MaskFile.Count(MaskFile.Resolved(blocks), h.table.times)
    ensures h'.table.times == h.table.times && h'.table.cols == h.table.cols
    ensures |h'.table.flags| == |h.table.flags|
    ensures forall i :: 0 <= i < |h'.table.flags| ==>
      h'.table.flags[i] == MaskFile.RowWord(h.table.flags[i], MaskFile.Resolved(blocks), h.table.times[i])
    ensures count == 0 ==> h' == h
  {
    var r;
    ok, r, count := MaskFile.ApplyMaskBlocks(h.table.flags, h.table.times, blocks);
    if count > 0 {
      h' := Reflagged(h, r);
    } else {
      forall i | 0 <= i < |r| ensures r[i] == h.table.flags[i] {
        MaskFile.CountZeroUnchanged(h.table.flags, MaskFile.Resolved(blocks), h.table.times, i);
      }
      assert r == h.table.flags;
      h' := h;
    }
  }

  /**
   * get_good_points_multiple on a coherent handler: None exactly for a
   * channel number of 4 or more; otherwise rows selected for some order of
   * the requested channels, as many as the fresh selection and at the same
   * times, and the fresh selection itself when the mask was not cached.
   * The table is untouched and the handler stays coherent.
   */
  function GoodPointsMultiple(h: DataHandler, chans: seq<nat>): (res: (Option<seq<seq<real>>>, DataHandler))
    requires Coherent(h)
    ensures res.0.None? <==> !Selection.ChannelsFit(chans)
    ensures Coherent(res.1) && res.1.table == h.table
    ensures res.0.Some? ==>
      var sel := Selection.GoodPointsMultiple(h.table, chans).value;
      && Selection.Explains(h.table, Selection.ChannelSet(chans), res.0.value)
      && |res.0.value| == |sel|
      && forall j :: 0 <= j < |sel| ==> res.0.value[j][0] == sel[j][0]
    ensures Selection.ChannelSet(chans) !in h.cache ==> res.0 == Selection.GoodPointsMultiple(h.table, chans)
  {
    var (rows, cache') := Selection.CachedGoodPointsMultiple(h.table, h.cache, chans);
    if Selection.ChannelsFit(chans) then
      Selection.MaskCacheMultipleRight(h.table, h.cache, chans);
      (rows, DataHandler(h.table, cache'))
    else (rows, DataHandler(h.table, cache'))
  }

  /**
   * get_good_points on a coherent handler, through the same cache: None
   * exactly for a channel number of 4 or more; otherwise channel c's good
   * points in every part its callers read (times, values, display range),
   * and exactly get_good_points' own result when {c} was not cached.
   */
  function GoodPoints(h: DataHandler, c: nat): (res: (Option<Selection.GoodPoints>, DataHandler))
    requires Coherent(h)
    ensures res.0.None? <==> c >= CHANNELS
    ensures Coherent(res.1) && res.1.table == h.table
    ensures res.0.Some? ==> Selection.SingleRight(h.table, c, res.0.value)
    ensures {c} !in h.cache ==> res.0 == Selection.GetGoodPoints(h.table, c)
  {
    var (g, cache') := Selection.CachedGetGoodPoints(h.table, h.cache, c);
    if c < CHANNELS then
      Selection.MaskCacheGoodPointsRight(h.table, h.cache, c);
      (g, DataHandler(h.table, cache'))
    else (g, DataHandler(h.table, cache'))
  }
}
