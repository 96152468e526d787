# freqeval status-word pipeline in Dafny

freqeval evaluates frequency-comb counter logs. Each sample row has a time,
four channel frequencies and a status word. `DataHandler` keeps the rows in
the order of the log file (the searches and the mask loops rely on that order
being by time) and uses the bytes of the status word to record why a sample
is rejected:

- bits 0–7: gathered rejection;
- bits 8–15: rejected by a channel's filter;
- bits 16–23: rejection transferred from a critical channel;
- bits 24–31: manual mask.

This project models that pipeline and the small stores around it:

- **Loading.** Rows are flagged and the time offset is removed.
- **Filter pass.** The words are reset to the mask, then go through the band
  filter with its overhangs, the critical-channel transfer, the outlier pass
  and the gather step.
- **Manual masking.** This covers the bisection search `binary_search_data`, `add_to_mask`,
  the interval loop of `load_maskfile` and the run extraction of
  `save_maskfile`.
- **Selections.** These are the good-point selection with its cache, and the
  masked / filter-rejected / transfer-rejected views.
- **Evaluation.** The channel-sign decoding and coefficient vectors of
  `evaluate_eval_data`.
- **Stores.** The selection table, the Allan deviation store, the tau grid and
  headers of the Allan deviation table, and the channel table.

Modules:

| module | file | what it holds |
|---|---|---|
| `Common` | common.dfy | `Option`, the Qt roles, `Min`/`Max`/`Abs`, sortedness |
| `FlagWord` | flagword.dfy | the status word as `bv64`, its bytes, the per-channel bits, the reset/transfer/gather words |
| `SampleTable` | sampletable.dfy | the table (times, four value columns, words), `load_file` |
| `FilterEngine` | filter.dfy | `filter_data` and its passes |
| `MaskFile` | maskfile.dfy | the apply loop of `load_maskfile` |
| `MaskSearch` | masksearch.dfy | `binary_search_data`, `add_to_mask` |
| `SaveMask` | savemask.dfy | run extraction of `save_maskfile` |
| `Selection` | selection.dfy | `get_good_points*`, the three views, the cache |
| `EvalSigns` | evalsigns.dfy | sign decoding and evaluation of `evaluate_eval_data` |
| `Handler` | handler.dfy | the `DataHandler` object: table plus the mask-keyed cache, each mutator clearing the cache |
| `SelectionTable` | selectiontable.dfy | `TimeStore`, `SelectionTableModel` |
| `ADevStore` | adevstore.dfy | `ADevData` |
| `ADevTable` | adevtable.dfy | tau grid, construction, `headerData`, column split of `ADevTableModel` |
| `ChannelTable` | channeltable.dfy | `ChannelTableModel` records, getters, `set_mean`, `color` |

Representation choices:

- Times and values are exact `real`s.
- The status word is a `bv64`. The Python column holds unbounded integers, but
  no operation sets a bit above 47.
- Configuration is passed in as explicit parameters. That covers bands,
  critical flags, overhangs, baselines and the outlier verdicts.
- Mask blocks arrive as already-parsed (channel, start, end) records. A NaN
  end or channel field is `None`.

## Model

| member | source | states |
|---|---|---|
| SampleTable.LoadFlag | datahandler.py:79-90 | a row's initial word is 0 iff its stripped status is GOOD; any other row gets a word whose gathered, filter, transfer and mask bytes are each 0x11 |
| SampleTable.LoadFlagRejects | datahandler.py:79-90 | a row whose trimmed status is not GOOD is rejected for channel 0 in the gathered and filter bytes and for no other channel; a GOOD row for none |
| SampleTable.BadRowFlagBytes | datahandler.py:86-90 | the bad-row word is 0x111111111111: each of its four low bytes is 0x11 |
| SampleTable.BadRowAfterReset | datahandler.py:126-131 | after the filter reset a bad row keeps only its mask byte 0x11, copied into the gathered byte |
| SampleTable.Strip | datahandler.py:86 | the stripped status is a slice of the text with only white space (Python's `str.isspace` set) cut from both ends, and it starts and ends with a non-space |
| SampleTable.StripIdempotent | datahandler.py:86 | stripping twice is stripping once |
| SampleTable.DayIndex | datahandler.py:92-97 | the day of a time: day*86400 <= t < (day+1)*86400 |
| SampleTable.DayOffset | datahandler.py:92-97 | the day offset is the day of the earliest sample |
| SampleTable.Column | datahandler.py:107-108 | a value column is the raw frequency minus the channel's baseline, row for row |
| SampleTable.RangeOf | datahandler.py:109-119 | a column's range bounds every value, both bounds occur in the column, and the time range runs from the first to the last sample |
| SampleTable.Load | datahandler.py:79-119 | after loading, every time is shifted by the same whole number of days, every word is the row's initial word, every value has its baseline removed, every range is the column's range, and a log in time order stays in time order |
| SampleTable.LoadTimesInFirstDay | datahandler.py:92-97 | after loading, the earliest time lies in [0, 86400) |
| SampleTable.LoadKeepsOrder | datahandler.py:92-97 | the shift keeps the order of any two samples |
| FlagWord.ChannelBit | datahandler.py:400 | a channel's bit is non-zero and lies within the low nibble |
| FlagWord.FilterBitsDistinct | datahandler.py:400 | the filter bits of two channels overlap only when the channels are equal |
| FlagWord.MaskWord | datahandler.py:294-295 | the word add_to_mask ORs in carries the channel byte in the mask and gathered bytes and nothing elsewhere |
| FlagWord.ResetWordBytes | datahandler.py:126-131 | the reset keeps the mask byte, copies it to the gathered byte and clears the filter, transfer and high bits |
| FlagWord.ResetIdempotent | datahandler.py:126-131 | resetting twice is resetting once |
| FlagWord.TransferWordBytes | datahandler.py:420-424 | the transfer fills the transfer byte of a word carrying the channel's filter bit and leaves every other byte alone |
| FlagWord.GatherWordBytes | datahandler.py:493-502 | the gather makes the gathered byte the OR of the mask, transfer and filter bytes, keeps those three, and clears the bits above 31 |
| FlagWord.GatherIdempotent | datahandler.py:493-502 | gathering twice is gathering once |
| FlagWord.LowByteExamples | datahandler.py:294 | the eight-bit limit of a channel mask behaves as Python's `& 0xFF`, also for negative masks |
| FilterEngine.ForwardPass | datahandler.py:402-409 | the forward pass sets the filter bit exactly on rows within `fwd` rows after an out-of-band row, and leaves all other bits |
| FilterEngine.BackwardPass | datahandler.py:411-418 | the backward pass sets the filter bit exactly on rows within `back` rows before a row carrying it |
| FilterEngine.TransferPass | datahandler.py:420-424 | for a critical channel every row with the channel's filter bit gains the whole transfer byte, and no other row changes |
| FilterEngine.UnlockChannel | datahandler.py:399-424 | one channel of filter_unlocked sets the channel's filter bit exactly on the rows of the overhang windows around out-of-band rows, plus the transfer for a critical channel |
| FilterEngine.UnseededWindow | datahandler.py:399-418 | starting with the filter bit clear, a row is rejected iff it lies within [i - back, i + fwd] of some out-of-band row i |
| FilterEngine.FilterUnlocked | datahandler.py:385-424 | without four critical flags and four bands nothing changes; otherwise every row's word is what the four channels' windows and transfers give |
| FilterEngine.MarkOutliers | datahandler.py:471-483 | the outlier pass sets the channel's filter bit on exactly the rows its statistic flags |
| FilterEngine.OutlierChannel | datahandler.py:431-490 | one channel of filter_outliers: its flagged rows gain the filter bit, with the transfer for a critical channel; a channel with too few good samples is skipped |
| FilterEngine.FilterOutliers | datahandler.py:428-490 | after all four channels, each row's filter bits are the old ones plus the flagged ones; its transfer byte is filled when a critical, scanned channel's filter bit is set, and is unchanged otherwise |
| FilterEngine.ResetPass | datahandler.py:128-131 | every word becomes its reset word |
| FilterEngine.GatherResults | datahandler.py:493-502 | every word becomes its gathered word |
| FilterEngine.FilterData | datahandler.py:124-140 | the whole pass: the mask byte is kept, the filter byte holds exactly the channels rejected by band or outlier, the transfer byte is full iff a critical channel rejects the row, and the gathered byte is their OR |
| MaskFile.ChannelMask | datahandler.py:227-230 | a block's channel bits fit eight bits; a missing channel masks nothing |
| MaskFile.WrapDays | datahandler.py:225-226 | the number of days added to an end is the least that brings it to or past the start |
| MaskFile.EndOf | datahandler.py:221-226 | a block's end is not before its start; a missing end gives 0.05 s |
| MaskFile.Resolve | datahandler.py:214-231 | a resolved block ORs its channel bits into the mask and gathered bytes only |
| MaskFile.RowWordPermutation | datahandler.py:204-248 | the word a sample ends with depends only on which blocks were applied, not on their order |
| MaskFile.CountPermutation | datahandler.py:204-248 | the same holds for the count |
| MaskFile.ApplyBlock | datahandler.py:232-244 | applying one block ORs its bits into exactly the samples it covers and counts them |
| MaskFile.Sweep | datahandler.py:212-248 | one pass applies or postpones every pending block, loses none, and applies at least the first one |
| MaskFile.ApplyMaskBlocks | datahandler.py:195-257 | no blocks: (False, 0). Otherwise (True, count), where every sample's word carries the bits of every block covering it, and count is the number of (block, sample) pairs covered |
| MaskSearch.BinarySearchData | datahandler.py:260-289 | outside the time span the search reports the first or last row, flagged out of range; a time that occurs in the table is found exactly; any other time inside the span gets one of the two rows around it |
| MaskSearch.SearchStartBefore | datahandler.py:260-289 | on strictly increasing times, the row reported for a span's start is at or before every sample in the span |
| MaskSearch.SearchEndAfter | datahandler.py:260-289 | symmetrically, the row reported for a span's end is at or after every sample in the span |
| MaskSearch.BinarySearchDataNotNearest | datahandler.py:284-289 | on times 0 and 10 a search for 1 reports the row at 10 |
| MaskSearch.NearestSample | datahandler.py:260-289 | the in-range flag is set iff the time lies in the span, and the reported row is nearest to the time |
| MaskSearch.MaskRows | datahandler.py:311 | rows first to last, inclusive, gain the word; all others stay |
| MaskSearch.MaskSpan | datahandler.py:300-313 | both hits out of range, or the hits in reverse order: nothing changes and 0. Otherwise the rows from the start hit to the end hit gain the word and their number is returned |
| MaskSearch.AddToMask | datahandler.py:292-313 | add_to_mask as written, over binary_search_data's two hits: both out of range or in reverse order gives 0 and no change; otherwise the rows between the hits gain the mask word and their number is returned |
| MaskSearch.AddToMaskCovers | datahandler.py:292-313 | on strictly increasing times with one end in range, every sample between the two times is masked |
| MaskSearch.AddToMaskIdempotent | datahandler.py:292-313 | masking the same span twice is masking it once |
| MaskSearch.AddToMaskNearest | datahandler.py:292-313 | add_to_mask over the nearest-sample search: the same outcome, between the samples nearest the two times |
| MaskSearch.AddToMaskNearestCovers | datahandler.py:292-313 | the nearest-sample variant also masks every sample between the two times |
| SaveMask.SaveRunsAsWritten | datahandler.py:324-370 | the extraction as written raises NameError iff the last sample's mask is non-zero; every line that reaches the file has a mask, and on ascending times every masked sample outside the final block lies within a line of its mask |
| SaveMask.ClosedCover | datahandler.py:327-350 | on ascending times, every masked sample whose block ends before the last sample lies within a run closed inside the loop, with its mask |
| SaveMask.SaveMaskfileCrashes | datahandler.py:354-367 | a table ending in a masked sample makes save_maskfile fail |
| SaveMask.SaveRuns | datahandler.py:324-367 | the runs have non-zero keys, and every sample with a non-zero key lies in exactly one run, the run of its key; a sample whose key is zero lies in no run |
| SaveMask.SaveMaskRuns | datahandler.py:316-367 | the runs of the mask byte cover exactly the masked samples, each with its own mask |
| Selection.Picks | datahandler.py:513-524 | the picked rows are, in increasing order, exactly the rows that are kept |
| Selection.ChannelMask | datahandler.py:508-512 | the channel mask exists iff every channel is below 4, and it holds exactly the listed channels |
| Selection.ChannelMaskClear | datahandler.py:513-524 | a word is clear of the mask iff no listed channel's gathered bit is set |
| Selection.GoodPointsMultiple | datahandler.py:506-528 | None iff a channel is 4 or more; otherwise, in table order, exactly the rows whose gathered bits of every listed channel are clear, each as time followed by the listed channels' values |
| Selection.GetGoodPoints | datahandler.py:531-557 | the single-channel selection, with the default range record for an empty selection and the selection's range otherwise |
| Selection.RowsRange | datahandler.py:552-556 | the range bounds every selected value, both bounds occur, and the time range runs from the first to the last selected row |
| Selection.ViewPoints | datahandler.py:571-604 | each view holds, in table order, exactly the rows of its byte test |
| Selection.ViewsDisjoint | datahandler.py:571-604 | the masked, filter-rejected and transfer-rejected views of a channel are pairwise disjoint |
| Selection.ViewsPartition | datahandler.py:571-604 | a row is in exactly one of the three views iff the mask, filter or transfer byte rejects it |
| Selection.GoodIsOutsideViews | datahandler.py:493-604 | after the gather, a row is good for a channel iff it is in none of the three views |
| Selection.MaskIsChannelSet | datahandler.py:508-512 | two channel lists have the same mask iff they list the same set of channels |
| Selection.SameSetSameRows | datahandler.py:513-524 | lists with the same channel set select the same rows |
| Selection.CachedGoodPointsMultiple | datahandler.py:506-528 | the cached selection as written: a miss stores the selection under the mask, a hit returns what is stored |
| Selection.CachedGetGoodPoints | datahandler.py:531-557 | get_good_points as written through the shared cache: None for a channel of 4 or more; otherwise the entry under channel c's bit with its range, filled with get_good_points' own result on a miss |
| Selection.GetGoodPointsShares | datahandler.py:506-557 | get_good_points reads and fills the same entry as get_good_points_multiple([c]) |
| Selection.MaskCacheRowsRight | datahandler.py:506-528 | with a cache that holds only selections, the cached result has the right rows and times |
| Selection.MaskCacheMultipleRight | datahandler.py:506-528 | a cache of selections stays one, and its answer is the selection of some order of the requested channels, with the selection's rows and times |
| Selection.ExplainedWitness | datahandler.py:513-524 | rows stored under channel c's bit were selected by a list that starts with c and keeps exactly channel c's rows |
| Selection.LeadingColumns | datahandler.py:508-524 | a row for a list that starts with c carries c's time and value in its first two columns |
| Selection.ExplainedSingle | datahandler.py:506-557 | rows stored under channel c's bit have get_good_points' times and channel c values in their first two columns |
| Selection.RangeForColumns | datahandler.py:545-556 | the range record depends only on the time and first value column |
| Selection.SingleFromExplained | datahandler.py:531-557 | rows stored under channel c's bit, with their range, are channel c's good points in every part a caller reads |
| Selection.MultipleSingleRight | datahandler.py:506-557 | the [c] entry the cache returns, with its range, agrees with get_good_points(c) in every part a caller reads |
| Selection.MaskCacheGoodPointsRight | datahandler.py:531-557 | through a cache of selections, get_good_points returns the fresh times, values and range and keeps the cache sound |
| Selection.SingleKeyShared | datahandler.py:506-557 | after get_good_points_multiple([0, 0]), get_good_points(0) returns three-column rows |
| Selection.MaskCacheCollision | datahandler.py:506-528 | selecting [0, 1] and then [1, 0] returns the columns of channels 0, 1 for the second call |
| Selection.CachedSelection | datahandler.py:506-528 | a cache keyed by the channel list always returns the selection itself |
| Selection.CachedGoodPoints | datahandler.py:531-557 | the same for the single-channel selection |
| EvalSigns.DecodeChannel | datahandler.py:645-659 | p >= 1 gives channel p-1 with sign +1, p <= 0 gives channel 1-p with sign -1 |
| EvalSigns.EncodeDecode | datahandler.py:645-659 | decoding loses nothing: the parameter can be rebuilt from its decoding |
| EvalSigns.DecodeEncode | datahandler.py:645-659 | every decoding except a negated channel 0 comes from some parameter |
| EvalSigns.NoNegatedChannelZero | datahandler.py:645-659 | no parameter selects channel 0 with sign -1 |
| EvalSigns.DecodeInjective | datahandler.py:645-659 | different parameters give different decodings |
| EvalSigns.DecodeRep | datahandler.py:651 | the repetition-rate channel is abs(p)-1; p = 0 gives -1, which has no bit |
| EvalSigns.RepIgnoresSign | datahandler.py:651 | p and -p select the same repetition-rate channel |
| EvalSigns.AbsoluteVector | datahandler.py:668-673 | the absolute vector exists iff n_rep is not zero, and it has four entries with no time weight |
| EvalSigns.RatioVector | datahandler.py:704-713 | the ratio vector exists iff ref_b is not zero, and it has four entries with no time weight |
| EvalSigns.Evaluate | datahandler.py:632-730 | an unknown type gives no points; otherwise every good row of the three channels gives one point: its time and the vector's combination of its values |
| EvalSigns.EvaluatePoint | datahandler.py:668-674 | the j-th point is the j-th good row's time with the coefficient row's combination of its three values |
| EvalSigns.AbsoluteFormula | datahandler.py:640-674 | for any signed parameters, each absolute point is multiplier*(s_ceo*f_CEO + abs(n_a)/n_rep*f_rep + s_a*f_beat) at its good row's time, with the channels and signs the parameters decode to |
| EvalSigns.Distribute | datahandler.py:669-673 | the scaled absolute coefficient row combines three values to that formula |
| EvalSigns.RatioFormula | datahandler.py:676-714 | for any signed parameters, each ratio point is (multiplier/ref_b)*((s_ceo*f_CEO + s_a*f_a) - r_ab*(s_ceo*f_CEO + s_b*f_b)) at its good row's time |
| EvalSigns.RatioCombination | datahandler.py:704-713 | a ratio evaluation's coefficient row combines three values to the ratio deviation |
| EvalSigns.RatioDistribute | datahandler.py:704-713 | the scaled ratio coefficient row combines three values to the ratio deviation |
| Handler.AfterLoad | datahandler.py:49-121 | a fresh handler holds the loaded table and an empty cache |
| Handler.FilterData | datahandler.py:124-140 | filtering keeps times and values, gives every word the filter pass's result, and clears the cache |
| Handler.AddToMask | datahandler.py:292-313 | masking changes only the words, as add_to_mask gives; with count 0 nothing changes, otherwise the cache is cleared |
| Handler.LoadMaskfile | datahandler.py:143-257 | applying blocks changes only the words, returns the count, and with count 0 changes nothing |
| Handler.GoodPointsMultiple | datahandler.py:506-528 | through the mask-keyed cache: None iff a channel is 4 or more; otherwise the selection of some order of the requested channels, with the selection's rows and times, and exactly the selection when the mask was not cached; the handler stays coherent |
| Handler.GoodPoints | datahandler.py:531-557 | through the same cache: None iff the channel is 4 or more; otherwise the fresh times, channel values and range, and exactly get_good_points' result when the bit was not cached |
| SelectionTable.FromTime | selectiontablehandler.py:45-52 | a store set to t shows t, the text of t plus the offset, and the day t // 86400 |
| SelectionTable.FromTimeOverwrites | selectiontablehandler.py:45-52 | setting a store twice keeps only the second time |
| SelectionTable.AsMjdFromTime | selectiontablehandler.py:33-42 | an absolute time shows its text and its modified Julian day |
| SelectionTable.Init | selectiontablehandler.py:73-77 | the new table has zeroed start and end stores and the placeholder reference time |
| SelectionTable.Clear | selectiontablehandler.py:80-85 | all three stores show 0, an empty text and day 0; the offsets and selected times stay |
| SelectionTable.ClearIdempotent | selectiontablehandler.py:80-85 | clearing twice is clearing once |
| SelectionTable.SetTmin | selectiontablehandler.py:88-99 | the reference shows tmin and its day, which is returned; start and end restart at 0 with offset tmin |
| SelectionTable.SetSelection | selectiontablehandler.py:102-112 | the previous time moves to time_b and the new one to time_a |
| SelectionTable.SelectionOrdered | selectiontablehandler.py:102-122 | after a selection the range runs from the smaller to the larger of the last two times |
| SelectionTable.LastTwoSelections | selectiontablehandler.py:102-122 | two selections fix the range whatever was selected before |
| SelectionTable.Data | selectiontablehandler.py:191-216 | a display cell exists iff the row and column are both in 0..2; the alignment answers every valid index |
| SelectionTable.DataShowsRange | selectiontablehandler.py:191-216 | rows 1 and 2 show the selected range |
| ADevStore.Init | freqevalinternal.py:13-17 | every channel starts with empty sequences |
| ADevStore.Tau | freqevalinternal.py:31-35 | a single zero for an index that names no channel, otherwise the stored sequence |
| ADevStore.Dev | freqevalinternal.py:37-41 | as Tau, for the deviations |
| ADevStore.Unc | freqevalinternal.py:43-47 | as Tau, for the uncertainties |
| ADevStore.NoZeros | freqevalinternal.py:76-77 | every zero entry becomes 1e-19 and every non-zero entry is kept |
| ADevStore.AddData | freqevalinternal.py:53-87 | out of range: -1 and nothing changes. Otherwise 0: tau stored, dev and unc stored when their length is tau's and zeros otherwise, every zero deviation replaced by 1e-19, other channels unchanged |
| ADevStore.GettersAfterAdd | freqevalinternal.py:31-87 | the getters read back what add_data stored |
| ADevStore.AddDataTwice | freqevalinternal.py:53-87 | adding the same results twice is adding them once |
| ADevTable.TauGrid | adevtablehandler.py:32-39 | the grid starts at 1, strictly increases, holds exactly the distinct integer parts of the powers of the scale up to the first at or above 1e9, and that final product bounds every entry |
| ADevTable.IndexList | adevtablehandler.py:40-42 | seven indexes, the last naming the grid's last entry |
| ADevTable.NewTable | adevtablehandler.py:40-43 | construction reads every grid entry the index list names: it succeeds exactly when the grid has more than 68 entries, and the values read are the entries at those positions |
| ADevTable.Construct | adevtablehandler.py:32-43 | `__init__`: a grid starting at 1 and strictly increasing, and a table exactly when that grid is longer than 68, whose last display value is the largest tau |
| ADevTable.HeaderData | adevtablehandler.py:61-77 | only the vertical header answers; row 0 is "τ (s)", rows 8 and 9 are "time span" and "extrapol.", rows 10 and above show nothing; on a table with the constructed index list, rows 1 to 7 show the grid entry the list names; the alignment role answers right and vertically centred |
| ADevTable.RowsHaveHeaders | adevtablehandler.py:40-77 | on a constructed table every row 0 to 9 has a header, and rows 1 to 7 show the values construction read |
| ADevTable.LastRowShowsLargest | adevtablehandler.py:40-77 | on a constructed table row 7 shows the largest tau |
| ADevTable.ShortGridRaises | adevtablehandler.py:40-43 | with at most 68 grid entries construction itself raises IndexError, so no table reaches headerData |
| ADevTable.ColumnOf | adevtablehandler.py:114-124 | a data column is a channel column below the channel count and an evaluation column above it |
| ADevTable.ColumnsPartition | adevtablehandler.py:53-57 | the columns that belong somewhere are exactly 0 .. columnCount-1 |
| ChannelTable.Names | channeltablehandler.py:152-154 | one name per row, in row order |
| ChannelTable.GettersDetermineColumns | channeltablehandler.py:152-170 | tables with the same getters differ only in corrections and means |
| ChannelTable.Color | channeltablehandler.py:175-178 | a colour iff the index is in 0..3, the index's own colour |
| ChannelTable.ColorInjective | channeltablehandler.py:52-58 | different channels have different colours |
| ChannelTable.SetMean | channeltablehandler.py:181-185 | out of range: nothing changes. Otherwise the row's mean minus its baseline is the value, and nothing else changes |
| ChannelTable.SetMeanKeepsColumns | channeltablehandler.py:152-185 | setting a mean leaves every getter as it was |
| ChannelTable.SetMeanTwice | channeltablehandler.py:181-185 | setting a row's mean twice keeps only the second value |

## Left out

- Parsing is not modelled. That covers the CSV and mask files, `pandas.to_numeric` and the `strptime` time-of-day conversion (datahandler.py:51-65, 145-199). Rows arrive as (time, status, four frequencies) and mask blocks as (channel, start, end).
- All file writing is left out. That includes the text `save_maskfile` writes, `save_report`, and the `finally: file.close()` that fails when `open` raised.
- The outlier statistic of `filter_outliers` is floating-point numerics: variance, weighting, `sqrt` and the moving average at datahandler.py:437-483. It is given as a parameter: per channel, either skipped or the set of rows the statistic flags.
- The band filter gets its bands as a parameter. `filter_data` reads `parameters['tole']` and `parameters['filt']` (datahandler.py:133-135), and `load_file` reads `parameters['base']` (datahandler.py:102). The channel table has no `parameters` attribute at all: it offers the getters `bands()`, `filter_state()` and `baselines()`. These lookups are left unresolved; the bands, critical flags and baselines are parameters here.
- `calculate_adev`, `evaluate_ch_data`, the median time step and `np.mean` are left out: they are float numerics and foreign library calls.
- ADevStore.AddData does not model the log10 values, and it does not model the aliasing of the caller's dev array that the in-place zero clamp causes.
- ADevStore.AddData also does not model that `np.zeros_like` of an integer tau array has an integer type.
- `evaluate_eval_data` is modelled over exact reals. Its float64 rounding is not modelled.
- The evaluation table is not part of this model. Its parameters are a datatype, and the evaluation number is a parameter of the column split.
- ADevTable.TauGrid takes any exact scale above 1. It does not model the program's floating-point tenth root of 10, so the grid length, and with it whether construction succeeds (ADevTable.Construct fails for 68 entries or fewer), is not computed.
- ADevTable.HeaderData returns the tau value, not its thousands-separated text.
- The formatting inside the `data()` methods and the channel adev table are left out, and so is the GUI: Qt, plotting, freqevallogic.py and the evaluation table model.
- The calendar is a parameter of the selection table: `datetime.utcfromtimestamp` and `jdcal.gcal2jd` are foreign calls.
- The channel table's `data()` is not modelled. Its guard `row > ROW_NUMBER` at channeltablehandler.py:110 lets row 4 through to an IndexError, but the view never asks for that row.
- Channel numbers in the selection are `nat`. Python would also take a negative channel and then fail on the shift.
- SampleTable.Load requires a non-empty log. On an empty file the program fails at `min()` (datahandler.py:92), and the model does not describe that failure.
- SampleTable.Load does not sort the rows. The program keeps the order of the log file. MaskSearch, MaskFile and SaveMask state their results for logs in time order, and for the covering properties in strictly increasing order.
- EvalSigns.Evaluate reads the fresh selection. The program goes through `get_good_points_multiple` and its mask-keyed cache (datahandler.py:668, 712). A cached entry stored for another list with the same channel set may bring its columns in that list's order, or in another number, which numpy's `dot` rejects. The model's result is the program's only when no entry is cached for the set, as after every status change. Handler.GoodPointsMultiple states what the cache returns in general.
- Selection.CachedSelection and Selection.CachedGoodPoints are the corrected, list-keyed cache. The handler models the program's mask-keyed cache.
- MaskFile.ApplyMaskBlocks requires every start to be at least -1e20. A start below the loop's initial "previous end" is postponed forever, and the program does not finish.

## Findings

| source | as written | input that shows it | evidently intended | confidence | as-written member | corrected member |
|---|---|---|---|---|---|---|
| datahandler.py:284-289 | when the bisection ends without an exact match, the last probe is compared only with `first`, the row after the bracket; if the last probe was the row above the time, the row below is never considered | times [0, 10], time 1: the search reports row 1 (time 10) although row 0 is nearer; add_to_mask (MaskSearch.AddToMask) inherits this, AddToMaskNearest is its corrected form | report the nearer of the two rows bracketing the time | not executed | MaskSearch.BinarySearchDataNotNearest | MaskSearch.NearestSample |
| datahandler.py:354-370 | after the loop the last run is written with `flag`, a name that is not defined, instead of `flags` | any table whose last sample has a non-zero mask byte: the earlier runs are written, the final run is missing, and the NameError escapes the handler at line 370, which catches only file errors | write the last run with its own mask (line 359 then also needs `int(...)` as at line 340, since `{:3d}` rejects a float day) | not executed | SaveMask.SaveMaskfileCrashes | SaveMask.SaveMaskRuns |
| datahandler.py:506-528 | the cache is keyed by the channel bitmask, but the columns of a selection follow the order of the channel list | get_good_points_multiple([0, 1]) and then ([1, 0]): the second call returns the columns of channels 0, 1 in that order; get_good_points shares the keys too (Selection.SingleKeyShared) | a cached selection equal to the selection for the requested list | not executed | Selection.MaskCacheCollision | Selection.CachedSelection |
