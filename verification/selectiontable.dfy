/**
 * The selection table of the user interface (SelectionTableModel): the
 * reference time of the loaded file and the start and end of the span the
 * user selected with the last two clicks, each kept in a TimeStore.
 */
module SelectionTable {
  import opened Common
  import opened SampleTable

  /**
   * The calendar the stores use and that is not part of this model: the UTC
   * time-of-day text of a UNIX time (datetime.utcfromtimestamp with the
   * program's format) and the modified Julian day of its date (jdcal).
   */
  datatype Calendar = Calendar(utc: real -> string, mjd: real -> int)

  /** A time as shown: value, time-of-day text, day, and the offset the text is computed from. */
  datatype TimeStore = TimeStore(val: real, text: string, day: int, tzero: real)

  /** A fresh store with the program's placeholder text and day. */
  function NewStore(tzero: real): (s: TimeStore)
    ensures s.val == 0.0 && s.tzero == tzero
  {
    TimeStore(0.0, "23:42:00.1", 580003, tzero)
  }

  /**
   * from_time: a time relative to the store's offset; the text shows the
   * absolute time and the day is the relative time's day index.
   */
  function FromTime(s: TimeStore, cal: Calendar, t: real): (r: TimeStore)
    ensures r.val == t && r.tzero == s.tzero
    ensures r.text == cal.utc(t + s.tzero)
    ensures r.day as real * SECONDS_PER_DAY <= t < (r.day + 1) as real * SECONDS_PER_DAY
  {
    TimeStore(t, cal.utc(t + s.tzero), DayIndex(t), s.tzero)
  }

  /** A store set twice shows only the second time. */
  lemma FromTimeOverwrites(s: TimeStore, cal: Calendar, t: real, u: real)
    ensures FromTime(FromTime(s, cal, t), cal, u) == FromTime(s, cal, u)
  {
  }

  /** as_mjd_from_time: an absolute time, its text and its modified Julian day. */
  function AsMjdFromTime(s: TimeStore, cal: Calendar, t: real): (r: TimeStore)
    ensures r == s.(val := t, text := cal.utc(t), day := cal.mjd(t))
  {
    TimeStore(t, cal.utc(t), cal.mjd(t), s.tzero)
  }

  /** The table: reference, start and end stores and the last two selected times. */
  datatype Model = Model(tmin: TimeStore, start: TimeStore, end: TimeStore, timeA: real, timeB: real)

  /** The table as constructed, with a placeholder reference time. */
  function Init(cal: Calendar): (m: Model)
    ensures m.start == m.end == NewStore(0.0) && m.timeA == m.timeB == 0.0
    ensures m.tmin.val == 1234567890.1
  {
    Model(AsMjdFromTime(NewStore(0.0), cal, 1234567890.1), NewStore(0.0), NewStore(0.0), 0.0, 0.0)
  }

  /** Value, text and day of a store zeroed, its offset kept. */
  function Cleared(s: TimeStore): TimeStore {
    s.(val := 0.0, text := "", day := 0)
  }

  /** clear: the three stores show 0, an empty text and day 0; the selected times stay. */
  function Clear(m: Model): (m': Model)
    ensures forall s :: s in [m'.tmin, m'.start, m'.end] ==> s.val == 0.0 && s.text == "" && s.day == 0
    ensures m'.tmin.tzero == m.tmin.tzero && m'.start.tzero == m.start.tzero && m'.end.tzero == m.end.tzero
    ensures m'.timeA == m.timeA && m'.timeB == m.timeB
  {
    Model(Cleared(m.tmin), Cleared(m.start), Cleared(m.end), m.timeA, m.timeB)
  }

  lemma ClearIdempotent(m: Model)
    ensures Clear(Clear(m)) == Clear(m)
  {
  }

  /**
   * set_tmin: the reference store shows tmin and its modified Julian day,
   * which is returned; start and end are new stores with offset tmin, set to
   * relative time 0, so they show the same text as the reference.
   */
  function SetTmin(m: Model, cal: Calendar, tmin: real): (res: (Model, int))
    ensures var (m', day) := res;
      && m'.tmin == AsMjdFromTime(m.tmin, cal, tmin) && day == cal.mjd(tmin)
      && m'.start == m'.end
      && m'.start.val == 0.0 && m'.start.day == 0 && m'.start.tzero == tmin
      && m'.start.text == m'.tmin.text
      && m'.timeA == m.timeA && m'.timeB == m.timeB
  {
    var tm := AsMjdFromTime(m.tmin, cal, tmin);
    var s := FromTime(NewStore(tmin), cal, 0.0);
    assert s.day == 0;
    (Model(tm, s, FromTime(NewStore(tmin), cal, 0.0), m.timeA, m.timeB), tm.day)
  }

  /**
   * set_selection: the previous time moves to timeB, the new one to timeA,
   * and start and end show the earlier and the later of the two.
   */
  function SetSelection(m: Model, cal: Calendar, t: real): (m': Model)
    ensures m'.timeA == t && m'.timeB == m.timeA
    ensures m'.tmin == m.tmin
    ensures m'.start.tzero == m.start.tzero && m'.end.tzero == m.end.tzero
  {
    var b := m.timeA;
    var a := t;
    if a < b then m.(start := FromTime(m.start, cal, a), end := FromTime(m.end, cal, b), timeA := a, timeB := b)
    else m.(end := FromTime(m.end, cal, a), start := FromTime(m.start, cal, b), timeA := a, timeB := b)
  }

  /** selected_range: the values of the start and end stores. */
  function SelectedRange(m: Model): (real, real) {
    (m.start.val, m.end.val)
  }

  /**
   * After a selection the range runs from the earlier to the later of the
   * last two selected times; in particular its start is not after its end.
   */
  lemma SelectionOrdered(m: Model, cal: Calendar, t: real)
    ensures var (lo, hi) := SelectedRange(SetSelection(m, cal, t));
      lo == Min(m.timeA, t) && hi == Max(m.timeA, t) && lo <= hi
  {
  }

  /** Two selections fix the range whatever was selected before. */
  lemma LastTwoSelections(m: Model, cal: Calendar, x: real, y: real)
    ensures SelectedRange(SetSelection(SetSelection(m, cal, x), cal, y)) == (Min(x, y), Max(x, y))
  {
  }

  /** What a cell shows: a time value, a text, a day, or the cell alignment. */
  datatype Cell = TimeValue(v: real) | TimeText(s: string) | DayValue(d: int) | AlignCenterRight

  const ROW_NUMBER: int := 3
  const COLUMN_NUMBER: int := 3

  /**
   * data: rows 0, 1, 2 show the reference, start and end store; columns 0,
   * 1, 2 their value, text and day.  Any other row or column, or role, shows
   * nothing; the alignment role answers for every valid index, one whose
   * row and column are not negative.
   */
  function Data(m: Model, row: int, col: int, role: Role): (c: Option<Cell>)
    ensures row < 0 || col < 0 ==> c.None?
    ensures role == TextAlignmentRole ==> (c == Some(AlignCenterRight) <==> row >= 0 && col >= 0)
    ensures role == DisplayRole ==> (c.Some? <==> 0 <= row < ROW_NUMBER && 0 <= col < COLUMN_NUMBER)
    ensures role == OtherRole ==> c.None?
  {
    if row < 0 || col < 0 then None
    else if role == TextAlignmentRole then Some(AlignCenterRight)
    else if role != DisplayRole then None
    else
      var store :=
        if row == 0 then Some(m.tmin)
        else if row == 1 then Some(m.start)
        else if row == 2 then Some(m.end)
        else None;
      match store
      case None => None
      case Some(s) =>
        if col == 0 then Some(TimeValue(s.val))
        else if col == 1 then Some(TimeText(s.text))
        else if col == 2 then Some(DayValue(s.day))
        else None
  }

  /** The start and end rows show the selected range. */
  lemma DataShowsRange(m: Model)
    ensures Data(m, 1, 0, DisplayRole) == Some(TimeValue(SelectedRange(m).0))
    ensures Data(m, 2, 0, DisplayRole) == Some(TimeValue(SelectedRange(m).1))
  {
  }
}
