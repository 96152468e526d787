/**
 * The Allan deviation table of the user interface (ADevTableModel): the grid
 * of averaging times built at construction, the row headers that show some
 * of them, and the split of the columns between channels and evaluations.
 *
 * The program's scale is the float 10^(1/10).  Here the scale is any exact
 * rational above 1, so the running product is exact and `int()` of a
 * positive value is its floor.
 */
module ADevTable {
  import opened Common

  /** Generation stops once the running product reaches this bound. */
  const LIMIT: real := 1000000000.0

  /** scale^k. */
  function Pow(scale: real, k: nat): real {
    if k == 0 then 1.0 else Pow(scale, k - 1) * scale
  }

  lemma {:induction false} PowAtLeastOne(scale: real, k: nat)
    requires scale > 1.0
    ensures Pow(scale, k) >= 1.0
  {
    if k > 0 {
      PowAtLeastOne(scale, k - 1);
      GrowStep(Pow(scale, k - 1), scale);
    }
  }

  /** Multiplying a value of at least 1 by the scale adds at least scale - 1. */
  lemma GrowStep(r: real, scale: real)
    requires r >= 1.0 && scale > 1.0
    ensures r * scale >= r + (scale - 1.0)
  {
    var a := r - 1.0;
    var d := scale - 1.0;
    assert r * scale == (1.0 + a) * (1.0 + d) == 1.0 + a + d + a * d;
    NonNegativeProduct(a, d);
  }

  lemma NonNegativeProduct(a: real, b: real)
    requires a >= 0.0 && b >= 0.0
    ensures a * b >= 0.0
  {
  }

  /** The loop measure: one more than the number of steps of scale - 1 that still fit below LIMIT. */
  function Remaining(r: real, scale: real): nat
    requires scale > 1.0
  {
    if r >= LIMIT then 0
    else
      var x := (LIMIT - r) / (scale - 1.0);
      assert x >= 0.0;
      x.Floor + 1
  }

  /** One step lowers the measure: the quotient drops by exactly r >= 1. */
  lemma RemainingDecreases(r: real, scale: real, next: real)
    requires 1.0 <= r < LIMIT && scale > 1.0 && next == r * scale
    ensures Remaining(next, scale) < Remaining(r, scale)
  {
    var d := scale - 1.0;
    var x := (LIMIT - r) / d;
    var y := (LIMIT - next) / d;
    assert x * d == LIMIT - r;
    assert y * d == LIMIT - next;
    assert next == r + r * d;
    assert (x - r) * d == x * d - r * d;
    assert y * d == (x - r) * d;
    Cancel(y, x - r, d);
    assert y == x - r;
  }

  lemma Cancel(a: real, b: real, d: real)
    requires d > 0.0 && a * d == b * d
    ensures a == b
  {
    assert (a - b) * d == 0.0;
  }

  ghost predicate StrictlyIncreasing(s: seq<int>) {
    forall i, j :: 0 <= i < j < |s| ==> s[i] < s[j]
  }

  /** The grid after one step: the new integer part is appended when it exceeds the last entry. */
  function Extend(grid: seq<int>, v: int): (g: seq<int>)
    requires |grid| > 0
    ensures |g| > 0 && g[0] == grid[0] && grid <= g
  {
    if v > grid[|grid| - 1] then grid + [v] else grid
  }

  /** The powers below the current one all stay below LIMIT. */
  ghost predicate BelowLimit(scale: real, steps: nat) {
    forall k :: 0 <= k < steps ==> Pow(scale, k) < LIMIT
  }

  /** Every integer part of scale^0, ..., scale^steps is in the grid. */
  ghost predicate AllFloorsIn(scale: real, grid: seq<int>, steps: nat) {
    forall k :: 0 <= k <= steps ==> Pow(scale, k).Floor in grid
  }

  /** Every grid entry is the integer part of the power that ks names. */
  ghost predicate Witnessed(scale: real, grid: seq<int>, ks: seq<nat>, steps: nat) {
    |ks| == |grid| && forall i :: 0 <= i < |grid| ==> ks[i] <= steps && grid[i] == Pow(scale, ks[i]).Floor
  }

  /** What the generating loop keeps. */
  ghost predicate GridInv(scale: real, grid: seq<int>, ks: seq<nat>, r: real, steps: nat) {
    && |grid| > 0 && grid[0] == 1
    && r == Pow(scale, steps) && r >= 1.0
    && grid[|grid| - 1] == r.Floor
    && StrictlyIncreasing(grid)
    && BelowLimit(scale, steps)
    && AllFloorsIn(scale, grid, steps)
    && Witnessed(scale, grid, ks, steps)
  }

  lemma ExtendIncreasing(grid: seq<int>, v: int)
    requires |grid| > 0 && StrictlyIncreasing(grid)
    ensures StrictlyIncreasing(Extend(grid, v))
  {
    if v > grid[|grid| - 1] {
      var g := grid + [v];
      forall i, j | 0 <= i < j < |g| ensures g[i] < g[j] {
        if j == |grid| && i < |grid| - 1 {
          assert grid[i] < grid[|grid| - 1];
        }
      }
    }
  }

  lemma ExtendFloors(scale: real, grid: seq<int>, steps: nat, v: int)
    requires |grid| > 0 && AllFloorsIn(scale, grid, steps)
    requires v == Pow(scale, steps + 1).Floor && v >= grid[|grid| - 1]
    ensures AllFloorsIn(scale, Extend(grid, v), steps + 1)
    ensures Extend(grid, v)[|Extend(grid, v)| - 1] == v
  {
    var g := Extend(grid, v);
    forall k | 0 <= k <= steps + 1 ensures Pow(scale, k).Floor in g {
      if k <= steps {
        assert Pow(scale, k).Floor in grid;
        var i :| 0 <= i < |grid| && grid[i] == Pow(scale, k).Floor;
        assert g[i] == grid[i];
      } else {
        assert g[|g| - 1] == v;
      }
    }
  }

  lemma ExtendWitnessed(scale: real, grid: seq<int>, ks: seq<nat>, steps: nat, v: int)
    requires |grid| > 0 && Witnessed(scale, grid, ks, steps)
    requires v == Pow(scale, steps + 1).Floor
    ensures Witnessed(scale, Extend(grid, v), if v > grid[|grid| - 1] then ks + [steps + 1] else ks, steps + 1)
  {
  }

  /** The next running product is the next power, at least 1, with an integer part no smaller. */
  lemma ProductStep(scale: real, r: real, steps: nat, next: real)
    requires scale > 1.0 && r >= 1.0 && r == Pow(scale, steps) && next == r * scale
    ensures next == Pow(scale, steps + 1) && next >= 1.0 && next.Floor >= r.Floor
  {
    GrowStep(r, scale);
  }

  /** One step of the loop keeps its invariant; next is the new running product. */
  lemma GridStep(scale: real, grid: seq<int>, ks: seq<nat>, r: real, steps: nat, next: real)
    requires r < LIMIT && GridInv(scale, grid, ks, r, steps)
    requires next == Pow(scale, steps + 1) && next >= 1.0 && next.Floor >= r.Floor
    ensures GridInv(scale, Extend(grid, next.Floor),
                    if next.Floor > grid[|grid| - 1] then ks + [steps + 1] else ks, next, steps + 1)
  {
    var v := next.Floor;
    ExtendIncreasing(grid, v);
    ExtendFloors(scale, grid, steps, v);
    ExtendWitnessed(scale, grid, ks, steps, v);
    assert BelowLimit(scale, steps + 1) by {
      assert Pow(scale, steps) == r;
    }
  }

  /** v is the integer part of one of scale^0, ..., scale^steps. */
  ghost predicate IsPowerFloor(scale: real, steps: nat, v: int) {
    exists k :: 0 <= k <= steps && v == Pow(scale, k).Floor
  }

  /** What the loop leaves once the running product has reached LIMIT. */
  lemma GridFinal(scale: real, grid: seq<int>, ks: seq<nat>, r: real, steps: nat)
    requires GridInv(scale, grid, ks, r, steps) && r >= LIMIT
    ensures |grid| > 0 && grid[0] == 1
    ensures StrictlyIncreasing(grid)
    ensures r == Pow(scale, steps)
    ensures forall k :: 0 <= k < steps ==> Pow(scale, k) < LIMIT
    ensures forall i :: 0 <= i < |grid| ==> grid[i] as real <= r
    ensures forall k :: 0 <= k <= steps ==> Pow(scale, k).Floor in grid
    ensures forall i :: 0 <= i < |grid| ==> IsPowerFloor(scale, steps, grid[i])
  {
    forall i | 0 <= i < |grid|
      ensures grid[i] as real <= r
    {
      if i < |grid| - 1 {
        assert grid[i] < grid[|grid| - 1];
      }
    }
    forall i | 0 <= i < |grid|
      ensures IsPowerFloor(scale, steps, grid[i])
    {
      var k := ks[i];
      assert 0 <= k <= steps && grid[i] == Pow(scale, k).Floor;
    }
  }

  /**
   * The grid of averaging times: starting from [1] and 1.0, the running
   * product is multiplied by the scale while it is below LIMIT, and its
   * integer part is appended whenever it exceeds the last entry.  The grid
   * is strictly increasing, starts at 1, and holds exactly the distinct
   * integer parts of scale^0, ..., scale^steps, where steps is the first
   * power at or above LIMIT; the final product bounds every entry.
   */
  method TauGrid(scale: real) returns (grid: seq<int>, realTau: real, steps: nat)
    requires scale > 1.0
    ensures |grid| > 0 && grid[0] == 1
    ensures StrictlyIncreasing(grid)
    ensures realTau == Pow(scale, steps) && realTau >= LIMIT
    ensures forall k :: 0 <= k < steps ==> Pow(scale, k) < LIMIT
    ensures forall i :: 0 <= i < |grid| ==> grid[i] as real <= realTau
    ensures forall k :: 0 <= k <= steps ==> Pow(scale, k).Floor in grid
    ensures forall i :: 0 <= i < |grid| ==> IsPowerFloor(scale, steps, grid[i])
  {
    grid := [1];
    realTau := 1.0;
    steps := 0;
    ghost var ks: seq<nat> := [0];
    while realTau < LIMIT
      invariant GridInv(scale, grid, ks, realTau, steps)
      decreases Remaining(realTau, scale)
    {
      var next := realTau * scale;
      RemainingDecreases(realTau, scale, next);
      ProductStep(scale, realTau, steps, next);
      GridStep(scale, grid, ks, realTau, steps, next);
      if next.Floor > grid[|grid| - 1] {
        ks := ks + [steps + 1];
      }
      grid := Extend(grid, next.Floor);
      realTau := next;
      steps := steps + 1;
    }
    GridFinal(scale, grid, ks, realTau, steps);
  }

  /** Grid positions shown in rows 1 to 7; the last is always the largest tau. */
  function IndexList(grid: seq<int>): (l: seq<int>)
    ensures |l| == 7 && l[6] == |grid| - 1
  {
    [0, 6, 16, 30, 55, 68, |grid| - 1]
  }

  /** Python's s[i]: a negative index counts from the end; out of range has no element. */
  function PyIndex<T>(s: seq<T>, i: int): (r: Option<T>)
    ensures r.Some? <==> -|s| <= i < |s|
    ensures 0 <= i < |s| ==> r == Some(s[i])
  {
    if 0 <= i < |s| then Some(s[i])
    else if -|s| <= i < 0 then Some(s[i + |s|])
    else None
  }

  /** A negative index names the element that many places from the end. */
  lemma PyIndexFromEnd<T>(s: seq<T>, i: int)
    requires 0 <= i < |s|
    ensures PyIndex(s, i - |s|) == PyIndex(s, i)
  {
  }

  /**
   * The table as constructed: its grid, the grid positions shown in rows 1
   * to 7, and the values at those positions, which construction reads.
   */
  datatype ADevTableModel = ADevTableModel(tau: seq<int>, indexList: seq<int>, shown: seq<int>)

  /**
   * Construction after the grid: the index list is fixed, and every entry it
   * names is read, Python-style, to build the display values.  When one of
   * them lies beyond the grid that read raises IndexError and no table
   * exists; this happens exactly when the grid has 68 entries or fewer.
   */
  function NewTable(grid: seq<int>): (r: Option<ADevTableModel>)
    ensures r.Some? <==> |grid| > 68
    ensures r.Some? ==> r.value.tau == grid && r.value.indexList == IndexList(grid)
    ensures r.Some? ==> |r.value.shown| == 7 && forall k :: 0 <= k < 7 ==> r.value.shown[k] == grid[IndexList(grid)[k]]
  {
    var l := IndexList(grid);
    if forall k :: 0 <= k < |l| ==> PyIndex(grid, l[k]).Some? then
      assert PyIndex(grid, l[5]).Some?;
      Some(ADevTableModel(grid, l, seq(|l|, k requires 0 <= k < |l| => PyIndex(grid, l[k]).value)))
    else
      assert !PyIndex(grid, l[5]).Some?;
      None
  }

  /**
   * __init__: the grid of the scale, then the table over it.  The grid
   * starts at 1 and increases strictly; the table exists exactly when the
   * grid is longer than 68.
   */
  method Construct(scale: real) returns (grid: seq<int>, t: Option<ADevTableModel>)
    requires scale > 1.0
    ensures |grid| > 0 && grid[0] == 1 && StrictlyIncreasing(grid)
    ensures t.Some? <==> |grid| > 68
    ensures t.Some? ==> t.value.tau == grid && |t.value.shown| == 7 && t.value.shown[6] == grid[|grid| - 1]
  {
    var realTau, steps;
    grid, realTau, steps := TauGrid(scale);
    t := NewTable(grid);
  }

  const ROW_NUMBER: int := 10

  datatype Orientation = Vertical | Horizontal

  /** A header: a text, a tau value (its display format is not modelled), an alignment, or an IndexError. */
  datatype Header = NoHeader | Text(s: string) | TauLabel(tau: int) | AlignRightVCenter | IndexError

  /**
   * headerData: only the vertical header answers.  Row 0 is the tau
   * column's title, rows 1 to 7 show the grid entry that the index list
   * names, rows 8 and 9 the time span and the extrapolation; any other row
   * shows nothing.  Rows below 1 are indexed the Python way, so a negative
   * row reads the index list from the end or raises IndexError.
   */
  function HeaderData(t: ADevTableModel, section: int, orientation: Orientation, role: Role): (h: Header)
    ensures orientation != Vertical ==> h == NoHeader
    ensures orientation == Vertical && role == TextAlignmentRole ==> h == AlignRightVCenter
    ensures orientation == Vertical && role == DisplayRole && section >= ROW_NUMBER ==> h == NoHeader
    ensures orientation == Vertical && role == DisplayRole && section == 0 ==> h == Text("τ (s)")
    ensures orientation == Vertical && role == DisplayRole && section == 8 ==> h == Text("time span")
    ensures orientation == Vertical && role == DisplayRole && section == 9 ==> h == Text("extrapol.")
    ensures orientation == Vertical && role == DisplayRole && 1 <= section < 8 && t.indexList == IndexList(t.tau) ==>
      h == (if 0 <= t.indexList[section - 1] < |t.tau| then TauLabel(t.tau[t.indexList[section - 1]])
            else IndexError)
  {
    if orientation != Vertical then NoHeader
    else if role == DisplayRole then
      if section == 0 then Text("τ (s)")
      else if section < 8 then
        match PyIndex(t.indexList, section - 1)
        case None => IndexError
        case Some(ti) =>
          match PyIndex(t.tau, ti)
          case None => IndexError
          case Some(v) => TauLabel(v)
      else if section == 8 then Text("time span")
      else if section == 9 then Text("extrapol.")
      else NoHeader
    else if role == TextAlignmentRole then AlignRightVCenter
    else NoHeader
  }

  /** Every one of the ROW_NUMBER rows of a constructed table has a header, the value construction read. */
  lemma RowsHaveHeaders(grid: seq<int>, row: int)
    requires NewTable(grid).Some? && 0 <= row < ROW_NUMBER
    ensures HeaderData(NewTable(grid).value, row, Vertical, DisplayRole) !in {NoHeader, IndexError}
    ensures 1 <= row < 8 ==>
      HeaderData(NewTable(grid).value, row, Vertical, DisplayRole) == TauLabel(NewTable(grid).value.shown[row - 1])
  {
  }

  /** Row 7 of a constructed table shows the largest tau of the grid. */
  lemma LastRowShowsLargest(grid: seq<int>)
    requires NewTable(grid).Some?
    ensures HeaderData(NewTable(grid).value, 7, Vertical, DisplayRole) == TauLabel(grid[|grid| - 1])
  {
  }

  /** A grid of at most 68 entries makes construction itself raise IndexError: no table, so no header. */
  lemma ShortGridRaises(grid: seq<int>)
    requires |grid| <= 68
    ensures NewTable(grid).None?
  {
  }

  /** Where a column of data() belongs: a channel, an evaluation, or neither. */
  datatype Column = ChannelColumn(ch: nat) | EvaluationColumn(ev: nat) | NoColumn

  /** columnCount: the channels' columns followed by the evaluations'. */
  function ColumnCount(channels: nat, evaluations: nat): nat {
    channels + evaluations
  }

  /**
   * The column split of data(): a column below the channel count is that
   * channel; a column that many places further on, below the evaluation
   * count, is that evaluation.
   */
  function ColumnOf(col: int, channels: nat, evaluations: nat): (c: Column)
    ensures c.ChannelColumn? ==> c.ch < channels && c.ch == col
    ensures c.EvaluationColumn? ==> c.ev < evaluations && c.ev + channels == col
  {
    if 0 <= col < channels then ChannelColumn(col)
    else if 0 <= col - channels < evaluations then EvaluationColumn(col - channels)
    else NoColumn
  }

  /** Every column below columnCount belongs to exactly one channel or evaluation, and no other does. */
  lemma ColumnsPartition(col: int, channels: nat, evaluations: nat)
    ensures ColumnOf(col, channels, evaluations) != NoColumn <==> 0 <= col < ColumnCount(channels, evaluations)
    ensures ColumnOf(col, channels, evaluations).ChannelColumn? <==> 0 <= col < channels
  {
  }
}
