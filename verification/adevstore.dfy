/**
 * The store of Allan deviation results per channel (ADevData): for every
 * channel the averaging times, the deviations and their uncertainties.
 */
module ADevStore {

  /** The stored sequences of every channel; `channels` is the count given at construction. */
  datatype ADevData = ADevData(channels: int, tau: seq<seq<real>>, dev: seq<seq<real>>, unc: seq<seq<real>>)

  /** The deviation that stands in for a zero deviation. */
  const ZERO_DEV: real := 0.0000000000000000001

  /** One slot per channel (none for a count below 1, as range() gives). */
  ghost predicate Valid(d: ADevData) {
    var n := if d.channels < 0 then 0 else d.channels;
    |d.tau| == n && |d.dev| == n && |d.unc| == n
  }

  function Empties(n: int): (e: seq<seq<real>>)
    ensures |e| == (if n < 0 then 0 else n) && forall i :: 0 <= i < |e| ==> e[i] == []
  {
    if n <= 0 then [] else Empties(n - 1) + [[]]
  }

  /** __init__: every channel's slots empty. */
  function Init(n: int): (d: ADevData)
    ensures Valid(d) && d.channels == n
    ensures forall i :: 0 <= i < n ==> d.tau[i] == [] && d.dev[i] == [] && d.unc[i] == []
  {
    ADevData(n, Empties(n), Empties(n), Empties(n))
  }

  /** Whether an index names a channel. */
  predicate InRange(d: ADevData, index: int) {
    0 <= index < d.channels
  }

  /** The getters tau, dev and unc: a single zero for an index that names no channel. */
  function Tau(d: ADevData, index: int): (r: seq<real>)
    requires Valid(d)
    ensures !InRange(d, index) ==> r == [0.0]
    ensures InRange(d, index) ==> r == d.tau[index]
  {
    if index < 0 || index >= d.channels then [0.0] else d.tau[index]
  }

  function Dev(d: ADevData, index: int): (r: seq<real>)
    requires Valid(d)
    ensures !InRange(d, index) ==> r == [0.0]
    ensures InRange(d, index) ==> r == d.dev[index]
  {
    if index < 0 || index >= d.channels then [0.0] else d.dev[index]
  }

  function Unc(d: ADevData, index: int): (r: seq<real>)
    requires Valid(d)
    ensures !InRange(d, index) ==> r == [0.0]
    ensures InRange(d, index) ==> r == d.unc[index]
  {
    if index < 0 || index >= d.channels then [0.0] else d.unc[index]
  }

  function Zeros(n: nat): (z: seq<real>)
    ensures |z| == n && forall k :: 0 <= k < n ==> z[k] == 0.0
  {
    seq(n, k => 0.0)
  }

  /** Every zero entry replaced by ZERO_DEV. */
  function NoZeros(s: seq<real>): (r: seq<real>)
    ensures |r| == |s|
    ensures forall k :: 0 <= k < |s| ==> r[k] != 0.0
    ensures forall k :: 0 <= k < |s| && s[k] != 0.0 ==> r[k] == s[k]
    ensures forall k :: 0 <= k < |s| && s[k] == 0.0 ==> r[k] == ZERO_DEV
  {
    seq(|s|, k requires 0 <= k < |s| => if s[k] == 0.0 then ZERO_DEV else s[k])
  }

  lemma NoZerosIdempotent(s: seq<real>)
    ensures NoZeros(NoZeros(s)) == NoZeros(s)
  {
  }

  /**
   * add_data: for an index that names no channel, -1 and nothing changes.
   * Otherwise 0; tau is stored as given, dev and unc when they have tau's
   * length and a zero sequence of tau's length otherwise, and the zeros of
   * the stored deviations become ZERO_DEV.  The other channels keep their
   * slots.
   */
  function AddData(d: ADevData, index: int, tau: seq<real>, dev: seq<real>, unc: seq<real>)
    : (res: (ADevData, int))
    requires Valid(d)
    ensures !InRange(d, index) ==> res == (d, -1)
    ensures InRange(d, index) ==>
      var (d', code) := res;
      && code == 0 && Valid(d') && d'.channels == d.channels
      && d'.tau[index] == tau
      && |d'.dev[index]| == |tau| && |d'.unc[index]| == |tau|
      && (forall k :: 0 <= k < |tau| ==> d'.dev[index][k] != 0.0)
      && (|dev| == |tau| ==> forall k :: 0 <= k < |tau| && dev[k] != 0.0 ==> d'.dev[index][k] == dev[k])
      && (|dev| == |tau| ==> forall k :: 0 <= k < |tau| && dev[k] == 0.0 ==> d'.dev[index][k] == ZERO_DEV)
      && (|dev| != |tau| ==> forall k :: 0 <= k < |tau| ==> d'.dev[index][k] == ZERO_DEV)
      && (|unc| == |tau| ==> d'.unc[index] == unc)
      && (|unc| != |tau| ==> d'.unc[index] == Zeros(|tau|))
      && forall j :: 0 <= j < d.channels && j != index ==>
           d'.tau[j] == d.tau[j] && d'.dev[j] == d.dev[j] && d'.unc[j] == d.unc[j]
  {
    if index < 0 || index >= d.channels then (d, -1)
    else
      var dev' := if |dev| == |tau| then dev else Zeros(|tau|);
      var unc' := if |unc| == |tau| then unc else Zeros(|tau|);
      (d.(tau := d.tau[index := tau], dev := d.dev[index := NoZeros(dev')], unc := d.unc[index := unc']), 0)
  }

  /** The getters read back what add_data stored, and other channels read as before. */
  lemma GettersAfterAdd(d: ADevData, index: int, tau: seq<real>, dev: seq<real>, unc: seq<real>, j: int)
    requires Valid(d) && InRange(d, index)
    ensures var d' := AddData(d, index, tau, dev, unc).0;
      && Tau(d', index) == tau
      && |Dev(d', index)| == |tau| && (forall k :: 0 <= k < |tau| ==> Dev(d', index)[k] != 0.0)
      && (j != index ==> Tau(d', j) == Tau(d, j) && Dev(d', j) == Dev(d, j) && Unc(d', j) == Unc(d, j))
  {
  }

  /** Adding the same results twice leaves the store as adding them once. */
  lemma AddDataTwice(d: ADevData, index: int, tau: seq<real>, dev: seq<real>, unc: seq<real>)
    requires Valid(d)
    ensures var d1 := AddData(d, index, tau, dev, unc).0;
      AddData(d1, index, tau, dev, unc).0 == d1
  {
  }
}
