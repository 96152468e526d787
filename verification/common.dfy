/** Small shared definitions: an optional value and facts about real sequences. */
module Common {

  /** Stands for Python's None where the program returns it. */
  datatype Option<+T> = None | Some(value: T)

  /** The item roles the table models answer; every other role is OtherRole. */
  datatype Role = DisplayRole | TextAlignmentRole | OtherRole

  function Abs(x: real): (r: real)
    ensures r >= 0.0 && (r == x || r == -x)
  {
    if x < 0.0 then -x else x
  }

  function Min(a: real, b: real): real { if a <= b then a else b }
  function Max(a: real, b: real): real { if a <= b then b else a }

  /** Sample times are stored in ascending (non-decreasing) order. */
  ghost predicate Sorted(s: seq<real>) {
    forall i, j :: 0 <= i < j < |s| ==> s[i] <= s[j]
  }

  /** Times with no two samples at the same instant. */
  ghost predicate StrictlySorted(s: seq<real>) {
    forall i, j :: 0 <= i < j < |s| ==> s[i] < s[j]
  }

  /** Smallest element of a non-empty sequence. */
  function SeqMin(s: seq<real>): (m: real)
    requires |s| > 0
    ensures m in s
    ensures forall k :: 0 <= k < |s| ==> m <= s[k]
  {
    if |s| == 1 then s[0] else Min(s[0], SeqMin(s[1..]))
  }

  /** Largest element of a non-empty sequence. */
  function SeqMax(s: seq<real>): (m: real)
    requires |s| > 0
    ensures m in s
    ensures forall k :: 0 <= k < |s| ==> s[k] <= m
  {
    if |s| == 1 then s[0] else Max(s[0], SeqMax(s[1..]))
  }
}
