/**
 * Evaluations of DataHandler.evaluate_eval_data: the decoding of signed
 * channel parameters and the linear combination of the good points of
 * three channels.  An absolute-frequency evaluation combines the offset
 * frequency, the repetition rate and a beat; a ratio evaluation combines the
 * offset frequency and two beats.
 */
module EvalSigns {
  import opened Common
  import opened FlagWord
  import opened SampleTable
  import opened Selection

  /**
   * A signed channel parameter: p = 1, 2, ... names channel p - 1 with sign
   * +1; p = 0, -1, ... names channel 1 - p with sign -1 (a negative beat).
   */
  datatype Signed = Signed(channel: nat, sign: int)

  /** The program's decoding: idx = p - 1, negative idx gives sign -1 and idx = |idx|. */
  function DecodeChannel(p: int): (s: Signed)
    ensures s.sign == 1 || s.sign == -1
    ensures s.sign == 1 <==> p >= 1
    ensures s.channel + 1 == p || s.channel == 1 - p
  {
    var idx := p - 1;
    if idx < 0 then Signed(-idx, -1) else Signed(idx, 1)
  }

  /** The parameter that names a channel with a sign. */
  function EncodeChannel(s: Signed): int {
    if s.sign >= 0 then s.channel + 1 else 1 - s.channel
  }

  /** Every parameter is recovered from its decoding; so no two parameters decode alike. */
  lemma EncodeDecode(p: int)
    ensures EncodeChannel(DecodeChannel(p)) == p
  {
  }

  /**
   * Decoding inverts encoding for every positive channel and for every
   * negative channel except channel 0: a negated channel 0 cannot be written
   * (p = 1 - 0 = 1 decodes as channel 0 with sign +1).
   */
  lemma DecodeEncode(s: Signed)
    requires s.sign == 1 || (s.sign == -1 && s.channel >= 1)
    ensures DecodeChannel(EncodeChannel(s)) == s
  {
  }

  lemma NoNegatedChannelZero(p: int)
    ensures DecodeChannel(p) != Signed(0, -1)
  {
  }

  lemma DecodeInjective(p: int, q: int)
    requires DecodeChannel(p) == DecodeChannel(q)
    ensures p == q
  {
    EncodeDecode(p);
    EncodeDecode(q);
  }

  /**
   * The repetition-rate channel ignores the sign: |p| - 1.  Parameter 0 gives
   * channel -1, which the selection rejects (a negative shift count).
   */
  function DecodeRep(p: int): (ch: int)
    ensures ch >= -1 && (ch == -1 <==> p == 0)
    ensures ch + 1 == p || ch + 1 == -p
  {
    (if p < 0 then -p else p) - 1
  }

  /** A parameter and its negation name the same repetition-rate channel. */
  lemma RepIgnoresSign(p: int)
    ensures DecodeRep(-p) == DecodeRep(p)
  {
  }

  /** Parameters of one evaluation; any other type gives an empty result. */
  datatype EvalParams =
    | Absolute(chCeo: int, chRep: int, nRep: real, nA: real, chA: int, multiplier: real)
    | Ratio(chCeo: int, rAb: real, chA: int, chB: int, multiplier: real, refB: real)
    | OtherType

  /** A time and an evaluated value. */
  datatype Point = Point(time: real, value: real)

  function Scale(v: seq<real>, k: real): (r: seq<real>)
    ensures |r| == |v| && forall i :: 0 <= i < |v| ==> r[i] == v[i] * k
  {
    seq(|v|, i requires 0 <= i < |v| => v[i] * k)
  }

  /**
   * The coefficient row of an absolute evaluation, times the multiplier:
   * [0, s_ceo, |n_a| / n_rep, s_a].  A harmonic number n_rep of 0 divides by
   * zero (None).
   */
  function AbsoluteVector(sCeo: int, nA: real, nRep: real, sA: int, multiplier: real): (v: Option<seq<real>>)
    ensures v.None? <==> nRep == 0.0
    ensures v.Some? ==> |v.value| == 4 && v.value[0] == 0.0
  {
    if nRep == 0.0 then None
    else Some(Scale([0.0, sCeo as real, Abs(nA) / nRep, sA as real], multiplier))
  }

  /**
   * The coefficient row of a ratio evaluation, times multiplier / ref_b:
   * [0, s_ceo - s_ceo r_ab, s_a, -s_b r_ab].  A reference of 0 divides by
   * zero (None).
   */
  function RatioVector(sCeo: int, rAb: real, sA: int, sB: int, multiplier: real, refB: real)
    : (v: Option<seq<real>>)
    ensures v.None? <==> refB == 0.0
    ensures v.Some? ==> |v.value| == 4 && v.value[0] == 0.0
  {
    if refB == 0.0 then None
    else Some(Scale([0.0, sCeo as real - sCeo as real * rAb, sA as real, -(sB as real) * rAb], multiplier / refB))
  }

  /** Dot product of a selected row (time and three values) with a coefficient row. */
  function Dot(row: seq<real>, v: seq<real>): real
    requires |row| == |v| == 4
  {
    row[0] * v[0] + Combination(v, row[1], row[2], row[3])
  }

  /** The three channel values a, b, c weighted with the coefficients v[1], v[2], v[3]. */
  function Combination(v: seq<real>, a: real, b: real, c: real): real
    requires |v| == 4
  {
    v[1] * a + v[2] * b + v[3] * c
  }

  /** Each selected row with its time and its dot product with the coefficient row. */
  function Combine(rows: seq<seq<real>>, v: seq<real>): (ps: seq<Point>)
    requires |v| == 4 && forall j :: 0 <= j < |rows| ==> |rows[j]| == 4
    ensures |ps| == |rows|
    ensures forall j :: 0 <= j < |rows| ==> ps[j] == Point(rows[j][0], Dot(rows[j], v))
  {
    seq(|rows|, j requires 0 <= j < |rows| => Point(rows[j][0], Dot(rows[j], v)))
  }

  /** The three channels an evaluation reads, or None when one is not a channel number. */
  function EvalChannels(p: EvalParams): (chans: Option<seq<nat>>)
    requires !p.OtherType?
    ensures chans.Some? ==> |chans.value| == 3
  {
    match p
    case Absolute(chCeo, chRep, _, _, chA, _) =>
      var rep := DecodeRep(chRep);
      if rep < 0 then None
      else Some([DecodeChannel(chCeo).channel, rep as nat, DecodeChannel(chA).channel])
    case Ratio(chCeo, _, chA, chB, _, _) =>
      Some([DecodeChannel(chCeo).channel, DecodeChannel(chA).channel, DecodeChannel(chB).channel])
  }

  /** The coefficient row of an evaluation. */
  function EvalVector(p: EvalParams): (v: Option<seq<real>>)
    requires !p.OtherType?
    ensures v.Some? ==> |v.value| == 4 && v.value[0] == 0.0
  {
    match p
    case Absolute(chCeo, _, nRep, nA, chA, multiplier) =>
      AbsoluteVector(DecodeChannel(chCeo).sign, nA, nRep, DecodeChannel(chA).sign, multiplier)
    case Ratio(chCeo, rAb, chA, chB, multiplier, refB) =>
      RatioVector(DecodeChannel(chCeo).sign, rAb, DecodeChannel(chA).sign, DecodeChannel(chB).sign, multiplier, refB)
  }

  /**
   * ps holds, for every row good for the channels, in the table's order, the
   * row's time and the combination of the channels' values with the
   * coefficients v[1], v[2], v[3].
   */
  ghost predicate Evaluated(t: Table, chans: seq<nat>, v: seq<real>, ps: seq<Point>)
    requires ValidTable(t) && |chans| == 3 && ChannelsFit(chans) && |v| == 4
  {
    var picks := Picks(GoodKeep(t, chans));
    |ps| == |picks| && forall j :: 0 <= j < |picks| ==> PointOf(t, chans, v, ps[j], picks[j])
  }

  /** p is row i's time with the combination of its three channel values. */
  ghost predicate PointOf(t: Table, chans: seq<nat>, v: seq<real>, p: Point, i: nat)
    requires ValidTable(t) && |chans| == 3 && ChannelsFit(chans) && |v| == 4 && i < |t.times|
  {
    p == Point(t.times[i], Combination(v, t.cols[chans[0]][i], t.cols[chans[1]][i], t.cols[chans[2]][i]))
  }

  /** Combining the selected rows evaluates every good row. */
  lemma CombineEvaluates(t: Table, chans: seq<nat>, v: seq<real>)
    requires ValidTable(t) && |chans| == 3 && ChannelsFit(chans) && |v| == 4 && v[0] == 0.0
    ensures Evaluated(t, chans, v, Combine(GoodPointsMultiple(t, chans).value, v))
  {
    var picks := Picks(GoodKeep(t, chans));
    var rows := GoodPointsMultiple(t, chans).value;
    assert rows == RowsAt(t, picks, chans);
    var ps := Combine(rows, v);
    forall j | 0 <= j < |picks| ensures PointOf(t, chans, v, ps[j], picks[j]) {
      assert rows[j] == RowOf(t, picks[j], chans);
      CombineAt(t, chans, v, picks[j]);
    }
  }

  /** One row's point: its time and the combination of its three channel values. */
  lemma CombineAt(t: Table, chans: seq<nat>, v: seq<real>, i: nat)
    requires ValidTable(t) && |chans| == 3 && ChannelsFit(chans) && |v| == 4 && v[0] == 0.0 && i < |t.times|
    ensures PointOf(t, chans, v, Point(RowOf(t, i, chans)[0], Dot(RowOf(t, i, chans), v)), i)
  {
    var row := RowOf(t, i, chans);
    assert row[1] == t.cols[chans[0]][i] && row[2] == t.cols[chans[1]][i] && row[3] == t.cols[chans[2]][i];
    DotTime(row, v);
  }

  /** The time column does not enter the dot product. */
  lemma DotTime(row: seq<real>, v: seq<real>)
    requires |row| == |v| == 4 && v[0] == 0.0
    ensures Dot(row, v) == Combination(v, row[1], row[2], row[3])
  {
  }

  /**
   * One evaluation of evaluate_eval_data: the good points of its three
   * channels combined row by row with its coefficient row.  None stands for
   * the exceptions the program raises: a channel number of 4 or more or a
   * repetition-rate parameter of 0, a zero n_rep or a zero ref_b.  Another
   * evaluation type gives no points.
   */
  function Evaluate(t: Table, p: EvalParams): (res: Option<seq<Point>>)
    requires ValidTable(t)
    ensures p.OtherType? ==> res == Some([])
    ensures !p.OtherType? ==>
      (res.Some? <==> EvalChannels(p).Some? && ChannelsFit(EvalChannels(p).value) && EvalVector(p).Some?)
    ensures !p.OtherType? && res.Some? ==> Evaluated(t, EvalChannels(p).value, EvalVector(p).value, res.value)
  {
    if p.OtherType? then Some([])
    else
      match EvalChannels(p)
      case None => None
      case Some(chans) =>
        if !ChannelsFit(chans) then None
        else
          match EvalVector(p)
          case None => None
          case Some(v) =>
            CombineEvaluates(t, chans, v);
            Some(Combine(GoodPointsMultiple(t, chans).value, v))
  }

  /** The j-th point of an evaluation: the j-th good row's time and the combination of its channels. */
  lemma EvaluatePoint(t: Table, p: EvalParams, j: nat)
    requires ValidTable(t) && !p.OtherType? && Evaluate(t, p).Some? && j < |Evaluate(t, p).value|
    ensures var chans := EvalChannels(p).value; var i := Picks(GoodKeep(t, chans))[j];
      Evaluate(t, p).value[j]
        == Point(t.times[i], Combination(EvalVector(p).value, t.cols[chans[0]][i], t.cols[chans[1]][i], t.cols[chans[2]][i]))
  {
    var chans := EvalChannels(p).value;
    var v := EvalVector(p).value;
    var i := Picks(GoodKeep(t, chans))[j];
    var ps := Evaluate(t, p).value;
    assert Evaluated(t, chans, v, ps);
    assert PointOf(t, chans, v, ps[j], i);
  }

  /**
   * An absolute evaluation gives, for the j-th good row i of its channels,
   * the row's time and the multiplier times
   * s_ceo f_CEO + (|n_a| / n_rep) f_rep + s_a f_beat, with the signs and
   * channels its parameters name.
   */
  lemma AbsoluteFormula(t: Table, p: EvalParams, j: nat)
    requires ValidTable(t) && p.Absolute? && Evaluate(t, p).Some? && j < |Evaluate(t, p).value|
    ensures var chans := EvalChannels(p).value; var i := Picks(GoodKeep(t, chans))[j];
      && chans == [DecodeChannel(p.chCeo).channel, DecodeRep(p.chRep) as nat, DecodeChannel(p.chA).channel]
      && Evaluate(t, p).value[j] == Point(t.times[i],
           AbsoluteFrequency(p.multiplier, DecodeChannel(p.chCeo).sign, t.cols[chans[0]][i],
                             Abs(p.nA) / p.nRep, t.cols[chans[1]][i], DecodeChannel(p.chA).sign, t.cols[chans[2]][i]))
  {
    var chans := EvalChannels(p).value;
    var v := EvalVector(p).value;
    var sCeo, sA := DecodeChannel(p.chCeo).sign, DecodeChannel(p.chA).sign;
    var ratio := Abs(p.nA) / p.nRep;
    assert v == Scale([0.0, sCeo as real, ratio, sA as real], p.multiplier);
    var i := Picks(GoodKeep(t, chans))[j];
    EvaluatePoint(t, p, j);
    Distribute(v, p.multiplier, sCeo, ratio, sA, t.cols[chans[0]][i], t.cols[chans[1]][i], t.cols[chans[2]][i]);
  }

  /**
   * The absolute frequency deviation: the multiplier times the signed offset
   * frequency, ratio times the repetition rate, and the signed beat.
   */
  function AbsoluteFrequency(multiplier: real, sCeo: int, fCeo: real, ratio: real, fRep: real, sA: int, fBeat: real)
    : real
  {
    multiplier * (sCeo as real * fCeo + ratio * fRep + sA as real * fBeat)
  }

  /** The scaled coefficient row [0, s_ceo, k, s_a] combines to the absolute frequency. */
  lemma Distribute(v: seq<real>, m: real, sCeo: int, k: real, sA: int, a: real, b: real, c: real)
    requires v == Scale([0.0, sCeo as real, k, sA as real], m)
    ensures Combination(v, a, b, c) == AbsoluteFrequency(m, sCeo, a, k, b, sA, c)
  {
    var x, y := sCeo as real, sA as real;
    assert v[1] == x * m && v[2] == k * m && v[3] == y * m;
    calc {
      Combination(v, a, b, c);
      (x * m) * a + (k * m) * b + (y * m) * c;
      m * (x * a) + m * (k * b) + m * (y * c);
      m * (x * a + k * b + y * c);
    }
  }

  /**
   * A ratio evaluation gives, for the j-th good row i of its channels, the
   * row's time and (multiplier / ref_b) times
   * (s_ceo f_CEO + s_a f_a) - r_ab (s_ceo f_CEO + s_b f_b): the deviation of
   * the ratio from r_ab, relative to the reference frequency.
   */
  lemma RatioFormula(t: Table, p: EvalParams, j: nat)
    requires ValidTable(t) && p.Ratio? && Evaluate(t, p).Some? && j < |Evaluate(t, p).value|
    ensures var chans := EvalChannels(p).value; var i := Picks(GoodKeep(t, chans))[j];
      && chans == [DecodeChannel(p.chCeo).channel, DecodeChannel(p.chA).channel, DecodeChannel(p.chB).channel]
      && Evaluate(t, p).value[j] == Point(t.times[i],
           RatioDeviation(p.multiplier / p.refB, p.rAb,
                          DecodeChannel(p.chCeo).sign, t.cols[chans[0]][i],
                          DecodeChannel(p.chA).sign, t.cols[chans[1]][i],
                          DecodeChannel(p.chB).sign, t.cols[chans[2]][i]))
  {
    var chans := EvalChannels(p).value;
    var i := Picks(GoodKeep(t, chans))[j];
    EvaluatePoint(t, p, j);
    RatioCombination(p, t.cols[chans[0]][i], t.cols[chans[1]][i], t.cols[chans[2]][i]);
  }

  /** A ratio evaluation's coefficient row combines three values to their ratio deviation. */
  lemma RatioCombination(p: EvalParams, a: real, b: real, c: real)
    requires p.Ratio? && EvalVector(p).Some?
    ensures Combination(EvalVector(p).value, a, b, c)
      == RatioDeviation(p.multiplier / p.refB, p.rAb, DecodeChannel(p.chCeo).sign, a,
                        DecodeChannel(p.chA).sign, b, DecodeChannel(p.chB).sign, c)
  {
    var sCeo, sA, sB := DecodeChannel(p.chCeo).sign, DecodeChannel(p.chA).sign, DecodeChannel(p.chB).sign;
    assert EvalVector(p) == RatioVector(sCeo, p.rAb, sA, sB, p.multiplier, p.refB);
    RatioDistribute(sCeo, p.rAb, sA, sB, p.multiplier, p.refB, a, b, c);
  }

  /**
   * The relative ratio deviation: scale times the signed sum of offset
   * frequency and beat a, less r_ab times the signed sum with beat b.
   */
  function RatioDeviation(scale: real, rAb: real, sCeo: int, fCeo: real, sA: int, fA: real, sB: int, fB: real)
    : real
  {
    scale * ((sCeo as real * fCeo + sA as real * fA) - rAb * (sCeo as real * fCeo + sB as real * fB))
  }

  /** The scaled coefficient row [0, s_ceo - s_ceo r_ab, s_a, -s_b r_ab] combines to the ratio deviation. */
  lemma RatioDistribute(sCeo: int, rAb: real, sA: int, sB: int, multiplier: real, refB: real, a: real, b: real, c: real)
    requires refB != 0.0
    ensures Combination(RatioVector(sCeo, rAb, sA, sB, multiplier, refB).value, a, b, c)
      == RatioDeviation(multiplier / refB, rAb, sCeo, a, sA, b, sB, c)
  {
    var k := multiplier / refB;
    var v := RatioVector(sCeo, rAb, sA, sB, multiplier, refB).value;
    var x, y, z := sCeo as real, sA as real, sB as real;
    assert v[1] == (x - x * rAb) * k && v[2] == y * k && v[3] == (-z * rAb) * k;
    calc {
      Combination(v, a, b, c);
      ((x - x * rAb) * k) * a + (y * k) * b + ((-z * rAb) * k) * c;
      k * (x * a) - k * (rAb * (x * a)) + k * (y * b) - k * (rAb * (z * c));
      k * ((x * a + y * b) - rAb * (x * a + z * c));
    }
  }

}
