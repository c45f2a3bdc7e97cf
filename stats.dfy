/** to_stats (src/util.py): the network's output rows split into the parameter groups of the
    mixture, with Python's slicing, which clamps its bounds to the row. */
module StatsSplit {
  import opened NumValues

  /** row[lo:hi] for 0 <= lo <= hi: the bounds are clamped to the row's length. */
  function PySlice(row: seq<Num>, lo: nat, hi: nat): (r: seq<Num>)
    requires lo <= hi
    ensures |r| == (if hi <= |row| then hi - lo else if lo <= |row| then |row| - lo else 0)
    ensures forall j :: 0 <= j < |r| ==> r[j] == row[lo + j]
  {
    if |row| <= lo then [] else if |row| <= hi then row[lo..] else row[lo..hi]
  }

  /** The groups of to_stats: the zero and excess probabilities, the next pair (the GPD
      statistics), and with use_evt the lognormal statistics. */
  datatype Groups = Groups(probs: seq<seq<Num>>, second: seq<seq<Num>>, third: seq<seq<Num>>) | Pair(probs: seq<seq<Num>>, second: seq<seq<Num>>)

  function Columns(y: seq<seq<Num>>, lo: nat, hi: nat): seq<seq<Num>>
    requires lo <= hi
  {
    seq(|y|, i requires 0 <= i < |y| => PySlice(y[i], lo, hi))
  }

  /** to_stats: y[:, :2], y[:, 2:4] and, with use_evt, y[:, 4:6]. */
  function ToStats(y: seq<seq<Num>>, useEvt: bool): (g: Groups)
    ensures g.Groups? <==> useEvt
  {
    if useEvt then Groups(Columns(y, 0, 2), Columns(y, 2, 4), Columns(y, 4, 6))
    else Pair(Columns(y, 0, 2), Columns(y, 2, 4))
  }

  /** The groups put back together give the first six (or four) columns of every row, whatever
      its width, and on rows of six or more columns every group is two columns wide. */
  lemma {:induction false} ToStatsReassembles(y: seq<seq<Num>>, useEvt: bool, i: int)
    requires 0 <= i < |y|
    ensures var g := ToStats(y, useEvt);
            |g.probs| == |y| && |g.second| == |y| &&
            (g.Groups? ==> |g.third| == |y| &&
                           g.probs[i] + g.second[i] + g.third[i] == y[i][..if |y[i]| < 6 then |y[i]| else 6]) &&
            (g.Pair? ==> g.probs[i] + g.second[i] == y[i][..if |y[i]| < 4 then |y[i]| else 4])
    ensures |y[i]| >= 6 ==> var g := ToStats(y, useEvt);
            |g.probs[i]| == 2 && |g.second[i]| == 2 && (g.Groups? ==> |g.third[i]| == 2)
  {
    var row := y[i];
    var a, b, c := PySlice(row, 0, 2), PySlice(row, 2, 4), PySlice(row, 4, 6);
    var w6 := if |row| < 6 then |row| else 6;
    var w4 := if |row| < 4 then |row| else 4;
    assert a + b + c == row[..w6];
    assert a + b == row[..w4];
  }
}
