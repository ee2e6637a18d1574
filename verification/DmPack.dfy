/** The packed transfer of values between stations: the sender writes a line only where the value changes, or changes
    by more than a given percentage, and the receiver puts the values between the lines back. */
module DmPack {
  import opened Series
  import opened Ring
  import opened BufSpec
  import opened ValBuf
  import opened GridIO

  /** The value that stands for a missing one among integers; among Booleans it is 2, and there is no percentage. */
  const EVAL_INT := -9223372036854775807

  datatype Line = Line(pos: int, val: int)

  function Abs(x: int): nat {
    if x < 0 then -x else x
  }

  function Max(a: int, b: int): int {
    if a > b then a else b
  }

  predicate SameSign(a: int, b: int) {
    (a > 0 && b > 0) || (a < 0 && b < 0)
  }

  /** The difference in percent of the greater magnitude is within the limit. */
  predicate Within(a: int, b: int, perc: real) {
    SameSign(a, b) && 100.0 * Abs(a - b) as real / Max(Abs(a), Abs(b)) as real <= perc
  }

  predicate Close(a: int, b: int, perc: real) {
    a == b || Within(a, b, perc)
  }

  // ----- what is sent -----

  /** The lines for the values so far: always one for the first value, and one for each value that is not close to
      the value sent last. */
  function Packed(vals: seq<int>, perc: real): (lines: seq<Line>)
    ensures |vals| > 0 ==> |lines| > 0
  {
    if |vals| == 0 then []
    else
      var n := |vals| - 1;
      var before := Packed(vals[..n], perc);
      if n > 0 && Close(before[|before| - 1].val, vals[n], perc) then before else before + [Line(n, vals[n])]
  }

  /** Lines in ascending positions below `n`, the first at position 0. */
  ghost predicate InOrder(lines: seq<Line>, n: int) {
    |lines| > 0 && lines[0].pos == 0 && (forall i :: 0 <= i < |lines| ==> lines[i].pos < n) &&
    forall i, j :: 0 <= i < j < |lines| ==> lines[i].pos < lines[j].pos
  }

  /** What the receiver takes for the value at a position: the value of the last line not after it. */
  function Taken(lines: seq<Line>, pos: int): int {
    if |lines| == 0 then EVAL_INT
    else if lines[|lines| - 1].pos <= pos then lines[|lines| - 1].val
    else Taken(lines[..|lines| - 1], pos)
  }

  lemma {:induction false} PackedInOrder(vals: seq<int>, perc: real)
    requires |vals| > 0
    ensures InOrder(Packed(vals, perc), |vals|)
  {
    var n := |vals| - 1;
    if n > 0 { PackedInOrder(vals[..n], perc); }
  }

  lemma TakenAppend(lines: seq<Line>, e: Line, pos: int)
    ensures Taken(lines + [e], pos) == if e.pos <= pos then e.val else Taken(lines, pos)
  {
    assert (lines + [e])[..|lines|] == lines;
  }

  /** No drift: every value taken is close to the value that was there, however long nothing has been sent, because
      values are compared with the value sent last. */
  lemma {:induction false} NoDrift(vals: seq<int>, perc: real, pos: nat)
    requires pos < |vals|
    ensures Close(Taken(Packed(vals, perc), pos), vals[pos], perc)
  {
    var n := |vals| - 1;
    var before := Packed(vals[..n], perc);
    PackedInOrder(vals, perc);
    if pos < n {
      NoDrift(vals[..n], perc, pos);
      TakenAppend(before, Line(n, vals[n]), pos);
    } else {
      if n > 0 { PackedInOrder(vals[..n], perc); }
      TakenAppend(before, Line(n, vals[n]), pos);
    }
  }

  /** Each line has the value that was there. */
  lemma {:induction false} LinesAreThere(vals: seq<int>, perc: real, i: nat)
    requires i < |Packed(vals, perc)|
    ensures 0 <= Packed(vals, perc)[i].pos < |vals| && Packed(vals, perc)[i].val == vals[Packed(vals, perc)[i].pos]
  {
    var n := |vals| - 1;
    var pre := Packed(vals[..n], perc);
    if i < |pre| {
      LinesAreThere(vals[..n], perc, i);
      assert Packed(vals, perc)[i] == pre[i];
    }
  }

  /** No line has a value close to that of the line before it. */
  lemma {:induction false} LinesAreNeeded(vals: seq<int>, perc: real, i: nat)
    requires i + 1 < |Packed(vals, perc)|
    ensures !Close(Packed(vals, perc)[i].val, Packed(vals, perc)[i + 1].val, perc)
  {
    var n := |vals| - 1;
    var pre := Packed(vals[..n], perc);
    assert Packed(vals, perc)[i] == pre[i];
    if i + 1 < |pre| {
      LinesAreNeeded(vals[..n], perc, i);
      assert Packed(vals, perc)[i + 1] == pre[i + 1];
    }
  }

  /** Up to the next line the values are close to that of the line. */
  lemma LineCovers(vals: seq<int>, perc: real, i: nat, pos: nat)
    requires |vals| > 0 && i < |Packed(vals, perc)| && pos < |vals|
    requires Packed(vals, perc)[i].pos <= pos && (i + 1 < |Packed(vals, perc)| ==> pos < Packed(vals, perc)[i + 1].pos)
    ensures Close(Packed(vals, perc)[i].val, vals[pos], perc)
  {
    PackedInOrder(vals, perc);
    TakenBetween(Packed(vals, perc), i, pos);
    NoDrift(vals, perc, pos);
  }

  /** Without a percentage the round trip is exact, missing values included. */
  lemma ExactRoundTrip(vals: seq<int>, pos: nat)
    requires pos < |vals|
    ensures Taken(Packed(vals, 0.0), pos) == vals[pos]
  {
    NoDrift(vals, 0.0, pos);
    CloseAtZero(Taken(Packed(vals, 0.0), pos), vals[pos]);
  }

  /** Closeness in numbers: equal, or of one sign and not further apart than the percentage of the greater magnitude. */
  lemma CloseIff(a: int, b: int, perc: real)
    ensures var d, m := if a > b then a - b else b - a, if a > 0 then if a > b then a else b
                                                        else if a < b then -a else -b;
            Close(a, b, perc) <==>
              a == b || (((a > 0 && b > 0) || (a < 0 && b < 0)) && 100.0 * d as real <= perc * m as real)
  {
    if a != b && SameSign(a, b) {
      var d, m := 100.0 * Abs(a - b) as real, Max(Abs(a), Abs(b)) as real;
      if d / m <= perc { DivBound(d, m, perc); }
      if d <= perc * m { BoundDiv(d, m, perc); }
    }
  }

  lemma CloseAtZero(a: int, b: int)
    ensures Close(a, b, 0.0) <==> a == b
  {
    if Within(a, b, 0.0) {
      var m, d := Max(Abs(a), Abs(b)) as real, 100.0 * Abs(a - b) as real;
      assert d / m * m == d;
      assert d <= 0.0;
    }
  }

  /** Of one sign, and not further apart than the percentage of the greater magnitude. */
  ghost predicate WithinPercent(t: int, v: int, perc: real) {
    var d, m := if t > v then t - v else v - t, if t > 0 then if t > v then t else v else if t < v then -t else -v;
    ((t > 0 && v > 0) || (t < 0 && v < 0)) && 100.0 * d as real <= perc * m as real
  }

  /** A real value sent with a percentage has its sign kept and is within the percentage of the value there. */
  lemma SignAndPercent(vals: seq<int>, perc: real, pos: nat)
    requires pos < |vals| && Taken(Packed(vals, perc), pos) != vals[pos]
    ensures WithinPercent(Taken(Packed(vals, perc), pos), vals[pos], perc)
  {
    NoDrift(vals, perc, pos);
    CloseToOther(Taken(Packed(vals, perc), pos), vals[pos], perc);
  }

  lemma CloseToOther(a: int, b: int, perc: real)
    requires Close(a, b, perc) && a != b
    ensures WithinPercent(a, b, perc)
  {
    CloseIff(a, b, perc);
  }

  lemma DivBound(d: real, m: real, perc: real)
    requires m > 0.0 && d / m <= perc
    ensures d <= perc * m
  {
    var q := d / m;
    assert q * m == d;
    assert (perc - q) * m >= 0.0;
  }

  /** No real value is close to the missing one. */
  ghost predicate Clear(vals: seq<int>, perc: real, miss: int) {
    forall i :: 0 <= i < |vals| && vals[i] != miss ==> !Close(miss, vals[i], perc)
  }

  /** At every position the receiver takes a missing value exactly if one was there. */
  ghost predicate KeptApart(vals: seq<int>, perc: real, miss: int) {
    forall pos: nat :: pos < |vals| ==> (Taken(Packed(vals, perc), pos) == miss <==> vals[pos] == miss)
  }

  /** The missing value is a number too: a value is taken for missing, or a missing one for a value, only if the
      percentage makes a negative value close to it. */
  lemma MissingIsKept(vals: seq<int>, perc: real, pos: nat, miss: int)
    requires pos < |vals| && Clear(vals, perc, miss)
    ensures Taken(Packed(vals, perc), pos) == miss <==> vals[pos] == miss
  {
    NoDrift(vals, perc, pos);
    TakenIsSent(vals, perc, pos);
    var t := Taken(Packed(vals, perc), pos);
    if t != miss && vals[pos] == miss {
      var i :| 0 <= i <= pos && vals[i] == t;
      CloseIsMutual(t, miss, perc);
    }
  }

  /** All that can be sent of these values and missing ones. */
  ghost predicate MadeOf(us: seq<int>, vals: seq<int>, miss: int) {
    forall i :: 0 <= i < |us| ==> us[i] in vals || us[i] == miss
  }

  /** Missing and real values are kept apart, whatever is sent of the given values and missing ones, exactly if no real
      one is close to the missing one. */
  lemma MissingIsKeptIff(vals: seq<int>, perc: real, miss: int)
    ensures (forall us :: MadeOf(us, vals, miss) ==> KeptApart(us, perc, miss)) <==> Clear(vals, perc, miss)
  {
    if Clear(vals, perc, miss) {
      forall us | MadeOf(us, vals, miss) ensures KeptApart(us, perc, miss) {
        forall pos: nat | pos < |us| ensures Taken(Packed(us, perc), pos) == miss <==> us[pos] == miss {
          MissingIsKept(us, perc, pos, miss);
        }
      }
    } else {
      var i :| 0 <= i < |vals| && vals[i] != miss && Close(miss, vals[i], perc);
      TakenForMissing(miss, vals[i], perc);
      assert MadeOf([miss, vals[i]], vals, miss);
    }
  }

  /** A value close to the missing one is lost behind it. */
  lemma TakenForMissing(miss: int, val: int, perc: real)
    requires val != miss && Close(miss, val, perc)
    ensures !KeptApart([miss, val], perc, miss)
  {
    var us := [miss, val];
    assert us[..1] == [miss] && [miss][..0] == [];
    assert Packed([miss], perc) == [Line(0, miss)];
    assert us[1] != miss && Taken(Packed(us, perc), 1) == miss;
  }

  /** In numbers: of the integers from the missing one on those are close to it that are negative and whose magnitude is
      at most the percentage less. */
  lemma CloseToMissing(v: int, perc: real)
    requires v >= EVAL_INT
    ensures Close(EVAL_INT, v, perc) <==> v == EVAL_INT ||
                                          (v < 0 && 100.0 * (v - EVAL_INT) as real <= perc * -EVAL_INT as real)
  {
    if v < 0 {
      var d, m := 100.0 * (v - EVAL_INT) as real, -EVAL_INT as real;
      assert Abs(EVAL_INT - v) == v - EVAL_INT && Max(Abs(EVAL_INT), Abs(v)) == -EVAL_INT;
      if d / m <= perc { DivBound(d, m, perc); }
      if d <= perc * m { BoundDiv(d, m, perc); }
    }
  }

  lemma BoundDiv(d: real, m: real, perc: real)
    requires m > 0.0 && d <= perc * m
    ensures d / m <= perc
  {
    var q := d / m;
    assert q * m == d;
    if q > perc { assert (q - perc) * m > 0.0; }
  }

  lemma CloseIsMutual(a: int, b: int, perc: real)
    ensures Close(a, b, perc) ==> Close(b, a, perc)
  {
    assert Abs(a - b) == Abs(b - a) && Max(Abs(a), Abs(b)) == Max(Abs(b), Abs(a));
  }

  /** What is taken is one of the values sent. */
  lemma {:induction false} TakenIsSent(vals: seq<int>, perc: real, pos: nat)
    requires pos < |vals|
    ensures exists i :: 0 <= i <= pos && vals[i] == Taken(Packed(vals, perc), pos)
  {
    var n := |vals| - 1;
    var pre := vals[..n];
    var before := Packed(pre, perc);
    if n > 0 && Close(before[|before| - 1].val, vals[n], perc) {
      PackedInOrder(pre, perc);
      var p := if pos < n then pos else n - 1;
      TakenIsSent(pre, perc, p);
      var i :| 0 <= i <= p && pre[i] == Taken(before, p);
      if pos == n { SameTail(before, n - 1, n); }
      assert vals[i] == Taken(before, pos);
    } else {
      TakenAppend(before, Line(n, vals[n]), pos);
      if pos < n {
        TakenIsSent(pre, perc, pos);
        var i :| 0 <= i <= pos && pre[i] == Taken(before, pos);
        assert vals[i] == Taken(before, pos);
      }
    }
  }

  lemma SameTail(lines: seq<Line>, a: int, b: int)
    requires InOrder(lines, a + 1) && a <= b
    ensures Taken(lines, a) == Taken(lines, b)
  {
  }

  /** An instance: with 50 percent a missing value and then a large negative one arrive as two missing values. */
  lemma MissingIsTakenForValue()
    ensures var vals := [EVAL_INT, -8000000000000000000]; Taken(Packed(vals, 50.0), 1) == EVAL_INT
  {
    var vals := [EVAL_INT, -8000000000000000000];
    assert vals[..1] == [EVAL_INT] && [EVAL_INT][..0] == [];
    assert Packed([EVAL_INT], 50.0) == [Line(0, EVAL_INT)];
    assert 100.0 * 1223372036854775807.0 / 9223372036854775807.0 <= 50.0;
  }

  // ----- the sender -----

  method Emit(lines: seq<Line>, vpos: nat, val: int, sent: int, perc: real, ghost vals: seq<int>)
      returns (lines': seq<Line>, sent': int)
    requires |vals| == vpos + 1 && vals[vpos] == val && lines == Packed(vals[..vpos], perc)
    requires vpos > 0 ==> sent == lines[|lines| - 1].val
    ensures lines' == Packed(vals, perc) && sent' == lines'[|lines'| - 1].val
  {
    if !(vpos != 0 && Close(sent, val, perc)) {
      lines', sent' := lines + [Line(vpos, val)], val;
    } else {
      lines', sent' := lines, sent;
    }
  }

  /** The state of the sender when `n` values have been read: the last of them is still held back. */
  ghost predicate Sending(vals: seq<int>, n: nat, perc: real, held: int, vpos_end: int, lines: seq<Line>, sent: int) {
    n <= |vals| &&
    if n == 0 then vpos_end == 0 && lines == []
    else vpos_end == n - 1 && held == vals[n - 1] && lines == Packed(vals[..n - 1], perc) &&
         (n > 1 ==> sent == lines[|lines| - 1].val)
  }

  /** The value read before is sent when the next one has been read. */
  method Advance(ghost vals: seq<int>, tval: int, lines: seq<Line>, vpos_end: nat, vpos_cur: nat, held: int, sent: int,
                 perc: real)
    returns (lines': seq<Line>, sent': int)
    requires vpos_cur < |vals| && vals[vpos_cur] == tval && Sending(vals, vpos_cur, perc, held, vpos_end, lines, sent)
    ensures Sending(vals, vpos_cur + 1, perc, tval, vpos_cur, lines', sent')
  {
    lines', sent' := lines, sent;
    if vpos_cur > vpos_end {
      assert vals[..vpos_cur][..vpos_cur - 1] == vals[..vpos_cur - 1];
      lines', sent' := Emit(lines, vpos_end, held, sent, perc, vals[..vpos_cur]);
    }
  }

  /** The last value is sent at the end. */
  method Flush(ghost vals: seq<int>, lines: seq<Line>, vpos_end: nat, held: int, sent: int, perc: real)
      returns (lines': seq<Line>)
    requires |vals| > 0 && Sending(vals, |vals|, perc, held, vpos_end, lines, sent)
    ensures lines' == Packed(vals, perc)
  {
    var last;
    lines', last := Emit(lines, vpos_end, held, sent, perc, vals);
  }

  /** The sender goes through a hard grid. */
  method Pack(src: TBuf<int>, perc: real, miss: int) returns (lines: seq<Line>)
    requires src.Valid() && src.hrdGrd && !src.Empty()
    ensures lines == Packed(src.Contents().cells, perc)
    // The first line is for the first value, and positions ascend; each line has the value there, the values up to the
    // next line are close to it, and that of the next line is not.
    ensures var vals := src.Contents().cells;
            |lines| > 0 && lines[0].pos == 0 &&
            (forall i, j :: 0 <= i < j < |lines| ==> lines[i].pos < lines[j].pos) &&
            (forall i :: 0 <= i < |lines| ==> 0 <= lines[i].pos < |vals| && lines[i].val == vals[lines[i].pos]) &&
            (forall i, pos :: (0 <= i < |lines| && lines[i].pos <= pos < |vals| &&
                               (i + 1 < |lines| ==> pos < lines[i + 1].pos)) ==>
                                Close(lines[i].val, vals[pos], perc)) &&
            forall i :: 0 <= i < |lines| - 1 ==> !Close(lines[i].val, lines[i + 1].val, perc)
  {
    lines := PackCells(src, perc, miss);
    PackedSeen(src.Contents().cells, perc);
  }

  lemma PackedSeen(vals: seq<int>, perc: real)
    requires |vals| > 0
    ensures var lines := Packed(vals, perc);
            |lines| > 0 && lines[0].pos == 0 &&
            (forall i, j :: 0 <= i < j < |lines| ==> lines[i].pos < lines[j].pos) &&
            (forall i :: 0 <= i < |lines| ==> 0 <= lines[i].pos < |vals| && lines[i].val == vals[lines[i].pos]) &&
            (forall i, pos :: (0 <= i < |lines| && lines[i].pos <= pos < |vals| &&
                               (i + 1 < |lines| ==> pos < lines[i + 1].pos)) ==>
                                Close(lines[i].val, vals[pos], perc)) &&
            forall i :: 0 <= i < |lines| - 1 ==> !Close(lines[i].val, lines[i + 1].val, perc)
  {
    PackedInOrder(vals, perc);
    var lines := Packed(vals, perc);
    forall i | 0 <= i < |lines| ensures 0 <= lines[i].pos < |vals| && lines[i].val == vals[lines[i].pos] {
      LinesAreThere(vals, perc, i);
    }
    forall i | 0 <= i < |lines| - 1 ensures !Close(lines[i].val, lines[i + 1].val, perc) {
      LinesAreNeeded(vals, perc, i);
    }
    forall i, pos | 0 <= i < |lines| && lines[i].pos <= pos < |vals| && (i + 1 < |lines| ==> pos < lines[i + 1].pos)
      ensures Close(lines[i].val, vals[pos], perc)
    {
      LineCovers(vals, perc, i, pos);
    }
  }

  method PackCells(src: TBuf<int>, perc: real, miss: int) returns (lines: seq<Line>)
    requires src.Valid() && src.hrdGrd && !src.Empty()
    ensures lines == Packed(src.Contents().cells, perc)
  {
    ghost var s := src.Contents();
    var held, sent, vpos_end := miss, miss, 0;
    var ibeg, iend := src.beg, src.end;
    lines := [];
    ghost var n := 0;
    MulNext(s.first - 1, s.first, src.per);
    MulLe(s.first, s.Last(), src.per);
    while ibeg <= iend
      invariant 0 <= n <= |s.cells| && (ibeg <= iend <==> n < |s.cells|)
      invariant (s.first + n - 1) * src.per < ibeg <= (s.first + n) * src.per
      invariant Sending(s.cells, n, perc, held, vpos_end, lines, sent)
      decreases |s.cells| - n
    {
      var tval, k;
      tval, ibeg, k := ReadCell(src, ibeg, n);
      lines, sent := Advance(s.cells, tval, lines, vpos_end, k, held, sent, perc);
      held, vpos_end, ibeg, n := tval, k, ibeg + 1, n + 1;
      NextCell(s.first + k, s.Last(), src.per);
    }
    lines := Flush(s.cells, lines, vpos_end, held, sent, perc);
  }

  /** The value of a cell and its position from the begin of the buffer. */
  method ReadCell(src: TBuf<int>, tm: int, ghost n: nat) returns (v: int, otm: int, pos: int)
    requires src.Valid() && src.hrdGrd && !src.Empty() && n < |src.Contents().cells|
    requires (src.Contents().first + n - 1) * src.per < tm <= (src.Contents().first + n) * src.per
    ensures v == src.Contents().cells[n] && otm == (src.Contents().first + n) * src.per && pos == n
  {
    ghost var first := src.Contents().first;
    v, otm := Sample(src, tm, first + n);
    DistanceInCells(otm, first, src.per);
    AlignedCell(first + n, src.per);
    pos := TruncDiv(otm - src.beg, src.per);
  }

  lemma NextCell(k: int, last: int, per: int)
    requires per > 0 && k <= last
    ensures k * per < k * per + 1 <= (k + 1) * per && (k * per + 1 <= last * per <==> k + 1 <= last)
  {
    MulNext(k, k + 1, per);
    if k < last { MulLe(k + 1, last, per); }
  }

  // ----- the receiver -----

  /** The cells of a history after the values taken from the lines have been written over them from position `off`
      on, up to position `upto` of the lines: missing values leave their cells. */
  ghost predicate Received(miss: int, before: seq<int>, after: seq<int>, off: nat, lines: seq<Line>, upto: int) {
    |after| == |before| && 0 <= upto && off + upto <= |before| &&
    forall i :: 0 <= i < |before| ==>
      after[i] == if off <= i < off + upto && Taken(lines, i - off) != miss then Taken(lines, i - off) else before[i]
  }

  /** The value of the part of the lines before line `li` is what the whole takes up to that line's position. */
  lemma {:induction false} TakenBetween(lines: seq<Line>, li: nat, pos: int)
    requires li < |lines| && lines[li].pos <= pos && (li + 1 < |lines| ==> pos < lines[li + 1].pos)
    requires forall i, j :: 0 <= i < j < |lines| ==> lines[i].pos < lines[j].pos
    ensures Taken(lines, pos) == lines[li].val
    decreases |lines|
  {
    if li + 1 < |lines| { TakenBetween(lines[..|lines| - 1], li, pos); }
  }

  /** The value `val` is over the cells of the positions from `from` to the one before `till`. */
  ghost predicate Stretched(before: seq<int>, after: seq<int>, off: nat, val: int, from: int, till: int) {
    |after| == |before| &&
    forall i :: 0 <= i < |before| ==> after[i] == if off + from <= i < off + till then val else before[i]
  }

  /** The stretch of one line, up to the next line or to the end. */
  lemma ReceivedNext(miss: int, s0: seq<int>, s1: seq<int>, s2: seq<int>, off: nat, lines: seq<Line>, cnt: int, li: nat,
                     till: int)
    requires li < |lines| && InOrder(lines, cnt) && off + cnt <= |s0|
    requires till == if li + 1 < |lines| then lines[li + 1].pos else cnt
    requires Received(miss, s0, s1, off, lines, lines[li].pos)
    requires if lines[li].val == miss then s2 == s1 else Stretched(s1, s2, off, lines[li].val, lines[li].pos, till)
    ensures Received(miss, s0, s2, off, lines, till)
  {
    forall p | lines[li].pos <= p < till ensures Taken(lines, p) == lines[li].val { TakenBetween(lines, li, p); }
  }

  ghost predicate SomeReal(lines: seq<Line>, miss: int) {
    exists i :: 0 <= i < |lines| && lines[i].val != miss
  }

  lemma SomeRealNext(lines: seq<Line>, li: nat, miss: int)
    requires li < |lines|
    ensures SomeReal(lines[..li + 1], miss) <==> SomeReal(lines[..li], miss) || lines[li].val != miss
  {
    assert lines[..li + 1] == lines[..li] + [lines[li]];
    if lines[li].val != miss { assert lines[..li + 1][li].val != miss; }
  }

  /** The receiver goes through the lines: a value is put when the next line tells where it ends, the last one up to
      the end of the reply. Since it starts with a missing value, it always takes the reply for an incomplete one
      (`evalOk`), even if no value is missing. */
  method Unpack(lines: seq<Line>, bbeg: int, bend: int, bper: int, miss: int, dst: TBuf<int>, ghost off: nat)
    returns (evalOk: bool, noEvalOk: bool)
    requires dst.Valid() && dst.hrdGrd && !dst.Empty() && bper == dst.per
    requires InOrder(lines, TruncDiv(bend - bbeg, bper) + 1) &&
             off + TruncDiv(bend - bbeg, bper) < |dst.Contents().cells|
    requires bbeg == (dst.Contents().first + off) * bper
    modifies dst
    ensures dst.Valid() && dst.hrdGrd && !dst.Empty() && dst.per == old(dst.per) &&
            dst.Contents().first == old(dst.Contents().first)
    ensures Received(miss, old(dst.Contents().cells), dst.Contents().cells, off, lines, TruncDiv(bend - bbeg, bper) + 1)
    ensures evalOk && (noEvalOk <==> SomeReal(lines, miss))
  {
    ghost var s := dst.Contents();
    var last := TruncDiv(bend - bbeg, bper);
    var prevPos, prevVal, v_off := 0, miss, 0;
    evalOk, noEvalOk := false, false;
    while prevPos <= last
      invariant 0 <= v_off <= |lines| + 1
      invariant prevPos == if v_off == 0 then 0 else if v_off <= |lines| then lines[v_off - 1].pos else last + 1
      invariant prevVal == if v_off == 0 then miss else lines[if v_off <= |lines| then v_off - 1 else |lines| - 1].val
      invariant dst.Valid() && dst.hrdGrd && !dst.Empty() && dst.per == bper && dst.Contents().first == s.first
      invariant Received(miss, s.cells, dst.Contents().cells, off, lines, prevPos)
      invariant v_off > 0 ==> evalOk
      invariant noEvalOk <==> SomeReal(lines[..if v_off == 0 then 0 else v_off - 1], miss)
      decreases |lines| + 1 - v_off
    {
      var curPos := if v_off < |lines| then lines[v_off].pos else last + 1;
      if v_off > 0 { SomeRealNext(lines, v_off - 1, miss); }
      var isReal := PutLine(dst, prevVal, prevPos, curPos, bbeg, miss, lines, v_off, last + 1, off, s);
      if isReal { noEvalOk := true; } else { evalOk := true; }
      prevPos := curPos;
      if v_off < |lines| { prevVal := lines[v_off].val; }
      v_off := v_off + 1;
    }
  }

  /** The value of the line before goes to the positions up to the next line, if it is a real one. */
  method PutLine(dst: TBuf<int>, prevVal: int, prevPos: int, curPos: int, bbeg: int, miss: int, ghost lines: seq<Line>,
                 ghost v_off: nat, ghost cnt: int, ghost off: nat, ghost s: History<int>)
      returns (isReal: bool)
    requires dst.Valid() && dst.hrdGrd && !dst.Empty() && dst.Contents().first == s.first
    requires v_off <= |lines| && InOrder(lines, cnt) && off + cnt <= |s.cells| && bbeg == (s.first + off) * dst.per
    requires curPos == if v_off < |lines| then lines[v_off].pos else cnt
    requires if v_off == 0 then prevPos == 0 && prevVal == miss
             else prevPos == lines[v_off - 1].pos && prevVal == lines[v_off - 1].val
    requires Received(miss, s.cells, dst.Contents().cells, off, lines, prevPos)
    modifies dst
    ensures dst.Valid() && dst.hrdGrd && !dst.Empty() && dst.per == old(dst.per) && dst.Contents().first == s.first
    ensures Received(miss, s.cells, dst.Contents().cells, off, lines, curPos) && isReal == (prevVal != miss)
  {
    ghost var s1 := dst.Contents();
    isReal := prevVal != miss;
    if isReal { PutStretch(dst, prevVal, prevPos, curPos, bbeg, off); }
    if v_off > 0 { ReceivedNext(miss, s.cells, s1.cells, dst.Contents().cells, off, lines, cnt, v_off - 1, curPos); }
  }

  /** A value goes to the cells of a stretch of positions. */
  method PutStretch(dst: TBuf<int>, val: int, from: int, till: int, bbeg: int, ghost off: nat)
    requires dst.Valid() && dst.hrdGrd && !dst.Empty() && 0 <= from <= till && off + till <= |dst.Contents().cells|
    requires bbeg == (dst.Contents().first + off) * dst.per
    modifies dst
    ensures dst.Valid() && dst.hrdGrd && !dst.Empty() && dst.per == old(dst.per)
    ensures var s, r := old(dst.Contents()), dst.Contents();
            r.first == s.first && Stretched(s.cells, r.cells, off, val, from, till)
  {
    ghost var s := dst.Contents();
    var pos := from;
    while pos < till
      invariant from <= pos <= till && dst.Valid() && dst.hrdGrd && !dst.Empty() && dst.per == old(dst.per)
      invariant var r := dst.Contents(); r.first == s.first && Stretched(s.cells, r.cells, off, val, from, pos)
    {
      PutInside(dst, val, bbeg + pos * dst.per, off + pos);
      pos := pos + 1;
    }
  }

  /** A value for a cell inside the window. */
  method PutInside(dst: TBuf<int>, val: int, tm: int, ghost i: nat)
    requires dst.Valid() && dst.hrdGrd && !dst.Empty() && i < |dst.Contents().cells| &&
             tm == (dst.Contents().first + i) * dst.per
    modifies dst
    ensures dst.Valid() && dst.hrdGrd && !dst.Empty() && dst.per == old(dst.per)
    ensures dst.Contents() == History(old(dst.Contents()).first, old(dst.Contents()).cells[i := val])
  {
    ghost var s := dst.Contents();
    MulLe(1, s.first + i, dst.per);
    var ok := dst.Set(val, tm, 0);
    WriteInside(s, old(dst.cur), dst.size, dst.per, s.Fill(dst.fillLast, dst.eval), val, tm, i, ok, dst.Contents());
  }

  lemma WriteInside(s: History<int>, cur: int, size: int, per: int, fill: int, val: int, tm: int, i: nat, ok: bool,
                    r: History<int>)
    requires per > 0 && RingOk(|s.cells|, cur, size) && i < |s.cells| && tm == (s.first + i) * per
    requires HardWrite(s, cur, size, per, fill, val, tm, ok, r)
    ensures ok && r == History(s.first, s.cells[i := val])
  {
    AlignedCell(s.first + i, per);
    LimitedUpdate(s, cur, size, s.first + i, val, fill);
  }

  // ----- the round trip -----

  /** The cells are those before, except that the values that are not missing are written over them from `off` on,
      each as it is or as a value close to it. */
  ghost predicate Restored(miss: int, before: seq<int>, after: seq<int>, off: nat, vals: seq<int>, perc: real) {
    |after| == |before| && off + |vals| <= |before| &&
    (forall i :: 0 <= i < |before| && !(off <= i < off + |vals|) ==> after[i] == before[i]) &&
    forall i :: off <= i < off + |vals| ==>
                  RestoredCell(miss, before[i], after[i], vals[i - off], perc, Clear(vals, perc, miss))
  }

  /** Without a percentage a value comes over as it is; with one, as a close value, if none is taken for missing. */
  predicate RestoredCell(miss: int, before: int, after: int, val: int, perc: real, clear: bool) {
    if perc == 0.0 then after == if val == miss then before else val
    else if !clear then after == before || Close(after, val, perc)
    else if val == miss then after == before
    else Close(after, val, perc)
  }

  lemma ReceivedIsRestored(miss: int, before: seq<int>, after: seq<int>, off: nat, vals: seq<int>, perc: real)
    requires |vals| > 0 && Received(miss, before, after, off, Packed(vals, perc), |vals|)
    ensures Restored(miss, before, after, off, vals, perc)
  {
    forall i | off <= i < off + |vals|
      ensures RestoredCell(miss, before[i], after[i], vals[i - off], perc, Clear(vals, perc, miss))
    {
      NoDrift(vals, perc, i - off);
      CloseAtZero(Taken(Packed(vals, perc), i - off), vals[i - off]);
      if Clear(vals, perc, miss) { MissingIsKept(vals, perc, i - off, miss); }
    }
  }

  /** One station sends its window, and another that has the same period and the window inside its own takes it. */
  method Transfer(src: TBuf<int>, dst: TBuf<int>, perc: real, miss: int, ghost off: nat)
    requires src != dst && src.Valid() && src.hrdGrd && !src.Empty() && dst.Valid() && dst.hrdGrd && !dst.Empty()
    requires dst.per == src.per && src.Contents().first == dst.Contents().first + off &&
             src.Contents().Last() <= dst.Contents().Last()
    modifies dst
    ensures dst.Valid() && dst.per == old(dst.per) && dst.Contents().first == old(dst.Contents()).first
    ensures Restored(miss, old(dst.Contents().cells), dst.Contents().cells, off, src.Contents().cells, perc)
  {
    ghost var s, d := src.Contents(), dst.Contents();
    var lines := Pack(src, perc, miss);
    PackedInOrder(s.cells, perc);
    WindowInCells(s.first, s.Last(), src.per);
    var evalOk, noEvalOk := Unpack(lines, src.beg, src.end, src.per, miss, dst, off);
    ReceivedIsRestored(miss, d.cells, dst.Contents().cells, off, s.cells, perc);
  }

  lemma WindowInCells(first: int, last: int, per: int)
    requires per > 0 && first <= last
    ensures TruncDiv(last * per - first * per, per) == last - first
  {
    MulLe(first, last, per);
    DistanceInCells(last * per, first, per);
    AlignedCell(last, per);
  }
}
