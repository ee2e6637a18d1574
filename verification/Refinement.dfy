/** The compressed buffer refines the plain one: fed the same values both hold the same history, and no read tells
    them apart. */
module Refinement {
  import opened Series
  import opened Ring
  import RunLength
  import opened BufSpec
  import opened ValBuf

  datatype Write<T> = Write(tm: int, val: T)

  /** Writes of a clocked source: their times are multiples of the period, from the first period on, and never
      go back. */
  ghost predicate Timely<T>(ops: seq<Write<T>>, per: int)
    requires per > 0
  {
    (forall i :: 0 <= i < |ops| ==> ops[i].tm == ops[i].tm / per * per && ops[i].tm >= per) &&
    (forall i, j :: 0 <= i < j < |ops| ==> ops[i].tm <= ops[j].tm)
  }

  /** The full history of the writes, with nothing forgotten. */
  ghost function Recorded<T>(ops: seq<Write<T>>, per: int, fillLast: bool, eval: T): (h: History<T>)
    requires per > 0
    ensures |ops| > 0 ==> |h.cells| > 0
    decreases |ops|
  {
    if |ops| == 0 then History(0, [])
    else
      var h := Recorded(ops[..|ops| - 1], per, fillLast, eval);
      var op := ops[|ops| - 1];
      var k := op.tm / per;
      if |h.cells| > 0 && k < h.first then h else h.Store(k, op.val, h.Fill(fillLast, eval))
  }

  lemma {:induction false} RecordedEnds<T>(ops: seq<Write<T>>, per: int, fillLast: bool, eval: T)
    requires per > 0 && Timely(ops, per) && |ops| > 0
    ensures Recorded(ops, per, fillLast, eval).Last() == ops[|ops| - 1].tm / per
    ensures Recorded(ops, per, fillLast, eval).first == ops[0].tm / per
  {
    var pre := ops[..|ops| - 1];
    if |pre| > 0 {
      assert Timely(pre, per);
      RecordedEnds(pre, per, fillLast, eval);
      DivMono(pre[|pre| - 1].tm, ops[|ops| - 1].tm, per);
      DivMono(ops[0].tm, ops[|ops| - 1].tm, per);
      assert pre[0] == ops[0];
    }
  }

  /** The full history in terms of the writes: a cell has the value of the last write that is not after it, if that
      one is for this cell or the buffer is to fill with the last value, and else no value. */
  lemma {:induction false} RecordedCell<T>(ops: seq<Write<T>>, per: int, fillLast: bool, eval: T, j: int, i: nat)
    requires per > 0 && Timely(ops, per) && i < |ops|
    requires ops[i].tm <= j * per && (forall l :: i < l < |ops| ==> ops[l].tm > j * per)
    requires j * per <= ops[|ops| - 1].tm
    ensures Recorded(ops, per, fillLast, eval).Has(j)
    ensures Recorded(ops, per, fillLast, eval).Cell(j) ==
            if fillLast || ops[i].tm == j * per then ops[i].val else eval
  {
    var n := |ops| - 1;
    var k := ops[n].tm / per;
    MulLtOrEq(j, k, per);
    if n == 0 {
      MulLtOrEq(k, j, per);
    } else {
      RecordedBefore(ops, per, fillLast, eval);
      DivMono(ops[0].tm, ops[i].tm, per);
      MulLtOrEq(ops[i].tm / per, j, per);
      RecordedOn(ops, per, fillLast, eval, j);
      if j < k {
        MulLt(j, k, per);
        MulLe(j + 1, k, per);
        assert i < n;
        if j <= ops[n - 1].tm / per {
          MulLe(j, ops[n - 1].tm / per, per);
          RecordedCell(ops[..n], per, fillLast, eval, j, i);
        } else {
          LastBefore(ops, per, j, i);
        }
      }
    }
  }

  /** Between the last two writes there is none. */
  lemma LastBefore<T>(ops: seq<Write<T>>, per: int, j: int, i: nat)
    requires per > 0 && Timely(ops, per) && i < |ops| - 1 && ops[|ops| - 2].tm / per < j
    requires forall l :: i < l < |ops| ==> ops[l].tm > j * per
    ensures i == |ops| - 2 && ops[i].tm != j * per
  {
    var n := |ops| - 1;
    MulLe(ops[n - 1].tm / per + 1, j, per);
    MulNext(ops[n - 1].tm / per, ops[n - 1].tm / per + 1, per);
    assert ops[n - 1].tm <= j * per;
  }

  lemma RecordedBefore<T>(ops: seq<Write<T>>, per: int, fillLast: bool, eval: T)
    requires per > 0 && Timely(ops, per) && |ops| > 1
    ensures var pre, n := ops[..|ops| - 1], |ops| - 1;
            var h := Recorded(pre, per, fillLast, eval);
            Timely(pre, per) && |h.cells| > 0 && h.first == ops[0].tm / per && h.Last() == ops[n - 1].tm / per &&
            h.cells[|h.cells| - 1] == ops[n - 1].val && h.first <= h.Last() <= ops[n].tm / per
  {
    var pre, n := ops[..|ops| - 1], |ops| - 1;
    assert Timely(pre, per);
    RecordedEnds(pre, per, fillLast, eval);
    RecordedNewest(pre, per, fillLast, eval);
    DivMono(ops[n - 1].tm, ops[n].tm, per);
  }

  /** One write more, cell by cell. */
  lemma RecordedOn<T>(ops: seq<Write<T>>, per: int, fillLast: bool, eval: T, j: int)
    requires per > 0 && Timely(ops, per) && |ops| > 1 && ops[0].tm / per <= j <= ops[|ops| - 1].tm / per
    ensures var n := |ops| - 1;
            var h, r := Recorded(ops[..n], per, fillLast, eval), Recorded(ops, per, fillLast, eval);
            r.Has(j) &&
            if j == ops[n].tm / per then r.Cell(j) == ops[n].val
            else if j <= ops[n - 1].tm / per then h.Has(j) && r.Cell(j) == h.Cell(j)
            else r.Cell(j) == if fillLast then ops[n - 1].val else eval
  {
    RecordedBefore(ops, per, fillLast, eval);
    var n := |ops| - 1;
    var h := Recorded(ops[..n], per, fillLast, eval);
    StoreIsPointwise(h, ops[n].tm / per, ops[n].val, h.Fill(fillLast, eval), j);
  }

  /** The last cell has the value of the last write. */
  lemma RecordedNewest<T>(ops: seq<Write<T>>, per: int, fillLast: bool, eval: T)
    requires per > 0 && Timely(ops, per) && |ops| > 0
    ensures var h := Recorded(ops, per, fillLast, eval); h.cells[|h.cells| - 1] == ops[|ops| - 1].val
  {
    var pre := ops[..|ops| - 1];
    assert Timely(pre, per);
    if |pre| > 0 {
      RecordedEnds(pre, per, fillLast, eval);
      DivMono(pre[|pre| - 1].tm, ops[|ops| - 1].tm, per);
      DivMono(ops[0].tm, ops[|ops| - 1].tm, per);
    }
  }

  /** One timely write to a buffer that holds the history but for its oldest cells. */
  lemma StepDrop<T>(h: History<T>, d: nat, tm: int, per: int, v: T, fillLast: bool, eval: T)
    requires per > 0 && d <= |h.cells| && (|h.cells| > 0 ==> d < |h.cells|)
    requires tm == tm / per * per && (|h.cells| > 0 ==> h.Last() <= tm / per)
    ensures var s, k := h.Drop(d), tm / per;
            s.Target(tm, per) == k && !s.TooOld(tm, per) && s.Fill(fillLast, eval) == h.Fill(fillLast, eval) &&
            (|h.cells| > 0 ==> s.Store(k, v, s.Fill(fillLast, eval)) == h.Store(k, v, h.Fill(fillLast, eval)).Drop(d))
  {
    var s := h.Drop(d);
    if |h.cells| > 0 {
      MulLe(h.Last(), tm / per, per);
      StoreDrop(h, d, tm / per, v, h.Fill(fillLast, eval));
    }
  }

  lemma DropDrop<T>(h: History<T>, d: nat, e: nat)
    requires d + e <= |h.cells|
    ensures h.Drop(d).Drop(e) == h.Drop(d + e)
  {
    assert h.cells[d..][e..] == h.cells[d + e..];
  }

  /** How many cells a history of `n` cells is beyond a size limit. */
  function Excess(n: nat, size: nat): nat {
    if size != 0 && n > size then n - size else 0
  }

  /** What a hard grid of a size limit holds of a history. */
  ghost function Window<T>(h: History<T>, size: nat): History<T> {
    h.Drop(Excess(|h.cells|, size))
  }

  /** One timely write takes the window of a history to the window of the history after it. */
  lemma HardStep<T>(h: History<T>, s: History<T>, cur: int, size: nat, per: int, tm: int, v: T, fillLast: bool, eval: T,
                    ok: bool, r: History<T>)
    requires per > 0 && tm == tm / per * per && (|h.cells| > 0 ==> h.Last() <= tm / per)
    requires if |h.cells| == 0 then |s.cells| == 0 else s == Window(h, size)
    requires RingOk(|s.cells|, cur, size) && (cur == |s.cells| || |s.cells| == size)
    requires HardWrite(s, cur, size, per, s.Fill(fillLast, eval), v, tm, ok, r)
    ensures ok && r == Window(h.Store(tm / per, v, h.Fill(fillLast, eval)), size)
  {
    if |h.cells| > 0 {
      StepDrop(h, Excess(|h.cells|, size), tm, per, v, fillLast, eval);
      WindowStep(h, h.Store(tm / per, v, h.Fill(fillLast, eval)), cur, size, Excess(|h.cells|, size));
    }
  }

  /** What a ring that holds a window drops of a longer history leaves the window of that one. */
  lemma WindowStep<T>(h: History<T>, h': History<T>, cur: int, size: nat, d: nat)
    requires d == Excess(|h.cells|, size) && |h.cells| <= |h'.cells| && RingOk(|h.cells| - d, cur, size)
    requires cur == |h.cells| - d || |h.cells| - d == size
    ensures var e := Dropped(|h.cells| - d, cur, size, |h'.cells| - |h.cells|);
            d + e <= |h'.cells| && h'.Drop(d).Drop(e) == Window(h', size)
  {
    var e := Dropped(|h.cells| - d, cur, size, |h'.cells| - |h.cells|);
    DroppedKeepsSize(|h.cells| - d, cur, size, |h'.cells| - |h.cells|);
    DropDrop(h', d, e);
  }

  lemma RecordedStep<T>(ops: seq<Write<T>>, i: nat, per: int, fillLast: bool, eval: T)
    requires per > 0 && i < |ops| && Timely(ops, per)
    ensures var h := Recorded(ops[..i], per, fillLast, eval);
            var op := ops[i];
            op.tm == op.tm / per * per && op.tm >= per && (i > 0 ==> |h.cells| > 0 && h.Last() <= op.tm / per) &&
            Recorded(ops[..i + 1], per, fillLast, eval) == h.Store(op.tm / per, op.val, h.Fill(fillLast, eval))
  {
    var pre := ops[..i];
    assert ops[..i + 1][..i] == pre;
    assert Timely(pre, per);
    if i > 0 {
      RecordedEnds(pre, per, fillLast, eval);
      DivMono(ops[i - 1].tm, ops[i].tm, per);
    }
  }

  /** A hard grid fed with timely writes keeps the newest cells of the full history, as many as its size allows. */
  method FeedHard<T(==)>(b: TBuf<T>, ops: seq<Write<T>>)
    requires b.Valid() && b.Empty() && b.hrdGrd && Timely(ops, b.per)
    modifies b
    ensures b.Valid() && b.hrdGrd && b.per == old(b.per) && b.size == old(b.size) && b.fillLast == old(b.fillLast)
    ensures b.Empty() <==> |ops| == 0
    ensures |ops| > 0 ==> b.Contents() == Window(Recorded(ops, b.per, b.fillLast, b.eval), b.size)
  {
    for i := 0 to |ops|
      invariant b.Valid() && b.hrdGrd && b.Tight()
      invariant b.per == old(b.per) && b.size == old(b.size) && b.fillLast == old(b.fillLast)
      invariant b.Empty() <==> i == 0
      invariant i > 0 ==> b.Contents() == Window(Recorded(ops[..i], b.per, b.fillLast, b.eval), b.size)
    {
      ghost var h := Recorded(ops[..i], b.per, b.fillLast, b.eval);
      assert i == 0 ==> h == History(0, []);
      RecordedStep(ops, i, b.per, b.fillLast, b.eval);
      WriteHard(b, ops[i].val, ops[i].tm, h);
    }
    assert ops[..|ops|] == ops;
  }

  method WriteHard<T(==)>(b: TBuf<T>, v: T, tm: int, ghost h: History<T>)
    requires b.Valid() && b.hrdGrd && b.Tight() && tm == tm / b.per * b.per && tm >= b.per
    requires |h.cells| > 0 ==> h.Last() <= tm / b.per
    requires if |h.cells| == 0 then b.Empty() else !b.Empty() && b.Contents() == Window(h, b.size)
    modifies b
    ensures b.Valid() && b.hrdGrd && b.Tight() && !b.Empty()
    ensures b.per == old(b.per) && b.size == old(b.size) && b.fillLast == old(b.fillLast)
    ensures b.Contents() == Window(h.Store(tm / b.per, v, h.Fill(b.fillLast, b.eval)), b.size)
  {
    ghost var s, cur := b.Contents(), b.cur;
    var ok := b.Set(v, tm, 0);
    HardStep(h, s, cur, b.size, b.per, tm, v, b.fillLast, b.eval, ok, b.Contents());
  }

  // ----- the soft grid -----

  /** What a soft grid holds of a history: the cells from its own first cell on, all of them if it has no limit. */
  ghost predicate Suffix<T>(h: History<T>, size: int, r: History<T>) {
    h.first <= r.first <= h.Last() && (size == 0 ==> r.first == h.first) && r == h.Drop(r.first - h.first)
  }

  lemma SoftStep<T>(h: History<T>, s: History<T>, size: int, per: int, tm: int, v: T, fillLast: bool, eval: T,
                    ok: bool, r: History<T>, steady': bool)
    requires per > 0 && tm == tm / per * per && (|h.cells| > 0 ==> h.Last() <= tm / per)
    requires if |h.cells| == 0 then |s.cells| == 0 else Suffix(h, size, s)
    requires SoftWrite(s, size, per, s.Fill(fillLast, eval), v, tm, ok, r, true, steady', false)
    ensures ok && steady' && Suffix(h.Store(tm / per, v, h.Fill(fillLast, eval)), size, r)
  {
    var k := tm / per;
    if |h.cells| > 0 {
      var h' := h.Store(k, v, h.Fill(fillLast, eval));
      StepDrop(h, s.first - h.first, tm, per, v, fillLast, eval);
      DropDrop(h', s.first - h.first, r.first - s.first);
    }
  }

  /** A soft grid without a limit, or with room for two changes or more, fed with timely writes holds the full
      history from its begin on. */
  method FeedSoft<T(==)>(b: TBuf<T>, ops: seq<Write<T>>)
    requires b.Valid() && b.Empty() && !b.hrdGrd && b.per > 0 && b.size != 1 && Timely(ops, b.per)
    modifies b
    ensures b.Valid() && !b.hrdGrd && b.per == old(b.per) && b.size == old(b.size) && b.fillLast == old(b.fillLast)
    ensures b.Steady() && b.AllAligned() && (b.Empty() <==> |ops| == 0)
    ensures |ops| > 0 ==> Suffix(Recorded(ops, b.per, b.fillLast, b.eval), b.size, b.Contents())
  {
    for i := 0 to |ops|
      invariant b.Valid() && !b.hrdGrd && b.per > 0 && b.Steady() && b.AllAligned()
      invariant b.per == old(b.per) && b.size == old(b.size) && b.fillLast == old(b.fillLast)
      invariant b.Empty() <==> i == 0
      invariant i > 0 ==> Suffix(Recorded(ops[..i], b.per, b.fillLast, b.eval), b.size, b.Contents())
    {
      ghost var h := Recorded(ops[..i], b.per, b.fillLast, b.eval);
      assert i == 0 ==> h == History(0, []);
      RecordedStep(ops, i, b.per, b.fillLast, b.eval);
      WriteSoft(b, ops[i].val, ops[i].tm, h);
    }
    assert ops[..|ops|] == ops;
  }

  method WriteSoft<T(==)>(b: TBuf<T>, v: T, tm: int, ghost h: History<T>)
    requires b.Valid() && !b.hrdGrd && b.per > 0 && b.Steady() && b.AllAligned()
    requires tm == tm / b.per * b.per && tm >= b.per
    requires |h.cells| > 0 ==> h.Last() <= tm / b.per
    requires if |h.cells| == 0 then b.Empty() else !b.Empty() && Suffix(h, b.size, b.Contents())
    modifies b
    ensures b.Valid() && !b.hrdGrd && !b.Empty()
    ensures b.per == old(b.per) && b.size == old(b.size) && b.fillLast == old(b.fillLast)
    ensures b.Steady() && b.AllAligned()
    ensures Suffix(h.Store(tm / b.per, v, h.Fill(b.fillLast, b.eval)), b.size, b.Contents())
  {
    ghost var s := b.Contents();
    AlignedNotMerged(Log(b.stamps, b.cur), b.per, b.last);
    var ok := b.Set(v, tm, 0);
    SoftStep(h, s, b.size, b.per, tm, v, b.fillLast, b.eval, ok, b.Contents(), b.Steady());
  }

  /** Compressed refines plain: after the same timely writes, with no limit on either side, a read of the soft grid
      gives the value and the time that the same read of the hard grid gives. */
  method SameAnswers<T(==)>(hard: TBuf<T>, soft: TBuf<T>, ops: seq<Write<T>>, tm: int, up: bool)
      returns (v1: T, t1: int, v2: T, t2: int)
    requires hard.Valid() && hard.Empty() && hard.hrdGrd && hard.size == 0
    requires soft.Valid() && soft.Empty() && !soft.hrdGrd && soft.size == 0
    requires hard != soft && hard.per == soft.per && hard.fillLast == soft.fillLast && hard.eval == soft.eval
    requires Timely(ops, hard.per) && |ops| > 0
    modifies hard, soft
    ensures v1 == v2 && t1 == t2
  {
    FeedHard(hard, ops);
    FeedSoft(soft, ops);
    v1, t1 := hard.Get(tm, up);
    v2, t2 := soft.Get(tm, up);
    soft.InsideHistory();
    assert hard.Contents() == soft.Contents();
    SameReply(hard.Contents(), Log(soft.stamps, soft.cur), hard.per, soft.first, soft.last, hard.eval, tm, up, v1, t1,
              v2, t2);
  }

  /** With room for two changes or more, a read at or after the begin of the soft grid answers from the full history. */
  method KeptAnswers<T(==)>(soft: TBuf<T>, ops: seq<Write<T>>, tm: int, up: bool) returns (v: T, t: int)
    requires soft.Valid() && soft.Empty() && !soft.hrdGrd && soft.per > 0 && soft.size != 1
    requires Timely(ops, soft.per) && |ops| > 0
    modifies soft
    ensures soft.per == old(soft.per) && soft.fillLast == old(soft.fillLast)
    ensures soft.beg <= tm ==>
              Answers(Recorded(ops, soft.per, soft.fillLast, soft.eval), soft.per, soft.eval, tm, up, v, t)
  {
    FeedSoft(soft, ops);
    v, t := soft.Get(tm, up);
    ghost var h, s := Recorded(ops, soft.per, soft.fillLast, soft.eval), soft.Contents();
    soft.InsideHistory();
    FromHistory(s, Log(soft.stamps, soft.cur), soft.per, soft.first, soft.last, soft.eval, tm, up, v, t);
    if soft.beg <= tm { DropReads(h, s.first - h.first, soft.per, soft.eval, tm, up, v, t); }
  }

  lemma FromHistory<T>(s: History<T>, log: seq<RunLength.Stamp<T>>, per: int, first: int, last: int, eval: T, tm: int,
                       up: bool, v: T, t: int)
    requires per > 0 && last >= first && RunLength.Covers(log, per, first, last) && Aligned(log, per)
    requires s == RunLength.Expand(log, per, first, last, eval) &&
             (v, t) == SoftReading(log, per, first, last, eval, tm, up)
    ensures Answers(s, per, eval, tm, up, v, t)
  {
    SoftAnswers(log, per, first, last, eval, tm, up);
  }

  lemma SameReply<T>(s: History<T>, log: seq<RunLength.Stamp<T>>, per: int, first: int, last: int, eval: T, tm: int,
                     up: bool, v1: T, t1: int, v2: T, t2: int)
    requires per > 0 && last >= first && RunLength.Covers(log, per, first, last) && Aligned(log, per)
    requires s == RunLength.Expand(log, per, first, last, eval)
    requires Answers(s, per, eval, tm, up, v1, t1) && (v2, t2) == SoftReading(log, per, first, last, eval, tm, up)
    ensures v1 == v2 && t1 == t2
  {
    FromHistory(s, log, per, first, last, eval, tm, up, v2, t2);
    AnswerIsUnique(s, per, eval, tm, up, v1, t1, v2, t2);
  }

  /** Inside what a buffer has kept, a read answers as from the full history. */
  lemma DropReads<T>(h: History<T>, d: nat, per: int, eval: T, tm: int, up: bool, v: T, t: int)
    requires per > 0 && d < |h.cells| && (h.first + d) * per <= tm
    requires Answers(h.Drop(d), per, eval, tm, up, v, t)
    ensures Answers(h, per, eval, tm, up, v, t)
  {
    var s := h.Drop(d);
    MulLe(h.first, h.first + d, per);
    if !(up && tm > h.Last() * per) {
      var k :| IsNearest(s, per, tm, up, k) && v == s.Cell(k) && t == k * per;
      forall j | h.Has(j) && (if up then j * per >= tm else j * per <= tm) ensures if up then k <= j else j <= k {
        if up && j < s.first { MulLe(j + 1, s.first, per); MulNext(j, j + 1, per); }
        assert s.first <= j ==> s.Has(j);
      }
      assert IsNearest(h, per, tm, up, k) && v == h.Cell(k);
    }
  }
}
