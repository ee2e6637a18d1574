/** The compressed form of a history: an entry is stored only where the value changes, and a cell has the value
    of the newest entry at or before it. */
module RunLength {
  import opened Series

  /** A stored value with its time. */
  datatype Stamp<T> = Stamp(tm: int, val: T)

  ghost predicate Sorted<T>(log: seq<Stamp<T>>, per: int)
    requires per > 0
  {
    forall i, j :: 0 <= i < j < |log| ==> log[i].tm / per < log[j].tm / per
  }

  /** The value of cell `k`: that of the newest entry not after it. */
  function At<T>(log: seq<Stamp<T>>, per: int, k: int, eval: T): T
    requires per > 0
  {
    if |log| == 0 then eval
    else if log[|log| - 1].tm / per <= k then log[|log| - 1].val
    else At(log[..|log| - 1], per, k, eval)
  }

  /** The cells `first..last` of a compressed history. */
  function Expand<T>(log: seq<Stamp<T>>, per: int, first: int, last: int, eval: T): (h: History<T>)
    requires per > 0 && last >= first - 1
    ensures h.first == first && h.Last() == last
  {
    History(first, seq(last - first + 1, i => At(log, per, first + i, eval)))
  }

  predicate Differs<T(==)>(log: seq<Stamp<T>>, x: T) {
    |log| == 0 || log[|log| - 1].val != x
  }

  /** The entries after a new last cell: the first filler, if there are skipped cells, and the value are added
      where they differ from what precedes them. */
  function Appended<T(==)>(log: seq<Stamp<T>>, filler: Stamp<T>, e: Stamp<T>, skips: bool): seq<Stamp<T>> {
    var filled := if skips && Differs(log, filler.val) then log + [filler] else log;
    if Differs(filled, e.val) then filled + [e] else filled
  }

  /** The entries after a value is put `npos` cells past the last cell, with no limit on their number: for the
      last cell itself the newest entry is replaced, or a new one is added when the newest belongs to an older
      cell. */
  function Stored<T(==)>(log: seq<Stamp<T>>, per: int, last: int, npos: nat, tm: int, v: T, fill: T): seq<Stamp<T>>
    requires per > 0
  {
    var n := |log|;
    if npos == 0 && n > 0 then
      if TruncDiv(log[n - 1].tm - last * per, per) == 0 then log[n - 1 := Stamp(last * per, v)]
      else log + [Stamp(last * per, v)]
    else Appended(log, Stamp((last + 1) * per, fill), Stamp(tm, v), npos > 1)
  }

  // ----- facts about At -----

  lemma AtNewest<T>(log: seq<Stamp<T>>, per: int, k: int, eval: T, i: nat)
    requires per > 0 && i < |log| && log[i].tm / per <= k
    requires forall j :: i < j < |log| ==> log[j].tm / per > k
    ensures At(log, per, k, eval) == log[i].val
  {
    if i < |log| - 1 { AtNewest(log[..|log| - 1], per, k, eval, i); }
  }

  lemma AtAppend<T>(log: seq<Stamp<T>>, e: Stamp<T>, per: int, k: int, eval: T)
    requires per > 0
    ensures At(log + [e], per, k, eval) == if e.tm / per <= k then e.val else At(log, per, k, eval)
  {
    assert (log + [e])[..|log|] == log;
  }

  /** An entry is not needed for the cells from its successor on. */
  lemma {:induction false} AtDropOldest<T>(log: seq<Stamp<T>>, per: int, k: int, eval: T)
    requires per > 0 && |log| >= 2 && log[1].tm / per <= k
    ensures At(log[1..], per, k, eval) == At(log, per, k, eval)
  {
    var n := |log|;
    if log[n - 1].tm / per > k {
      AtDropOldest(log[..n - 1], per, k, eval);
      assert log[1..][..n - 2] == log[..n - 1][1..];
    }
  }

  lemma {:induction false} AtDrop<T>(log: seq<Stamp<T>>, d: nat, per: int, k: int, eval: T)
    requires per > 0 && d < |log| && Sorted(log, per) && log[d].tm / per <= k
    ensures At(log[d..], per, k, eval) == At(log, per, k, eval)
  {
    if d > 0 {
      assert log[d - 1].tm / per <= k;
      AtDrop(log, d - 1, per, k, eval);
      assert log[d..] == log[d - 1..][1..];
      AtDropOldest(log[d - 1..], per, k, eval);
    } else {
      assert log[0..] == log;
    }
  }

  /** Evicting the oldest entries forgets the cells before the oldest entry kept, and no other cell. */
  lemma ExpandDrop<T>(log: seq<Stamp<T>>, d: nat, per: int, first: int, last: int, eval: T)
    requires per > 0 && d < |log| && Sorted(log, per)
    requires first <= log[0].tm / per && log[|log| - 1].tm / per <= last
    ensures first <= log[d].tm / per <= last
    ensures Expand(log[d..], per, log[d].tm / per, last, eval)
            == Expand(log, per, first, last, eval).Drop(log[d].tm / per - first)
  {
    var f := log[d].tm / per;
    var a, b := Expand(log[d..], per, f, last, eval), Expand(log, per, first, last, eval).Drop(f - first);
    forall i | 0 <= i < |a.cells| ensures a.cells[i] == b.cells[i] {
      AtDrop(log, d, per, f + i, eval);
    }
    assert a.cells == b.cells;
  }

  lemma SortedAppend<T>(log: seq<Stamp<T>>, e: Stamp<T>, per: int)
    requires per > 0 && Sorted(log, per)
    requires |log| > 0 ==> log[|log| - 1].tm / per < e.tm / per
    ensures Sorted(log + [e], per)
  {
  }

  /** Appending one entry at the next cell appends one cell. */
  lemma ExpandAppend<T>(log: seq<Stamp<T>>, e: Stamp<T>, per: int, first: int, last: int, eval: T)
    requires per > 0 && last >= first - 1 && e.tm / per == last + 1
    ensures Expand(log + [e], per, first, last + 1, eval).cells
            == Expand(log, per, first, last, eval).cells + [e.val]
  {
    var a, b := Expand(log + [e], per, first, last + 1, eval).cells,
                Expand(log, per, first, last, eval).cells + [e.val];
    forall i | 0 <= i < |a| ensures a[i] == b[i] {
      AtAppend(log, e, per, first + i, eval);
    }
  }

  /** Cells after the newest entry repeat its value. */
  lemma ExpandRepeat<T>(log: seq<Stamp<T>>, per: int, first: int, last: int, m: nat, eval: T)
    requires per > 0 && last >= first - 1 && |log| > 0 && log[|log| - 1].tm / per <= last + 1
    ensures Expand(log, per, first, last + m, eval).cells
            == Expand(log, per, first, last, eval).cells + Rep(log[|log| - 1].val, m)
  {
    var v := log[|log| - 1].val;
    var a, b := Expand(log, per, first, last + m, eval).cells, Expand(log, per, first, last, eval).cells + Rep(v, m);
    assert |a| == last + m - first + 1 == |b|;
    forall i | 0 <= i < |a| ensures a[i] == b[i] {
      assert a[i] == At(log, per, first + i, eval);
      if first + i > last { assert At(log, per, first + i, eval) == v; }
    }
  }

  // ----- the compressed store refines the plain one -----

  /** The state in which the test of the newest entry against the last cell is wrong: a value whose time is not
      a multiple of the period is taken for a value of the next cell. */
  ghost predicate Merges<T>(log: seq<Stamp<T>>, per: int, last: int) {
    |log| > 0 && (last - 1) * per < log[|log| - 1].tm < last * per
  }

  /** The entries cover the cells from `first` on, and none lies after `last`. */
  ghost predicate Covers<T>(log: seq<Stamp<T>>, per: int, first: int, last: int)
    requires per > 0
  {
    Sorted(log, per) && last >= first - 1 &&
    if |log| == 0 then last == first - 1 else log[0].tm / per == first && log[|log| - 1].tm / per <= last
  }

  lemma ReplaceNewest<T>(log: seq<Stamp<T>>, per: int, first: int, last: int, v: T, eval: T)
    requires per > 0 && |log| > 0 && Covers(log, per, first, last) && log[|log| - 1].tm / per == last
    ensures var r := log[|log| - 1 := Stamp(last * per, v)];
            Covers(r, per, first, last) &&
            Expand(r, per, first, last, eval).cells == Expand(log, per, first, last, eval).cells[last - first := v]
  {
    var e := Stamp(last * per, v);
    AlignedCell(last, per);
    UpdatedInOrder(log, e, per, last);
    var r := log[|log| - 1 := e];
    var a, b := Expand(r, per, first, last, eval).cells, Expand(log, per, first, last, eval).cells[last - first := v];
    forall i | 0 <= i < last - first + 1 ensures a[i] == b[i] {
      AtReplaced(log, e, per, first + i, last, eval);
    }
    assert a == b;
  }

  lemma AtReplaced<T>(log: seq<Stamp<T>>, e: Stamp<T>, per: int, k: int, last: int, eval: T)
    requires per > 0 && |log| > 0 && log[|log| - 1].tm / per == last == e.tm / per && k <= last
    ensures At(log[|log| - 1 := e], per, k, eval) == if k == last then e.val else At(log, per, k, eval)
  {
    var n := |log| - 1;
    assert log[n := e] == log[..n] + [e];
    assert log == log[..n] + [log[n]];
    AtAppend(log[..n], e, per, k, eval);
    AtAppend(log[..n], log[n], per, k, eval);
  }

  lemma AddInLastCell<T>(log: seq<Stamp<T>>, per: int, first: int, last: int, v: T, eval: T)
    requires per > 0 && |log| > 0 && Covers(log, per, first, last) && log[|log| - 1].tm / per < last
    ensures var r := log + [Stamp(last * per, v)];
            Covers(r, per, first, last) &&
            Expand(r, per, first, last, eval).cells == Expand(log, per, first, last, eval).cells[last - first := v]
  {
    var r := log + [Stamp(last * per, v)];
    AlignedCell(last, per);
    var a, b := Expand(r, per, first, last, eval).cells, Expand(log, per, first, last, eval).cells[last - first := v];
    assert |a| == |b|;
    forall i | 0 <= i < |a| ensures a[i] == b[i] {
      AtAppend(log, Stamp(last * per, v), per, first + i, eval);
    }
  }

  /** After the filler step the cells up to the one before the value are filled. */
  lemma FillerRefines<T>(log: seq<Stamp<T>>, per: int, first: int, last: int, npos: nat, fill: T, eval: T,
                         filled: seq<Stamp<T>>)
    requires per > 0 && Covers(log, per, first, last) && npos > 0 && (|log| == 0 ==> npos == 1)
    requires filled == if npos > 1 && Differs(log, fill) then log + [Stamp((last + 1) * per, fill)] else log
    ensures Covers(filled, per, first, last + npos - 1)
    ensures Expand(filled, per, first, last + npos - 1, eval).cells ==
              Expand(log, per, first, last, eval).cells + Rep(fill, npos - 1)
  {
    if npos > 1 {
      if Differs(log, fill) {
        NewFiller(log, per, first, last, npos, fill, eval);
      } else {
        ExpandRepeat(log, per, first, last, npos - 1, eval);
      }
    } else {
      assert Rep(fill, npos - 1) == [];
    }
  }

  lemma NewFiller<T>(log: seq<Stamp<T>>, per: int, first: int, last: int, npos: nat, fill: T, eval: T)
    requires per > 0 && Covers(log, per, first, last) && npos > 1 && |log| > 0
    ensures var filled := log + [Stamp((last + 1) * per, fill)];
            Covers(filled, per, first, last + npos - 1) &&
            Expand(filled, per, first, last + npos - 1, eval).cells
            == Expand(log, per, first, last, eval).cells + Rep(fill, npos - 1)
  {
    var e := Stamp((last + 1) * per, fill);
    AlignedCell(last + 1, per);
    SortedAppend(log, e, per);
    ExpandAppend(log, e, per, first, last, eval);
    ExpandRepeat(log + [e], per, first, last + 1, npos - 2, eval);
    assert Rep(fill, npos - 1) == [fill] + Rep(fill, npos - 2);
  }

  /** After the value step the value is in the cell after the last one. */
  lemma ValueRefines<T>(log: seq<Stamp<T>>, per: int, first: int, last: int, k: int, tm: int, v: T, eval: T,
                        r: seq<Stamp<T>>)
    requires per > 0 && Covers(log, per, first, last) && tm / per == k == last + 1
    requires r == if Differs(log, v) then log + [Stamp(tm, v)] else log
    ensures Covers(r, per, first, k)
    ensures Expand(r, per, first, k, eval).cells == Expand(log, per, first, last, eval).cells + [v]
  {
    if Differs(log, v) {
      SortedAppend(log, Stamp(tm, v), per);
      ExpandAppend(log, Stamp(tm, v), per, first, last, eval);
    } else {
      ExpandRepeat(log, per, first, last, 1, eval);
      assert Rep(log[|log| - 1].val, 1) == [v];
    }
  }

  lemma UpdateRefines<T>(log: seq<Stamp<T>>, per: int, first: int, last: int, tm: int, v: T, fill: T, eval: T)
    requires per > 0 && |log| > 0 && Covers(log, per, first, last) && !Merges(log, per, last)
    ensures Covers(Stored(log, per, last, 0, tm, v, fill), per, first, last)
    ensures Expand(Stored(log, per, last, 0, tm, v, fill), per, first, last, eval).cells
            == Expand(log, per, first, last, eval).cells[last - first := v]
  {
    var t := log[|log| - 1].tm;
    var same := TruncDiv(t - last * per, per) == 0;
    assert same <==> t / per == last by { NewestInLastCell(t, per, last); }
    if t / per == last {
      ReplaceNewest(log, per, first, last, v, eval);
    } else {
      AddInLastCell(log, per, first, last, v, eval);
    }
  }

  lemma AppendRefines<T>(log: seq<Stamp<T>>, per: int, first: int, last: int, npos: nat, tm: int, v: T, fill: T,
                         eval: T)
    requires per > 0 && Covers(log, per, first, last) && npos > 0 && tm / per == last + npos
    requires |log| == 0 ==> npos == 1
    ensures Covers(Stored(log, per, last, npos, tm, v, fill), per, first, last + npos)
    ensures Expand(Stored(log, per, last, npos, tm, v, fill), per, first, last + npos, eval).cells
            == Expand(log, per, first, last, eval).cells + Rep(fill, npos - 1) + [v]
  {
    var filled := if npos > 1 && Differs(log, fill) then log + [Stamp((last + 1) * per, fill)] else log;
    var r := if Differs(filled, v) then filled + [Stamp(tm, v)] else filled;
    StepsRefine(log, per, first, last, npos, tm, v, fill, eval, filled, r);
    StoredInSteps(log, per, last, npos, tm, v, fill, filled);
  }

  /** The filler step and the value step, one after the other. */
  lemma StepsRefine<T>(log: seq<Stamp<T>>, per: int, first: int, last: int, npos: nat, tm: int, v: T, fill: T,
                       eval: T, filled: seq<Stamp<T>>, r: seq<Stamp<T>>)
    requires per > 0 && Covers(log, per, first, last) && npos > 0 && tm / per == last + npos &&
             (|log| == 0 ==> npos == 1)
    requires filled == if npos > 1 && Differs(log, fill) then log + [Stamp((last + 1) * per, fill)] else log
    requires r == if Differs(filled, v) then filled + [Stamp(tm, v)] else filled
    ensures Covers(r, per, first, last + npos)
    ensures Expand(r, per, first, last + npos, eval).cells ==
              Expand(log, per, first, last, eval).cells + Rep(fill, npos - 1) + [v]
  {
    FillerRefines(log, per, first, last, npos, fill, eval, filled);
    ValueRefines(filled, per, first, last + npos - 1, last + npos, tm, v, eval, r);
    Chained(Expand(log, per, first, last, eval).cells, Rep(fill, npos - 1),
            Expand(filled, per, first, last + npos - 1, eval).cells, v, Expand(r, per, first, last + npos, eval).cells);
  }

  lemma Chained<T>(a: seq<T>, b: seq<T>, ab: seq<T>, v: T, abv: seq<T>)
    requires ab == a + b && abv == ab + [v]
    ensures abv == a + b + [v]
  {
  }

  lemma StoredInSteps<T>(log: seq<Stamp<T>>, per: int, last: int, npos: nat, tm: int, v: T, fill: T,
                         filled: seq<Stamp<T>>)
    requires per > 0 && npos > 0
    requires filled == if npos > 1 && Differs(log, fill) then log + [Stamp((last + 1) * per, fill)] else log
    ensures Stored(log, per, last, npos, tm, v, fill) == if Differs(filled, v) then filled + [Stamp(tm, v)] else filled
  {
  }

  /** Compressed refines plain: the entries after a store stand for the history after the same store. */
  lemma StoredRefines<T>(log: seq<Stamp<T>>, per: int, first: int, last: int, npos: nat, tm: int, v: T, fill: T,
                         eval: T)
    requires per > 0 && Covers(log, per, first, last)
    requires |log| == 0 ==> npos == 1
    requires if npos == 0 then !Merges(log, per, last) else tm / per == last + npos
    ensures Covers(Stored(log, per, last, npos, tm, v, fill), per, first, last + npos)
    ensures Expand(Stored(log, per, last, npos, tm, v, fill), per, first, last + npos, eval)
            == Expand(log, per, first, last, eval).Store(last + npos, v, fill)
  {
    if npos == 0 {
      UpdateRefines(log, per, first, last, tm, v, fill, eval);
    } else {
      AppendRefines(log, per, first, last, npos, tm, v, fill, eval);
      assert |log| == 0 ==> Rep(fill, npos - 1) == [];
    }
  }

  /** Except for a value that lies inside the cell before the last one, the test of the newest entry tells
      whether it belongs to the last cell. */
  lemma NewestInLastCell(tm: int, per: int, last: int)
    requires per > 0 && tm / per <= last
    ensures TruncDiv(tm - last * per, per) == 0 <==> tm / per == last || (last - 1) * per < tm < last * per
  {
    FloorBounds(tm, per);
    CeilBounds(tm, per);
    DistanceInCells(tm, last, per);
    if tm / per < last {
      MulLe(tm / per + 1, last, per);
      if tm > (last - 1) * per { CeilIs(tm, per, last); }
      else { MulLt(CeilDiv(tm, per) - 1, last - 1, per); }
    } else {
      DivIs(tm, per, last);
    }
  }

  /** Also where cells may be merged, the entries stay in ascending cells. */
  lemma StoredInOrder<T>(log: seq<Stamp<T>>, per: int, first: int, last: int, npos: nat, tm: int, v: T, fill: T)
    requires per > 0 && Sorted(log, per) && (|log| == 0 ==> npos == 1 && first == last + 1)
    requires |log| > 0 ==> first <= log[0].tm / per && log[|log| - 1].tm / per <= last
    requires npos > 0 ==> tm / per == last + npos
    ensures var st := Stored(log, per, last, npos, tm, v, fill);
            st != [] && |log| <= |st| <= |log| + 2 && Sorted(st, per) &&
            first <= st[0].tm / per && st[|st| - 1].tm / per <= last + npos
  {
    AlignedCell(last, per);
    AlignedCell(last + 1, per);
    if npos == 0 {
      var t := log[|log| - 1].tm;
      if t / per == last { assert TruncDiv(t - last * per, per) == 0 by { NewestInLastCell(t, per, last); } }
      UpdatedInOrder(log, Stamp(last * per, v), per, last);
    } else {
      AppendedInOrder(log, Stamp((last + 1) * per, fill), Stamp(tm, v), npos > 1, per, last);
    }
  }

  lemma UpdatedInOrder<T>(log: seq<Stamp<T>>, e: Stamp<T>, per: int, last: int)
    requires per > 0 && |log| > 0 && Sorted(log, per) && log[|log| - 1].tm / per <= last == e.tm / per
    ensures Sorted(log[|log| - 1 := e], per)
    ensures log[|log| - 1].tm / per < last ==> Sorted(log + [e], per)
    ensures log[0].tm / per <= log[|log| - 1 := e][0].tm / per
  {
  }

  lemma AppendedInOrder<T>(log: seq<Stamp<T>>, filler: Stamp<T>, e: Stamp<T>, skips: bool, per: int, last: int)
    requires per > 0 && Sorted(log, per) && (|log| > 0 ==> log[|log| - 1].tm / per <= last)
    requires filler.tm / per == last + 1 && e.tm / per >= if skips then last + 2 else last + 1
    ensures var st := Appended(log, filler, e, skips);
            st != [] && |log| <= |st| <= |log| + 2 && Sorted(st, per) && st[|st| - 1].tm / per <= e.tm / per &&
            (|log| > 0 ==> st[0] == log[0]) && (|log| == 0 ==> st[0].tm / per >= last + 1)
  {
    var filled := if skips && Differs(log, filler.val) then log + [filler] else log;
    if skips && Differs(log, filler.val) { SortedAppend(log, filler, per); }
    if Differs(filled, e.val) { SortedAppend(filled, e, per); }
  }

  lemma SortedSuffix<T>(log: seq<Stamp<T>>, per: int, d: nat)
    requires per > 0 && Sorted(log, per) && d <= |log|
    ensures Sorted(log[d..], per)
  {
  }

  /** The number of stored entries that hold no value. */
  function Evals<T(==)>(log: seq<Stamp<T>>, eval: T): nat {
    if |log| == 0 then 0 else Evals(log[..|log| - 1], eval) + if log[|log| - 1].val == eval then 1 else 0
  }

  lemma EvalsAppend<T>(log: seq<Stamp<T>>, e: Stamp<T>, eval: T)
    ensures Evals(log + [e], eval) == Evals(log, eval) + if e.val == eval then 1 else 0
  {
    assert (log + [e])[..|log|] == log;
  }

  lemma {:induction false} EvalsSplit<T>(a: seq<Stamp<T>>, b: seq<Stamp<T>>, eval: T)
    ensures Evals(a + b, eval) == Evals(a, eval) + Evals(b, eval)
  {
    if b == [] {
      assert a + b == a;
    } else {
      EvalsSplit(a, b[..|b| - 1], eval);
      assert (a + b)[..|a + b| - 1] == a + b[..|b| - 1];
    }
  }

  lemma EvalsShift<T>(log: seq<Stamp<T>>, e: Stamp<T>, eval: T)
    requires |log| > 0
    ensures Evals(log[1..] + [e], eval)
            == Evals(log, eval) - (if log[0].val == eval then 1 else 0) + if e.val == eval then 1 else 0
  {
    assert log == [log[0]] + log[1..];
    EvalsSplit([log[0]], log[1..], eval);
    EvalsAppend([], log[0], eval);
    assert [] + [log[0]] == [log[0]];
    EvalsAppend(log[1..], e, eval);
  }

  lemma EvalsInsert<T>(log: seq<Stamp<T>>, c: nat, e: Stamp<T>, eval: T)
    requires c <= |log|
    ensures Evals(log[..c] + [e] + log[c..], eval) == Evals(log, eval) + if e.val == eval then 1 else 0
  {
    assert log == log[..c] + log[c..];
    EvalsSplit(log[..c], log[c..], eval);
    EvalsSplit(log[..c] + [e], log[c..], eval);
    EvalsAppend(log[..c], e, eval);
  }

  lemma EvalsReplace<T>(log: seq<Stamp<T>>, c: nat, e: Stamp<T>, eval: T)
    requires c < |log|
    ensures Evals(log[c := e], eval)
            == Evals(log, eval) + (if e.val == eval then 1 else 0) - if log[c].val == eval then 1 else 0
  {
    var rest := log[..c] + log[c + 1..];
    EvalsInsert(rest, c, e, eval);
    EvalsInsert(rest, c, log[c], eval);
    assert log == rest[..c] + [log[c]] + rest[c..];
    assert log[c := e] == rest[..c] + [e] + rest[c..];
  }

  lemma {:induction false} EvalsErase<T>(log: seq<Stamp<T>>, eval: T)
    requires |log| > 0
    ensures Evals(log[1..], eval) == Evals(log, eval) - if log[0].val == eval then 1 else 0
  {
    var n := |log| - 1;
    if n > 0 {
      EvalsErase(log[..n], eval);
      assert log[1..][..n - 1] == log[..n][1..];
    } else {
      assert log[..0] == log[1..] == [];
    }
  }
}
