/** Where the compressed buffer departs from the plain one, and exactly when. */
module Limits {
  import opened Series
  import opened Ring
  import opened RunLength
  import opened BufSpec
  import opened ValBuf

  /** A value for the last cell is taken for one of the cell before it if the newest entry lies inside that cell. The
      history is still right exactly if the run before that entry has the same value. */
  lemma MergeIsRightIff<T>(log: seq<Stamp<T>>, per: int, first: int, last: int, tm: int, v: T, fill: T, eval: T)
    requires per > 0 && |log| > 0 && Covers(log, per, first, last) && Merges(log, per, last)
    ensures Expand(Stored(log, per, last, 0, tm, v, fill), per, first, last, eval)
            == Expand(log, per, first, last, eval).Store(last, v, fill)
            <==> log[|log| - 1].val == At(log[..|log| - 1], per, last - 1, eval)
  {
    var n := |log|;
    var t, e := log[n - 1].tm, Stamp(last * per, v);
    var r := log[n - 1 := e];
    CellInside(t, per, last);
    assert Stored(log, per, last, 0, tm, v, fill) == r by { NewestInLastCell(t, per, last); }
    assert e.tm / per == last by { AlignedCell(last, per); }
    assert r == log[..n - 1] + [e];
    assert log == log[..n - 1] + [log[n - 1]];
    var a := Expand(r, per, first, last, eval).cells;
    var b := Expand(log, per, first, last, eval).Store(last, v, fill).cells;
    assert n > 1 ==> log[0].tm / per < log[n - 1].tm / per;
    assert first <= last - 1;
    forall i | 0 <= i < last - first + 1
      ensures i != last - 1 - first ==> a[i] == b[i]
      ensures i == last - 1 - first ==> a[i] == At(log[..n - 1], per, last - 1, eval) && b[i] == log[n - 1].val
    {
      AtAppend(log[..n - 1], e, per, first + i, eval);
      AtAppend(log[..n - 1], log[n - 1], per, first + i, eval);
    }
    if log[n - 1].val == At(log[..n - 1], per, last - 1, eval) {
      assert a == b;
    } else {
      assert a[last - 1 - first] != b[last - 1 - first];
    }
  }

  lemma CellInside(t: int, per: int, last: int)
    requires per > 0 && (last - 1) * per < t < last * per
    ensures t / per == last - 1
  {
    DivIs(t, per, last - 1);
  }

  /** An instance: with the period 10 and the values 1 at 10 and 2 at 25 carried on to cell 3, the value 7 for cell 3
      takes the value of cell 2 away. */
  lemma MergeExample()
    ensures var log := [Stamp(10, 1), Stamp(25, 2)];
            Covers(log, 10, 1, 3) && At(log, 10, 2, 0) == 2 && At(Stored(log, 10, 3, 0, 30, 7, 0), 10, 2, 0) == 1
  {
    var log := [Stamp(10, 1), Stamp(25, 2)];
    assert log[..1] == [Stamp(10, 1)];
    assert Stored(log, 10, 3, 0, 30, 7, 0) == [Stamp(10, 1), Stamp(30, 7)];
    assert [Stamp(10, 1), Stamp(30, 7)][..1] == [Stamp(10, 1)];
  }

  /** A write adds an entry after the only one: in the last cell, if that one is of a cell before it, and in a later
      cell, if the value or the filler differs from it. */
  predicate AddsTo<T(==)>(e: Stamp<T>, per: int, last: int, npos: nat, v: T, fill: T)
    requires per > 0
  {
    if npos == 0 then e.tm / per < last else v != e.val || (npos > 1 && fill != e.val)
  }

  lemma AddsToOne<T>(c: Changes<T>, size: int, per: int, eval: T, last: int, npos: nat, tm: int, v: T, fill: T)
    requires per > 0 && c.Ok(size) && c.gone == 0 && c.Single() && c.full[0].tm / per <= last
    requires npos == 0 ==> !Merges(c.full, per, last)
    ensures |AfterWrite(c, size, per, eval, last, npos, tm, v, fill).full| > 1 <==>
            AddsTo(c.full[0], per, last, npos, v, fill)
  {
    AfterWriteKept(c, size, per, eval, last, npos, tm, v, fill);
    if npos == 0 { NewestInLastCell(c.full[0].tm, per, last); }
  }

  /** A write keeps the entries covering exactly if it does not push out the only entry: the begin is taken from the
      entry after the oldest one, which must not be the one overwritten. */
  lemma CoverIsKeptIff<T>(c: Changes<T>, size: int, per: int, eval: T, last: int, npos: nat, tm: int, v: T, fill: T)
    requires per > 0 && c.Ok(size) && c.gone == 0 && Covers(c.full, per, c.first, last)
    requires if npos == 0 then |c.full| > 0 && !Merges(c.full, per, last) else tm / per == last + npos
    requires |c.full| == 0 ==> npos == 1
    ensures var r := AfterWrite(c, size, per, eval, last, npos, tm, v, fill);
            0 <= r.gone <= |r.full| &&
            (Covers(r.full[r.gone..], per, r.first, last + npos) <==>
               !(c.Single() && AddsTo(c.full[0], per, last, npos, v, fill)))
  {
    var r := AfterWrite(c, size, per, eval, last, npos, tm, v, fill);
    AfterWriteKept(c, size, per, eval, last, npos, tm, v, fill);
    if !c.Single() {
      KeptRefines(c, r, size, per, last, npos, tm, v, fill, eval);
    } else {
      AddsToOne(c, size, per, eval, last, npos, tm, v, fill);
      SingleIsPushedOut(c, r, size, per, last, npos, tm, v, fill, eval);
    }
  }

  /** The begin stays behind the only entry when another one takes its place. */
  lemma SingleIsPushedOut<T>(c: Changes<T>, r: Changes<T>, size: int, per: int, last: int, npos: nat, tm: int, v: T,
                             fill: T, eval: T)
    requires per > 0 && c.Ok(size) && c.gone == 0 && c.Single() && Covers(c.full, per, c.first, last)
    requires if npos == 0 then !Merges(c.full, per, last) else tm / per == last + npos
    requires KeptFrom(c, size, CellOf(per), r) && r.full == Stored(c.full, per, last, npos, tm, v, fill)
    ensures Covers(r.full[r.gone..], per, r.first, last + npos) <==> |r.full| == 1
  {
    StoredRefines(c.full, per, c.first, last, npos, tm, v, fill, eval);
    SuffixInCells(r.full, r.gone, true, per, c.first, last + npos, r.first);
    if |r.full| == 1 { assert r.full[0..] == r.full; }
  }

  /** The running count of entries without a value moves away from the real one exactly when a write replaces the
      newest entry and only one of the two has a value. */
  lemma DriftOfWrite<T>(c: Changes<T>, size: int, per: int, eval: T, last: int, npos: nat, tm: int, v: T, fill: T)
    requires per > 0 && c.Ok(size) && c.gone == 0 && |c.full| > 0
    ensures var r, n := AfterWrite(c, size, per, eval, last, npos, tm, v, fill), |c.full|;
            var again := npos == 0 && TruncDiv(c.full[n - 1].tm - last * per, per) == 0;
            r.Ok(size) &&
            r.Drift(eval) == c.Drift(eval) +
                             if again then (if c.full[n - 1].val == eval then 1 else 0) - (if v == eval then 1 else 0)
                             else 0
  {
    var n, e, cell := |c.full|, Stamp(last * per, v), CellOf(per);
    assert c.full[0..] == c.full;
    if npos == 0 {
      if TruncDiv(c.full[n - 1].tm - last * per, per) == 0 {
        EvalsReplace(c.full, n - 1, e, eval);
        assert c.full[n - 1 := e][0..] == c.full[n - 1 := e];
      } else {
        PutKeepsDrift(c, size, cell, eval, e);
      }
    } else {
      var f := Stamp((last + 1) * per, fill);
      WriteKeepsDrift(c, size, cell, eval, f);
      WriteKeepsDrift(if npos > 1 then c.Write(size, cell, eval, f) else c, size, cell, eval, Stamp(tm, v));
    }
  }
}
