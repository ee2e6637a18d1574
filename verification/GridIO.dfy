/** Reading and writing hard grids cell after cell. */
module GridIO {
  import opened Series
  import opened Ring
  import opened BufSpec
  import opened ValBuf

  lemma PutNext<T>(s: History<T>, r: History<T>, q0: int, out: seq<T>, per: int, tm: int, v: T, fill: T, ok: bool)
    requires per > 0 && tm / per == q0 + |out| && tm >= per
    requires if |out| == 0 then |s.cells| == 0 else s == History(q0, out)
    requires HardWrite(s, |s.cells|, 0, per, fill, v, tm, ok, r)
    ensures ok && r == History(q0, out + [v])
  {
    FloorBounds(tm, per);
    if |out| > 0 {
      MulLe(s.Last(), tm / per, per);
      assert s.cells + Rep(fill, 0) + [v] == out + [v];
    }
    var st := s.Store(q0 + |out|, v, fill);
    assert st.cells[0..] == st.cells;
  }

  /** An unlimited hard grid that holds the cells `out` from the cell `q0` on. */
  ghost predicate IsOut<T>(obuf: TBuf<T>, per: int, q0: int, out: seq<T>)
    reads obuf
  {
    obuf.Valid() && obuf.hrdGrd && obuf.size == 0 && obuf.per == per &&
    if |out| == 0 then obuf.Empty() else !obuf.Empty() && obuf.Contents() == History(q0, out)
  }

  /** A value for any buffer, with the current time for the time 0; into an unlimited hard grid that has come to the
      cell of the time, it is the next cell. */
  method PutValue<T(==)>(obuf: TBuf<T>, v: T, tm: int, now: int, ghost next: bool, ghost q0: int,
                         ghost out: seq<T>) returns (ok: bool)
    requires var t := if tm == 0 then now else tm;
             obuf.Valid() && t >= obuf.per && t > 0 &&
             (next ==> IsOut(obuf, obuf.per, q0, out) && t / obuf.per == q0 + |out|)
    modifies obuf
    ensures obuf.Valid() && obuf.per == old(obuf.per)
    ensures next ==> ok && IsOut(obuf, obuf.per, q0, out + [v])
  {
    ghost var s := if next then obuf.Contents() else History(0, []);
    assert next ==> obuf.cur == |s.cells|;
    ok := obuf.Set(v, tm, now);
    if next {
      PutNext(s, obuf.Contents(), q0, out, obuf.per,
              if tm == 0 then now else tm, v, s.Fill(obuf.fillLast, obuf.eval), ok);
    }
  }

  /** The value of the cell that a time in up order comes to. */
  method Sample<T(==)>(src: TBuf<T>, tm: int, ghost k: int) returns (v: T, otm: int)
    requires src.Valid() && src.hrdGrd && !src.Empty() && src.Contents().Has(k)
    requires (k - 1) * src.per < tm <= k * src.per
    ensures v == src.Contents().Cell(k) && otm == k * src.per
  {
    v, otm := src.Get(tm, true);
    ghost var s := src.Contents();
    NearestIs(s, src.per, src.eval, tm, k, v, otm);
  }

  lemma NearestIs<T>(s: History<T>, per: int, eval: T, tm: int, k: int, v: T, otm: int)
    requires per > 0 && s.Has(k) && (k - 1) * per < tm <= k * per && Answers(s, per, eval, tm, true, v, otm)
    ensures v == s.Cell(k) && otm == k * per
  {
    MulLe(k, s.Last(), per);
    forall j | s.Has(j) && j * per >= tm ensures k <= j { MulLt(k - 1, j, per); }
    assert IsNearest(s, per, tm, true, k);
    AnswerIsUnique(s, per, eval, tm, true, v, otm, s.Cell(k), k * per);
  }
}
