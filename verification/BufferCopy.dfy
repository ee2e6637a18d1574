/** Copying one value buffer into another: the writes are those of the copy's course, each applied to the other
    buffer. */
module BufferCopy {
  import opened Series
  import opened Ring
  import opened RunLength
  import opened Flow
  import opened BufSpec
  import opened ValBuf
  import opened GridIO
  import opened CopyCourse

  // ----- what is written -----

  /** A buffer as writes see it: its settings, the history of a grid and whether it will stay right, or the map of the
      flow form. */
  datatype State<T> = State(hrdGrd: bool, per: int, size: int, fillLast: bool, eval: T, cur: int, h: History<T>,
                            tight: bool, steady: bool, aligned: bool, confused: bool, m: map<int, T>, n: int, beg: int)

  ghost function StateOf<T>(b: TBuf<T>): State<T>
    reads b
  {
    var grid := b.Valid() && b.per > 0;
    var soft := grid && !b.hrdGrd;
    State(b.hrdGrd, b.per, b.size, b.fillLast, b.eval, b.cur, if grid then b.Contents() else History(0, []), b.Tight(),
          soft && b.Steady(), soft && b.AllAligned(), soft && b.Confused(),
          if b.per > 0 then map[] else AsMap(b.stamps), if b.per > 0 then 0 else |b.stamps|, b.beg)
  }

  /** A write takes a buffer from one state to another. */
  ghost predicate Sets<T>(a: State<T>, v: T, tm: int, ok: bool, b: State<T>) {
    b.hrdGrd == a.hrdGrd && b.per == a.per && b.size == a.size && b.fillLast == a.fillLast && b.eval == a.eval &&
    if a.hrdGrd then
      a.per > 0 && RingOk(|a.h.cells|, a.cur, a.size) &&
      HardWrite(a.h, a.cur, a.size, a.per, a.h.Fill(a.fillLast, a.eval), v, tm, ok, b.h) && (a.tight ==> b.tight)
    else if a.per > 0 then
      SoftWrite(a.h, a.size, a.per, a.h.Fill(a.fillLast, a.eval), v, tm, ok, b.h, a.steady, b.steady, a.confused) &&
      (a.aligned && tm == tm / a.per * a.per ==> b.aligned)
    else
      (ok <==> !(a.size != 0 && a.n >= a.size && tm < a.beg)) &&
      b.m == if ok then FlowStore(a.m, a.size, a.n, a.beg, tm, v) else a.m
  }

  method Put<T(==)>(dst: TBuf<T>, v: T, tm: int, now: int) returns (ok: bool)
    requires dst.Valid() && AtTime(tm, now) != 0 && (dst.Empty() ==> AtTime(tm, now) >= dst.per)
    modifies dst
    ensures dst.Valid() && dst.per == old(dst.per) && (ok ==> !dst.Empty())
    ensures Sets(old(StateOf(dst)), v, AtTime(tm, now), ok, StateOf(dst))
  {
    ok := dst.Set(v, tm, now);
  }

  /** A value without a time is written for the current one. */
  function AtTime(tm: int, now: int): int {
    if tm == 0 then now else tm
  }

  /** The states that the writes take a buffer through; the last write is refused if the copy fails. */
  ghost predicate Chain<T>(states: seq<State<T>>, out: seq<Stamp<T>>, now: int, ok: bool) {
    |states| == |out| + 1 && (!ok ==> |out| > 0) &&
    forall i :: 0 <= i < |out| ==> Sets(states[i], out[i].val, AtTime(out[i].tm, now), ok ||
                                        i + 1 < |out|, states[i + 1])
  }

  lemma ChainNext<T>(states: seq<State<T>>, out: seq<Stamp<T>>, now: int, e: Stamp<T>, ok: bool, s: State<T>)
    requires Chain(states, out, now, true) && Sets(states[|out|], e.val, AtTime(e.tm, now), ok, s)
    ensures Chain(states + [s], out + [e], now, ok)
  {
    var ss, oo := states + [s], out + [e];
    forall i | 0 <= i < |oo| ensures Sets(ss[i], oo[i].val, AtTime(oo[i].tm, now), ok || i + 1 < |oo|, ss[i + 1]) {
      if i < |out| { assert ss[i] == states[i] && ss[i + 1] == states[i + 1] && oo[i] == out[i]; }
    }
  }

  // ----- the copy -----

  /** There is something to copy: the asked range is not empty and meets the buffer. */
  predicate InRange(beg: int, end: int, per: int, ibeg: int, iend: int)
    requires per >= 0
  {
    if per == 0 then !(beg == 0 || end == 0 || iend < beg || ibeg > end || ibeg > iend)
    else !(beg == 0 || end == 0 || TruncDiv(iend, per) < TruncDiv(beg, per) ||
           TruncDiv(ibeg, per) > TruncDiv(end, per) ||
           TruncDiv(ibeg, per) > TruncDiv(iend, per))
  }

  /** In numbers: the range ends at or after the begin of the buffer, begins at or before its end, or in its last cell,
      and does not begin after its end, or begins in the cell of its end. */
  lemma InRangeIff<T>(src: TBuf<T>, ibeg: int, iend: int)
    requires src.Valid() && !src.Empty()
    ensures InRange(src.beg, src.end, src.per, ibeg, iend) <==>
            if src.per == 0 then src.beg <= iend && ibeg <= src.end && ibeg <= iend
            else src.beg <= iend && ibeg < src.end + src.per && ibeg < (iend / src.per + 1) * src.per
  {
    if src.per > 0 {
      MulLe(1, src.first, src.per);
      MulLe(src.first, src.last, src.per);
      CellsInRange(src.first, src.last, src.per, ibeg, iend);
    }
  }

  lemma CellsInRange(first: int, last: int, per: int, ibeg: int, iend: int)
    requires per > 0 && first > 0 && per <= first * per <= last * per
    ensures InRange(first * per, last * per, per, ibeg, iend) <==>
            first * per <= iend && ibeg < last * per + per && ibeg < (iend / per + 1) * per
  {
    AlignedCell(first, per);
    AlignedCell(last, per);
    MulNext(last, last + 1, per);
    MulLt(0, last, per);
    TruncAfter(iend, first - 1, per);
    TruncAfter(ibeg, last, per);
    if first * per <= iend { TruncAfter(ibeg, iend / per, per); }
  }

  lemma TruncAfter(a: int, k: nat, per: int)
    requires per > 0
    ensures TruncDiv(a, per) > k <==> a >= (k + 1) * per
  {
    if a < 0 {
      FloorBounds(-a, per);
      MulLe(0, k + 1, per);
    } else {
      FloorBounds(a, per);
      if a >= (k + 1) * per { MulLt(k + 1, a / per + 1, per); }
      if a / per > k { MulLe(k + 1, a / per, per); }
    }
  }

  /** The values of a buffer of any form go to another one of any form, at most in the given number of rounds: what is
      written is the course of the copy, up to a value that the other buffer refuses. The course goes from the asked
      begin, or that of the source if it is later, to the asked end, or that of the source if it is earlier; into a
      longer period it goes in steps of that period, from the begin of the one that it starts in. */
  method GetVals<T(==)>(src: TBuf<T>, dst: TBuf<T>, ibeg0: int, iend0: int, now: int, rounds: nat)
      returns (ok: bool, ended: bool, ghost states: seq<State<T>>)
    requires src.Valid() && dst.Valid() && src != dst && now > 0
    requires dst.Empty() && !src.Empty() ==> dst.per <= src.beg && dst.per <= now
    modifies dst
    ensures dst.Valid()
    ensures var meets := !src.Empty() && src.beg <= iend0 &&
                         if src.per == 0 then ibeg0 <= src.end && ibeg0 <= iend0
                         else ibeg0 < src.end + src.per && ibeg0 < (iend0 / src.per + 1) * src.per;
            if meets then
              var longer := src.per != 0 && old(dst.per) > src.per;
              var b := if ibeg0 > src.beg then ibeg0 else src.beg;
              IsCopy(SourceOf(src), if longer then b / old(dst.per) * old(dst.per) else b,
                     if iend0 < src.end then iend0 else src.end, if longer then old(dst.per) else 1, now, rounds, ok,
                     ended, states) &&
              states[0] == old(StateOf(dst)) && states[|states| - 1] == StateOf(dst)
            else ok && ended && unchanged(dst)
  {
    ok, ended, states := true, true, [];
    if !src.Empty() { InRangeIff(src, ibeg0, iend0); }
    if !InRange(src.beg, src.end, src.per, ibeg0, iend0) { return; }
    SourceIsOk(src);
    if src.per > 0 { BeginNotEarly(src); }
    var ibeg, iend, t_step := Clip(src.beg, src.end, src.per, dst.per, ibeg0, iend0);
    ok, ended, states := CopyLoop(src, dst, ibeg, iend, t_step, now, rounds);
  }

  lemma BeginNotEarly<T>(src: TBuf<T>)
    requires src.Valid() && !src.Empty() && src.per > 0
    ensures src.beg > 0
  {
    MulLe(1, src.first, src.per);
  }

  method Clip(beg: int, end: int, per: int, dstPer: int, ibeg0: int, iend0: int)
      returns (ibeg: int, iend: int, t_step: int)
    requires per >= 0 && dstPer >= 0 && (per > 0 ==> beg >= 0)
    ensures var b := if ibeg0 > beg then ibeg0 else beg;
            ibeg == if per != 0 && dstPer > per then b / dstPer * dstPer else b
    ensures iend == if iend0 < end then iend0 else end
    ensures t_step == if per != 0 && dstPer > per then dstPer else 1
  {
    ibeg, iend := ibeg0, iend0;
    if ibeg < beg { ibeg := beg; }
    if iend > end { iend := end; }
    t_step := 1;
    if dstPer != 0 && per != 0 && dstPer > per {
      t_step := dstPer;
      ibeg := TruncDiv(ibeg, t_step) * t_step;
    }
  }

  /** The writes are those of the course, as many as there were rounds for; a refused one is the last. */
  ghost predicate IsCopy<T>(src: Source<T>, ibeg: int, iend: int, step: int, now: int, rounds: nat, ok: bool,
                            ended: bool, states: seq<State<T>>) {
    src.Ok() && |states| > 0 &&
    var n := if ok then rounds else |states| - 1;
    n <= rounds && Chain(states, Trace(src, ibeg, iend, step, n), now, ok) &&
    (ended <==> !ok || Pos(src, ibeg, iend, step, rounds) > iend)
  }

  method CopyLoop<T(==)>(src: TBuf<T>, dst: TBuf<T>, ibeg0: int, iend: int, t_step: int, now: int, rounds: nat)
      returns (ok: bool, ended: bool, ghost states: seq<State<T>>)
    requires src.Valid() && !src.Empty() && dst.Valid() && src != dst && now > 0 && t_step > 0 && iend <= src.end
    requires dst.Empty() ==> dst.per <= src.beg && dst.per <= now
    modifies dst
    ensures dst.Valid() && IsCopy(SourceOf(src), ibeg0, iend, t_step, now, rounds, ok, ended, states)
    ensures states[0] == old(StateOf(dst)) && states[|states| - 1] == StateOf(dst)
  {
    SourceIsOk(src);
    var at, n;
    ok, at, n, states := CopyRounds(src, dst, ibeg0, iend, t_step, now, rounds);
    ended := !ok || at > iend;
    if ok { CourseIsCopy(SourceOf(src), ibeg0, iend, t_step, now, n, rounds, states); }
  }

  method CopyRounds<T(==)>(src: TBuf<T>, dst: TBuf<T>, ibeg0: int, iend: int, t_step: int, now: int, rounds: nat)
      returns (ok: bool, ibeg: int, n: nat, ghost states: seq<State<T>>)
    requires src.Valid() && !src.Empty() && dst.Valid() && src != dst && now > 0 && iend <= src.end &&
             SourceOf(src).Ok()
    requires dst.Empty() ==> dst.per <= src.beg && dst.per <= now
    modifies dst
    ensures dst.Valid() && n <= rounds && (ok ==> ibeg > iend || n == rounds)
    ensures Progress(SourceOf(src), ibeg0, iend, t_step, now, n, rounds, ok, ibeg, states)
    ensures states[0] == old(StateOf(dst)) && states[|states| - 1] == StateOf(dst)
  {
    ghost var s, first := SourceOf(src), StateOf(dst);
    ibeg, n, states, ok := ibeg0, 0, [StateOf(dst)], true;
    while ok && ibeg <= iend && n < rounds
      invariant n <= rounds && Progress(s, ibeg0, iend, t_step, now, n, rounds, ok, ibeg, states)
      invariant dst.Valid() && states[0] == first && states[|states| - 1] == StateOf(dst)
      invariant ok && dst.Empty() ==> dst.per <= src.beg && dst.per <= now
      decreases rounds - n
    {
      ok, ibeg, states := CopyRound(src, dst, ibeg, t_step, now, ibeg0, iend, n, rounds, states);
      n := n + 1;
    }
  }

  /** The state of a copy after `n` rounds. */
  ghost predicate Progress<T>(src: Source<T>, ibeg: int, iend: int, step: int, now: int, n: nat, rounds: nat, ok: bool,
                              at: int, states: seq<State<T>>)
    requires src.Ok()
  {
    |states| == n + 1 &&
    if ok then at == Pos(src, ibeg, iend, step, n) && Course(src, ibeg, iend, step, now, n, states)
    else IsCopy(src, ibeg, iend, step, now, rounds, false, true, states)
  }

  method CopyRound<T(==)>(src: TBuf<T>, dst: TBuf<T>, ibeg: int, t_step: int, now: int, ghost ibeg0: int,
                          ghost iend: int, ghost n: nat, ghost rounds: nat, ghost states: seq<State<T>>)
      returns (ok: bool, next: int, ghost states': seq<State<T>>)
    requires src.Valid() && !src.Empty() && dst.Valid() && src != dst && now > 0 && iend <= src.end &&
             SourceOf(src).Ok()
    requires dst.Empty() ==> dst.per <= src.beg && dst.per <= now
    requires ibeg == Pos(SourceOf(src), ibeg0, iend, t_step, n) <= iend && n < rounds
    requires Course(SourceOf(src), ibeg0, iend, t_step, now, n, states) && states[n] == StateOf(dst)
    modifies dst
    ensures dst.Valid() && (ok ==> !dst.Empty())
    ensures Progress(SourceOf(src), ibeg0, iend, t_step, now, n + 1, rounds, ok, next, states')
    ensures states'[0] == states[0] && states'[n + 1] == StateOf(dst)
  {
    var vl, otm;
    vl, ok, otm := CopyOne(src, dst, ibeg, now);
    next := otm + t_step;
    states' := states + [StateOf(dst)];
    CourseNext(SourceOf(src), ibeg0, iend, t_step, now, n, states, ok, StateOf(dst));
  }

  /** `n` rounds have written the first values of the course. */
  ghost predicate Course<T>(src: Source<T>, ibeg: int, iend: int, step: int, now: int, n: nat, states: seq<State<T>>)
    requires src.Ok()
  {
    |states| == n + 1 && Chain(states, Trace(src, ibeg, iend, step, n), now, true)
  }

  lemma CourseNext<T>(src: Source<T>, ibeg: int, iend: int, step: int, now: int, n: nat, states: seq<State<T>>,
                      ok: bool, s: State<T>)
    requires src.Ok() && Course(src, ibeg, iend, step, now, n, states) && Pos(src, ibeg, iend, step, n) <= iend
    requires var r := src.UpRead(Pos(src, ibeg, iend, step, n)); Sets(states[n], r.val, AtTime(r.tm, now), ok, s)
    ensures |states + [s]| == n + 2 && Chain(states + [s], Trace(src, ibeg, iend, step, n + 1), now, ok)
  {
    ChainNext(states, Trace(src, ibeg, iend, step, n), now, src.UpRead(Pos(src, ibeg, iend, step, n)), ok, s);
  }

  lemma CourseIsCopy<T>(src: Source<T>, ibeg: int, iend: int, step: int, now: int, n: nat, rounds: nat,
                        states: seq<State<T>>)
    requires src.Ok() && n <= rounds && Course(src, ibeg, iend, step, now, n, states)
    requires Pos(src, ibeg, iend, step, n) > iend || n == rounds
    ensures IsCopy(src, ibeg, iend, step, now, rounds, true, Pos(src, ibeg, iend, step, n) > iend, states)
  {
    if Pos(src, ibeg, iend, step, n) > iend {
      TraceStays(src, ibeg, iend, step, n, rounds);
      PosStays(src, ibeg, iend, step, n, rounds);
    }
  }

  method CopyOne<T(==)>(src: TBuf<T>, dst: TBuf<T>, tm: int, now: int) returns (vl: T, ok: bool, otm: int)
    requires src.Valid() && !src.Empty() && dst.Valid() && src != dst && tm <= src.end && now > 0 && SourceOf(src).Ok()
    requires dst.Empty() ==> dst.per <= src.beg && dst.per <= now
    modifies dst
    ensures dst.Valid() && dst.per == old(dst.per) && (ok ==> !dst.Empty())
    ensures Stamp(otm, vl) == SourceOf(src).UpRead(tm)
    ensures Sets(old(StateOf(dst)), vl, AtTime(otm, now), ok, StateOf(dst))
  {
    SourceIsOk(src);
    vl, otm := ReadUp(src, tm);
    ReadsForward(SourceOf(src), tm);
    ok := Put(dst, vl, otm, now);
  }

  // ----- a hard grid into one of the same period -----

  /** An empty or growing unlimited hard grid that holds `out` from the cell `k0` on. */
  ghost predicate Holds<T>(a: State<T>, per: int, k0: int, out: seq<T>) {
    a.hrdGrd && a.per == per && a.size == 0 && if |out| == 0 then |a.h.cells| == 0 else a.h == History(k0, out)
  }

  /** The values for consecutive cells are appended one after another, and none is refused. */
  lemma {:induction false} ChainAppends<T>(states: seq<State<T>>, out: seq<Stamp<T>>, now: int, ok: bool, per: int,
                                           k0: int, vals: seq<T>, n: nat)
    requires per > 0 && k0 > 0 && |vals| == |out| && Chain(states, out, now, ok) && Holds(states[0], per, k0, []) &&
             n <= |out|
    requires forall i :: 0 <= i < |out| ==> out[i] == Stamp((k0 + i) * per, vals[i])
    ensures Holds(states[n], per, k0, vals[..n]) && (n > 0 && n == |out| ==> ok)
  {
    if n > 0 {
      var a, b, i := states[n - 1], states[n], n - 1;
      ChainAppends(states, out, now, ok, per, k0, vals, i);
      assert out[i] == Stamp((k0 + i) * per, vals[i]);
      AlignedCell(k0 + i, per);
      MulLe(1, k0 + i, per);
      PutNext(a.h, b.h, k0, vals[..i], per, (k0 + i) * per, vals[i], a.h.Fill(a.fillLast, a.eval), ok || n < |out|);
      assert vals[..n] == vals[..i] + [vals[i]];
    }
  }

  /** A hard grid copied into an empty unlimited one of the same period gives the slice from the first cell at or after
      the begin to the first one at or after the end, or to the last one, cell for cell, and the copy ends; if the range
      does not meet the grid nothing is copied. */
  method CopyGrid<T(==)>(src: TBuf<T>, dst: TBuf<T>, ibeg0: int, iend0: int, now: int) returns (ok: bool)
    requires src.Valid() && src.hrdGrd && !src.Empty() && dst.Valid() && dst.Empty() && src != dst && now >= dst.per
    requires dst.hrdGrd && dst.size == 0 && dst.per == src.per
    modifies dst
    ensures ok && dst.Valid() && dst.per == src.per
    ensures var s, r, per := src.Contents(), dst.Contents(), src.per;
            if ibeg0 <= iend0 && ibeg0 <= s.Last() * per && s.first * per <= iend0 then
              s.Has(r.first) && r.first * per >= ibeg0 && s.Has(r.Last()) &&
              (r.Last() == s.Last() || r.Last() * per >= iend0) &&
              (forall k :: s.Has(k) && k * per >= ibeg0 ==> r.first <= k) &&
              (forall k :: s.Has(k) && k * per >= iend0 ==> r.Last() <= k) &&
              forall k :: r.Has(k) ==> s.Has(k) && r.Cell(k) == s.Cell(k)
            else |r.cells| == 0
  {
    ghost var s, per := src.Contents(), src.per;
    var b, e, step := Clip(src.beg, src.end, src.per, dst.per, ibeg0, iend0);
    GridEnds(src);
    ok := CopySlice(src, dst, ibeg0, iend0, now, b, e, s);
    SliceSeen(s, per, ibeg0, iend0, b, e, dst.Contents());
  }

  lemma GridEnds<T>(src: TBuf<T>)
    requires src.Valid() && src.hrdGrd && !src.Empty()
    ensures src.per > 0 && |src.Contents().cells| > 0 && src.Contents().first > 0 && src.beg <= src.end
    ensures src.beg == src.Contents().first * src.per && src.end == src.Contents().Last() * src.per
  {
    MulLe(src.first, src.last, src.per);
  }

  method CopySlice<T(==)>(src: TBuf<T>, dst: TBuf<T>, ibeg0: int, iend0: int, now: int, b: int, e: int,
                          ghost s: History<T>)
      returns (ok: bool)
    requires src.Valid() && src.hrdGrd && !src.Empty() && dst.Valid() && dst.Empty() && src != dst && now >= dst.per
    requires dst.hrdGrd && dst.size == 0 && dst.per == src.per && s == src.Contents()
    requires b == (if ibeg0 > src.beg then ibeg0 else src.beg) && e == if iend0 < src.end then iend0 else src.end
    modifies dst
    ensures ok && dst.Valid() && dst.per == src.per && (b <= e ==> SliceFits(s, src.per, b, e))
    ensures if |Slice(s, src.per, b, e)| == 0 then |dst.Contents().cells| == 0
            else dst.Contents() == History(CeilDiv(b, src.per), Slice(s, src.per, b, e))
  {
    SourceIsOk(src);
    GridEnds(src);
    BegInFirst(s, src.per);
    EmptyHolds(dst);
    ghost var was := StateOf(dst);
    var ended;
    ghost var states;
    ok, ended, states := GetVals(src, dst, ibeg0, iend0, now, Rounds(b, e, 1));
    if src.beg <= iend0 && ibeg0 < src.end + src.per && ibeg0 < (iend0 / src.per + 1) * src.per {
      SliceCopied(SourceOf(src), b, e, now, Rounds(b, e, 1), ok, ended, states, was, StateOf(dst));
    } else {
      NoneInRange(src, ibeg0, iend0, b, e);
    }
    HeldIs(dst, src.per, CeilDiv(b, src.per), Slice(s, src.per, b, e));
  }

  lemma NoneInRange<T>(src: TBuf<T>, ibeg0: int, iend0: int, b: int, e: int)
    requires src.per > 0 && src.beg <= src.end
    requires b == (if ibeg0 > src.beg then ibeg0 else src.beg) && e == if iend0 < src.end then iend0 else src.end
    requires !(src.beg <= iend0 && ibeg0 < src.end + src.per && ibeg0 < (iend0 / src.per + 1) * src.per)
    ensures b > e
  {
    FloorBounds(iend0, src.per);
  }

  /** The slice in terms of the asked times. */
  lemma SliceSeen<T>(s: History<T>, per: int, ibeg0: int, iend0: int, b: int, e: int, r: History<T>)
    requires per > 0 && |s.cells| > 0 && s.first * per <= s.Last() * per
    requires b == (if ibeg0 > s.first * per then ibeg0 else s.first * per)
    requires e == if iend0 < s.Last() * per then iend0 else s.Last() * per
    requires b <= e ==> SliceFits(s, per, b, e)
    requires if |Slice(s, per, b, e)| == 0 then |r.cells| == 0 else r == History(CeilDiv(b, per), Slice(s, per, b, e))
    ensures if ibeg0 <= iend0 && ibeg0 <= s.Last() * per && s.first * per <= iend0 then
              s.Has(r.first) && r.first * per >= ibeg0 && s.Has(r.Last()) &&
              (r.Last() == s.Last() || r.Last() * per >= iend0) &&
              (forall k :: s.Has(k) && k * per >= ibeg0 ==> r.first <= k) &&
              (forall k :: s.Has(k) && k * per >= iend0 ==> r.Last() <= k) &&
              forall k :: r.Has(k) ==> s.Has(k) && r.Cell(k) == s.Cell(k)
            else |r.cells| == 0
  {
    if b <= e {
      CeilBounds(b, per);
      CeilBounds(e, per);
      forall k | s.Has(k) && k * per >= ibeg0 ensures r.first <= k {
        MulLe(s.first, k, per);
        MulLt(r.first - 1, k, per);
      }
      forall k | s.Has(k) && k * per >= iend0 ensures r.Last() <= k { MulLt(r.Last() - 1, k, per); }
      if e == s.Last() * per { AlignedCell(s.Last(), per); }
    }
  }

  /** The cells from the first one at or after a begin to the first one at or after an end. */
  ghost function Slice<T>(s: History<T>, per: int, b: int, e: int): seq<T>
    requires per > 0
  {
    if b <= e && SliceFits(s, per, b, e) then s.cells[CeilDiv(b, per) - s.first..CeilDiv(e, per) + 1 - s.first] else []
  }

  ghost predicate SliceFits<T>(s: History<T>, per: int, b: int, e: int)
    requires per > 0
  {
    s.first <= CeilDiv(b, per) <= CeilDiv(e, per) <= s.Last()
  }

  lemma EmptyHolds<T>(b: TBuf<T>)
    requires b.Valid() && b.Empty() && b.hrdGrd && b.size == 0
    ensures Holds(StateOf(b), b.per, 0, [])
  {
  }

  lemma HeldIs<T>(b: TBuf<T>, per: int, k0: int, out: seq<T>)
    requires b.Valid() && per > 0 && Holds(StateOf(b), per, k0, out)
    ensures b.per == per && if |out| == 0 then |b.Contents().cells| == 0 else b.Contents() == History(k0, out)
  {
    assert b.Contents() == StateOf(b).h;
  }

  lemma BegInFirst<T>(s: History<T>, per: int)
    requires per > 0 && s.first > 0
    ensures per <= s.first * per
  {
    MulLe(1, s.first, per);
  }

  /** The course of a copy of a hard grid, sample by sample. */
  lemma HardTrace<T>(src: Source<T>, b: int, e: int, n: nat)
    requires src.HardSource? && src.Ok() && src.Beg() <= b <= e <= src.End()
    ensures var k0, k1, first := CeilDiv(b, src.per), CeilDiv(e, src.per), src.s.first;
            SliceFits(src.s, src.per, b, e) && k1 - k0 + 1 <= Rounds(b, e, 1) &&
            var m := if n <= k1 - k0 then n else k1 - k0 + 1;
            Trace(src, b, e, 1, n) == Samples(src)[k0 - first..k0 - first + m] &&
            (n > k1 - k0 ==> Pos(src, b, e, 1, n) > e)
  {
    var per, first, k0, k1 := src.per, src.s.first, CeilDiv(b, src.per), CeilDiv(e, src.per);
    CellRange(b, e, per, first, src.s.Last());
    CellsBefore(src, k0 - first, k1, e);
    IndexIs(src, b, k0);
    CopyIsSamples(src, b, e, k1 - first, n);
  }

  lemma IndexIs<T>(src: Source<T>, b: int, k0: int)
    requires src.HardSource? && src.Ok() && k0 == CeilDiv(b, src.per) >= src.s.first && src.Beg() <= b
    ensures Index(src, b) == k0 - src.s.first
  {
    FromFirst(b, src.per, src.s.first);
    if b == src.Beg() { AlignedCell(src.s.first, src.per); }
  }

  lemma CellsBefore<T>(src: Source<T>, i: nat, k1: int, e: int)
    requires src.HardSource? && src.Ok() && src.s.first <= k1 <= src.s.Last() && (k1 - 1) * src.per < e <= k1 * src.per
    ensures |Samples(src)| == |src.s.cells| && Samples(src)[k1 - src.s.first].tm >= e
    ensures AllBefore(Samples(src), i, k1 - src.s.first, e)
  {
    forall j | 0 <= j < k1 - src.s.first ensures Samples(src)[j].tm < e { MulLe(src.s.first + j, k1 - 1, src.per); }
  }

  lemma CellRange(b: int, e: int, per: int, first: int, last: int)
    requires per > 0 && first * per <= b <= e <= last * per
    ensures var k0, k1 := CeilDiv(b, per), CeilDiv(e, per);
            first <= k0 <= k1 <= last && (k1 - 1) * per < e <= k1 * per && k1 - k0 + 1 <= Rounds(b, e, 1)
  {
    var k0, k1 := CeilDiv(b, per), CeilDiv(e, per);
    InsideCells(b, per, first, last);
    InsideCells(e, per, first, last);
    CeilBounds(b, per);
    CeilBounds(e, per);
    MulLt(k0 - 1, k1, per);
    if k1 > k0 {
      assert (k1 - 1 - k0) * per == (k1 - 1) * per - k0 * per by { Distribute(k1 - 1, k0, per); }
      AtLeast(k1 - 1 - k0, per);
    }
  }

  lemma AtLeast(a: nat, b: int)
    requires b > 0
    ensures a <= a * b
  {
  }

  lemma SliceCopied<T>(src: Source<T>, b: int, e: int, now: int, rounds: nat, ok: bool, ended: bool,
                       states: seq<State<T>>, was: State<T>, last: State<T>)
    requires src.HardSource? && src.Ok() && src.Beg() <= b && e <= src.End() && rounds == Rounds(b, e, 1)
    requires IsCopy(src, b, e, 1, now, rounds, ok, ended, states) && Holds(was, src.per, 0, [])
    requires states[0] == was && states[|states| - 1] == last
    ensures ok && ended && Holds(last, src.per, CeilDiv(b, src.per), Slice(src.s, src.per, b, e))
    ensures b <= e ==> SliceFits(src.s, src.per, b, e)
  {
    var n := if ok then rounds else |states| - 1;
    var out := Trace(src, b, e, 1, n);
    if b > e {
      TraceStays(src, b, e, 1, 0, n);
      PosStays(src, b, e, 1, 0, rounds);
    } else {
      HardTrace(src, b, e, n);
      CopiedCells(src, CeilDiv(b, src.per), |out|, out, now, ok, states);
      HardTrace(src, b, e, rounds);
    }
  }

  lemma CopiedCells<T>(src: Source<T>, k0: int, n: nat, out: seq<Stamp<T>>, now: int, ok: bool, states: seq<State<T>>)
    requires src.HardSource? && src.Ok() && src.s.first <= k0 && k0 + n <= src.s.Last() + 1 && n == |out| > 0
    requires out == Samples(src)[k0 - src.s.first..k0 - src.s.first + n]
    requires Chain(states, out, now, ok) && Holds(states[0], src.per, 0, [])
    ensures ok && Holds(states[n], src.per, k0, src.s.cells[k0 - src.s.first..k0 - src.s.first + n])
  {
    var vals := src.s.cells[k0 - src.s.first..k0 - src.s.first + n];
    forall i | 0 <= i < n ensures out[i] == Stamp((k0 + i) * src.per, vals[i]) {
      assert out[i] == Samples(src)[k0 - src.s.first + i];
    }
    ChainAppends(states, out, now, ok, src.per, k0, vals, n);
    assert vals[..n] == vals;
  }
}
