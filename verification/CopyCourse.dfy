/** The course of a copy of one value buffer into another: what reading in up order gives, round after round. The copy
    goes on from the time of each sample read; a soft grid whose entries do not cover it answers with the time 0, and
    the copy may start again and again. */
module CopyCourse {
  import opened Series
  import opened Ring
  import opened RunLength
  import opened Flow
  import opened BufSpec
  import opened ValBuf
  import opened GridIO

  // ----- what is read -----

  /** A buffer that is not empty, as reads in up order see it. */
  datatype Source<T> =
    | HardSource(eval: T, per: int, s: History<T>)
    | SoftSource(eval: T, per: int, log: seq<Stamp<T>>, first: int, last: int)
    | FlowSource(eval: T, stamps: seq<Stamp<T>>)
  {
    ghost predicate Ok() {
      match this
      case HardSource(_, per, s) => per > 0 && |s.cells| > 0 && s.first > 0
      case SoftSource(_, per, log, first, last) => per > 0 && |log| > 0 && InCells(log, per, first, last) && first > 0
      case FlowSource(_, stamps) => |stamps| > 0 && Ascending(stamps) &&
                                    forall i :: 0 <= i < |stamps| ==> stamps[i].tm != 0
    }

    function Beg(): int {
      match this
      case HardSource(_, per, s) => s.first * per
      case SoftSource(_, per, _, first, _) => first * per
      case FlowSource(_, stamps) => if |stamps| > 0 then stamps[0].tm else 0
    }

    function End(): int {
      match this
      case HardSource(_, per, s) => s.Last() * per
      case SoftSource(_, per, _, _, last) => last * per
      case FlowSource(_, stamps) => if |stamps| > 0 then stamps[|stamps| - 1].tm else 0
    }

    /** The cell of a grid that a time comes to. */
    function CellFrom(tm: int): (k: int)
      requires !FlowSource? && per > 0
      ensures k >= if HardSource? then s.first else first
    {
      var begin := if HardSource? then s.first else first;
      FromFirst(tm, per, begin);
      if tm > begin * per then CeilDiv(tm, per) else begin
    }

    /** The answer of a read in up order. */
    ghost function UpRead(tm: int): Stamp<T>
      requires Ok()
    {
      if tm > End() then Stamp(tm, eval)
      else
        match this
        case HardSource(_, per, s) =>
          var k := CellFrom(tm);
          Stamp(k * per, if s.Has(k) then s.Cell(k) else eval)
        case SoftSource(_, per, log, _, _) => var (v, t) := SoftAt(log, per, CellFrom(tm), eval); Stamp(t, v)
        case FlowSource(_, stamps) => FirstFrom(stamps, tm, eval)
    }

    /** The read comes to cells before the oldest entry: there is no value, and the time is 0. */
    ghost predicate Hole(tm: int)
      requires Ok()
    {
      SoftSource? && CellFrom(tm) < log[0].tm / per
    }
  }

  /** The first entry not before a time. */
  function FirstFrom<T>(stamps: seq<Stamp<T>>, tm: int, eval: T): Stamp<T> {
    if |stamps| == 0 then Stamp(tm, eval)
    else if stamps[0].tm >= tm then stamps[0]
    else FirstFrom(stamps[1..], tm, eval)
  }

  function IndexFrom<T>(stamps: seq<Stamp<T>>, tm: int): nat {
    if |stamps| == 0 || stamps[0].tm >= tm then 0 else 1 + IndexFrom(stamps[1..], tm)
  }

  lemma {:induction false} FirstIsAt<T>(stamps: seq<Stamp<T>>, tm: int, eval: T)
    requires Ascending(stamps) && |stamps| > 0 && tm <= stamps[|stamps| - 1].tm
    ensures var i := IndexFrom(stamps, tm);
            i < |stamps| && FirstFrom(stamps, tm, eval) == stamps[i] && tm <= stamps[i].tm &&
            (i > 0 ==> stamps[i - 1].tm < tm)
  {
    if stamps[0].tm < tm {
      assert |stamps| > 1;
      FirstIsAt(stamps[1..], tm, eval);
    }
  }

  ghost function SourceOf<T>(b: TBuf<T>): Source<T>
    reads b
  {
    if !b.Valid() || b.Empty() then FlowSource(b.eval, [])
    else if b.hrdGrd then HardSource(b.eval, b.per, b.Contents())
    else if b.per > 0 then SoftSource(b.eval, b.per, Log(b.stamps, b.cur), b.first, b.last)
    else FlowSource(b.eval, b.stamps)
  }

  lemma SourceIsOk<T>(b: TBuf<T>)
    requires b.Valid() && !b.Empty()
    ensures SourceOf(b).Ok() && SourceOf(b).Beg() == b.beg && SourceOf(b).End() == b.end
  {
  }

  method ReadUp<T(==)>(src: TBuf<T>, tm: int) returns (vl: T, otm: int)
    requires src.Valid() && !src.Empty() && SourceOf(src).Ok()
    ensures Stamp(otm, vl) == SourceOf(src).UpRead(tm)
  {
    SourceIsOk(src);
    vl, otm := src.Get(tm, true);
    if tm <= src.end {
      if src.hrdGrd {
        HardRead(src.Contents(), src.per, src.eval, tm, vl, otm);
      } else if src.per == 0 {
        FlowRead(src.stamps, src.eval, tm, vl, otm);
      } else {
        SoftRead(SourceOf(src), tm);
      }
    }
  }

  lemma HardRead<T>(s: History<T>, per: int, eval: T, tm: int, v: T, otm: int)
    requires per > 0 && |s.cells| > 0 && s.first > 0 && tm <= s.Last() * per && Answers(s, per, eval, tm, true, v, otm)
    ensures Stamp(otm, v) == HardSource(eval, per, s).UpRead(tm)
  {
    var k := if CeilDiv(tm, per) > s.first then CeilDiv(tm, per) else s.first;
    NearestCell(s, per, tm, true);
    FromFirst(tm, per, s.first);
    AnswerIsUnique(s, per, eval, tm, true, v, otm, s.Cell(k), k * per);
  }

  lemma FromFirst(tm: int, per: int, first: int)
    requires per > 0
    ensures CeilDiv(tm, per) > first <==> tm > first * per
  {
    CeilBounds(tm, per);
    if tm > first * per { MulLt(first, CeilDiv(tm, per), per); }
    if CeilDiv(tm, per) > first { MulLe(first, CeilDiv(tm, per) - 1, per); }
  }

  lemma SoftRead<T>(src: Source<T>, tm: int)
    requires src.SoftSource? && src.Ok() && tm <= src.End()
    ensures var (v, t) := SoftReading(src.log, src.per, src.first, src.last, src.eval, tm, true);
            src.UpRead(tm) == Stamp(t, v)
  {
    AlignedCell(src.first, src.per);
  }

  lemma FlowRead<T>(stamps: seq<Stamp<T>>, eval: T, tm: int, v: T, otm: int)
    requires |stamps| > 0 && Ascending(stamps) && tm <= stamps[|stamps| - 1].tm
    requires FlowAnswers(AsMap(stamps), eval, tm, true, v, otm)
    ensures Stamp(otm, v) == FirstFrom(stamps, tm, eval)
  {
    AsMapEntries(stamps);
    FirstIsAt(stamps, tm, eval);
    var i := IndexFrom(stamps, tm);
    assert stamps[i].tm in AsMap(stamps);
    var j :| 0 <= j < |stamps| && stamps[j].tm == otm;
    assert i == j;
  }

  // ----- the course of a copy -----

  /** The time the copy has come to after `n` rounds; it stays when it is past the end. */
  ghost function Pos<T>(src: Source<T>, ibeg: int, iend: int, step: int, n: nat): int
    requires src.Ok()
  {
    if n == 0 then ibeg
    else
      var at := Pos(src, ibeg, iend, step, n - 1);
      if at > iend then at else src.UpRead(at).tm + step
  }

  /** What the copy writes in `n` rounds. */
  ghost function Trace<T>(src: Source<T>, ibeg: int, iend: int, step: int, n: nat): seq<Stamp<T>>
    requires src.Ok()
  {
    if n == 0 then []
    else
      var at := Pos(src, ibeg, iend, step, n - 1);
      Trace(src, ibeg, iend, step, n - 1) + if at > iend then [] else [src.UpRead(at)]
  }

  /** A read inside the source comes to a time not before the asked one, unless it comes to a hole. */
  lemma ReadsForward<T>(src: Source<T>, tm: int)
    requires src.Ok() && tm <= src.End()
    ensures var r := src.UpRead(tm);
            if src.Hole(tm) then r == Stamp(0, src.eval) else r.tm >= tm && r.tm >= src.Beg() && r.tm != 0
  {
    match src {
      case HardSource(_, per, s) =>
        GridForward(src, tm, s.first, s.Last());
      case SoftSource(eval, per, log, first, last) =>
        GridForward(src, tm, first, last);
        SoftForward(log, per, src.CellFrom(tm), eval);
      case FlowSource(eval, stamps) => FirstIsAt(stamps, tm, eval);
    }
  }

  lemma GridForward<T>(src: Source<T>, tm: int, first: int, last: int)
    requires src.Ok() && !src.FlowSource? && first == (if src.HardSource? then src.s.first else src.first)
    requires last == (if src.HardSource? then src.s.Last() else src.last) && tm <= last * src.per
    ensures var k := src.CellFrom(tm); first <= k <= last && tm <= k * src.per && 0 < src.Beg() <= k * src.per
  {
    var per := src.per;
    CeilBounds(tm, per);
    FromFirst(tm, per, first);
    MulLt(CeilDiv(tm, per) - 1, last, per);
    MulLe(1, first, per);
    MulLe(first, src.CellFrom(tm), per);
  }

  lemma SoftForward<T>(log: seq<Stamp<T>>, per: int, k: int, eval: T)
    requires per > 0 && |log| > 0 && Sorted(log, per)
    ensures if k < log[0].tm / per then SoftAt(log, per, k, eval) == (eval, 0)
            else SoftAt(log, per, k, eval).1 >= k * per
  {
    if k < log[0].tm / per {
      NotFoundAt(log, per, k, eval);
    } else {
      SoftAtInCell(log, per, k, eval);
      FloorBounds(SoftAt(log, per, k, eval).1, per);
    }
  }

  /** Once the copy is not in a hole, it comes to none. */
  lemma NoHoleAfter<T>(src: Source<T>, a: int, b: int)
    requires src.Ok() && a <= b && !src.Hole(a)
    ensures !src.Hole(b)
  {
    if src.SoftSource? {
      FromFirst(a, src.per, src.first);
      FromFirst(b, src.per, src.first);
      CeilBounds(a, src.per);
      CeilBounds(b, src.per);
      MulLt(CeilDiv(a, src.per) - 1, CeilDiv(b, src.per), src.per);
    }
  }

  /** The copy comes to a hole, and to one again from the time it goes on with. */
  ghost predicate Circles<T>(src: Source<T>, ibeg: int, iend: int, step: int)
    requires src.Ok()
  {
    ibeg <= iend && src.Hole(ibeg) && step <= iend && src.Hole(step)
  }

  /** The rounds after which a copy that ends has ended. */
  function Rounds(ibeg: int, iend: int, step: int): nat {
    (if iend >= ibeg then iend - ibeg else 0) + (if iend >= step then iend - step else 0) + 2
  }

  lemma {:induction false} PosStays<T>(src: Source<T>, ibeg: int, iend: int, step: int, m: nat, n: nat)
    requires src.Ok() && m <= n && Pos(src, ibeg, iend, step, m) > iend
    ensures Pos(src, ibeg, iend, step, n) > iend
  {
    if m < n { PosStays(src, ibeg, iend, step, m, n - 1); }
  }

  lemma {:induction false} CirclesOn<T>(src: Source<T>, ibeg: int, iend: int, step: int, n: nat)
    requires src.Ok() && iend <= src.End() && Circles(src, ibeg, iend, step)
    ensures Pos(src, ibeg, iend, step, n) == if n == 0 then ibeg else step
  {
    if n > 0 {
      CirclesOn(src, ibeg, iend, step, n - 1);
      ReadsForward(src, if n == 1 then ibeg else step);
    }
  }

  /** From round `m` on, when there is no hole, every round goes on. */
  lemma {:induction false} GoesForward<T>(src: Source<T>, ibeg: int, iend: int, step: int, m: nat, n: nat)
    requires src.Ok() && iend <= src.End() && step > 0 && m <= n && !src.Hole(Pos(src, ibeg, iend, step, m))
    ensures var at, to := Pos(src, ibeg, iend, step, m), Pos(src, ibeg, iend, step, n);
            to > iend || (to >= at + n - m && !src.Hole(to))
  {
    if m < n {
      GoesForward(src, ibeg, iend, step, m, n - 1);
      var at := Pos(src, ibeg, iend, step, n - 1);
      if at <= iend {
        ReadsForward(src, at);
        NoHoleAfter(src, at, src.UpRead(at).tm + step);
      }
    }
  }

  lemma CopyEnds<T>(src: Source<T>, ibeg: int, iend: int, step: int)
    requires src.Ok() && iend <= src.End() && step > 0 && !Circles(src, ibeg, iend, step)
    ensures Pos(src, ibeg, iend, step, Rounds(ibeg, iend, step)) > iend
  {
    var n := Rounds(ibeg, iend, step);
    assert Pos(src, ibeg, iend, step, 0) == ibeg;
    if ibeg > iend {
      PosStays(src, ibeg, iend, step, 0, n);
    } else if !src.Hole(ibeg) {
      GoesForward(src, ibeg, iend, step, 0, n);
    } else {
      ReadsForward(src, ibeg);
      assert Pos(src, ibeg, iend, step, 1) == step;
      if step > iend { PosStays(src, ibeg, iend, step, 1, n); } else { GoesForward(src, ibeg, iend, step, 1, n); }
    }
  }

  /** A copy ends exactly if it does not circle. */
  lemma CopyEndsIff<T>(src: Source<T>, ibeg: int, iend: int, step: int)
    requires src.Ok() && iend <= src.End() && step > 0
    ensures (exists n: nat :: Pos(src, ibeg, iend, step, n) > iend) <==> !Circles(src, ibeg, iend, step)
  {
    if Circles(src, ibeg, iend, step) {
      forall n: nat ensures Pos(src, ibeg, iend, step, n) <= iend { CirclesOn(src, ibeg, iend, step, n); }
    } else {
      CopyEnds(src, ibeg, iend, step);
    }
  }

  /** Only soft grids can make a copy circle; one that is copied from its begin on, sample by sample, does exactly if
      its entries do not cover it. */
  lemma CirclesFromBeginIff<T>(src: Source<T>, iend: int)
    requires src.Ok() && src.Beg() <= iend <= src.End()
    ensures Circles(src, src.Beg(), iend, 1) <==> src.SoftSource? && !Covers(src.log, src.per, src.first, src.last)
  {
    if src.SoftSource? { MulLe(1, src.first, src.per); }
  }

  /** An instance: a ring of one entry, with the period 10, after the values 1 at 10 and 2 at 20. */
  lemma CircleExample()
    ensures var src := SoftSource(0, 10, [Stamp(20, 2)], 1, 2);
            src.Ok() && src.UpRead(10) == Stamp(0, 0) && Circles(src, 10, 20, 1)
  {
    var src := SoftSource(0, 10, [Stamp(20, 2)], 1, 2);
    assert CeilDiv(20, 10) == 2;
    assert src.CellFrom(10) == 1 && src.CellFrom(1) == 1;
    assert [Stamp(20, 2)][..0] == [];
  }

  // ----- the samples copied -----

  /** The samples of a source: its cells, or its entries. */
  ghost function Samples<T>(src: Source<T>): seq<Stamp<T>>
    requires src.Ok()
  {
    match src
    case HardSource(_, per, s) =>
      seq(|s.cells|, i requires 0 <= i < |s.cells| => Stamp((s.first + i) * per, s.cells[i]))
    case SoftSource(eval, per, log, first, last) =>
      seq(last - first + 1, i => var (v, t) := SoftAt(log, per, first + i, eval); Stamp(t, v))
    case FlowSource(_, stamps) => stamps
  }

  ghost function Index<T>(src: Source<T>, tm: int): nat
    requires src.Ok()
  {
    match src
    case HardSource(_, _, s) => src.CellFrom(tm) - s.first
    case SoftSource(_, _, _, first, _) => src.CellFrom(tm) - first
    case FlowSource(_, stamps) => IndexFrom(stamps, tm)
  }

  /** Every cell of the source has a value. */
  ghost predicate Whole<T>(src: Source<T>)
    requires src.Ok()
  {
    src.SoftSource? ==> Covers(src.log, src.per, src.first, src.last)
  }

  /** A read gives one of the samples, not before the asked time. */
  lemma ReadIsSample<T>(src: Source<T>, tm: int)
    requires src.Ok() && Whole(src) && tm <= src.End()
    ensures var s, i := Samples(src), Index(src, tm); 0 <= i < |s| && src.UpRead(tm) == s[i] && tm <= s[i].tm
  {
    ReadsForward(src, tm);
    match src {
      case HardSource(_, per, s) => GridForward(src, tm, s.first, s.Last());
      case SoftSource(_, per, _, first, last) => GridForward(src, tm, first, last);
      case FlowSource(eval, stamps) => FirstIsAt(stamps, tm, eval);
    }
  }

  /** From one sample the copy goes on to the next one. */
  ghost predicate GoesOn<T>(src: Source<T>, j: nat)
    requires src.Ok() && j < |Samples(src)|
  {
    var s := Samples(src);
    if j + 1 < |s| then s[j].tm < src.End() && Index(src, s[j].tm + 1) == j + 1 else s[j].tm >= src.End()
  }

  lemma NextSample<T>(src: Source<T>, j: nat)
    requires src.Ok() && Whole(src) && j < |Samples(src)|
    ensures GoesOn(src, j)
  {
    match src {
      case HardSource(_, _, _) => NextHard(src, j);
      case SoftSource(_, _, _, _, _) => NextSoft(src, j);
      case FlowSource(_, stamps) => if j + 1 < |stamps| { NextIndex(stamps, j); }
    }
  }

  lemma NextHard<T>(src: Source<T>, j: nat)
    requires src.Ok() && src.HardSource? && j < |Samples(src)|
    ensures GoesOn(src, j)
  {
    var tm := (src.s.first + j) * src.per;
    assert Samples(src)[j].tm == tm;
    NextInCells(tm, src.per, src.s.first + j, src.s.first, src.s.Last());
  }

  lemma NextSoft<T>(src: Source<T>, j: nat)
    requires src.Ok() && src.SoftSource? && Whole(src) && j < |Samples(src)|
    ensures GoesOn(src, j)
  {
    var tm := SoftAt(src.log, src.per, src.first + j, src.eval).1;
    assert Samples(src)[j].tm == tm;
    SoftAtInCell(src.log, src.per, src.first + j, src.eval);
    NextInCells(tm, src.per, src.first + j, src.first, src.last);
  }

  lemma NextInCells(tm: int, per: int, k: int, first: int, last: int)
    requires per > 0 && first <= k <= last && (tm == k * per || tm / per == k)
    ensures tm + 1 > first * per && CeilDiv(tm + 1, per) == k + 1 &&
            (if k < last then tm < last * per else tm >= last * per)
  {
    AlignedCell(k, per);
    FloorBounds(tm, per);
    MulNext(k, k + 1, per);
    MulLe(first, k, per);
    if k < last { MulLe(k + 1, last, per); }
    CeilIs(tm + 1, per, k + 1);
  }

  lemma {:induction false} NextIndex<T>(stamps: seq<Stamp<T>>, j: nat)
    requires Ascending(stamps) && j + 1 < |stamps|
    ensures IndexFrom(stamps, stamps[j].tm + 1) == j + 1
  {
    assert stamps[0].tm <= stamps[j].tm < stamps[j + 1].tm;
    if j > 0 { NextIndex(stamps[1..], j - 1); }
  }

  ghost predicate AllBefore<T>(s: seq<Stamp<T>>, i: int, m: int, tm: int) {
    0 <= i && m <= |s| && forall j :: i <= j < m ==> s[j].tm < tm
  }

  /** The copy sample by sample, as far as it has not ended: the samples in turn from the first one that it reads. */
  lemma {:induction false} CopiesInTurn<T>(src: Source<T>, ibeg: int, iend: int, n: nat)
    requires src.Ok() && Whole(src) && ibeg <= iend <= src.End()
    requires var s, i := Samples(src), Index(src, ibeg); i + n <= |s| && AllBefore(s, i, i + n - 1, iend)
    ensures var s, i := Samples(src), Index(src, ibeg);
            Trace(src, ibeg, iend, 1, n) == s[i..i + n] &&
            Pos(src, ibeg, iend, 1, n) == if n == 0 then ibeg else s[i + n - 1].tm + 1
  {
    var s, i := Samples(src), Index(src, ibeg);
    ReadIsSample(src, ibeg);
    if n > 0 {
      CopiesInTurn(src, ibeg, iend, n - 1);
      ReadInTurn(src, ibeg, iend, n);
      SliceOn(s, i, n);
    }
  }

  lemma SliceOn<T>(s: seq<T>, i: nat, n: nat)
    requires n > 0 && i + n <= |s|
    ensures s[i..i + n] == s[i..i + (n - 1)] + [s[i + n - 1]]
  {
  }

  lemma ReadInTurn<T>(src: Source<T>, ibeg: int, iend: int, n: nat)
    requires src.Ok() && Whole(src) && ibeg <= iend <= src.End() && n > 0
    requires var s, i := Samples(src), Index(src, ibeg); i + n <= |s| && (n > 1 ==> s[i + n - 2].tm < iend)
    ensures var s, i := Samples(src), Index(src, ibeg);
            var at := if n == 1 then ibeg else s[i + n - 2].tm + 1;
            at <= iend && src.UpRead(at) == s[i + n - 1]
  {
    var s, i := Samples(src), Index(src, ibeg);
    ReadIsSample(src, ibeg);
    if n > 1 {
      NextSample(src, i + n - 2);
      ReadIsSample(src, s[i + n - 2].tm + 1);
    }
  }

  lemma {:induction false} TraceStays<T>(src: Source<T>, ibeg: int, iend: int, step: int, m: nat, n: nat)
    requires src.Ok() && m <= n && Pos(src, ibeg, iend, step, m) > iend
    ensures Trace(src, ibeg, iend, step, n) == Trace(src, ibeg, iend, step, m)
  {
    if m < n {
      TraceStays(src, ibeg, iend, step, m, n - 1);
      PosStays(src, ibeg, iend, step, m, n - 1);
    }
  }

  /** A copy sample by sample writes exactly the samples from the first one that it reads to the first one at or after
      the end, as far as it has rounds. */
  lemma CopyIsSamples<T>(src: Source<T>, ibeg: int, iend: int, m: nat, n: nat)
    requires src.Ok() && Whole(src) && ibeg <= iend <= src.End()
    requires var s, i := Samples(src), Index(src, ibeg);
             i <= m < |s| && s[m].tm >= iend && AllBefore(s, i, m, iend)
    ensures var s, i := Samples(src), Index(src, ibeg);
            Trace(src, ibeg, iend, 1, n) == s[i..if n > m - i then m + 1 else i + n] &&
            (n > m - i ==> Pos(src, ibeg, iend, 1, n) > iend)
  {
    if n > m - Index(src, ibeg) { CopyToEnd(src, ibeg, iend, m, n); } else { CopiesInTurn(src, ibeg, iend, n); }
  }

  lemma CopyToEnd<T>(src: Source<T>, ibeg: int, iend: int, m: nat, n: nat)
    requires src.Ok() && Whole(src) && ibeg <= iend <= src.End()
    requires var s, i := Samples(src), Index(src, ibeg);
             i <= m < |s| && n > m - i && s[m].tm >= iend && AllBefore(s, i, m, iend)
    ensures Trace(src, ibeg, iend, 1, n) == Samples(src)[Index(src, ibeg)..m + 1] && Pos(src, ibeg, iend, 1, n) > iend
  {
    var i := Index(src, ibeg);
    CopiesInTurn(src, ibeg, iend, m - i + 1);
    TraceStays(src, ibeg, iend, 1, m - i + 1, n);
    PosStays(src, ibeg, iend, 1, m - i + 1, n);
  }

  /** There is such a sample. */
  lemma {:induction false} FirstAtOrAfter<T>(s: seq<Stamp<T>>, i: nat, tm: int) returns (m: nat)
    requires i < |s| && s[|s| - 1].tm >= tm
    ensures i <= m < |s| && s[m].tm >= tm && AllBefore(s, i, m, tm)
    decreases |s| - i
  {
    m := i;
    if s[i].tm < tm { m := FirstAtOrAfter(s, i + 1, tm); }
  }

  // ----- longer steps -----

  ghost predicate InGrid<T>(src: Source<T>, k: int)
    requires src.Ok() && !src.FlowSource?
  {
    if src.HardSource? then src.s.Has(k) else src.first <= k <= src.last
  }

  /** The sample of a cell of a grid. */
  ghost function CellSample<T>(src: Source<T>, k: int): Stamp<T>
    requires src.Ok() && !src.FlowSource?
  {
    if src.HardSource? then Stamp(k * src.per, if src.s.Has(k) then src.s.Cell(k) else src.eval)
    else
      var (v, t) := SoftAt(src.log, src.per, k, src.eval);
      Stamp(t, v)
  }

  /** The cell that is read in a round: from the sample before it is a step on. */
  ghost function StrideCell<T>(src: Source<T>, k0: int, step: int, n: nat): int
    requires src.Ok() && !src.FlowSource?
  {
    if n == 0 then k0 else CeilDiv(CellSample(src, StrideCell(src, k0, step, n - 1)).tm + step, src.per)
  }

  /** The samples read in `n` rounds are those of the cells that are steps on, and `at` is the time come to. */
  ghost predicate InStrides<T>(src: Source<T>, ibeg: int, step: int, n: nat, read: seq<Stamp<T>>, at: int)
    requires src.Ok() && !src.FlowSource?
  {
    var k0 := src.CellFrom(ibeg);
    |read| == n && at == (if n == 0 then ibeg else read[n - 1].tm + step) &&
    forall i :: 0 <= i < n ==>
      InGrid(src, StrideCell(src, k0, step, i)) && read[i] == CellSample(src, StrideCell(src, k0, step, i))
  }

  /** With any step, as far as the copy has not ended, a round reads the sample of the cell that is a step on. */
  lemma {:induction false} StridedTrace<T>(src: Source<T>, ibeg: int, iend: int, step: int, n: nat)
    requires src.Ok() && !src.FlowSource? && ibeg <= iend <= src.End() && step > 0 && !src.Hole(ibeg)
    requires n > 0 ==> Pos(src, ibeg, iend, step, n - 1) <= iend
    ensures InStrides(src, ibeg, step, n, Trace(src, ibeg, iend, step, n), Pos(src, ibeg, iend, step, n))
  {
    if n > 0 {
      var at := Pos(src, ibeg, iend, step, n - 1);
      assert n > 1 ==> Pos(src, ibeg, iend, step, n - 2) <= iend;
      StridedTrace(src, ibeg, iend, step, n - 1);
      StrideAt(src, ibeg, iend, step, n - 1);
      GridSample(src, at);
    }
  }

  lemma StrideAt<T>(src: Source<T>, ibeg: int, iend: int, step: int, n: nat)
    requires src.Ok() && !src.FlowSource? && ibeg <= iend <= src.End() && step > 0 && !src.Hole(ibeg)
    requires Pos(src, ibeg, iend, step, n) <= iend && (n > 0 ==> Pos(src, ibeg, iend, step, n - 1) <= iend)
    requires InStrides(src, ibeg, step, n, Trace(src, ibeg, iend, step, n), Pos(src, ibeg, iend, step, n))
    ensures src.CellFrom(Pos(src, ibeg, iend, step, n)) == StrideCell(src, src.CellFrom(ibeg), step, n)
  {
    if n > 0 { StrideFrom(src, src.CellFrom(ibeg), step, n - 1, ibeg, iend); }
  }

  /** The time a step after a sample comes to the cell of the next round. */
  lemma StrideFrom<T>(src: Source<T>, k0: int, step: int, n: nat, ibeg: int, iend: int)
    requires src.Ok() && !src.FlowSource? && ibeg <= iend <= src.End() && step > 0 && !src.Hole(ibeg)
    requires k0 == src.CellFrom(ibeg) && Pos(src, ibeg, iend, step, n) <= iend
    requires Pos(src, ibeg, iend, step, n + 1) == CellSample(src, StrideCell(src, k0, step, n)).tm + step
    ensures src.CellFrom(Pos(src, ibeg, iend, step, n + 1)) == StrideCell(src, k0, step, n + 1)
  {
    var at := Pos(src, ibeg, iend, step, n);
    GoesForward(src, ibeg, iend, step, 0, n);
    ReadsForward(src, at);
  }

  lemma GridSample<T>(src: Source<T>, tm: int)
    requires src.Ok() && !src.FlowSource? && tm <= src.End()
    ensures InGrid(src, src.CellFrom(tm)) && src.UpRead(tm) == CellSample(src, src.CellFrom(tm))
  {
    if src.HardSource? { GridForward(src, tm, src.s.first, src.s.Last()); }
    else { GridForward(src, tm, src.first, src.last); }
  }

  /** How many cells a step comes to: the periods that it begins, counted from the place of the sample in its cell. */
  lemma StrideWidth<T>(src: Source<T>, k0: int, step: int, n: nat)
    requires src.Ok() && !src.FlowSource?
    ensures var k := StrideCell(src, k0, step, n);
            StrideCell(src, k0, step, n + 1) == k + CeilDiv(CellSample(src, k).tm - k * src.per + step, src.per)
  {
    var k := StrideCell(src, k0, step, n);
    CeilShift(CellSample(src, k).tm - k * src.per + step, k, src.per);
  }

  /** In a hard grid it is the same number of cells each time. */
  lemma {:induction false} HardStride<T>(src: Source<T>, k0: int, step: int, n: nat)
    requires src.Ok() && src.HardSource?
    ensures StrideCell(src, k0, step, n) == k0 + n * CeilDiv(step, src.per)
  {
    if n > 0 {
      HardStride(src, k0, step, n - 1);
      StrideWidth(src, k0, step, n - 1);
      MulNext(n - 1, n, CeilDiv(step, src.per));
    }
  }

  /** In a soft grid it can be one cell more, for a sample inside its cell. */
  lemma SoftStride<T>(src: Source<T>, k0: int, step: int, n: nat)
    requires src.Ok() && src.SoftSource? && StrideCell(src, k0, step, n) >= src.log[0].tm / src.per
    ensures var k, m := StrideCell(src, k0, step, n), CeilDiv(step, src.per);
            k + m <= StrideCell(src, k0, step, n + 1) <= k + m + 1
    ensures var k := StrideCell(src, k0, step, n);
            CellSample(src, k).tm == k * src.per ==> StrideCell(src, k0, step, n + 1) == k + CeilDiv(step, src.per)
  {
    var k := StrideCell(src, k0, step, n);
    var off := CellSample(src, k).tm - k * src.per;
    StrideWidth(src, k0, step, n);
    SoftAtInCell(src.log, src.per, k, src.eval);
    FloorBounds(CellSample(src, k).tm, src.per);
    MulNext(k, k + 1, src.per);
    assert 0 <= off < src.per;
    CeilBetween(step, off, src.per);
  }

  lemma CeilShift(a: int, k: int, per: int)
    requires per > 0
    ensures CeilDiv(a + k * per, per) == CeilDiv(a, per) + k
  {
    var q := CeilDiv(a, per);
    CeilBounds(a, per);
    assert (q + k) * per == q * per + k * per && (q + k - 1) * per == (q - 1) * per + k * per;
    CeilIs(a + k * per, per, q + k);
  }

  lemma CeilBetween(step: int, off: int, per: int)
    requires 0 <= off < per
    ensures CeilDiv(step, per) <= CeilDiv(off + step, per) <= CeilDiv(step, per) + 1
  {
    CeilBounds(step, per);
    CeilBounds(off + step, per);
    MulLt(CeilDiv(step, per) - 1, CeilDiv(off + step, per), per);
    MulNext(CeilDiv(step, per), CeilDiv(step, per) + 1, per);
    MulLt(CeilDiv(off + step, per) - 1, CeilDiv(step, per) + 1, per);
  }
}
