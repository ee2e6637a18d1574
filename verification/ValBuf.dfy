/** The value buffer: one container with three forms behind the same reads and writes. The hard grid is a ring of
    cells, the soft grid a ring of changes, the flow form a list sorted by time. */
module ValBuf {
  import opened Series
  import opened Ring
  import opened RunLength
  import opened Flow
  import opened BufSpec

  const HALF_DIV_MIN_WIN := 5

  class TBuf<T(==)> {
    const eval: T
    var size: int
    var per: int
    var hrdGrd: bool
    var fillLast: bool
    var end: int
    var beg: int
    var cur: int
    var evalCnt: int
    var grid: seq<T>
    var stamps: seq<Stamp<T>>
    /** The numbers of the cells at `beg` and `end`, in the grid forms. */
    ghost var first: int
    ghost var last: int

    // ----- state -----

    ghost predicate OnGrid()
      reads this
    {
      per > 0 && first > 0 && beg == first * per && end == last * per
    }

    /** The shape of the hard grid; it may be empty while the first write is under way. */
    ghost predicate HardOk()
      reads this
    {
      OnGrid() && RingOk(|grid|, cur, size) && last == first + |grid| - 1 && evalCnt == multiset(grid)[eval]
    }

    /** The shape of the soft grid. */
    ghost predicate SoftOk()
      reads this
    {
      OnGrid() && RingOk(|stamps|, cur, size) && InCells(Log(stamps, cur), per, first, last)
    }

    /** The shape of the flow form; it may be empty while the first write is under way. */
    ghost predicate FlowOk()
      reads this
    {
      per == 0 && size >= 0 && cur == 0 && Ascending(stamps) && (size > 0 ==> |stamps| <= size) &&
      (forall i :: 0 <= i < |stamps| ==> stamps[i].tm != 0) &&
      (|stamps| > 0 ==> beg == stamps[0].tm && end == stamps[|stamps| - 1].tm)
    }

    ghost predicate Empty()
      reads this
    {
      if hrdGrd then grid == [] else stamps == []
    }

    /** The invariant of a buffer: an empty one has zero times, any other one has the shape of its form. */
    ghost predicate Valid()
      reads this
    {
      (hrdGrd ==> per > 0) && per >= 0 && size >= 0 &&
      if Empty() then beg == 0 && end == 0 && cur == 0 && evalCnt == 0
      else if hrdGrd then HardOk()
      else if per > 0 then SoftOk()
      else FlowOk()
    }

    ghost function Soft(): Changes<T>
      reads this
      requires RingOk(|stamps|, cur, size)
    {
      Changes(Log(stamps, cur), 0, cur, first, evalCnt)
    }

    ghost predicate Holds(c: Changes<T>)
      reads this
    {
      c.Ok(size) && |stamps| == |c.full| - c.gone && cur == c.cur && Log(stamps, cur) == c.full[c.gone..] &&
      first == c.first && evalCnt == c.evals
    }

    /** The entries cover the history, and no write can break that. */
    ghost predicate Healthy()
      reads this
      requires SoftOk()
    {
      Well(Log(stamps, cur), cur, size, per, first, last)
    }

    ghost function SoftFill(): T
      reads this
      requires RingOk(|stamps|, cur, size)
    {
      if fillLast && stamps != [] then Log(stamps, cur)[|stamps| - 1].val else eval
    }

    /** The size limit was never raised under the contents of the hard grid. */
    ghost predicate Tight()
      reads this
    {
      cur == |grid| || |grid| == size
    }

    ghost function HardHistory(): History<T>
      reads this
      requires HardOk()
    {
      History(first, Log(grid, cur))
    }

    ghost function SoftHistory(): History<T>
      reads this
      requires SoftOk()
    {
      Expand(Log(stamps, cur), per, first, last, eval)
    }

    constructor (ieval: T, isz: int, ipr: int, hard: bool, last: bool)
      requires isz >= 0 && ipr >= 0 && (hard ==> ipr > 0)
      ensures Valid() && Empty()
      ensures eval == ieval && size == isz && per == ipr && hrdGrd == hard && fillLast == last
    {
      eval, size, per, hrdGrd, fillLast := ieval, isz, ipr, hard, last;
      end, beg, cur, evalCnt, grid, stamps := 0, 0, 0, 0, [], [];
    }

    // ----- hard grid -----

    /** A write to the hard grid. It is refused exactly if its cell is older than the window. Otherwise the history
        with the value stored is kept, less the oldest cells that the ring has to drop. */
    method SetHard(value: T, tm: int) returns (ok: bool)
      requires hrdGrd && HardOk()
      requires |grid| == 0 ==> tm / per == first
      modifies `end, `beg, `cur, `evalCnt, `grid, `first, `last
      ensures HardOk() && |grid| > 0
      ensures HardWrite(old(HardHistory()), old(cur), size, per, old(HardFill()), value, tm, ok, HardHistory())
      ensures old(Tight()) ==> Tight()
      ensures var s, r := old(HardHistory()), HardHistory();
              (ok <==> |s.cells| == 0 || tm > (s.first - 1) * per) && (!ok ==> r == s) &&
              (ok ==>
                (|s.cells| > 0 ==> r.first >= s.first && (size == 0 ==> r.first == s.first)) &&
                (forall j :: s.Takes(tm, per, j) ==> r.Has(j)) &&
                forall j :: r.Has(j) ==>
                  if s.Takes(tm, per, j) then r.Cell(j) == value
                  else if s.Has(j) then r.Cell(j) == s.Cell(j)
                  else |s.cells| > 0 && s.Last() < j && j * per <= tm &&
                       r.Cell(j) == if fillLast then s.Cell(s.Last()) else eval)
    {
      ghost var h, fill, cur0 := HardHistory(), HardFill(), cur;
      var npos := TruncDiv(tm - end, per);
      PastLast(h, tm, per, end, first);
      ok := StoreHard(value, npos);
      HardWriteIs(h, cur0, size, per, fill, value, tm, npos, ok, HardHistory());
      HardSeen(h, cur0, size, per, fillLast, eval, value, tm, ok, HardHistory());
    }

    ghost function HardFill(): T
      reads this
      requires HardOk()
    {
      HardHistory().Fill(fillLast, eval)
    }

    /** The same write with its distance from the last cell known. */
    method StoreHard(value: T, npos: int) returns (ok: bool)
      requires hrdGrd && HardOk()
      requires |grid| == 0 ==> npos == 1
      modifies `end, `beg, `cur, `evalCnt, `grid, `first, `last
      ensures HardOk()
      ensures old(Tight()) ==> Tight()
      ensures ok <==> npos > -old(|grid|)
      ensures !ok ==> HardHistory() == old(HardHistory())
      ensures |grid| > 0
      ensures ok && npos <= 0 ==>
                var cells := old(Log(grid, cur));
                HardHistory() == History(old(first), cells[|cells| - 1 + npos := value])
      ensures ok && npos > 0 ==>
                var full := old(Log(grid, cur)) + Rep(old(HardFill()), npos - 1) + [value];
                var d := Dropped(old(|grid|), old(cur), size, npos);
                d <= |full| && HardHistory() == History(old(first) + d, full[d..])
    {
      // Set value
      if npos <= 0 && -npos < |grid| {
        UpdateHard(value, npos);
        return true;
      } else if npos < 0 {
        return false;
      } else {
        var fillVl := eval;
        if fillLast && |grid| != 0 {
          LogFromNewest(grid, cur, 0);
          fillVl := if cur != 0 then grid[cur - 1] else grid[|grid| - 1];
        }
        assert fillVl == HardFill();
        AppendHard(value, fillVl, npos);
        return true;
      }
    }

    /** A write into the window. */
    method UpdateHard(value: T, npos: int)
      requires HardOk() && -|grid| < npos <= 0
      modifies `evalCnt, `grid
      ensures HardOk() && |grid| == old(|grid|)
      ensures Log(grid, cur) == old(Log(grid, cur))[|grid| - 1 + npos := value]
    {
      var wcur := cur + npos - 1;
      if wcur < 0 { wcur := |grid| + wcur; }
      LogUpdate(grid, cur, -npos, value);
      UpdateCount(grid, wcur, value, eval);
      if value == eval { evalCnt := evalCnt + 1; }
      if grid[wcur] == eval { evalCnt := evalCnt - 1; }
      grid := grid[wcur := value];
    }

    /** The ring holds the cells `full` but for the `gone` oldest ones. */
    ghost predicate HoldsCells(full: seq<T>, gone: int)
      reads this
    {
      RingOk(|grid|, cur, size) && 0 <= gone <= |full| && |grid| == |full| - gone && Log(grid, cur) == full[gone..]
    }

    /** The append loop of the hard grid. */
    method AppendHard(value: T, fillVl: T, npos0: int)
      requires HardOk() && npos0 > 0
      modifies `end, `beg, `cur, `evalCnt, `grid, `first, `last
      ensures HardOk() && |grid| > 0 && last == old(last) + npos0
      ensures var d := Dropped(old(|grid|), old(cur), size, npos0);
              first == old(first) + d &&
              HoldsCells(old(Log(grid, cur)) + Rep(fillVl, npos0 - 1) + [value], d)
      ensures old(Tight()) ==> Tight()
    {
      var npos := npos0;
      ghost var base, n, cur0, all := Log(grid, cur), |grid|, cur, SizeAfter(|grid|, cur, size, npos0);
      ghost var first0, last0, tight := first, last, Tight();
      assert base[0..] == base;
      while npos != 0
        invariant AppendedSoFar(base, fillVl, value, npos0, npos, first0, last0, all, tight)
        decreases npos
      {
        npos := npos - 1;
        AppendCell(value, fillVl, npos0, npos, base, first0, last0, all, tight);
      }
      SizeAfterDrops(n, cur0, size, npos0);
    }

    /** The append loop with `npos` of its `npos0` cells to come: `first0` and `last0` are the window it started
        with, `all` is the number of cells it ends with. */
    ghost predicate AppendedSoFar(base: seq<T>, fillVl: T, value: T, npos0: int, npos: int, first0: int, last0: int,
                                  all: int, tight: bool)
      reads this
    {
      && HardOk() && 0 <= npos <= npos0 && (npos < npos0 ==> |grid| > 0) && (tight ==> Tight())
      && HoldsCells(Appending(base, fillVl, value, npos0, npos), first - first0)
      && last == last0 + npos0 - npos && all == SizeAfter(|grid|, cur, size, npos)
    }

    /** One round of the append loop. */
    method AppendCell(value: T, fillVl: T, npos0: int, npos: int, ghost base: seq<T>, ghost first0: int,
                      ghost last0: int, ghost all: int, ghost tight: bool)
      requires npos >= 0 && AppendedSoFar(base, fillVl, value, npos0, npos + 1, first0, last0, all, tight)
      modifies `end, `beg, `cur, `evalCnt, `grid, `first, `last
      ensures AppendedSoFar(base, fillVl, value, npos0, npos, first0, last0, all, tight)
    {
      AppendingNext(base, fillVl, value, npos0, npos + 1);
      PutHard(if npos != 0 then fillVl else value, Appending(base, fillVl, value, npos0, npos + 1), first0);
    }

    /** One cell is written at the cursor, and the end moves one period. */
    method PutHard(w_val: T, ghost full: seq<T>, ghost first0: int)
      requires HardOk() && HoldsCells(full, first - first0)
      modifies `end, `beg, `cur, `evalCnt, `grid, `first, `last
      ensures HardOk() && last == old(last) + 1 && HoldsCells(full + [w_val], first - first0)
      ensures |grid| == old(if cur < |grid| then |grid| else |grid| + 1) && cur == old(NextCur(cur, size))
      ensures old(Tight()) ==> Tight()
    {
      ghost var put, next := PutAt(grid, cur, w_val), NextCur(cur, size);
      PutInFull(grid, cur, size, full, first - first0, w_val);
      PutCount(grid, cur, w_val, eval);
      MulNext(first, first + 1, per);
      MulNext(last, last + 1, per);
      // Set new value
      if w_val == eval { evalCnt := evalCnt + 1; }
      if cur >= |grid| {
        grid := grid + [w_val];
      } else {
        beg := beg + per;
        first := first + 1;
        if grid[cur] == eval { evalCnt := evalCnt - 1; }
        grid := grid[cur := w_val];
      }
      assert grid == put;
      // Update cursor
      cur := cur + 1;
      if cur >= size && size != 0 { cur := 0; }
      assert cur == next;
      // Update end time
      end := end + per;
      last := last + 1;
    }

    /** A read inside the hard grid: the first cell at or after the time, or the last one at or before it. */
    method GetHard(tm: int, up: bool) returns (r: T, otm: int)
      requires hrdGrd && per > 0 && beg <= tm <= end && if |grid| > 0 then HardOk() else beg == 0 && end == 0
      ensures |grid| == 0 ==> r == eval && otm == 0
      ensures |grid| > 0 ==>
                var k := if up then CeilDiv(tm, per) else tm / per;
                HardHistory().Has(k) && r == HardHistory().Cell(k) && otm == k * per
    {
      if |grid| > 0 {
        DistanceInCells(tm, first, per);
        DistanceInCells(tm, last, per);
        CellInside(tm, up);
      }
      var npos := if up then TruncDiv(end - tm, per) else |grid| - 1 - TruncDiv(tm - beg, per);
      if npos < 0 || npos >= |grid| { return eval, 0; }
      LogFromNewest(grid, cur, npos);
      Distribute(last, npos, per);
      r := grid[if cur - npos - 1 >= 0 then cur - npos - 1 else |grid| + (cur - npos - 1)];
      otm := end - npos * per;
    }

    lemma OutOfHistory(tm: int, up: bool)
      requires Valid() && !Empty() && per > 0 && Beyond(tm, up)
      ensures |Contents().cells| > 0 && Answers(Contents(), per, eval, tm, up, eval, tm)
    {
    }

    lemma CellInside(tm: int, up: bool)
      requires OnGrid() && beg <= tm <= end
      ensures first <= (if up then CeilDiv(tm, per) else tm / per) <= last
    {
      FloorBounds(tm, per);
      CeilBounds(tm, per);
      MulLt(CeilDiv(tm, per) - 1, last, per);
      MulLt(first, tm / per + 1, per);
      MulLtOrEq(first, CeilDiv(tm, per), per);
      MulLtOrEq(tm / per, last, per);
    }

    // ----- soft grid -----

    /** One entry is written at the cursor; the begin moves when the oldest entry has to go. */
    method PutSoft(e: Stamp<T>, ghost c: Changes<T>)
      requires Holds(c) && per > 0 && beg == first * per
      modifies `beg, `cur, `evalCnt, `stamps, `first
      ensures Holds(c.Put(size, CellOf(per), eval, e)) && beg == first * per
    {
      PutInRing(stamps, cur, size, per, c, eval, e);
      if e.val == eval { evalCnt := evalCnt + 1; }
      if cur >= |stamps| {
        stamps := stamps + [e];
      } else {
        beg := if cur + 1 >= |stamps| then stamps[0].tm else stamps[cur + 1].tm;
        first := beg / per;
        Commute(first, per);
        beg := per * (beg / per);
        if stamps[cur].val == eval { evalCnt := evalCnt - 1; }
        stamps := stamps[cur := e];
      }
      // Update cursor
      cur := cur + 1;
      if cur >= size && size != 0 { cur := 0; }
    }

    /** An entry is written unless it repeats the value of the newest one. */
    method WriteSoft(b_el: Stamp<T>, ghost c: Changes<T>)
      requires Holds(c) && per > 0 && beg == first * per && (stamps == [] ==> c.full == [])
      modifies `beg, `cur, `evalCnt, `stamps, `first
      ensures Holds(c.Write(size, CellOf(per), eval, b_el)) && beg == first * per
    {
      if |stamps| != 0 { LogFromNewest(stamps, cur, 0); }
      if |stamps| == 0 || (cur != 0 && stamps[cur - 1].val != b_el.val) ||
         (cur == 0 && stamps[|stamps| - 1].val != b_el.val)
      {
        PutSoft(b_el, c);
      }
    }

    /** An append to the soft grid. Only the first filler can differ from the entry before it, so only that one is
        ever stored. */
    method AppendSoft(value: T, tm: int, npos: int) returns (ghost r: Changes<T>)
      requires OnGrid() && RingOk(|stamps|, cur, size) && npos > 0 && (|stamps| == 0 ==> npos == 1)
      modifies `end, `beg, `cur, `evalCnt, `stamps, `first, `last
      ensures per > 0 && beg == first * per && end == last * per && last == old(last) + npos && Holds(r)
      ensures r == AppendChanges(old(Soft()), size, CellOf(per), eval, old(Stamp(end + per, SoftFill())),
                                 Stamp(tm, value), npos > 1)
    {
      var fillVl := FillValue();
      ghost var s, e := Soft(), Stamp(end + per, fillVl);
      ghost var filled := if npos > 1 then s.Write(size, CellOf(per), eval, e) else s;
      FillerWritten(s, size, CellOf(per), eval, e);
      assert s.full[0..] == s.full;
      AppendSoftLoop(value, tm, npos, fillVl, s, filled);
      r := filled.Write(size, CellOf(per), eval, Stamp(tm, value));
    }

    method FillValue() returns (fillVl: T)
      requires RingOk(|stamps|, cur, size)
      ensures fillVl == SoftFill()
    {
      fillVl := eval;
      if fillLast && |stamps| != 0 {
        LogFromNewest(stamps, cur, 0);
        fillVl := if cur != 0 then stamps[cur - 1].val else stamps[|stamps| - 1].val;
      }
    }

    method AppendSoftLoop(value: T, tm: int, npos: int, fillVl: T, ghost s: Changes<T>, ghost filled: Changes<T>)
      requires npos > 0 && per > 0 && beg == first * per && end == last * per && Holds(s) && s.gone == 0
      requires filled == if npos > 1 then s.Write(size, CellOf(per), eval, Stamp(end + per, fillVl)) else s
      requires npos > 1 ==> !Differs(filled.full, fillVl) && filled.gone < |filled.full|
      modifies `end, `beg, `cur, `evalCnt, `stamps, `first, `last
      ensures beg == first * per && end == last * per && last == old(last) + npos
      ensures Holds(filled.Write(size, CellOf(per), eval, Stamp(tm, value)))
    {
      ghost var w := filled.Write(size, CellOf(per), eval, Stamp(tm, value));
      ghost var b0 := Stamp(end + per, fillVl);
      var c_npos := npos;
      while c_npos != 0
        invariant 0 <= c_npos <= npos && per > 0 && beg == first * per && end == last * per
        invariant last == old(last) + npos - c_npos && (c_npos == npos ==> end == old(end))
        invariant Holds(Filled(s, filled, w, c_npos, npos))
        decreases c_npos
      {
        c_npos := c_npos - 1;
        // Prepare data
        var b_el := if c_npos != 0 then Stamp(end + (npos - c_npos) * per, fillVl) else Stamp(tm, value);
        assert c_npos != 0 && c_npos == npos - 1 ==> b_el == b0;
        FilledNext(s, filled, w, c_npos + 1, npos, size, CellOf(per), eval, b_el, fillVl);
        // Check previous value and write
        WriteSoft(b_el, Filled(s, filled, w, c_npos + 1, npos));
        MulNext(last, last + 1, per);
        // Updating the end time
        end := end + per;
        last := last + 1;
      }
    }

    /** A write into the last cell of the soft grid. */
    method UpdateSoft(value: T) returns (ghost r: Changes<T>)
      requires OnGrid() && RingOk(|stamps|, cur, size) && |stamps| > 0
      modifies `beg, `cur, `evalCnt, `stamps, `first
      ensures per > 0 && beg == first * per && Holds(r)
      ensures var s, e := old(Soft()), Stamp(end, value);
              r == if TruncDiv(s.full[|s.full| - 1].tm - end, per) == 0 then s.(full := s.full[|s.full| - 1 := e])
                   else s.Put(size, CellOf(per), eval, e)
    {
      LogFromNewest(stamps, cur, 0);
      ghost var s := Soft();
      assert s.full[0..] == s.full;
      var b_el := Stamp(end, value);
      var h_el := if cur != 0 then cur - 1 else |stamps| - 1;
      if TruncDiv(stamps[h_el].tm - end, per) != 0 {
        // Write new value
        PutSoft(b_el, s);
        r := s.Put(size, CellOf(per), eval, b_el);
      } else {
        ReplaceSoft(h_el, b_el, s);
        r := s.(full := s.full[|s.full| - 1 := b_el]);
      }
    }

    method ReplaceSoft(h_el: int, b_el: Stamp<T>, ghost s: Changes<T>)
      requires RingOk(|stamps|, cur, size) && |stamps| > 0 && s == Soft()
      requires h_el == if cur != 0 then cur - 1 else |stamps| - 1
      modifies `stamps
      ensures Holds(s.(full := s.full[|s.full| - 1 := b_el]))
    {
      LogUpdate(stamps, cur, 0, b_el);
      stamps := stamps[h_el := b_el];
      assert s.full[|s.full| - 1 := b_el][0..] == s.full[|s.full| - 1 := b_el];
    }

    /** A write to the soft grid with its distance from the last cell known. */
    method StoreSoft(value: T, tm: int, npos: int) returns (ghost r: Changes<T>)
      requires OnGrid() && RingOk(|stamps|, cur, size) && npos >= 0 && (|stamps| == 0 ==> npos == 1)
      modifies `end, `beg, `cur, `evalCnt, `stamps, `first, `last
      ensures per > 0 && beg == first * per && end == last * per && last == old(last) + npos
      ensures Holds(r)
      ensures r == AfterWrite(old(Soft()), size, per, eval, old(last), npos, tm, value, old(SoftFill()))
    {
      if npos == 0 {
        r := UpdateSoft(value);
      } else {
        assert end + per == (last + 1) * per by { MulNext(last, last + 1, per); }
        r := AppendSoft(value, tm, npos);
      }
    }

    /** A write to the soft grid. It is refused exactly if its cell is before the last one; otherwise the ring holds
        what the write makes of its entries. */
    method SetSoft(value: T, tm: int, ghost c: Changes<T>, ghost last0: int)
        returns (ok: bool, ghost npos: int, ghost r: Changes<T>)
      requires !hrdGrd && SoftOk() && c == Soft() && last0 == last
      requires |stamps| == 0 ==> tm / per == first
      modifies `end, `beg, `cur, `evalCnt, `stamps, `first, `last
      ensures npos == Past(Expand(c.full, per, c.first, last0, eval), tm, per) && (ok <==> npos >= 0)
      ensures !ok ==> OnGrid() && stamps == old(stamps) && cur == c.cur && first == c.first && last == last0
      ensures ok ==> per > 0 && beg == first * per && end == last * per && last == last0 + npos &&
                     Holds(r) &&
                     r == AfterWrite(c, size, per, eval, last0, npos, tm, value,
                                     if fillLast && |c.full| > 0 then c.full[|c.full| - 1].val else eval)
    {
      var n := CellsPast(tm);
      npos := n;
      if n < 0 {
        return false, npos, c;
      }
      r := StoreSoft(value, tm, n);
      ok := true;
    }

    /** The truncated distance of a time from the last cell. */
    method CellsPast(tm: int) returns (npos: int)
      requires SoftOk()
      requires |stamps| == 0 ==> tm / per == first
      ensures npos == Past(SoftHistory(), tm, per) && (|stamps| == 0 ==> npos == 1)
    {
      npos := TruncDiv(tm - end, per);
      ghost var h := SoftHistory();
      assert |h.cells| == last - first + 1 && (|stamps| == 0 ==> |Log(stamps, cur)| == 0 && last == first - 1);
      PastLast(h, tm, per, end, first);
    }

    /** A read inside the soft grid: the newest entry not after the asked cell. Its time is that of the entry if the
        entry lies in that cell, and the start of the cell otherwise. */
    method GetSoft(tm: int, up: bool) returns (r: T, otm: int)
      requires !hrdGrd && SoftOk() && |stamps| > 0 && beg <= tm <= end
      ensures var k := if up then CeilDiv(tm, per) else tm / per;
              first <= k <= last && (r, otm) == SoftAt(Log(stamps, cur), per, k, eval)
    {
      ghost var k := if up then CeilDiv(tm, per) else tm / per;
      var npos := TruncDiv(if up then end - tm else tm - beg, per);
      CellInside(tm, up);
      assert npos == if up then last - k else k - first by {
        DistanceInCells(tm, first, per);
        DistanceInCells(tm, last, per);
      }
      assert k <= tm / per + 1 by { CeilNearFloor(tm, per); }
      var c_end := HalfDivide(if cur != 0 then cur - 1 else |stamps| - 1, tm);
      r, otm := Prove(c_end, npos, up, k);
    }

    /** The scan of the soft grid: from an entry back to the oldest one, to the first that is not after the cell. */
    method Prove(c_end0: int, npos: int, up: bool, ghost k: int) returns (r: T, otm: int)
      requires SoftOk() && |stamps| > 0 && npos == if up then last - k else k - first
      requires 0 <= InLog(c_end0) < |stamps| && c_end0 == InRing(InLog(c_end0))
      requires AllAfter(Log(stamps, cur), per, k, InLog(c_end0))
      ensures (r, otm) == SoftAt(Log(stamps, cur), per, k, eval)
    {
      ghost var log := Log(stamps, cur);
      var c_cur := if cur != 0 then cur - 1 else |stamps| - 1;
      var c_end := c_end0;
      ghost var l := InLog(c_end);
      while true
        invariant 0 <= l < |stamps| && c_end == InRing(l) && AllAfter(log, per, k, l)
        decreases l
      {
        var w_pos := Distance(c_end, up, l);
        ProveAt(log, per, first, last, k, eval, l, npos, up, w_pos);
        if if up then w_pos >= npos else w_pos <= npos {
          return stamps[c_end].val, if w_pos == npos then stamps[c_end].tm
                                    else if up then end - npos * per else beg + npos * per;
        }
        c_end := StepBack(c_end, c_cur, l);
        if c_end == c_cur { break; }
        l := l - 1;
      }
      NotFoundAt(log, per, k, eval);
      return eval, 0;
    }

    /** The distance of an entry from the last cell, or from the first one. */
    method Distance(c_end: int, up: bool, ghost l: int) returns (w_pos: int)
      requires SoftOk() && 0 <= l < |stamps| && c_end == InRing(l)
      ensures stamps[c_end] == Log(stamps, cur)[l]
      ensures w_pos == if up then last - Log(stamps, cur)[l].tm / per else Log(stamps, cur)[l].tm / per - first
    {
      AlignedCell(first, per);
      AlignedCell(last, per);
      w_pos := if up then end / per - stamps[c_end].tm / per else stamps[c_end].tm / per - beg / per;
    }

    /** The place before in the ring; the newest entry comes before the oldest one. */
    method StepBack(c_end: int, c_cur: int, ghost l: int) returns (prev: int)
      requires RingOk(|stamps|, cur, size) && 0 <= l < |stamps| && c_end == InRing(l) && c_cur == InRing(|stamps| - 1)
      ensures (prev == c_cur <==> l == 0) && (l > 0 ==> prev == InRing(l - 1))
    {
      prev := c_end - 1;
      if prev < 0 { prev := |stamps| - 1; }
    }

    /** The place in the ring of an entry of the log, and back. */
    ghost function InRing(l: int): int
      reads this
    {
      if cur + l < |stamps| then cur + l else cur + l - |stamps|
    }

    ghost function InLog(c: int): int
      reads this
    {
      if c < cur then c + |stamps| - cur else c - cur
    }

    /** The half divider: it steps back from the newest entry while that stays after the asked time. */
    method HalfDivide(c_cur: int, tm: int) returns (c_end: int)
      requires RingOk(|stamps|, cur, size) && per > 0 && |stamps| > 0 && Sorted(Log(stamps, cur), per)
      requires c_cur == InRing(|stamps| - 1)
      ensures 0 <= InLog(c_end) < |stamps| && c_end == InRing(InLog(c_end))
      ensures forall j :: InLog(c_end) < j < |stamps| ==> Log(stamps, cur)[j].tm / per > tm / per + 1
    {
      c_end := c_cur;
      ghost var log, l := Log(stamps, cur), |stamps| - 1;
      var d_win := |stamps| / 2;
      while d_win > HALF_DIV_MIN_WIN
        invariant 0 <= l < |stamps| && c_end == InRing(l) && |stamps| - 1 - l + 2 * d_win <= |stamps| && d_win >= 0
        invariant forall j :: l < j < |stamps| ==> log[j].tm / per > tm / per + 1
      {
        var c_cnext := c_end - d_win;
        if c_cnext < 0 { c_cnext := c_cnext + |stamps|; }
        assert c_cnext == InRing(l - d_win) && stamps[c_cnext] == log[l - d_win];
        if tm / per < stamps[c_cnext].tm / per { c_end := c_cnext; l := l - d_win; }
        d_win := d_win / 2;
      }
    }

    // ----- flow -----

    /** A write to the flow form: the map from time to value gets one key added or replaced, and loses its oldest key
        when a new one does not fit. A new oldest key that does not fit is refused. */
    method SetFlow(value: T, tm: int) returns (ok: bool)
      requires !hrdGrd && FlowOk() && tm != 0 && (|stamps| == 0 ==> beg == tm)
      modifies `end, `beg, `evalCnt, `stamps
      ensures FlowOk() && (ok ==> |stamps| > 0)
      ensures ok <==> !(tm < old(beg) && size != 0 && |old(stamps)| >= size)
      ensures !ok ==> unchanged(this)
      ensures ok ==> AsMap(stamps) == FlowStore(old(AsMap(stamps)), size, old(|stamps|), old(beg), tm, value)
      ensures ok ==> evalCnt - Evals(stamps, eval) == old(evalCnt - Evals(stamps, eval)) -
                                                      if value == eval && tm in old(AsMap(stamps)) then 1 else 0
    {
      var b_el := Stamp(tm, value);
      if tm < beg && size != 0 && |stamps| >= size { return false; }
      var c_pos := PlaceFlow(tm);
      if c_pos >= |stamps| || tm < stamps[c_pos].tm {
        InsertedFlow(stamps, size, c_pos, b_el, eval);
        InsertFlow(b_el, c_pos);
      } else {
        ReplaceFlow(b_el, c_pos);
      }
      return true;
    }

    method ReplaceFlow(b_el: Stamp<T>, c_pos: nat)
      requires FlowOk() && c_pos < |stamps| && stamps[c_pos].tm == b_el.tm
      modifies `evalCnt, `stamps
      ensures FlowOk() && |stamps| > 0 && b_el.tm in old(AsMap(stamps))
      ensures AsMap(stamps) == old(AsMap(stamps))[b_el.tm := b_el.val]
      ensures evalCnt - Evals(stamps, eval) == old(evalCnt - Evals(stamps, eval)) - if b_el.val == eval then 1 else 0
    {
      AsMapEntries(stamps);
      ReplaceIsUpdate(stamps, c_pos, b_el);
      EvalsReplace(stamps, c_pos, b_el, eval);
      if stamps[c_pos].val == eval { evalCnt := evalCnt - 1; }
      stamps := stamps[c_pos := b_el];
    }

    /** The first entry not before a time. */
    method PlaceFlow(tm: int) returns (c_pos: nat)
      requires Ascending(stamps)
      ensures c_pos <= |stamps|
      ensures c_pos > 0 ==> stamps[c_pos - 1].tm < tm
      ensures c_pos < |stamps| ==> tm <= stamps[c_pos].tm
    {
      c_pos := 0;
      // Half divider
      var d_win := |stamps| / 2;
      while d_win > HALF_DIV_MIN_WIN
        invariant d_win >= 0 && c_pos + 2 * d_win <= |stamps|
        invariant c_pos > 0 ==> c_pos < |stamps| && stamps[c_pos].tm < tm
      {
        if tm > stamps[c_pos + d_win].tm { c_pos := c_pos + d_win; }
        d_win := d_win / 2;
      }
      assert c_pos > 0 ==> stamps[c_pos - 1].tm < tm;
      // Scan last window
      while c_pos < |stamps| && tm > stamps[c_pos].tm
        invariant c_pos <= |stamps|
        invariant c_pos > 0 ==> stamps[c_pos - 1].tm < tm
      {
        c_pos := c_pos + 1;
      }
    }

    method InsertFlow(b_el: Stamp<T>, c_pos: nat)
      requires FlowOk() && b_el.tm != 0 && c_pos <= |stamps| && Ascending(Inserted(stamps, size, c_pos, b_el))
      requires size != 0 && |stamps| >= size ==> c_pos > 0
      modifies `end, `beg, `evalCnt, `stamps
      ensures FlowOk() && |stamps| > 0
      ensures stamps == Inserted(old(stamps), size, c_pos, b_el)
      ensures evalCnt == old(evalCnt) + (if b_el.val == eval then 1 else 0) -
                         if size != 0 && |old(stamps)| >= size && old(stamps)[0].val == eval then 1 else 0
    {
      InsertedNonzero(stamps, size, c_pos, b_el);
      PutEntry(b_el, c_pos);
      beg := stamps[0].tm;
      end := stamps[|stamps| - 1].tm;
    }

    method PutEntry(b_el: Stamp<T>, c_pos: nat)
      requires c_pos <= |stamps| && size >= 0 && (size > 0 ==> |stamps| <= size) &&
               (size != 0 && |stamps| >= size ==> c_pos > 0)
      modifies `evalCnt, `stamps
      ensures stamps == Inserted(old(stamps), size, c_pos, b_el)
      ensures evalCnt == old(evalCnt) + (if b_el.val == eval then 1 else 0) -
                         if size != 0 && |old(stamps)| >= size && old(stamps)[0].val == eval then 1 else 0
    {
      ghost var was := stamps;
      if b_el.val == eval { evalCnt := evalCnt + 1; }
      if c_pos == |stamps| { stamps := stamps + [b_el]; }
      else { stamps := stamps[..c_pos] + [b_el] + stamps[c_pos..]; }
      assert stamps == was[..c_pos] + [b_el] + was[c_pos..];
      if size != 0 && |stamps| > size {
        if stamps[0].val == eval { evalCnt := evalCnt - 1; }
        stamps := stamps[1..];
      }
    }

    /** A read inside the flow form: the nearest stored time on the asked side. */
    method GetFlow(tm: int, up: bool) returns (r: T, otm: int)
      requires !hrdGrd && FlowOk() && (|stamps| > 0 ==> beg <= tm <= end)
      ensures |stamps| > 0 ==> FlowAnswers(AsMap(stamps), eval, tm, up, r, otm)
      ensures |stamps| == 0 ==> r == eval && otm == 0
    {
      var n := |stamps|;
      var c_end := HalfDivideFlow(tm, up);
      // Scan last window
      while c_end >= 0
        invariant -1 <= c_end < n && NotBehind(tm, up, c_end)
      {
        if !up && tm >= stamps[c_end].tm {
          NearestAnswers(stamps, eval, tm, up, c_end);
          return stamps[c_end].val, stamps[c_end].tm;
        } else if up && tm <= stamps[n - c_end - 1].tm {
          NearestAnswers(stamps, eval, tm, up, n - c_end - 1);
          return stamps[n - c_end - 1].val, stamps[n - c_end - 1].tm;
        }
        c_end := c_end - 1;
      }
      return eval, 0;
    }

    /** The entry behind the place `c_end`, counted from the asked side, is not on it. */
    ghost predicate NotBehind(tm: int, up: bool, c_end: int)
      reads this
    {
      -1 <= c_end < |stamps| &&
      (c_end < |stamps| - 1 ==> !(if up then tm <= stamps[|stamps| - c_end - 2].tm else tm >= stamps[c_end + 1].tm))
    }

    method HalfDivideFlow(tm: int, up: bool) returns (c_end: int)
      requires Ascending(stamps)
      ensures NotBehind(tm, up, c_end) && (|stamps| > 0 ==> c_end >= 0)
    {
      var n := |stamps|;
      c_end := n - 1;
      // Half divider
      var d_win := if c_end < 0 then 0 else c_end / 2;
      while d_win > HALF_DIV_MIN_WIN
        invariant 0 <= d_win && 2 * d_win <= c_end + 1 && c_end < n && (n > 0 ==> 0 <= c_end) && c_end >= -1
        invariant c_end < n - 1 ==> !(if up then tm <= stamps[n - c_end - 1].tm else tm >= stamps[c_end].tm)
        decreases d_win
      {
        if !((!up && tm >= stamps[c_end - d_win].tm) || (up && tm <= stamps[n - (c_end - d_win) - 1].tm)) {
          c_end := c_end - d_win;
        }
        d_win := d_win / 2;
      }
    }

    // ----- the buffer -----

    /** The history a grid buffer holds. */
    ghost function Contents(): History<T>
      reads this
      requires Valid() && per > 0
    {
      if Empty() then History(0, []) else if hrdGrd then HardHistory() else SoftHistory()
    }

    /** The state in which a soft grid keeps its begin right whatever is written. */
    ghost predicate Steady()
      reads this
      requires Valid() && per > 0 && !hrdGrd
    {
      size != 1 && (|stamps| > 0 ==> Healthy())
    }

    /** All times of the soft grid are multiples of the period. */
    ghost predicate AllAligned()
      reads this
      requires Valid() && per > 0 && !hrdGrd
    {
      Aligned(Log(stamps, cur), per)
    }

    /** The write would be taken for one to the cell before it. */
    ghost predicate Confused()
      reads this
      requires Valid() && per > 0 && !hrdGrd
    {
      Merges(Log(stamps, cur), per, last)
    }

    /** A buffer that has got its begin and end for a write: only an empty one differs from before. */
    ghost predicate Opened(tm: int)
      reads this
    {
      size >= 0 && tm != 0 &&
      if hrdGrd then HardOk() && (|grid| == 0 ==> first == tm / per && evalCnt == 0)
      else if per > 0 then SoftOk() && (|stamps| == 0 ==> first == tm / per)
      else FlowOk() && (|stamps| == 0 ==> beg == tm)
    }

    /** The begin and the end of an empty buffer follow the first value. */
    method Open(tm: int)
      requires Valid() && tm != 0 && (Empty() ==> tm >= per)
      modifies `end, `beg, `first, `last
      ensures Opened(tm)
      ensures !old(Empty()) ==> beg == old(beg) && end == old(end) && first == old(first) && last == old(last)
      ensures per == 0 && |stamps| == 0 ==> beg == tm
    {
      if !Empty() && per > 0 { MulLe(1, first, per); MulLe(first, last, per); }
      if Empty() && per > 0 { FirstCell(tm, per); }
      if end == 0 {
        end := if per != 0 then per * (tm / per - 1) else tm;
        last := if per != 0 then tm / per - 1 else 0;
      }
      if beg == 0 {
        beg := if per != 0 then per * (tm / per) else tm;
        first := if per != 0 then tm / per else 0;
      }
    }

    /** A value is written at a time, or at the current time `now` if no time is given. In the grid forms it goes to
        the history, less the cells dropped from its begin; in the flow form it goes to the map. */
    method Set(value: T, itm: int, now: int) returns (ok: bool)
      requires Valid()
      requires var tm := if itm == 0 then now else itm; tm != 0 && (Empty() ==> tm >= per)
      modifies this
      ensures Valid() && per == old(per) && size == old(size) && hrdGrd == old(hrdGrd) && fillLast == old(fillLast)
      ensures ok ==> !Empty()
      ensures hrdGrd ==>
                var tm, s := if itm == 0 then now else itm, old(Contents());
                HardWrite(s, old(cur), size, per, s.Fill(fillLast, eval), value, tm, ok, Contents()) &&
                (old(Tight()) ==> Tight())
      ensures !hrdGrd && per > 0 ==>
                var tm, s := if itm == 0 then now else itm, old(Contents());
                SoftWrite(s, size, per, s.Fill(fillLast, eval), value, tm, ok, Contents(), old(Steady()), Steady(),
                          old(Confused())) &&
                (old(AllAligned()) && tm == tm / per * per ==> AllAligned())
      ensures per == 0 ==>
                var tm, m, n, oldest := if itm == 0 then now else itm, old(AsMap(stamps)), old(|stamps|), old(beg);
                (ok <==> !(size != 0 && n >= size && tm < oldest)) &&
                AsMap(stamps) == if !ok then m
                                 else if tm in m || size == 0 || n < size then m[tm := value]
                                 else m[tm := value] - {oldest}
      // A hard grid refuses a value that is a period or more before its first cell. Else the value is in the cell that
      // takes it, kept cells have their values, and a cell skipped has none, or the last one before if the buffer is to
      // fill with that.
      ensures hrdGrd ==>
                var tm, s, r := if itm == 0 then now else itm, old(Contents()), Contents();
                (ok <==> |s.cells| == 0 || tm > (s.first - 1) * per) && (!ok ==> r == s) &&
                (ok ==>
                  (|s.cells| > 0 ==> r.first >= s.first && (size == 0 ==> r.first == s.first)) &&
                  (forall j :: s.Takes(tm, per, j) ==> r.Has(j)) &&
                  forall j :: r.Has(j) ==>
                    if s.Takes(tm, per, j) then r.Cell(j) == value
                    else if s.Has(j) then r.Cell(j) == s.Cell(j)
                    else |s.cells| > 0 && s.Last() < j && j * per <= tm &&
                         r.Cell(j) == if fillLast then s.Cell(s.Last()) else eval)
      // A soft grid refuses one that is a period or more before its last cell, and else does the same.
      ensures !hrdGrd && per > 0 ==>
                var tm, s, r := if itm == 0 then now else itm, old(Contents()), Contents();
                (ok <==> |s.cells| == 0 || tm > (s.Last() - 1) * per) && (!ok ==> r == s) &&
                (ok && old(Steady()) && (old(Confused()) && |s.cells| > 0 ==> tm >= (s.Last() + 1) * per) ==>
                  (|s.cells| > 0 ==> r.first >= s.first && (size == 0 ==> r.first == s.first)) &&
                  (forall j :: s.Takes(tm, per, j) ==> r.Has(j)) &&
                  forall j :: r.Has(j) ==>
                    if s.Takes(tm, per, j) then r.Cell(j) == value
                    else if s.Has(j) then r.Cell(j) == s.Cell(j)
                    else |s.cells| > 0 && s.Last() < j && j * per <= tm &&
                         r.Cell(j) == if fillLast then s.Cell(s.Last()) else eval)
    {
      var tm := if itm == 0 then now else itm;
      if hrdGrd {
        ok := SetHardMode(value, tm);
      } else if per != 0 {
        ok := SetSoftMode(value, tm);
      } else {
        Open(tm);
        ok := SetFlow(value, tm);
      }
    }

    method SetHardMode(value: T, tm: int) returns (ok: bool)
      requires Valid() && hrdGrd && tm != 0 && (Empty() ==> tm >= per)
      modifies `end, `beg, `cur, `evalCnt, `grid, `first, `last
      ensures Valid() && |grid| > 0 && (old(Tight()) ==> Tight())
      ensures var s, r := old(Contents()), Contents();
              HardWrite(s, old(cur), size, per, s.Fill(fillLast, eval), value, tm, ok, r) &&
              (ok <==> |s.cells| == 0 || tm > (s.first - 1) * per) && (!ok ==> r == s) &&
              (ok ==>
                (|s.cells| > 0 ==> r.first >= s.first && (size == 0 ==> r.first == s.first)) &&
                (forall j :: s.Takes(tm, per, j) ==> r.Has(j)) &&
                forall j :: r.Has(j) ==>
                  if s.Takes(tm, per, j) then r.Cell(j) == value
                  else if s.Has(j) then r.Cell(j) == s.Cell(j)
                  else |s.cells| > 0 && s.Last() < j && j * per <= tm &&
                       r.Cell(j) == if fillLast then s.Cell(s.Last()) else eval)
    {
      ghost var s, cur0 := Contents(), cur;
      ok := SetHardOpened(value, tm);
      HardSeen(s, cur0, size, per, fillLast, eval, value, tm, ok, Contents());
    }

    method SetHardOpened(value: T, tm: int) returns (ok: bool)
      requires Valid() && hrdGrd && tm != 0 && (Empty() ==> tm >= per)
      modifies `end, `beg, `cur, `evalCnt, `grid, `first, `last
      ensures Valid() && |grid| > 0
      ensures var s := old(Contents());
              HardWrite(s, old(cur), size, per, s.Fill(fillLast, eval), value, tm, ok, Contents())
      ensures old(Tight()) ==> Tight()
    {
      ghost var s := Contents();
      Open(tm);
      ghost var h := HardHistory();
      ok := SetHard(value, tm);
      HardWriteSame(s, h, old(cur), size, per, fillLast, eval, value, tm, ok, HardHistory());
    }

    method SetSoftMode(value: T, tm: int) returns (ok: bool)
      requires Valid() && !hrdGrd && per > 0 && tm != 0 && (Empty() ==> tm >= per)
      modifies `end, `beg, `cur, `evalCnt, `stamps, `first, `last
      ensures Valid() && |stamps| > 0
      ensures old(AllAligned()) && tm == tm / per * per ==> AllAligned()
      ensures var s, r, steady, confused := old(Contents()), Contents(), old(Steady()), old(Confused());
              SoftWrite(s, size, per, s.Fill(fillLast, eval), value, tm, ok, r, steady, Steady(), confused) &&
              (ok <==> |s.cells| == 0 || tm > (s.Last() - 1) * per) && (!ok ==> r == s) &&
              (ok && steady && (confused && |s.cells| > 0 ==> tm >= (s.Last() + 1) * per) ==>
                (|s.cells| > 0 ==> r.first >= s.first && (size == 0 ==> r.first == s.first)) &&
                (forall j :: s.Takes(tm, per, j) ==> r.Has(j)) &&
                forall j :: r.Has(j) ==>
                  if s.Takes(tm, per, j) then r.Cell(j) == value
                  else if s.Has(j) then r.Cell(j) == s.Cell(j)
                  else |s.cells| > 0 && s.Last() < j && j * per <= tm &&
                       r.Cell(j) == if fillLast then s.Cell(s.Last()) else eval)
    {
      ghost var s, steady, confused := Contents(), Steady(), Confused();
      ok := SetSoftOpened(value, tm, s, steady, confused);
      SoftSeen(s, size, per, fillLast, eval, value, tm, ok, Contents(), steady, Steady(), confused);
    }

    method SetSoftOpened(value: T, tm: int, ghost s: History<T>, ghost steady: bool, ghost confused: bool)
      returns (ok: bool)
      requires Valid() && !hrdGrd && per > 0 && tm != 0 && (Empty() ==> tm >= per)
      requires s == Contents() && steady == Steady() && confused == Confused()
      modifies `end, `beg, `cur, `evalCnt, `stamps, `first, `last
      ensures Valid() && |stamps| > 0
      ensures SoftWrite(s, size, per, s.Fill(fillLast, eval), value, tm, ok, Contents(), steady, Steady(), confused)
      ensures old(AllAligned()) && tm == tm / per * per ==> AllAligned()
    {
      Open(tm);
      ok := SetSoftGrid(value, tm, s, Soft(), last);
    }

    /** The write with the state before it given as a value. */
    method SetSoftGrid(value: T, tm: int, ghost s: History<T>, ghost c: Changes<T>, ghost last0: int) returns (ok: bool)
      requires !hrdGrd && SoftOk() && c == Soft() && last0 == last && (|stamps| == 0 ==> tm / per == first)
      requires if |stamps| == 0 then |s.cells| == 0 else s == SoftHistory()
      modifies `end, `beg, `cur, `evalCnt, `stamps, `first, `last
      ensures SoftOk() && |stamps| > 0
      ensures SoftWrite(s, size, per, s.Fill(fillLast, eval), value, tm, ok, SoftHistory(),
                        Well(c.full, c.cur, size, per, c.first, last0), Healthy(), Merges(c.full, per, last0))
      ensures Aligned(c.full, per) && tm == tm / per * per ==> Aligned(Log(stamps, cur), per)
    {
      ghost var npos, r;
      ok, npos, r := SetSoft(value, tm, c, last0);
      AlignedOutcome(c, size, per, eval, last0, npos, tm, value, ok, r, c.Fill(fillLast, eval), Log(stamps, cur));
      SoftOutcome(c, size, per, eval, last0, npos, tm, value, ok, r, s, fillLast, Log(stamps, cur), cur, first, last);
    }

    /** A value is read with the time it belongs to. */
    method Get(itm: int, up: bool) returns (r: T, otm: int)
      requires Valid()
      requires !hrdGrd && per > 0 && Empty() ==> Beyond(itm, up)
      ensures Beyond(itm, up) ==> r == eval && otm == itm
      ensures Empty() && !Beyond(itm, up) ==> r == eval && otm == 0
      ensures !Empty() && hrdGrd ==> Answers(Contents(), per, eval, itm, up, r, otm)
      ensures !Empty() && !hrdGrd && per > 0 ==>
                (r, otm) == SoftReading(Log(stamps, cur), per, first, last, eval, itm, up)
      ensures !Empty() && per == 0 ==> FlowAnswers(AsMap(stamps), eval, itm, up, r, otm)
    {
      if (up && itm > end) || (!up && itm < beg) {
        if !Empty() && per > 0 {
          InsideHistory();
          if hrdGrd { OutOfHistory(itm, up); }
        }
        if !Empty() && per == 0 { FlowBeyond(stamps, eval, itm, up, itm); }
        return eval, itm;
      }
      r, otm := GetInside(itm, up);
    }

    method GetInside(itm: int, up: bool) returns (r: T, otm: int)
      requires Valid() && !Beyond(itm, up) && !(!hrdGrd && per > 0 && Empty())
      ensures Empty() ==> r == eval && otm == 0
      ensures !Empty() && hrdGrd ==> Answers(Contents(), per, eval, itm, up, r, otm)
      ensures !Empty() && !hrdGrd && per > 0 ==>
                (r, otm) == SoftReading(Log(stamps, cur), per, first, last, eval, itm, up)
      ensures !Empty() && per == 0 ==> FlowAnswers(AsMap(stamps), eval, itm, up, r, otm)
    {
      var tm := if up then if itm > beg then itm else beg else if itm < end then itm else end;
      if hrdGrd {
        if !Empty() { InsideHistory(); }
        r, otm := GetHard(tm, up);
        if !Empty() { HardAnswer(HardHistory(), per, eval, itm, tm, up, r, otm); }
      } else if per != 0 {
        InsideHistory();
        r, otm := GetSoft(tm, up);
      } else {
        if !Empty() { AscendingEnds(stamps); }
        r, otm := GetFlow(tm, up);
        FlowClamped(stamps, eval, itm, tm, up, r, otm);
      }
    }

    lemma InsideHistory()
      requires Valid() && !Empty() && per > 0
      ensures beg <= end && first <= last
    {
      MulLe(first, last, per);
    }

    /** A time after the end has no value in up order, one before the begin none in down order. */
    ghost predicate Beyond(tm: int, up: bool)
      reads this
    {
      if up then tm > end else tm < beg
    }

    /** The buffer is emptied. */
    method Clear()
      requires Valid()
      modifies `end, `beg, `cur, `evalCnt, `grid, `stamps
      ensures Valid() && Empty()
    {
      if hrdGrd { grid := []; } else { stamps := []; }
      cur, end, beg := 0, 0, 0;
      evalCnt := 0;
    }

    /** The buffer is set up anew. Its contents stay exactly if nothing but the size limit changes and that one is
        not lowered; the hard grid never gets a zero period, and is never left for one. */
    method MakeBuf(isz: int, ipr0: int, ihdGrd: bool)
      requires Valid() && isz >= 0 && ipr0 >= 0
      modifies this
      ensures Valid() && size == isz && hrdGrd == ihdGrd && fillLast == old(fillLast)
      ensures per == if ipr0 == 0 && (ihdGrd || (old(hrdGrd) && old(per) != 0)) then 1000000 else ipr0
      ensures if old(size) <= isz && (old(size) == 0 ==> isz == 0) && old(hrdGrd) == ihdGrd && old(per) == per == ipr0
              then grid == old(grid) && stamps == old(stamps) && cur == old(cur) && beg == old(beg) &&
                   end == old(end) &&
                   first == old(first) && last == old(last) && evalCnt == old(evalCnt)
              else Empty()
    {
      var ipr, recr_buf := Planned(isz, ipr0, ihdGrd);
      if recr_buf { Recreate(isz, ipr, ihdGrd); } else { Resize(isz); }
    }

    /** Only the size limit changes, and is not lowered. */
    method Resize(isz: int)
      requires Valid() && isz >= size && (size == 0 ==> isz == 0)
      modifies `size
      ensures Valid() && size == isz
    {
      size := isz;
    }

    /** The period to take, and whether the buffer has to be made anew. */
    method Planned(isz: int, ipr0: int, ihdGrd: bool) returns (ipr: int, recr_buf: bool)
      ensures ipr == if ipr0 == 0 && (ihdGrd || (hrdGrd && per != 0)) &&
                     !(hrdGrd == ihdGrd && per == 0) then 1000000 else ipr0
      ensures recr_buf <==> isz < size || (size == 0 && isz != 0) || hrdGrd != ihdGrd ||
                            per != (if hrdGrd != ihdGrd && ihdGrd && ipr0 == 0 then 1000000 else ipr0)
    {
      ipr, recr_buf := ipr0, false;
      if isz < size || (size == 0 && isz != 0) { recr_buf := true; }
      if hrdGrd != ihdGrd {
        if ihdGrd && ipr == 0 { ipr := 1000000; }
        recr_buf := true;
      }
      if per != ipr {
        if hrdGrd && ipr == 0 { ipr := 1000000; }
        recr_buf := true;
      }
    }

    method Recreate(isz: int, ipr: int, ihdGrd: bool)
      requires isz >= 0 && ipr >= 0 && (ihdGrd ==> ipr > 0)
      modifies this
      ensures Valid() && Empty() && size == isz && per == ipr && hrdGrd == ihdGrd && fillLast == old(fillLast)
    {
      size, hrdGrd, per := isz, ihdGrd, ipr;
      cur, end, beg := 0, 0, 0;
      grid, stamps := [], [];
      evalCnt := 0;
    }

    /** In the hard grid the count of cells without a value is exact after any run of the methods above. */
    lemma EvalCountIsExact()
      requires Valid() && hrdGrd
      ensures evalCnt == multiset(Contents().cells)[eval]
    {
      if !Empty() { LogMultiset(grid, cur); }
    }
  }
}
