/** What the value buffer has to do, on values: the effect of a write on the history that a hard or a soft grid holds
    and on the entries that a soft grid keeps of it, and the answers to reads. */
module BufSpec {
  import opened Series
  import opened Ring
  import opened RunLength
  import opened Flow

  /** The cells after all but `npos` of those to append. */
  function Appending<T>(base: seq<T>, fill: T, v: T, npos0: nat, npos: nat): seq<T>
    requires npos <= npos0
  {
    if npos > 0 || npos0 == 0 then base + Rep(fill, npos0 - npos) else base + Rep(fill, npos0 - 1) + [v]
  }

  lemma AppendingNext<T>(base: seq<T>, fill: T, v: T, npos0: nat, npos: nat)
    requires 0 < npos <= npos0
    ensures Appending(base, fill, v, npos0, npos) + [if npos > 1 then fill else v] ==
            Appending(base, fill, v, npos0, npos - 1)
  {
  }

  /** A history after a store into a ring of limited size: the store, less the oldest cells the ring drops. */
  ghost function Limited<T>(s: History<T>, cur: int, size: int, k: int, v: T, fill: T): History<T>
    requires RingOk(|s.cells|, cur, size)
    requires s.cells == [] || k >= s.first
  {
    var r := s.Store(k, v, fill);
    r.Drop(Dropped(|s.cells|, cur, size, |r.cells| - |s.cells|))
  }

  lemma LimitedUpdate<T>(s: History<T>, cur: int, size: int, k: int, v: T, fill: T)
    requires RingOk(|s.cells|, cur, size) && s.Has(k)
    ensures Limited(s, cur, size, k, v, fill) == History(s.first, s.cells[k - s.first := v])
  {
    assert s.Store(k, v, fill).cells[0..] == s.cells[k - s.first := v];
  }

  lemma LimitedAppend<T>(s: History<T>, cur: int, size: int, k: int, v: T, fill: T)
    requires RingOk(|s.cells|, cur, size) && k > s.Last() && (s.cells == [] ==> k == s.first)
    ensures var full := s.cells + Rep(fill, k - s.Last() - 1) + [v];
            var d := Dropped(|s.cells|, cur, size, k - s.Last());
            Limited(s, cur, size, k, v, fill) == History(s.first + d, full[d..])
  {
    assert s.cells == [] ==> s.cells + Rep(fill, k - s.Last() - 1) + [v] == [v];
  }

  /** Changes in ascending cells, none outside of the cells they stand for. */
  ghost predicate InCells<T>(log: seq<Stamp<T>>, per: int, first: int, last: int)
    requires per > 0
  {
    Sorted(log, per) && last >= first - 1 &&
    if log == [] then last == first - 1 else first <= log[0].tm / per && log[|log| - 1].tm / per <= last
  }

  /** The soft grid with the entries it has forgotten: all entries kept since some moment, how many of them are
      gone, the cursor of the ring, the number of the first cell and the count of entries without a value. `cell`
      tells the cell of a time. */
  datatype Changes<T> = Changes(full: seq<Stamp<T>>, gone: int, cur: int, first: int, evals: int) {

    ghost predicate Ok(size: int) {
      0 <= gone <= |full| && RingOk(|full| - gone, cur, size)
    }

    /** A single entry that the next write overwrites: after that the first cell is not the oldest entry's. */
    predicate Single() {
      |full| - gone == 1 && cur == 0
    }

    /** The value that fills skipped cells. */
    ghost function Fill(fillLast: bool, eval: T): T {
      if fillLast && |full| > 0 then full[|full| - 1].val else eval
    }

    /** One entry written at the cursor; the first cell moves when the oldest entry has to go. */
    ghost function Put(size: int, cell: int -> int, eval: T, e: Stamp<T>): Changes<T> {
      var more := evals + if e.val == eval then 1 else 0;
      if 0 <= gone && gone + cur < |full| && gone < |full| then
        Changes(full + [e], gone + 1, NextCur(cur, size),
                cell(full[if gone + 1 < |full| then gone + 1 else gone].tm),
                more - if full[gone].val == eval then 1 else 0)
      else Changes(full + [e], gone, NextCur(cur, size), first, more)
    }

    ghost function Write(size: int, cell: int -> int, eval: T, e: Stamp<T>): Changes<T> {
      if Differs(full, e.val) then Put(size, cell, eval, e) else this
    }

    /** How far the running count is from the number of stored entries without a value. */
    ghost function Drift(eval: T): int
      requires 0 <= gone <= |full|
    {
      evals - Evals(full[gone..], eval)
    }
  }

  /** What the put of an entry does, seen on a ring that holds the changes. */
  lemma PutInRing<T>(v: seq<Stamp<T>>, cur: int, size: int, per: int, c: Changes<T>, eval: T, e: Stamp<T>)
    requires per > 0 && c.Ok(size) && |v| == |c.full| - c.gone && cur == c.cur && Log(v, cur) == c.full[c.gone..]
    ensures var r, w := c.Put(size, CellOf(per), eval, e), PutAt(v, cur, e);
            r.Ok(size) && |w| == |r.full| - r.gone && NextCur(cur, size) == r.cur &&
            Log(w, r.cur) == r.full[r.gone..] &&
            r.first == (if cur < |v| then v[if cur + 1 >= |v| then 0 else cur + 1].tm / per else c.first) &&
            r.evals == c.evals + (if e.val == eval then 1 else 0) - if cur < |v| && v[cur].val == eval then 1 else 0
  {
    PutInFull(v, cur, size, c.full, c.gone, e);
  }

  lemma PutKeepsDrift<T>(c: Changes<T>, size: int, cell: int -> int, eval: T, e: Stamp<T>)
    requires c.Ok(size)
    ensures c.Put(size, cell, eval, e).Ok(size)
    ensures c.Put(size, cell, eval, e).Drift(eval) == c.Drift(eval)
  {
    if c.gone + c.cur < |c.full| {
      SuffixShifts(c.full, c.gone, e, eval);
    } else {
      SuffixGrows(c.full, c.gone, e, eval);
    }
  }

  lemma SuffixShifts<T>(full: seq<Stamp<T>>, gone: nat, e: Stamp<T>, eval: T)
    requires gone < |full|
    ensures Evals((full + [e])[gone + 1..], eval) ==
            Evals(full[gone..], eval) + (if e.val == eval then 1 else 0) - if full[gone].val == eval then 1 else 0
  {
    SuffixAppend(full, gone, e);
    EvalsShift(full[gone..], e, eval);
  }

  lemma SuffixGrows<T>(full: seq<Stamp<T>>, gone: nat, e: Stamp<T>, eval: T)
    requires gone <= |full|
    ensures Evals((full + [e])[gone..], eval) == Evals(full[gone..], eval) + if e.val == eval then 1 else 0
  {
    SuffixAppend(full, gone, e);
    EvalsAppend(full[gone..], e, eval);
  }

  lemma WriteKeepsDrift<T>(c: Changes<T>, size: int, cell: int -> int, eval: T, e: Stamp<T>)
    requires c.Ok(size)
    ensures c.Write(size, cell, eval, e).Ok(size)
    ensures c.Write(size, cell, eval, e).Drift(eval) == c.Drift(eval)
  {
    PutKeepsDrift(c, size, cell, eval, e);
  }

  /** The ring `r` keeps the newest of the entries `r.full` that a write to the ring `s` produced. Its first cell
      is that of the oldest entry kept; only if a single entry was overwritten it is an older one. */
  ghost predicate KeptFrom<T>(s: Changes<T>, size: int, cell: int -> int, r: Changes<T>)
    requires s.Ok(size) && s.gone == 0
  {
    r.Ok(size) && r.gone < |r.full| && |r.full| >= |s.full| &&
    r.gone == Dropped(|s.full|, s.cur, size, |r.full| - |s.full|) &&
    r.first == (if r.gone == 0 then s.first else cell(r.full[if s.Single() then r.gone - 1 else r.gone].tm)) &&
    (!s.Single() && size != 1 ==> !r.Single())
  }

  /** The two write steps of an append: the first filler, if there are skipped cells, and the value. */
  ghost function AppendChanges<T>(s: Changes<T>, size: int, cell: int -> int, eval: T, e: Stamp<T>, g: Stamp<T>,
                                  two: bool): Changes<T> {
    (if two then s.Write(size, cell, eval, e) else s).Write(size, cell, eval, g)
  }

  lemma PutKept<T>(s: Changes<T>, size: int, cell: int -> int, eval: T, e: Stamp<T>)
    requires s.Ok(size) && s.gone == 0
    ensures KeptFrom(s, size, cell, s.Put(size, cell, eval, e))
  {
    DroppedStep(|s.full|, s.cur, size, 1);
  }

  lemma PutPutKept<T>(s: Changes<T>, size: int, cell: int -> int, eval: T, e: Stamp<T>, g: Stamp<T>)
    requires s.Ok(size) && s.gone == 0 && s.full != []
    ensures KeptFrom(s, size, cell, s.Put(size, cell, eval, e).Put(size, cell, eval, g))
  {
    DroppedStep(|s.full|, s.cur, size, 2);
    DroppedStep(|s.full|, s.cur, size, 1);
  }

  /** The two write steps of an append keep the newest of the entries that the unlimited log gets. */
  lemma WritesKept<T>(s: Changes<T>, size: int, cell: int -> int, eval: T, e: Stamp<T>, g: Stamp<T>, two: bool)
    requires s.Ok(size) && s.gone == 0 && (s.full == [] ==> !two)
    ensures var r := AppendChanges(s, size, cell, eval, e, g, two);
            r.full == Appended(s.full, e, g, two) && KeptFrom(s, size, cell, r)
  {
    if two && Differs(s.full, e.val) {
      PutKept(s, size, cell, eval, e);
      PutPutKept(s, size, cell, eval, e, g);
    } else {
      PutKept(s, size, cell, eval, g);
    }
  }

  lemma FillerWritten<T>(s: Changes<T>, size: int, cell: int -> int, eval: T, e: Stamp<T>)
    requires s.Ok(size) && s.gone == 0
    ensures var f := s.Write(size, cell, eval, e); !Differs(f.full, e.val) && 0 <= f.gone < |f.full|
  {
  }

  /** The entries of an append of `npos` cells with `c_npos` of them to come: `s` before it, `filled` after the filler
      and `w` at the end. */
  ghost function Filled<T>(s: Changes<T>, filled: Changes<T>, w: Changes<T>, c_npos: int, npos: int): Changes<T> {
    if c_npos == npos then s else if c_npos > 0 then filled else w
  }

  /** The first filler and the value are written, every other filler repeats the entry before it. */
  lemma FilledNext<T>(s: Changes<T>, filled: Changes<T>, w: Changes<T>, c_npos: int, npos: int, size: int,
                      cell: int -> int, eval: T, e: Stamp<T>, fill: T)
    requires 0 < c_npos <= npos && (c_npos > 1 ==> e.val == fill && !Differs(filled.full, fill))
    requires filled == if npos > 1 then (if c_npos == npos then s.Write(size, cell, eval, e) else filled) else s
    requires c_npos == 1 ==> w == filled.Write(size, cell, eval, e)
    ensures Filled(s, filled, w, c_npos, npos).Write(size, cell, eval, e) == Filled(s, filled, w, c_npos - 1, npos)
  {
  }

  /** The entries kept stay in ascending cells between the first and the last one. */
  lemma KeptInCells<T>(s: Changes<T>, r: Changes<T>, size: int, per: int, last: int, log: seq<Stamp<T>>)
    requires per > 0 && s.Ok(size) && s.gone == 0 && KeptFrom(s, size, CellOf(per), r)
    requires InCells(r.full, per, s.first, last) && log == r.full[r.gone..]
    ensures InCells(log, per, r.first, last) && s.first <= r.first && |log| > 0
  {
    FirstKept(s, r, size, per);
    SuffixInCells(r.full, r.gone, s.Single(), per, s.first, last, r.first);
  }

  lemma StoredInCells<T>(log: seq<Stamp<T>>, per: int, first: int, last: int, npos: nat, tm: int, v: T, fill: T)
    requires per > 0 && InCells(log, per, first, last) && (|log| == 0 ==> npos == 1) &&
             (npos > 0 ==> tm / per == last + npos)
    ensures InCells(Stored(log, per, last, npos, tm, v, fill), per, first, last + npos)
  {
    StoredInOrder(log, per, first, last, npos, tm, v, fill);
  }

  lemma FirstKept<T>(s: Changes<T>, r: Changes<T>, size: int, per: int)
    requires per > 0 && s.Ok(size) && s.gone == 0 && KeptFrom(s, size, CellOf(per), r)
    ensures 0 <= r.gone < |r.full|
    ensures r.first == if r.gone == 0 then s.first else r.full[if s.Single() then r.gone - 1 else r.gone].tm / per
  {
  }

  lemma SuffixInCells<T>(st: seq<Stamp<T>>, d: nat, single: bool, per: int, first: int, last: int, first': int)
    requires per > 0 && d < |st| && InCells(st, per, first, last)
    requires first' == if d == 0 then first else st[if single then d - 1 else d].tm / per
    ensures InCells(st[d..], per, first', last) && first <= first'
    ensures d > 0 && single ==> !Covers(st[d..], per, first', last)
  {
    SortedSuffix(st, per, d);
    if d > 0 {
      var i := if single then d - 1 else d;
      assert i < d ==> st[i].tm / per < st[d].tm / per;
      assert i > 0 ==> st[0].tm / per < st[i].tm / per;
    }
  }

  /** A limited ring of changes refines the history: what is kept stands for the history after the store, from the
      new first cell on. */
  lemma KeptRefines<T>(s: Changes<T>, r: Changes<T>, size: int, per: int, last: int, npos: nat, tm: int, v: T, fill: T,
                       eval: T)
    requires per > 0 && s.Ok(size) && s.gone == 0 && KeptFrom(s, size, CellOf(per), r) && !s.Single()
    requires Covers(s.full, per, s.first, last) && (|s.full| == 0 ==> npos == 1)
    requires if npos == 0 then !Merges(s.full, per, last) else tm / per == last + npos
    requires r.full == Stored(s.full, per, last, npos, tm, v, fill)
    ensures Covers(r.full[r.gone..], per, r.first, last + npos) && s.first <= r.first <= last + npos
    ensures var h := Expand(s.full, per, s.first, last, eval).Store(last + npos, v, fill);
            Expand(r.full[r.gone..], per, r.first, last + npos, eval) == h.Drop(r.first - s.first)
  {
    StoredRefines(s.full, per, s.first, last, npos, tm, v, fill, eval);
    SuffixRefines(r.full, r.gone, per, s.first, last + npos, r.first, eval);
    SameDrop(Expand(s.full, per, s.first, last, eval).Store(last + npos, v, fill),
             Expand(r.full, per, s.first, last + npos, eval), r.first - s.first,
             Expand(r.full[r.gone..], per, r.first, last + npos, eval));
  }

  lemma SameDrop<T>(h: History<T>, g: History<T>, d: nat, r: History<T>)
    requires g == h && d <= |g.cells| && r == g.Drop(d)
    ensures r == h.Drop(d)
  {
  }

  /** A covering log without its oldest entries covers the cells from its oldest entry on. */
  lemma SuffixRefines<T>(st: seq<Stamp<T>>, d: nat, per: int, first: int, last: int, first': int, eval: T)
    requires per > 0 && d < |st| && Covers(st, per, first, last)
    requires first' == if d == 0 then first else CellOf(per)(st[d].tm)
    ensures Covers(st[d..], per, first', last) && first <= first' <= last
    ensures Expand(st[d..], per, first', last, eval) == Expand(st, per, first, last, eval).Drop(first' - first)
  {
    ExpandDrop(st, d, per, first, last, eval);
    SortedSuffix(st, per, d);
    if d > 0 {
      assert first' == CellOf(per)(st[d].tm) == st[d].tm / per;
    } else {
      assert st[0..] == st;
    }
  }

  /** The changes after a write `npos` cells past the last cell. */
  ghost function AfterWrite<T>(s: Changes<T>, size: int, per: int, eval: T, last: int, npos: nat, tm: int, v: T,
                               fill: T): Changes<T>
    requires per > 0
  {
    var n, e := |s.full|, Stamp(last * per, v);
    if npos == 0 && n > 0 then
      if TruncDiv(s.full[n - 1].tm - last * per, per) == 0 then s.(full := s.full[n - 1 := e])
      else s.Put(size, CellOf(per), eval, e)
    else AppendChanges(s, size, CellOf(per), eval, Stamp((last + 1) * per, fill), Stamp(tm, v), npos > 1)
  }

  lemma AfterWriteKept<T>(s: Changes<T>, size: int, per: int, eval: T, last: int, npos: nat, tm: int, v: T, fill: T)
    requires per > 0 && s.Ok(size) && s.gone == 0 && (s.full == [] ==> npos == 1)
    ensures var r := AfterWrite(s, size, per, eval, last, npos, tm, v, fill);
            KeptFrom(s, size, CellOf(per), r) && r.full == Stored(s.full, per, last, npos, tm, v, fill)
  {
    if npos == 0 {
      PutKept(s, size, CellOf(per), eval, Stamp(last * per, v));
    } else {
      WritesKept(s, size, CellOf(per), eval, Stamp((last + 1) * per, fill), Stamp(tm, v), npos > 1);
    }
  }

  /** Entries that cover their cells, in a ring where no write can break that: with a single entry to overwrite, or
      room for one only, the first change would. */
  ghost predicate Well<T>(log: seq<Stamp<T>>, cur: int, size: int, per: int, first: int, last: int)
    requires per > 0
  {
    Covers(log, per, first, last) && !(|log| == 1 && cur == 0) && size != 1
  }

  /** What a write to the soft grid does, in terms of the entries it leaves. */
  lemma SoftWritten<T>(c: Changes<T>, size: int, per: int, eval: T, last: int, npos: nat, tm: int, v: T, fill: T,
                       r: Changes<T>, log: seq<Stamp<T>>)
    requires per > 0 && c.Ok(size) && c.gone == 0 && InCells(c.full, per, c.first, last) &&
             (|c.full| == 0 ==> npos == 1)
    requires npos > 0 ==> tm / per == last + npos
    requires r == AfterWrite(c, size, per, eval, last, npos, tm, v, fill)
    requires 0 <= r.gone <= |r.full| && log == r.full[r.gone..]
    ensures |log| > 0 && c.first <= r.first && InCells(log, per, r.first, last + npos) &&
            (size == 0 ==> r.first == c.first)
    ensures Well(c.full, c.cur, size, per, c.first, last) && !(npos == 0 && Merges(c.full, per, last)) ==>
              Well(log, r.cur, size, per, r.first, last + npos) && r.first <= last + npos &&
              Expand(log, per, r.first, last + npos, eval) ==
                Expand(c.full, per, c.first, last, eval).Store(last + npos, v, fill).Drop(r.first - c.first)
  {
    AfterWriteKept(c, size, per, eval, last, npos, tm, v, fill);
    WrittenInCells(c, size, per, last, npos, tm, v, fill, r, log);
    if Well(c.full, c.cur, size, per, c.first, last) && !(npos == 0 && Merges(c.full, per, last)) {
      SoftRefines(c, size, per, eval, last, npos, tm, v, fill, r, log);
    }
  }

  lemma WrittenInCells<T>(c: Changes<T>, size: int, per: int, last: int, npos: nat, tm: int, v: T, fill: T,
                          r: Changes<T>, log: seq<Stamp<T>>)
    requires per > 0 && c.Ok(size) && c.gone == 0 && InCells(c.full, per, c.first, last) &&
             (|c.full| == 0 ==> npos == 1)
    requires npos > 0 ==> tm / per == last + npos
    requires KeptFrom(c, size, CellOf(per), r) && r.full == Stored(c.full, per, last, npos, tm, v, fill)
    requires log == r.full[r.gone..]
    ensures |log| > 0 && c.first <= r.first && InCells(log, per, r.first, last + npos) &&
            (size == 0 ==> r.first == c.first)
  {
    StoredInCells(c.full, per, c.first, last, npos, tm, v, fill);
    KeptInCells(c, r, size, per, last + npos, log);
  }

  lemma SoftRefines<T>(c: Changes<T>, size: int, per: int, eval: T, last: int, npos: nat, tm: int, v: T, fill: T,
                       r: Changes<T>, log: seq<Stamp<T>>)
    requires per > 0 && c.Ok(size) && c.gone == 0 && Well(c.full, c.cur, size, per, c.first, last)
    requires if npos == 0 then |c.full| > 0 && !Merges(c.full, per, last) else tm / per == last + npos
    requires (|c.full| == 0 ==> npos == 1) && KeptFrom(c, size, CellOf(per), r)
    requires r.full == Stored(c.full, per, last, npos, tm, v, fill) && log == r.full[r.gone..]
    requires r.cur == AfterWrite(c, size, per, eval, last, npos, tm, v, fill).cur
    ensures Well(log, r.cur, size, per, r.first, last + npos) && r.first <= last + npos && c.first <= r.first
    ensures Expand(log, per, r.first, last + npos, eval) ==
              Expand(c.full, per, c.first, last, eval).Store(last + npos, v, fill).Drop(r.first - c.first)
  {
    KeptRefines(c, r, size, per, last, npos, tm, v, fill, eval);
  }

  /** The value that fills a covered history is that of its newest entry. */
  lemma CoveredFill<T>(log: seq<Stamp<T>>, per: int, first: int, last: int, eval: T)
    requires per > 0 && |log| > 0 && Covers(log, per, first, last)
    ensures last >= first && Expand(log, per, first, last, eval).cells[last - first] == log[|log| - 1].val
  {
    AtNewest(log, per, last, eval, |log| - 1);
  }

  /** The cell of a time. */
  function CellOf(per: int): int -> int
    requires per > 0
  {
    t => t / per
  }

  /** How many cells a time is past the last cell of a history. */
  ghost function Past<T>(h: History<T>, tm: int, per: int): int
    requires per > 0
  {
    h.Target(tm, per) - h.Last()
  }

  lemma PastLast<T>(h: History<T>, tm: int, per: int, end: int, first: int)
    requires per > 0 && end == h.Last() * per && first == h.first
    requires h.cells == [] ==> tm / per == first
    ensures Past(h, tm, per) == TruncDiv(tm - end, per)
    ensures h.cells == [] ==> Past(h, tm, per) == 1
    ensures Past(h, tm, per) > 0 ==> tm / per == h.Last() + Past(h, tm, per)
  {
    DistanceInCells(tm, h.Last(), per);
  }

  /** What a read of cell `k` of a soft grid answers: the value of the newest entry not after the cell, none if all
      entries are after it. The time is that of the entry if it lies in the cell, else that of the cell. */
  function SoftAt<T>(log: seq<Stamp<T>>, per: int, k: int, eval: T): (T, int)
    requires per > 0
  {
    if |log| == 0 then (eval, 0)
    else
      var e := log[|log| - 1];
      if e.tm / per == k then (e.val, e.tm)
      else if e.tm / per < k then (e.val, k * per)
      else SoftAt(log[..|log| - 1], per, k, eval)
  }

  /** The entries behind place `l` are after cell `k`. */
  ghost predicate AllAfter<T>(log: seq<Stamp<T>>, per: int, k: int, l: int)
    requires per > 0
  {
    forall j :: 0 <= j < |log| && l < j ==> log[j].tm / per > k
  }

  lemma {:induction false} FoundAt<T>(log: seq<Stamp<T>>, per: int, k: int, eval: T, l: nat)
    requires per > 0 && l < |log| && log[l].tm / per <= k && AllAfter(log, per, k, l)
    ensures SoftAt(log, per, k, eval) == (log[l].val, if log[l].tm / per == k then log[l].tm else k * per)
  {
    if l + 1 < |log| { FoundAt(log[..|log| - 1], per, k, eval, l); }
  }

  /** One test of the scan: the distance of the entry from the end, or from the begin, tells whether it is found. */
  lemma ProveAt<T>(log: seq<Stamp<T>>, per: int, first: int, last: int, k: int, eval: T, l: nat, npos: int, up: bool,
                   w_pos: int)
    requires per > 0 && l < |log| && AllAfter(log, per, k, l)
    requires npos == (if up then last - k else k - first) &&
             w_pos == if up then last - log[l].tm / per else log[l].tm / per - first
    ensures if if up then w_pos >= npos else w_pos <= npos then
              SoftAt(log, per, k, eval) ==
                (log[l].val, if w_pos == npos then log[l].tm
                             else if up then last * per - npos * per else first * per + npos * per)
            else AllAfter(log, per, k, l - 1)
  {
    if log[l].tm / per <= k {
      FoundAt(log, per, k, eval, l);
      if up { Distribute(last, npos, per); } else { Distribute(k, first, per); }
    }
  }

  lemma {:induction false} NotFoundAt<T>(log: seq<Stamp<T>>, per: int, k: int, eval: T)
    requires per > 0 && AllAfter(log, per, k, -1)
    ensures SoftAt(log, per, k, eval) == (eval, 0)
  {
    if |log| > 0 { NotFoundAt(log[..|log| - 1], per, k, eval); }
  }

  /** From the oldest entry on the value is that of the cell, and the time one in the cell, its start if all times are
      multiples of the period. */
  lemma {:induction false} SoftAtInCell<T>(log: seq<Stamp<T>>, per: int, k: int, eval: T)
    requires per > 0 && |log| > 0 && log[0].tm / per <= k
    ensures var (v, t) := SoftAt(log, per, k, eval); v == At(log, per, k, eval) && t / per == k &&
                                                     (Aligned(log, per) ==> t == k * per)
  {
    var n := |log| - 1;
    if log[n].tm / per > k {
      assert Aligned(log, per) ==> Aligned(log[..n], per);
      SoftAtInCell(log[..n], per, k, eval);
    } else {
      AlignedCell(k, per);
    }
  }

  /** The map of a flow buffer after a store: its oldest key goes when a new key is one too many. */
  ghost function FlowStore<T>(m: map<int, T>, size: int, n: int, oldest: int, tm: int, v: T): map<int, T> {
    if tm !in m && size != 0 && n >= size then m[tm := v] - {oldest} else m[tm := v]
  }

  /** The entries of a flow buffer after an insertion at `c`. */
  function Inserted<T>(v: seq<Stamp<T>>, size: int, c: int, e: Stamp<T>): seq<Stamp<T>>
    requires 0 <= c <= |v|
  {
    var w := v[..c] + [e] + v[c..];
    if size != 0 && |w| > size then w[1..] else w
  }

  lemma InsertedFlow<T>(v: seq<Stamp<T>>, size: int, c: nat, e: Stamp<T>, eval: T)
    requires Ascending(v) && c <= |v| && size >= 0 && (size != 0 ==> |v| <= size)
    requires c > 0 ==> v[c - 1].tm < e.tm
    requires c < |v| ==> e.tm < v[c].tm
    requires |v| > 0 && size != 0 && |v| >= size ==> c > 0
    ensures Ascending(Inserted(v, size, c, e)) && e.tm !in AsMap(v)
    ensures AsMap(Inserted(v, size, c, e))
            == FlowStore(AsMap(v), size, |v|, if |v| > 0 then v[0].tm else e.tm, e.tm, e.val)
    ensures Evals(Inserted(v, size, c, e), eval)
            == Evals(v, eval) + (if e.val == eval then 1 else 0)
               - if size != 0 && |v| >= size && |v| > 0 && v[0].val == eval then 1 else 0
  {
    var w := v[..c] + [e] + v[c..];
    InsertedWhole(v, c, e, eval);
    if size != 0 && |w| > size {
      EraseOldestIsRemove(w);
      EvalsErase(w, eval);
      assert w[0] == v[0];
    }
  }

  /** The insertion before the oldest entry is dropped. */
  lemma InsertedWhole<T>(v: seq<Stamp<T>>, c: nat, e: Stamp<T>, eval: T)
    requires Ascending(v) && c <= |v|
    requires c > 0 ==> v[c - 1].tm < e.tm
    requires c < |v| ==> e.tm < v[c].tm
    ensures var w := v[..c] + [e] + v[c..];
            Ascending(w) && e.tm !in AsMap(v) && AsMap(w) == AsMap(v)[e.tm := e.val] &&
            Evals(w, eval) == Evals(v, eval) + if e.val == eval then 1 else 0
  {
    InsertAscending(v, c, e);
    InsertIsUpdate(v, c, e);
    EvalsInsert(v, c, e, eval);
    NotStored(v, c, e);
  }

  lemma InsertedNonzero<T>(v: seq<Stamp<T>>, size: int, c: nat, e: Stamp<T>)
    requires c <= |v| && e.tm != 0 && forall i :: 0 <= i < |v| ==> v[i].tm != 0
    ensures forall i :: 0 <= i < |Inserted(v, size, c, e)| ==> Inserted(v, size, c, e)[i].tm != 0
    ensures size > 0 && |v| <= size ==> 0 < |Inserted(v, size, c, e)| <= size
    ensures size == 0 ==> |Inserted(v, size, c, e)| > 0
  {
  }

  lemma NotStored<T>(v: seq<Stamp<T>>, c: nat, e: Stamp<T>)
    requires Ascending(v) && c <= |v|
    requires c > 0 ==> v[c - 1].tm < e.tm
    requires c < |v| ==> e.tm < v[c].tm
    ensures e.tm !in AsMap(v)
  {
    AsMapEntries(v);
    forall i | 0 <= i < |v| ensures v[i].tm != e.tm {
      if i < c - 1 { assert v[i].tm < v[c - 1].tm; }
      if i > c { assert v[c].tm < v[i].tm; }
    }
  }

  /** The first cell of an empty grid. */
  lemma FirstCell(tm: int, per: int)
    requires tm >= per > 0
    ensures tm / per > 0 && per * (tm / per) == tm / per * per && per * (tm / per - 1) == (tm / per - 1) * per
  {
    FloorShift(tm, 1, per);
  }

  lemma HardWriteIs<T>(h: History<T>, cur: int, size: int, per: int, fill: T, v: T, tm: int, npos: int, ok: bool,
                       r: History<T>)
    requires per > 0 && RingOk(|h.cells|, cur, size) && npos == Past(h, tm, per) &&
             (|h.cells| == 0 ==> npos == 1 && tm / per == h.first)
    requires ok <==> npos > -|h.cells|
    requires !ok ==> r == h
    requires ok && npos <= 0 ==> r == History(h.first, h.cells[|h.cells| - 1 + npos := v])
    requires ok && npos > 0 ==>
               var full := h.cells + Rep(fill, npos - 1) + [v];
               var d := Dropped(|h.cells|, cur, size, npos);
               d <= |full| && r == History(h.first + d, full[d..])
    ensures HardWrite(h, cur, size, per, fill, v, tm, ok, r)
  {
    if ok {
      if npos <= 0 { LimitedUpdate(h, cur, size, h.Last() + npos, v, fill); }
      else { LimitedAppend(h, cur, size, h.Last() + npos, v, fill); }
    }
  }

  lemma HardWriteSame<T>(s: History<T>, h: History<T>, cur: int, size: int, per: int, fillLast: bool, eval: T, v: T,
                         tm: int, ok: bool, r: History<T>)
    requires per > 0 && RingOk(|h.cells|, cur, size)
    requires s == h || (|s.cells| == 0 && |h.cells| == 0)
    requires HardWrite(h, cur, size, per, h.Fill(fillLast, eval), v, tm, ok, r)
    ensures HardWrite(s, cur, size, per, s.Fill(fillLast, eval), v, tm, ok, r)
  {
    if ok { SameStore(s, h, tm, per, cur, size, v, fillLast, eval); }
  }

  /** An empty history is stored into alike whatever its first cell is. */
  lemma SameStore<T>(s: History<T>, h: History<T>, tm: int, per: int, cur: int, size: int, v: T, fillLast: bool,
                     eval: T)
    requires per > 0 && RingOk(|h.cells|, cur, size) && !h.TooOld(tm, per)
    requires s == h || (|s.cells| == 0 && |h.cells| == 0)
    ensures s.Target(tm, per) == h.Target(tm, per) && !s.TooOld(tm, per) &&
            s.Fill(fillLast, eval) == h.Fill(fillLast, eval)
    ensures Limited(s, cur, size, s.Target(tm, per), v, s.Fill(fillLast, eval))
            == Limited(h, cur, size, h.Target(tm, per), v, h.Fill(fillLast, eval))
  {
  }

  /** What a write does to a hard grid that held the history `s`: it is refused exactly if the value's cell is older
      than the window, and then nothing changes. */
  ghost predicate HardWrite<T>(s: History<T>, cur: int, size: int, per: int, fill: T, value: T, tm: int, ok: bool,
                               r: History<T>)
    requires per > 0 && RingOk(|s.cells|, cur, size)
  {
    (ok <==> !s.TooOld(tm, per)) &&
    r == if ok then Limited(s, cur, size, s.Target(tm, per), value, fill) else s
  }

  /** What a write does to a soft grid that held the history `s`: it is refused exactly if the value's cell is before
      the last one, and then nothing changes. A steady buffer stays steady, and keeps the history with the value
      stored, from its new begin on; the one case left out is a value for the last cell while the newest entry lies
      inside the cell before. */
  ghost predicate SoftWrite<T>(s: History<T>, size: int, per: int, fill: T, value: T, tm: int, ok: bool, r: History<T>,
                               steady: bool, steady': bool, confused: bool)
    requires per > 0
  {
    var k := s.Target(tm, per);
    (ok <==> |s.cells| == 0 || k >= s.Last()) &&
    (!ok ==> r == s && steady == steady') &&
    (ok && steady && !(|s.cells| > 0 && k == s.Last() && confused) ==>
       steady' && IsDropped(s.Store(k, value, fill), size, r))
  }

  /** The history without some of its oldest cells, but not all; without limit, with all of them. */
  ghost predicate IsDropped<T>(h: History<T>, size: int, r: History<T>) {
    h.first <= r.first <= h.Last() && (size == 0 ==> r.first == h.first) && r == h.Drop(r.first - h.first)
  }

  /** The cell a value goes to is the one that takes its time. */
  lemma TargetTakes<T>(s: History<T>, tm: int, per: int, j: int)
    requires per > 0
    ensures s.Takes(tm, per, j) <==> j == s.Target(tm, per)
  {
    FloorBounds(tm, per);
    CeilBounds(tm, per);
    if j * per <= tm < (j + 1) * per { DivIs(tm, per, j); }
    if (j - 1) * per < tm <= j * per { CeilIs(tm, per, j); }
  }

  /** A value is too old for a grid from a cell `k` on up to its last one if it is a period or more before that cell. */
  lemma BeforeIff<T>(s: History<T>, tm: int, per: int, k: int)
    requires per > 0 && |s.cells| > 0 && k <= s.Last()
    ensures s.Target(tm, per) < k <==> tm <= (k - 1) * per
  {
    var c := s.Target(tm, per);
    TargetTakes(s, tm, per, c);
    if tm >= s.Last() * per {
      MulLt(s.Last(), c + 1, per);
      MulLe(k - 1, s.Last() - 1, per);
      MulNext(s.Last() - 1, s.Last(), per);
    } else {
      if c < k { MulLe(c, k - 1, per); }
      if tm <= (k - 1) * per { MulLt(c - 1, k - 1, per); }
    }
  }

  /** What a store is, cell by cell: its own cell has the value, cells that were there keep theirs, and skipped ones
      have no value, or the last one before if the buffer is to fill with that. */
  lemma StoreSeen<T>(s: History<T>, k: int, v: T, fillLast: bool, eval: T, d: nat, j: int)
    requires |s.cells| == 0 || k >= s.first
    requires var r := s.Store(k, v, s.Fill(fillLast, eval)); d <= |r.cells| && r.Drop(d).Has(j)
    ensures s.Store(k, v, s.Fill(fillLast, eval)).Drop(d).Cell(j) ==
            if j == k then v
            else if s.Has(j) then s.Cell(j)
            else if fillLast && |s.cells| > 0 then s.cells[|s.cells| - 1]
            else eval
  {
    if |s.cells| > 0 { StoreIsPointwise(s, k, v, s.Fill(fillLast, eval), j); }
  }

  /** The same for the history `r` that is left of it, in times. */
  lemma WriteSeen<T>(s: History<T>, tm: int, per: int, v: T, fillLast: bool, eval: T, d: nat, r: History<T>)
    requires per > 0 && (|s.cells| == 0 || s.Target(tm, per) >= s.first)
    requires var full := s.Store(s.Target(tm, per), v, s.Fill(fillLast, eval));
             d < |full.cells| && full.first + d <= s.Target(tm, per) && r == full.Drop(d)
    ensures |s.cells| > 0 ==> r.first == s.first + d
    ensures forall j :: s.Takes(tm, per, j) ==> r.Has(j)
    ensures forall j :: r.Has(j) ==>
              if s.Takes(tm, per, j) then r.Cell(j) == v
              else if s.Has(j) then r.Cell(j) == s.Cell(j)
              else |s.cells| > 0 && s.Last() < j && j * per <= tm &&
                   r.Cell(j) == if fillLast then s.Cell(s.Last()) else eval
  {
    var k := s.Target(tm, per);
    forall j | s.Takes(tm, per, j) ensures r.Has(j) { TargetTakes(s, tm, per, j); }
    forall j | r.Has(j)
      ensures if s.Takes(tm, per, j) then r.Cell(j) == v
              else if s.Has(j) then r.Cell(j) == s.Cell(j)
              else |s.cells| > 0 && s.Last() < j && j * per <= tm &&
                   r.Cell(j) == if fillLast then s.Cell(s.Last()) else eval
    {
      TargetTakes(s, tm, per, j);
      TargetTakes(s, tm, per, k);
      StoreSeen(s, k, v, fillLast, eval, d, j);
      MulLe(j, if j <= k then k else j, per);
    }
  }

  lemma HardSeen<T>(s: History<T>, cur: int, size: int, per: int, fillLast: bool, eval: T, v: T, tm: int, ok: bool,
                    r: History<T>)
    requires per > 0 && RingOk(|s.cells|, cur, size)
    requires HardWrite(s, cur, size, per, s.Fill(fillLast, eval), v, tm, ok, r)
    ensures (ok <==> |s.cells| == 0 || tm > (s.first - 1) * per) && (!ok ==> r == s)
    ensures ok ==> forall j :: s.Takes(tm, per, j) ==> r.Has(j)
    ensures ok ==> (|s.cells| > 0 ==> r.first >= s.first && (size == 0 ==> r.first == s.first)) &&
                   forall j :: r.Has(j) ==>
                     if s.Takes(tm, per, j) then r.Cell(j) == v
                     else if s.Has(j) then r.Cell(j) == s.Cell(j)
                     else |s.cells| > 0 && s.Last() < j && j * per <= tm &&
                          r.Cell(j) == if fillLast then s.Cell(s.Last()) else eval
  {
    if |s.cells| > 0 { BeforeIff(s, tm, per, s.first); }
    if ok {
      var full := s.Store(s.Target(tm, per), v, s.Fill(fillLast, eval));
      var m := |full.cells| - |s.cells|;
      DropsLess(|s.cells|, cur, size, m);
      WriteSeen(s, tm, per, v, fillLast, eval, Dropped(|s.cells|, cur, size, m), r);
    }
  }

  lemma SoftSeen<T>(s: History<T>, size: int, per: int, fillLast: bool, eval: T, v: T, tm: int, ok: bool,
                    r: History<T>, steady: bool, steady': bool, confused: bool)
    requires per > 0
    requires SoftWrite(s, size, per, s.Fill(fillLast, eval), v, tm, ok, r, steady, steady', confused)
    ensures (ok <==> |s.cells| == 0 || tm > (s.Last() - 1) * per) && (!ok ==> r == s)
    ensures ok && steady && (confused && |s.cells| > 0 ==> tm >= (s.Last() + 1) * per) ==>
              steady' && (forall j :: s.Takes(tm, per, j) ==> r.Has(j)) &&
              (|s.cells| > 0 ==> r.first >= s.first && (size == 0 ==> r.first == s.first)) &&
              forall j :: r.Has(j) ==>
                if s.Takes(tm, per, j) then r.Cell(j) == v
                else if s.Has(j) then r.Cell(j) == s.Cell(j)
                else |s.cells| > 0 && s.Last() < j && j * per <= tm &&
                     r.Cell(j) == if fillLast then s.Cell(s.Last()) else eval
  {
    var k := s.Target(tm, per);
    if |s.cells| > 0 { BeforeIff(s, tm, per, s.Last()); }
    if ok && steady && (confused && |s.cells| > 0 ==> tm >= (s.Last() + 1) * per) {
      if |s.cells| > 0 {
        TargetTakes(s, tm, per, k);
        MulNext(s.Last(), s.Last() + 1, per);
        if confused { MulLt(s.Last() + 1, k + 1, per); }
      }
      var full := s.Store(k, v, s.Fill(fillLast, eval));
      WriteSeen(s, tm, per, v, fillLast, eval, r.first - full.first, r);
    }
  }

  /** Where a write to the soft grid starts from. */
  lemma SoftStart<T>(log: seq<Stamp<T>>, per: int, first: int, last: int, eval: T, tm: int, s: History<T>)
    requires per > 0 && InCells(log, per, first, last) && (|log| == 0 ==> tm / per == first)
    requires if |log| == 0 then |s.cells| == 0 else s == Expand(log, per, first, last, eval)
    ensures var npos := Past(Expand(log, per, first, last, eval), tm, per);
            (|log| == 0 ==> npos == 1) && (npos > 0 ==> tm / per == last + npos) &&
            (npos >= 0 <==> |s.cells| == 0 || s.Target(tm, per) >= s.Last()) &&
            s.Target(tm, per) == last + npos && (|s.cells| == 0 <==> |log| == 0) && (|log| > 0 ==> s.Last() == last)
  {
    var h := Expand(log, per, first, last, eval);
    PastLast(h, tm, per, last * per, first);
    assert |h.cells| == last - first + 1;
  }

  lemma SameStart<T>(log: seq<Stamp<T>>, per: int, first: int, last: int, eval: T, s: History<T>, k: int, v: T, fill: T)
    requires per > 0 && last >= first - 1 && (|log| == 0 ==> last == first - 1)
    requires if |log| == 0 then |s.cells| == 0 && k == first else s == Expand(log, per, first, last, eval) && k >= first
    ensures s.Store(k, v, fill) == Expand(log, per, first, last, eval).Store(k, v, fill)
  {
  }

  lemma SameFill<T>(c: Changes<T>, per: int, first: int, last: int, eval: T, s: History<T>, fillLast: bool)
    requires per > 0 && Covers(c.full, per, first, last)
    requires if |c.full| == 0 then |s.cells| == 0 else s == Expand(c.full, per, first, last, eval)
    ensures s.Fill(fillLast, eval) == c.Fill(fillLast, eval)
  {
    if |c.full| > 0 { CoveredFill(c.full, per, first, last, eval); }
  }

  lemma SoftWriteHolds<T>(c: Changes<T>, size: int, per: int, eval: T, last: int, npos: nat, tm: int, v: T,
                          r: Changes<T>, s: History<T>, fillLast: bool, log: seq<Stamp<T>>)
    requires per > 0 && c.Ok(size) && c.gone == 0 && InCells(c.full, per, c.first, last)
    requires |c.full| == 0 ==> tm / per == c.first
    requires if |c.full| == 0 then |s.cells| == 0 else s == Expand(c.full, per, c.first, last, eval)
    requires npos == Past(Expand(c.full, per, c.first, last, eval), tm, per)
    requires r == AfterWrite(c, size, per, eval, last, npos, tm, v, c.Fill(fillLast, eval))
    requires 0 <= r.gone <= |r.full| && log == r.full[r.gone..]
    ensures |log| > 0 && c.first <= r.first && InCells(log, per, r.first, last + npos)
    ensures SoftWrite(s, size, per, s.Fill(fillLast, eval), v, tm, true, Expand(log, per, r.first, last + npos, eval),
                      Well(c.full, c.cur, size, per, c.first, last), Well(log, r.cur, size, per, r.first, last + npos),
                      Merges(c.full, per, last))
  {
    SoftStart(c.full, per, c.first, last, eval, tm, s);
    SoftStore(c, size, per, eval, last, npos, tm, v, r, s, fillLast, log);
    SoftWriteIs(s, size, per, s.Fill(fillLast, eval), v, tm, Expand(log, per, r.first, last + npos, eval),
                Well(c.full, c.cur, size, per, c.first, last), Well(log, r.cur, size, per, r.first, last + npos),
                Merges(c.full, per, last), npos);
  }

  /** The store into the history that the entries stand for is the store into the history itself. */
  lemma SoftStore<T>(c: Changes<T>, size: int, per: int, eval: T, last: int, npos: nat, tm: int, v: T, r: Changes<T>,
                     s: History<T>, fillLast: bool, log: seq<Stamp<T>>)
    requires per > 0 && c.Ok(size) && c.gone == 0 && InCells(c.full, per, c.first, last) &&
             (|c.full| == 0 ==> npos == 1)
    requires npos > 0 ==> tm / per == last + npos
    requires r == AfterWrite(c, size, per, eval, last, npos, tm, v, c.Fill(fillLast, eval))
    requires 0 <= r.gone <= |r.full| && log == r.full[r.gone..]
    requires if |c.full| == 0 then |s.cells| == 0 else s == Expand(c.full, per, c.first, last, eval)
    ensures |log| > 0 && c.first <= r.first && InCells(log, per, r.first, last + npos)
    ensures Well(c.full, c.cur, size, per, c.first, last) && !(npos == 0 && Merges(c.full, per, last)) ==>
              Well(log, r.cur, size, per, r.first, last + npos) &&
              IsDropped(s.Store(last + npos, v, s.Fill(fillLast, eval)), size,
                        Expand(log, per, r.first, last + npos, eval))
  {
    var fill := c.Fill(fillLast, eval);
    SoftWritten(c, size, per, eval, last, npos, tm, v, fill, r, log);
    if Well(c.full, c.cur, size, per, c.first, last) && !(npos == 0 && Merges(c.full, per, last)) {
      SameFill(c, per, c.first, last, eval, s, fillLast);
      SameStart(c.full, per, c.first, last, eval, s, last + npos, v, fill);
      DropSeen(Expand(c.full, per, c.first, last, eval), s, c.first, last, npos, v, fill, size, r.first - c.first);
    }
  }

  lemma DropSeen<T>(h: History<T>, s: History<T>, first: int, last: int, npos: nat, v: T, fill: T, size: int, d: nat)
    requires h.first == first && |h.cells| == last - first + 1 && (|h.cells| == 0 ==> npos == 1)
    requires |s.cells| == 0 || last + npos >= s.first
    requires s.Store(last + npos, v, fill) == h.Store(last + npos, v, fill)
    requires first + d <= last + npos && (size == 0 ==> d == 0)
    ensures IsDropped(s.Store(last + npos, v, fill), size, h.Store(last + npos, v, fill).Drop(d))
  {
  }

  lemma SoftWriteIs<T>(s: History<T>, size: int, per: int, fill: T, v: T, tm: int, r: History<T>, steady: bool,
                       steady': bool, confused: bool, npos: nat)
    requires per > 0 && (|s.cells| > 0 ==> s.Target(tm, per) == s.Last() + npos) && (|s.cells| == 0 ==> npos == 1)
    requires steady && !(npos == 0 && confused) ==> steady' && IsDropped(s.Store(s.Target(tm, per), v, fill), size, r)
    ensures SoftWrite(s, size, per, fill, v, tm, true, r, steady, steady', confused)
  {
  }

  lemma SoftRefused<T>(c: Changes<T>, cur: int, size: int, per: int, eval: T, last: int, npos: int, tm: int, v: T,
                       s: History<T>, fillLast: bool)
    requires per > 0 && InCells(c.full, per, c.first, last)
    requires |c.full| == 0 ==> tm / per == c.first
    requires if |c.full| == 0 then |s.cells| == 0 else s == Expand(c.full, per, c.first, last, eval)
    requires npos == Past(Expand(c.full, per, c.first, last, eval), tm, per) && npos < 0
    ensures |c.full| > 0
    ensures var w := Well(c.full, cur, size, per, c.first, last);
            SoftWrite(s, size, per, s.Fill(fillLast, eval), v, tm, false, Expand(c.full, per, c.first, last, eval), w,
                      w, Merges(c.full, per, last))
  {
    SoftStart(c.full, per, c.first, last, eval, tm, s);
  }

  ghost predicate Aligned<T>(log: seq<Stamp<T>>, per: int)
    requires per > 0
  {
    forall i :: 0 <= i < |log| ==> log[i].tm == log[i].tm / per * per
  }

  /** Between two cells there is no multiple of the period. */
  lemma AlignedNotMerged<T>(log: seq<Stamp<T>>, per: int, last: int)
    requires per > 0 && Aligned(log, per)
    ensures !Merges(log, per, last)
  {
    if Merges(log, per, last) {
      var k := log[|log| - 1].tm / per;
      MulLt(last - 1, k, per);
      MulLt(k, last, per);
    }
  }

  lemma StoredAligned<T>(c: Changes<T>, size: int, per: int, eval: T, last: int, npos: nat, tm: int, v: T, fill: T)
    requires per > 0
    ensures Aligned(c.full, per) && tm == tm / per * per ==>
              Aligned(AfterWrite(c, size, per, eval, last, npos, tm, v, fill).full, per)
  {
    AlignedCell(last, per);
    AlignedCell(last + 1, per);
  }

  /** A write to the soft grid as seen from outside: from the entries before to the entries after. */
  lemma SoftOutcome<T>(c: Changes<T>, size: int, per: int, eval: T, last: int, npos: int, tm: int, v: T, ok: bool,
                       r: Changes<T>, s: History<T>, fillLast: bool, log: seq<Stamp<T>>, cur: int, first': int,
                       last': int)
    requires per > 0 && c.Ok(size) && c.gone == 0 && InCells(c.full, per, c.first, last)
    requires |c.full| == 0 ==> tm / per == c.first
    requires if |c.full| == 0 then |s.cells| == 0 else s == Expand(c.full, per, c.first, last, eval)
    requires npos == Past(Expand(c.full, per, c.first, last, eval), tm, per) && (ok <==> npos >= 0)
    requires ok ==> r == AfterWrite(c, size, per, eval, last, npos, tm, v, c.Fill(fillLast, eval))
    requires ok ==> 0 <= r.gone <= |r.full| && log == r.full[r.gone..] && cur == r.cur && first' == r.first &&
                    last' == last + npos
    requires !ok ==> log == c.full && cur == c.cur && first' == c.first && last' == last
    ensures |log| > 0 && c.first <= first' && InCells(log, per, first', last')
    ensures SoftWrite(s, size, per, s.Fill(fillLast, eval), v, tm, ok, Expand(log, per, first', last', eval),
                      Well(c.full, c.cur, size, per, c.first, last), Well(log, cur, size, per, first', last'),
                      Merges(c.full, per, last))
  {
    if ok {
      SoftWriteHolds(c, size, per, eval, last, npos, tm, v, r, s, fillLast, log);
    } else {
      SoftRefused(c, c.cur, size, per, eval, last, npos, tm, v, s, fillLast);
    }
  }

  lemma AlignedOutcome<T>(c: Changes<T>, size: int, per: int, eval: T, last: int, npos: int, tm: int, v: T, ok: bool,
                          r: Changes<T>, fill: T, log: seq<Stamp<T>>)
    requires per > 0 && (ok ==> npos >= 0 && r == AfterWrite(c, size, per, eval, last, npos, tm, v, fill))
    requires if ok then 0 <= r.gone <= |r.full| && log == r.full[r.gone..] else log == c.full
    ensures Aligned(c.full, per) && tm == tm / per * per ==> Aligned(log, per)
  {
    if ok { StoredAligned(c, size, per, eval, last, npos, tm, v, fill); }
  }

  /** Moving a time into the history does not change the nearest cell. */
  lemma HardAnswer<T>(s: History<T>, per: int, eval: T, itm: int, tm: int, up: bool, r: T, otm: int)
    requires per > 0 && |s.cells| > 0
    requires if up then itm <= s.Last() * per else itm >= s.first * per
    requires tm == if up then if itm > s.first * per then itm else s.first * per
                   else if itm < s.Last() * per then itm else s.Last() * per
    requires var k := if up then CeilDiv(tm, per) else tm / per; s.Has(k) && r == s.Cell(k) && otm == k * per
    ensures Answers(s, per, eval, itm, up, r, otm)
  {
    var k := if up then CeilDiv(tm, per) else tm / per;
    NearestCell(s, per, itm, up);
    AlignedCell(s.first, per);
    AlignedCell(s.Last(), per);
    if up && itm <= s.first * per { DistanceInCells(itm, s.first, per); }
    if !up && itm >= s.Last() * per { DistanceInCells(itm, s.Last(), per); }
    if up && itm > s.first * per { CeilBounds(itm, per); MulLt(s.first, CeilDiv(itm, per), per); }
    if !up && itm < s.Last() * per { FloorBounds(itm, per); MulLt(itm / per, s.Last(), per); }
    assert IsNearest(s, per, itm, up, k);
  }

  /** The answer of a soft grid. */
  function SoftReading<T>(log: seq<Stamp<T>>, per: int, first: int, last: int, eval: T, itm: int, up: bool): (T, int)
    requires per > 0
  {
    if if up then itm > last * per else itm < first * per then (eval, itm)
    else
      var tm := if up then if itm > first * per then itm else first * per
                else if itm < last * per then itm else last * per;
      SoftAt(log, per, if up then CeilDiv(tm, per) else tm / per, eval)
  }

  /** If its entries cover the history, a soft grid answers from the history; times that are multiples of the period are
      answered with the time of the cell. */
  lemma SoftAnswers<T>(log: seq<Stamp<T>>, per: int, first: int, last: int, eval: T, itm: int, up: bool)
    requires per > 0 && last >= first && Covers(log, per, first, last)
    ensures var (r, otm) := SoftReading(log, per, first, last, eval, itm, up);
            exists t :: Answers(Expand(log, per, first, last, eval), per, eval, itm, up, r, t) &&
                        (Aligned(log, per) ==> t == otm)
  {
    var h := Expand(log, per, first, last, eval);
    var (r, otm) := SoftReading(log, per, first, last, eval, itm, up);
    if if up then itm > last * per else itm < first * per {
      assert Answers(h, per, eval, itm, up, eval, itm);
    } else {
      var tm := if up then if itm > first * per then itm else first * per
                else if itm < last * per then itm else last * per;
      var k := if up then CeilDiv(tm, per) else tm / per;
      MulLe(first, last, per);
      InsideCells(tm, per, first, last);
      SoftAtInCell(log, per, k, eval);
      HardAnswer(h, per, eval, itm, tm, up, r, k * per);
    }
  }

  lemma InsideCells(tm: int, per: int, first: int, last: int)
    requires per > 0 && first * per <= tm <= last * per
    ensures first <= tm / per <= last && first <= CeilDiv(tm, per) <= last
  {
    FloorBounds(tm, per);
    CeilBounds(tm, per);
    MulLt(first, tm / per + 1, per);
    MulLtOrEq(tm / per, last, per);
    MulLtOrEq(first, CeilDiv(tm, per), per);
    MulLt(CeilDiv(tm, per) - 1, last, per);
  }

  lemma FlowClamped<T>(v: seq<Stamp<T>>, eval: T, itm: int, tm: int, up: bool, r: T, otm: int)
    requires Ascending(v)
    requires |v| > 0 ==> FlowAnswers(AsMap(v), eval, tm, up, r, otm)
    requires |v| > 0 ==> if up then itm <= v[|v| - 1].tm && tm == (if itm > v[0].tm then itm else v[0].tm)
                         else itm >= v[0].tm && tm == (if itm < v[|v| - 1].tm then itm else v[|v| - 1].tm)
    ensures |v| > 0 ==> FlowAnswers(AsMap(v), eval, itm, up, r, otm)
  {
    AsMapEntries(v);
  }

  lemma FlowBeyond<T>(v: seq<Stamp<T>>, eval: T, tm: int, up: bool, otm: int)
    requires Ascending(v) && |v| > 0 && if up then tm > v[|v| - 1].tm else tm < v[0].tm
    ensures FlowAnswers(AsMap(v), eval, tm, up, eval, otm)
  {
    AsMapEntries(v);
  }

  lemma AscendingEnds<T>(v: seq<Stamp<T>>)
    requires Ascending(v) && |v| > 0
    ensures v[0].tm <= v[|v| - 1].tm
  {
  }
}
