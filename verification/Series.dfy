/** Integer division as the program computes it, and the abstract value history: a run of cells, numbered by
    time / period, without holes. Both grid modes of the value buffer are proved against this history. */
module Series {

  // ----- division -----

  /** Division of a machine integer by a positive period: it truncates toward zero. */
  function TruncDiv(a: int, b: int): int
    requires b > 0
  {
    if a >= 0 then a / b else -((-a) / b)
  }

  /** The number of the first cell boundary at or after time `a`. */
  function CeilDiv(a: int, b: int): int
    requires b > 0
  {
    -((-a) / b)
  }

  lemma CeilBounds(a: int, b: int)
    requires b > 0
    ensures (CeilDiv(a, b) - 1) * b < a <= CeilDiv(a, b) * b
  {
    FloorBounds(-a, b);
  }

  lemma FloorBounds(a: int, b: int)
    requires b > 0
    ensures (a / b) * b <= a < (a / b + 1) * b
  {
    assert a == b * (a / b) + a % b;
  }

  lemma MulLe(x: int, y: int, b: int)
    requires x <= y && b > 0
    ensures x * b <= y * b
  {
  }

  lemma Commute(x: int, y: int)
    ensures x * y == y * x
  {
  }

  lemma MulNext(x: int, y: int, b: int)
    requires y == x + 1
    ensures y * b == x * b + b
  {
  }

  lemma MulLt(x: int, y: int, b: int)
    requires x * b < y * b && b > 0
    ensures x < y
  {
    if x >= y { MulLe(y, x, b); }
  }

  lemma MulLtOrEq(x: int, y: int, b: int)
    requires x * b <= y * b && b > 0
    ensures x <= y
  {
    if x > y { MulLe(y + 1, x, b); }
  }

  lemma Distribute(x: int, y: int, b: int)
    ensures (x - y) * b == x * b - y * b
  {
  }

  /** A quotient is the only integer whose interval of length `b` contains `a`. */
  lemma DivIs(a: int, b: int, q: int)
    requires b > 0 && q * b <= a < (q + 1) * b
    ensures a / b == q
  {
    FloorBounds(a, b);
    MulLt(q, a / b + 1, b);
    MulLt(a / b, q + 1, b);
  }

  lemma CeilIs(a: int, b: int, q: int)
    requires b > 0 && (q - 1) * b < a <= q * b
    ensures CeilDiv(a, b) == q
  {
    CeilBounds(a, b);
    MulLt(q - 1, CeilDiv(a, b), b);
    MulLt(CeilDiv(a, b) - 1, q, b);
  }

  lemma DivMono(a: int, b: int, per: int)
    requires per > 0 && a <= b
    ensures a / per <= b / per
  {
    FloorBounds(a, per);
    FloorBounds(b, per);
    MulLt(a / per, b / per + 1, per);
  }

  /** Truncated distance of a time from a cell boundary: it rounds a later time down to its cell and an
      earlier time up to its cell. */
  lemma DistanceInCells(tm: int, k: int, per: int)
    requires per > 0
    ensures tm >= k * per ==> TruncDiv(tm - k * per, per) == tm / per - k && tm / per >= k
    ensures tm <= k * per ==> TruncDiv(tm - k * per, per) == CeilDiv(tm, per) - k && CeilDiv(tm, per) <= k
    ensures tm <= k * per ==> TruncDiv(k * per - tm, per) == k - CeilDiv(tm, per)
  {
    if tm >= k * per { FloorShift(tm, k, per); }
    if tm <= k * per {
      FloorShift(-tm, -k, per);
      assert (-k) * per == -(k * per);
    }
  }

  lemma FloorShift(a: int, k: int, b: int)
    requires b > 0
    ensures (a - k * b) / b == a / b - k
    ensures a >= k * b ==> a / b >= k
  {
    FloorBounds(a, b);
    var q := a / b - k;
    assert q * b == (a / b) * b - k * b;
    assert (q + 1) * b == (a / b + 1) * b - k * b;
    DivIs(a - k * b, b, q);
    if a >= k * b { MulLt(k, a / b + 1, b); }
  }

  lemma CeilNearFloor(tm: int, per: int)
    requires per > 0
    ensures tm / per <= CeilDiv(tm, per) <= tm / per + 1
  {
    FloorBounds(tm, per);
    CeilBounds(tm, per);
    MulLtOrEq(tm / per, CeilDiv(tm, per), per);
    MulLt(CeilDiv(tm, per) - 1, tm / per + 1, per);
  }

  /** Aligned times: rounding down and rounding up agree. */
  lemma AlignedCell(k: int, per: int)
    requires per > 0
    ensures (k * per) / per == k && CeilDiv(k * per, per) == k
  {
    DivIs(k * per, per, k);
    CeilIs(k * per, per, k);
  }

  // ----- the history -----

  function Rep<T>(x: T, n: nat): (s: seq<T>)
    ensures |s| == n && forall i :: 0 <= i < n ==> s[i] == x
  {
    seq(n, _ => x)
  }

  /** A history without holes: `cells[i]` is the value of cell number `first + i`, whose time is that number
      times the period. */
  datatype History<T> = History(first: int, cells: seq<T>) {
    function Last(): int { first + |cells| - 1 }

    ghost predicate Has(k: int) { first <= k <= Last() }

    function Cell(k: int): T
      requires Has(k)
    {
      cells[k - first]
    }

    /** The cell number a value with time `tm` belongs to. */
    function Target(tm: int, per: int): int
      requires per > 0
    {
      if cells == [] || tm >= Last() * per then tm / per else CeilDiv(tm, per)
    }

    /** The cell takes a value with the time: after the last cell it is the one that the time lies in, before it the
        first one not before the time. */
    predicate Takes(tm: int, per: int, k: int) {
      if |cells| == 0 || tm >= Last() * per then k * per <= tm < (k + 1) * per else (k - 1) * per < tm <= k * per
    }

    predicate TooOld(tm: int, per: int)
      requires per > 0
    {
      cells != [] && Target(tm, per) < first
    }

    /** Put one value: overwrite a cell of the history, or append it after enough filler cells. */
    function Store(k: int, v: T, fill: T): History<T>
      requires cells == [] || k >= first
    {
      if cells == [] then History(k, [v])
      else if k <= Last() then History(first, cells[k - first := v])
      else History(first, cells + Rep(fill, k - Last() - 1) + [v])
    }

    /** Forget the `d` oldest cells. */
    function Drop(d: nat): History<T>
      requires d <= |cells|
    {
      History(first + d, cells[d..])
    }

    /** The filler for the cells between the end of the history and an appended value. */
    function Fill(fillLast: bool, eval: T): T {
      if fillLast && cells != [] then cells[|cells| - 1] else eval
    }
  }

  /** What a read may answer: in up order the first cell at or after the time, in down order the last cell at
      or before it; a time beyond the history on that side has no value. */
  ghost predicate Answers<T>(s: History<T>, per: int, eval: T, tm: int, up: bool, val: T, otm: int)
    requires per > 0 && s.cells != []
  {
    if (if up then tm > s.Last() * per else tm < s.first * per) then val == eval && otm == tm
    else exists k :: IsNearest(s, per, tm, up, k) && val == s.Cell(k) && otm == k * per
  }

  ghost predicate IsNearest<T>(s: History<T>, per: int, tm: int, up: bool, k: int) {
    s.Has(k) &&
    if up then k * per >= tm && forall j :: s.Has(j) && j * per >= tm ==> k <= j
    else k * per <= tm && forall j :: s.Has(j) && j * per <= tm ==> j <= k
  }

  /** A read has one answer, so two buffers that hold the same history cannot be told apart by reading. */
  lemma AnswerIsUnique<T>(s: History<T>, per: int, eval: T, tm: int, up: bool, v1: T, t1: int, v2: T, t2: int)
    requires per > 0 && s.cells != []
    requires Answers(s, per, eval, tm, up, v1, t1)
    requires Answers(s, per, eval, tm, up, v2, t2)
    ensures v1 == v2 && t1 == t2
  {
    if !(if up then tm > s.Last() * per else tm < s.first * per) {
      var k :| IsNearest(s, per, tm, up, k) && v1 == s.Cell(k) && t1 == k * per;
      var j :| IsNearest(s, per, tm, up, j) && v2 == s.Cell(j) && t2 == j * per;
      assert k == j;
    }
  }

  /** The nearest cell in numbers: rounding the time, moved into the history, up or down to a cell. */
  lemma NearestCell<T>(s: History<T>, per: int, tm: int, up: bool)
    requires per > 0 && s.cells != []
    requires if up then tm <= s.Last() * per else tm >= s.first * per
    ensures up ==> IsNearest(s, per, tm, up, if CeilDiv(tm, per) > s.first then CeilDiv(tm, per) else s.first)
    ensures !up ==> IsNearest(s, per, tm, up, if tm / per < s.Last() then tm / per else s.Last())
  {
    FloorBounds(tm, per);
    CeilBounds(tm, per);
    var c, f := CeilDiv(tm, per), tm / per;
    if up {
      MulLt(c - 1, s.Last(), per);
      if c <= s.first { MulLe(c, s.first, per); }
      forall j | s.Has(j) && j * per >= tm ensures c <= j { MulLt(c - 1, j, per); }
    } else {
      MulLt(s.first, f + 1, per);
      if f >= s.Last() { MulLe(s.Last(), f, per); }
      forall j | s.Has(j) && j * per <= tm ensures j <= f { MulLt(j, f + 1, per); }
    }
  }

  /** A stored value changes its own cell only: older cells keep their values and the cells skipped over take
      the filler. */
  lemma StoreIsPointwise<T>(s: History<T>, k: int, v: T, fill: T, j: int)
    requires s.cells != [] && k >= s.first
    ensures var r := s.Store(k, v, fill);
            r.first == s.first && r.Last() == (if k > s.Last() then k else s.Last()) &&
            (r.Has(j) ==> r.Cell(j) == if j == k then v else if j <= s.Last() then s.Cell(j) else fill)
  {
  }

  /** Forgetting old cells before or after a store is the same. */
  lemma StoreDrop<T>(s: History<T>, d: nat, k: int, v: T, fill: T)
    requires d < |s.cells| && k >= s.first + d
    ensures s.Drop(d).Store(k, v, fill) == s.Store(k, v, fill).Drop(d)
  {
    var a, b := s.Drop(d).Store(k, v, fill), s.Store(k, v, fill).Drop(d);
    assert a.cells == b.cells;
  }
}
