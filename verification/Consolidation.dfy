/** What the archiving loop has to write: for every archive period the value made of the samples in it. */
module Consolidation {
  import opened Series
  import opened Aggregate

  /** One pass over the cells of a history from `k0` on. An archive period has `m` cells of the source period `p`, and
      `c0` is the value carried into the period of the first cell. */
  datatype Pass = Pass(s: History<Val>, m: int, p: int, mode: CombMode, k0: int, c0: Val) {

    ghost predicate Ok() {
      m > 0 && p > 0 && k0 >= s.first
    }

    function Q0(): int
      requires m > 0
    {
      k0 / m
    }

    /** The first cell of the pass that is in the period. */
    function From(q: int): int {
      if q * m > k0 then q * m else k0
    }

    /** One past the last cell not after `k` that is in the period. */
    function Till(q: int, k: int): int {
      if k + 1 < q * m + m then k + 1 else q * m + m
    }

    /** The cell is one of the period that the pass has read up to cell `k`. */
    ghost predicate Reads(q: int, k: int, c: int)
      requires m > 0
    {
      s.Has(c) && k0 <= c <= k && c / m == q
    }

    /** The samples of the period up to cell `k`. */
    function Samples(q: int, k: int): seq<Val>
      requires Ok() && From(q) <= Till(q, k) && k <= s.Last()
    {
      s.cells[From(q) - s.first..Till(q, k) - s.first]
    }

    /** The value of the period, of the samples up to cell `k`. */
    function Value(q: int, k: int): Val
      requires Ok() && From(q) <= Till(q, k) && k <= s.Last() && From(q) >= 0
    {
      Fold(mode, if q == k0 / m then c0 else EVal, Samples(q, k), From(q) % m, p)
    }

    /** The last period that a pass up to cell `k1` writes: a period of which only the first sample has been read
        waits for the next pass. */
    function LastWritten(k1: int): int
      requires m > 0
    {
      if k1 % m == 0 && k1 > k0 then k1 / m - 1 else k1 / m
    }
  }

  lemma PeriodOf(k: int, m: int)
    requires m > 0
    ensures k / m * m <= k < k / m * m + m && k % m == k - k / m * m
  {
    assert k == m * (k / m) + k % m;
  }

  lemma PeriodIs(k: int, m: int, q: int)
    requires m > 0 && q * m <= k < q * m + m
    ensures k / m == q
  {
    DivIs(k, m, q);
  }

  /** One more sample of the same period. */
  lemma ValueStep(w: Pass, q: int, k: int)
    requires w.Ok() && w.k0 >= 0 && w.k0 <= k <= w.s.Last() && q == k / w.m
    requires w.From(q) < k
    ensures w.From(q) <= w.Till(q, k - 1) && w.From(q) <= w.Till(q, k)
    ensures k % w.m * w.p >= 0
    ensures w.Value(q, k) == Comb(w.mode, w.Value(q, k - 1), w.s.Cell(k), k % w.m * w.p, w.p)
  {
    PeriodOf(k, w.m);
    PeriodOf(w.From(q), w.m);
    PeriodIs(w.From(q), w.m, q);
    assert w.Till(q, k) == k + 1 && w.Till(q, k - 1) == k;
    var xs := w.Samples(q, k);
    var i := |xs| - 1;
    assert xs[..i] == w.Samples(q, k - 1);
    assert w.From(q) % w.m + i == k % w.m;
  }

  /** The first sample of a period in the pass. */
  lemma ValueStart(w: Pass, q: int, k: int)
    requires w.Ok() && w.k0 >= 0 && w.k0 <= k <= w.s.Last() && q == k / w.m
    requires w.From(q) == k
    ensures w.From(q) <= w.Till(q, k) && k % w.m * w.p >= 0
    ensures w.Value(q, k) == Comb(w.mode, if q == w.Q0() then w.c0 else EVal, w.s.Cell(k), k % w.m * w.p, w.p)
  {
    PeriodOf(k, w.m);
    var xs, c := w.Samples(q, k), if q == w.Q0() then w.c0 else EVal;
    assert |xs| == 1 && xs[..0] == [];
    assert Fold(w.mode, c, xs[..0], k % w.m, w.p) == c;
  }

  /** A period is closed once a later one is reached. */
  lemma ValueClosed(w: Pass, q: int, k: int, k1: int)
    requires w.Ok() && w.k0 >= 0 && w.k0 <= k <= k1 <= w.s.Last() && q * w.m + w.m <= k + 1
    requires w.From(q) <= w.Till(q, k)
    ensures w.From(q) <= w.Till(q, k1) && w.Value(q, k) == w.Value(q, k1)
  {
  }

  /** Carrying on from a re-read period: the pass `w'` starts again at the first cell of the period `q0`, with the
      value that the pass `w` had of it at cell `k` carried in, unless that pass had gone on to the next period. */
  ghost predicate Resumes(w: Pass, w': Pass, q0: int, k: int) {
    w.Ok() && w.k0 >= 0 && w.c0 == EVal && w.k0 <= k <= w.s.Last() && w.Q0() <= q0 <= k / w.m <= q0 + 1 &&
    w'.s == w.s && w'.m == w.m && w'.p == w.p && w'.mode == w.mode && w'.k0 == w.From(q0) &&
    w'.c0 == (if k / w.m == q0 then w.Value(q0, k) else EVal) &&
    0 <= w.From(q0) <= w.Till(q0, k)
  }

  /** Of the period read again nothing was read before that changes it. */
  ghost predicate Undisturbed(w: Pass, q: int, k: int, k1: int) {
    w.Ok() && w.k0 >= 0 && k <= k1 <= w.s.Last() && 0 <= w.From(q) <= w.Till(q, k) &&
    (w.mode == MovAver && k / w.m == q ==>
       Resumable(w.Samples(q, k1), w.Till(q, k) - w.From(q), w.From(q) % w.m, w.p))
  }

  /** Chunking invariance: a resumed pass gives every later period the value that one uninterrupted pass gives it, and
      the period read again exactly if that is not disturbed. */
  lemma ResumedIsSameIff(w: Pass, w': Pass, q0: int, k: int, q: int, k1: int)
    requires Resumes(w, w', q0, k) && k <= k1 <= w.s.Last() && q0 <= q && q * w.m <= k1
    ensures w'.Ok() && w'.Q0() == q0 && w'.From(q) == w.From(q)
    ensures 0 <= w.From(q) <= w.Till(q, k1)
    ensures w'.Value(q, k1) == w.Value(q, k1) <==> q > q0 || Undisturbed(w, q0, k, k1)
  {
    PeriodOf(w.k0, w.m);
    PeriodOf(k, w.m);
    MulLe(w.Q0(), q0, w.m);
    MulLe(q0, q, w.m);
    PeriodIs(w.From(q0), w.m, q0);
    if q == q0 {
      if k / w.m == q0 { ReReadPeriod(w, w', q0, k, k1); }
    } else {
      MulLe(q0 + 1, q, w.m);
    }
  }

  lemma ReReadPeriod(w: Pass, w': Pass, q0: int, k: int, k1: int)
    requires Resumes(w, w', q0, k) && k <= k1 <= w.s.Last() && k / w.m == q0 == w'.Q0() && w'.From(q0) == w.From(q0)
    requires w.From(q0) <= w.Till(q0, k1)
    ensures w'.Value(q0, k1) == w.Value(q0, k1) <==> Undisturbed(w, q0, k, k1)
  {
    var xs := w.Samples(q0, k1);
    var n := w.Till(q0, k) - w.From(q0);
    assert xs[..n] == w.Samples(q0, k);
    assert w'.Samples(q0, k1) == xs && w.c0 == EVal;
    ReReadIsSameIff(w.mode, xs, n, w.From(q0) % w.m, w.p);
  }

  // ----- what the values mean -----

  /** A closed period read from its start without missing samples: exactly its samples, and their mean. */
  lemma ClosedPeriodMean(w: Pass, q: int, k: int)
    requires w.Ok() && w.mode == MovAver && 0 <= w.k0 <= q * w.m && q * w.m + w.m <= k + 1 && k <= w.s.Last()
    requires Real(w.s.cells[q * w.m - w.s.first..q * w.m + w.m - w.s.first])
    ensures var xs := w.s.cells[q * w.m - w.s.first..q * w.m + w.m - w.s.first];
            w.From(q) <= w.Till(q, k) && |xs| == w.m && w.Value(q, k) == Num(Sum(xs) / w.m as real)
  {
    PeriodIs(q * w.m, w.m, q);
    PeriodOf(q * w.m, w.m);
    MovAverIsMean(if q == w.Q0() then w.c0 else EVal, w.Samples(q, k), w.p);
  }

  /** A period of a pass started afresh, missing samples or not: minimum and maximum are those of its real samples,
      and a moving average lies between the least and the greatest of them. */
  lemma FreshPeriodValue(w: Pass, q: int, k: int)
    requires w.Ok() && w.c0 == EVal && 0 <= w.k0 && k <= w.s.Last() && 0 <= w.From(q) <= w.Till(q, k)
    ensures if w.mode == MovAver then Averages(w.Value(q, k), w.Samples(q, k))
            else IsExtreme(w.mode, w.Value(q, k), w.Samples(q, k))
    ensures var v := w.Value(q, k);
            if forall c :: w.Reads(q, k, c) ==> w.s.Cell(c).EVal? then v.EVal?
            else
              v.Num? && exists lo, hi :: w.Reads(q, k, lo) && w.Reads(q, k, hi) && w.s.Cell(lo).Num? &&
                                         w.s.Cell(hi).Num? && w.s.Cell(lo).r <= v.r <= w.s.Cell(hi).r
    ensures w.mode == MinVal ==> forall c :: w.Reads(q, k, c) && w.s.Cell(c).Num? ==>
              w.Value(q, k).Num? && w.Value(q, k).r <= w.s.Cell(c).r
    ensures w.mode == MaxVal ==> forall c :: w.Reads(q, k, c) && w.s.Cell(c).Num? ==>
              w.Value(q, k).Num? && w.Value(q, k).r >= w.s.Cell(c).r
  {
    if w.mode == MovAver { MovAverIsBetween(w.Samples(q, k), w.From(q) % w.m, w.p); }
    else { ExtremeOfSamples(w.mode, w.Samples(q, k), w.From(q) % w.m, w.p); }
    ReadsValue(w, q, k, w.Value(q, k));
  }

  lemma ReadsIff(w: Pass, q: int, k: int, c: int)
    requires w.Ok() && k <= w.s.Last()
    ensures w.Reads(q, k, c) <==> w.From(q) <= c < w.Till(q, k)
  {
    PeriodOf(c, w.m);
    if q * w.m <= c < q * w.m + w.m { PeriodIs(c, w.m, q); }
  }

  lemma ReadsValue(w: Pass, q: int, k: int, v: Val)
    requires w.Ok() && 0 <= w.k0 && k <= w.s.Last() && 0 <= w.From(q) <= w.Till(q, k)
    requires if w.mode == MovAver then Averages(v, w.Samples(q, k)) else IsExtreme(w.mode, v, w.Samples(q, k))
    ensures if forall c :: w.Reads(q, k, c) ==> w.s.Cell(c).EVal? then v.EVal?
            else
              v.Num? && exists lo, hi :: w.Reads(q, k, lo) && w.Reads(q, k, hi) && w.s.Cell(lo).Num? &&
                                         w.s.Cell(hi).Num? && w.s.Cell(lo).r <= v.r <= w.s.Cell(hi).r
    ensures w.mode == MinVal ==> forall c :: w.Reads(q, k, c) && w.s.Cell(c).Num? ==> v.Num? && v.r <= w.s.Cell(c).r
    ensures w.mode == MaxVal ==> forall c :: w.Reads(q, k, c) && w.s.Cell(c).Num? ==> v.Num? && v.r >= w.s.Cell(c).r
  {
    var a, b := w.From(q), w.Till(q, k);
    CellsValue(w.s, a, b, w.mode, v);
    forall c ensures w.Reads(q, k, c) <==> a <= c < b { ReadsIff(w, q, k, c); }
  }

  /** What an average or an extreme of some cells is to each of them. */
  lemma CellsValue(s: History<Val>, a: int, b: int, mode: CombMode, v: Val)
    requires s.first <= a <= b <= s.Last() + 1
    requires var xs := s.cells[a - s.first..b - s.first];
             if mode == MovAver then Averages(v, xs) else IsExtreme(mode, v, xs)
    ensures if forall c :: a <= c < b ==> s.Cell(c).EVal? then v.EVal?
            else
              v.Num? && exists lo, hi :: a <= lo < b && a <= hi < b && s.Cell(lo).Num? && s.Cell(hi).Num? &&
                                         s.Cell(lo).r <= v.r <= s.Cell(hi).r
    ensures mode == MinVal ==> forall c :: a <= c < b && s.Cell(c).Num? ==> v.Num? && v.r <= s.Cell(c).r
    ensures mode == MaxVal ==> forall c :: a <= c < b && s.Cell(c).Num? ==> v.Num? && v.r >= s.Cell(c).r
  {
    var xs := s.cells[a - s.first..b - s.first];
    forall c | a <= c < b ensures s.Cell(c) == xs[c - a] {}
    if c :| a <= c < b && s.Cell(c).Num? {
      assert xs[c - a].Num?;
      if mode == MovAver {
        var lo :| 0 <= lo < |xs| && xs[lo].Num? && xs[lo].r <= v.r;
        var hi :| 0 <= hi < |xs| && xs[hi].Num? && v.r <= xs[hi].r;
        assert s.Cell(a + lo) == xs[lo] && s.Cell(a + hi) == xs[hi];
      } else {
        var i :| 0 <= i < |xs| && xs[i] == v;
        assert s.Cell(a + i) == v;
      }
    } else {
      forall i | 0 <= i < |xs| ensures xs[i].EVal? { assert s.Cell(a + i) == xs[i]; }
    }
  }
}
