/** An archive element: it carries the values of an archive buffer into an archiver, one value for each archive
    period, and keeps between its calls what it needs to carry on. */
module ArchEl {
  import opened Series
  import opened Ring
  import opened BufSpec
  import opened ValBuf
  import opened GridIO
  import opened Aggregate
  import opened Consolidation

  lemma TimeInPeriod(k: int, m: int, p: int)
    requires m > 0 && p > 0
    ensures m * p > 0 && k * p / (m * p) == k / m && k * p - m * p * (k * p / (m * p)) == k % m * p
  {
    PeriodOf(k, m);
    var q, a := k / m, m * p;
    assert a > 0 by { MulLe(1, m, p); }
    assert q * a == q * m * p by { Assoc(q, m, p); }
    assert (q + 1) * a == (q * m + m) * p by { Assoc(q + 1, m, p); }
    MulLe(q * m, k, p);
    MulLe(k + 1, q * m + m, p);
    MulNext(k, k + 1, p);
    DivIs(k * p, a, q);
    Distribute(k, q * m, p);
  }

  lemma TimeInArchive(k: int, m: int, p: int, a_per: int)
    requires m > 0 && p > 0 && a_per == m * p
    ensures k * p / a_per == k / m && k * p - a_per * (k * p / a_per) == k % m * p >= 0
  {
    TimeInPeriod(k, m, p);
    PeriodOf(k, m);
    MulLe(0, k % m, p);
  }

  lemma Assoc(q: int, m: int, p: int)
    ensures q * (m * p) == q * m * p
  {
  }

  // ----- one sample of a pass -----

  ghost predicate IsValue(w: Pass, q: int, k: int, v: Val) {
    w.Ok() && w.k0 >= 0 && k <= w.s.Last() && 0 <= w.From(q) <= w.Till(q, k) && v == w.Value(q, k)
  }

  /** The periods written by a pass that has read the cells before `k`, of which `k1` is the last. */
  ghost predicate Written(w: Pass, out: seq<Val>, k: int, k1: int) {
    w.Ok() && 0 <= w.k0 <= k <= k1 + 1 && w.k0 <= k1 <= w.s.Last() &&
    |out| == (if k == w.k0 then 0 else if k <= k1 then (k - 1) / w.m - w.Q0() else w.LastWritten(k1) - w.Q0() + 1) &&
    forall i :: 0 <= i < |out| ==> IsValue(w, w.Q0() + i, k1, out[i])
  }

  lemma NextPeriod(k: int, m: int)
    requires m > 0
    ensures k % m == 0 ==> k / m == (k - 1) / m + 1 && k == k / m * m
    ensures k % m != 0 ==> k / m == (k - 1) / m && k > k / m * m
  {
    PeriodOf(k, m);
    PeriodOf(k - 1, m);
    if k % m == 0 { MulNext(k / m - 1, k / m, m); PeriodIs(k - 1, m, k / m - 1); } else { PeriodIs(k - 1, m, k / m); }
  }

  /** The state before cell `k`: the period and the value carried by the loop. */
  ghost predicate Carries(w: Pass, k: int, k1: int, prevQ: int, prevVal: Val) {
    w.Ok() && 0 <= w.k0 <= k <= k1 <= w.s.Last() &&
    if k == w.k0 then
      if prevQ == w.Q0() then w.c0 == prevVal else w.c0 == EVal && prevQ != w.Q0() - 1 && k < k1
    else prevQ == (k - 1) / w.m && IsValue(w, prevQ, k - 1, prevVal)
  }

  function Joined(w: Pass, k: int, prevVal: Val): Val
    requires w.Ok() && 0 <= w.k0 <= k <= w.s.Last()
  {
    Comb(w.mode, prevVal, w.s.Cell(k), if k % w.m * w.p >= 0 then k % w.m * w.p else 0, w.p)
  }

  /** The value after cell `k`. */
  lemma StepValue(w: Pass, k: int, k1: int, prevQ: int, prevVal: Val)
    requires Carries(w, k, k1, prevQ, prevVal)
    ensures IsValue(w, k / w.m, k, if prevQ == k / w.m then Joined(w, k, prevVal) else w.s.Cell(k))
  {
    NextPeriod(k, w.m);
    if k == w.k0 || k % w.m == 0 {
      StartPeriod(w, k);
      StepStart(w, k, if k == w.k0 then w.c0 else EVal);
    } else {
      StepJoin(w, k, prevVal);
    }
  }

  lemma StartPeriod(w: Pass, k: int)
    requires w.Ok() && 0 <= w.k0 <= k && (k == w.k0 || k % w.m == 0)
    ensures k / w.m == w.Q0() <==> k == w.k0
  {
    PeriodOf(k, w.m);
    PeriodOf(w.k0, w.m);
  }

  lemma StepStart(w: Pass, k: int, carry: Val)
    requires w.Ok() && 0 <= w.k0 <= k <= w.s.Last() && (k == w.k0 || k % w.m == 0)
    requires carry == if k / w.m == w.Q0() then w.c0 else EVal
    ensures IsValue(w, k / w.m, k, Joined(w, k, carry))
    ensures carry.EVal? ==> Joined(w, k, carry) == w.s.Cell(k)
  {
    PeriodOf(k, w.m);
    assert w.From(k / w.m) == k;
    ValueStart(w, k / w.m, k);
  }

  lemma StepJoin(w: Pass, k: int, v: Val)
    requires w.Ok() && 0 <= w.k0 < k <= w.s.Last() && k % w.m != 0 && IsValue(w, k / w.m, k - 1, v)
    ensures IsValue(w, k / w.m, k, Joined(w, k, v))
  {
    NextPeriod(k, w.m);
    assert w.From(k / w.m) < k;
    ValueStep(w, k / w.m, k);
  }

  /** What is written at cell `k`, and what is written after it. */
  lemma StepWritten(w: Pass, out: seq<Val>, k: int, k1: int, prevQ: int, prevVal: Val)
    requires Carries(w, k, k1, prevQ, prevVal) && Written(w, out, k, k1)
    ensures var q := k / w.m;
            if q - prevQ == 1 || k == k1 then
              prevQ == w.Q0() + |out| &&
              Written(w, out + [if prevQ == q then Joined(w, k, prevVal) else prevVal], k + 1, k1)
            else Written(w, out, k + 1, k1)
  {
    var q := k / w.m;
    var v := if prevQ == q then Joined(w, k, prevVal) else prevVal;
    if q - prevQ == 1 || k == k1 {
      ValueToWrite(w, k, k1, prevQ, prevVal);
      PeriodsTo(w, |out|, k, k1, prevQ);
      WrittenNext(w, out, v, k, k1);
    } else {
      PeriodsStay(w, k, prevQ);
    }
  }

  lemma PeriodsStay(w: Pass, k: int, prevQ: int)
    requires w.Ok() && 0 <= w.k0 <= k && k / w.m - prevQ != 1 && (k > w.k0 ==> prevQ == (k - 1) / w.m)
    ensures k > w.k0 ==> k / w.m == (k - 1) / w.m
    ensures k == w.k0 ==> k / w.m == w.Q0()
  {
    NextPeriod(k, w.m);
  }

  /** The period written at cell `k` is the next one. */
  lemma PeriodsTo(w: Pass, n: nat, k: int, k1: int, prevQ: int)
    requires w.Ok() && 0 <= w.k0 <= k <= k1 && (k / w.m - prevQ == 1 || k == k1)
    requires if k == w.k0 then prevQ == w.Q0() || (prevQ != w.Q0() - 1 && k < k1) else prevQ == (k - 1) / w.m
    requires n == if k == w.k0 then 0 else (k - 1) / w.m - w.Q0()
    ensures prevQ == w.Q0() + n
    ensures n + 1 == if k + 1 <= k1 then k / w.m - w.Q0() else w.LastWritten(k1) - w.Q0() + 1
  {
    NextPeriod(k, w.m);
    PeriodOf(w.k0, w.m);
  }

  lemma WrittenNext(w: Pass, out: seq<Val>, v: Val, k: int, k1: int)
    requires Written(w, out, k, k1) && k <= k1 && IsValue(w, w.Q0() + |out|, k1, v)
    requires |out| + 1 == if k + 1 <= k1 then k / w.m - w.Q0() else w.LastWritten(k1) - w.Q0() + 1
    ensures Written(w, out + [v], k + 1, k1)
  {
    var out' := out + [v];
    forall i | 0 <= i < |out'| ensures IsValue(w, w.Q0() + i, k1, out'[i]) {
      if i < |out| { assert out'[i] == out[i]; }
    }
  }

  lemma ValueToWrite(w: Pass, k: int, k1: int, prevQ: int, prevVal: Val)
    requires Carries(w, k, k1, prevQ, prevVal) && (k / w.m - prevQ == 1 || k == k1)
    ensures IsValue(w, prevQ, k1, if prevQ == k / w.m then Joined(w, k, prevVal) else prevVal)
  {
    NextPeriod(k, w.m);
    if prevQ == k / w.m { StepValue(w, k, k1, prevQ, prevVal); } else { ClosedBefore(w, k, k1, prevVal); }
  }

  lemma ClosedBefore(w: Pass, k: int, k1: int, v: Val)
    requires w.Ok() && 0 <= w.k0 < k <= k1 <= w.s.Last() && k / w.m == (k - 1) / w.m + 1
    requires IsValue(w, (k - 1) / w.m, k - 1, v)
    ensures IsValue(w, (k - 1) / w.m, k1, v)
  {
    var q := (k - 1) / w.m;
    PeriodOf(k, w.m);
    MulNext(q, q + 1, w.m);
    ValueClosed(w, q, k - 1, k1);
  }

  // ----- the archiving loop -----

  /** The times of a pass at cell `k`. */
  ghost predicate AtCell(w: Pass, k: int, k1: int, a_per: int, c_tm: int, end: int) {
    w.Ok() && a_per == w.m * w.p && a_per > 0 && 0 < w.Q0() && 0 <= w.k0 <= k <= k1 <= w.s.Last() &&
    c_tm == k * w.p && (c_tm >= end <==> k == k1)
  }

  /** What one sample does to the state of the loop and to the output: whether a value is written, and which. */
  datatype Effect = Effect(prevTm: int, prevVal: Val, write: bool, tm: int, val: Val)

  function EffectOf(c_val: Val, c_tm: int, end: int, prevTm: int, prevVal: Val, a_per: int, n_k: int,
                    mode: CombMode): Effect
    requires a_per > 0 && n_k > 0 && c_tm - a_per * (c_tm / a_per) >= 0
  {
    var vdif := c_tm / a_per - prevTm / a_per;
    var (tm, val) := if vdif == 0 then (c_tm, Comb(mode, prevVal, c_val, c_tm - a_per * (c_tm / a_per), n_k))
                     else (prevTm, prevVal);
    Effect(c_tm, if vdif == 0 then val else c_val, vdif == 1 || c_tm + 1 > end, tm, val)
  }

  /** One turn of the archiving loop: a sample goes into the value of its period, or starts a new period after the
      value of the one before has been written. */
  method Turn(obuf: TBuf<Val>, c_val: Val, c_tm: int, end: int, prevTm: int, prevVal: Val, n_k: int, mode: CombMode,
              now: int, ghost q0: int, ghost out: seq<Val>)
      returns (wPrevTm: int, wPrevVal: Val)
    requires n_k > 0 && obuf.per > 0 && c_tm - obuf.per * (c_tm / obuf.per) >= 0 && IsOut(obuf, obuf.per, q0, out)
    requires var e := EffectOf(c_val, c_tm, end, prevTm, prevVal, obuf.per, n_k, mode);
             var t := if e.tm == 0 then now else e.tm;
             e.write ==> t >= obuf.per && t / obuf.per == q0 + |out|
    modifies obuf
    ensures var e := EffectOf(c_val, c_tm, end, prevTm, prevVal, old(obuf.per), n_k, mode);
            wPrevTm == e.prevTm && wPrevVal == e.prevVal &&
            IsOut(obuf, old(obuf.per), q0, if e.write then out + [e.val] else out)
  {
    var a_per := obuf.per;
    wPrevTm, wPrevVal := prevTm, prevVal;
    var vdif := c_tm / a_per - wPrevTm / a_per;
    if vdif == 0 {
      wPrevVal := Comb(mode, wPrevVal, c_val, c_tm - a_per * (c_tm / a_per), n_k);
      wPrevTm := c_tm;
    }
    if vdif == 1 || c_tm + 1 > end {
      var _ := PutValue(obuf, wPrevVal, wPrevTm, now, true, q0, out);
    }
    if vdif != 0 { wPrevVal := c_val; wPrevTm := c_tm; }
  }

  lemma StepEffect(w: Pass, out: seq<Val>, k: int, k1: int, prevTm: int, prevVal: Val, c_val: Val, c_tm: int, end: int,
                   a_per: int)
    requires AtCell(w, k, k1, a_per, c_tm, end) && c_val == w.s.Cell(k)
    requires Carries(w, k, k1, prevTm / a_per, prevVal) && Written(w, out, k, k1)
    ensures c_tm - a_per * (c_tm / a_per) >= 0
    ensures var e := EffectOf(c_val, c_tm, end, prevTm, prevVal, a_per, w.p, w.mode);
            e.prevTm == c_tm && IsValue(w, k / w.m, k, e.prevVal) &&
            Written(w, if e.write then out + [e.val] else out, k + 1, k1) &&
            (e.write ==> e.tm >= a_per && e.tm / a_per == w.Q0() + |out|)
  {
    TimeInArchive(k, w.m, w.p, a_per);
    StepValue(w, k, k1, prevTm / a_per, prevVal);
    StepWritten(w, out, k, k1, prevTm / a_per, prevVal);
    AfterFirstPeriod(c_tm, a_per);
    AfterFirstPeriod(prevTm, a_per);
  }

  lemma AfterFirstPeriod(tm: int, per: int)
    requires per > 0
    ensures tm / per > 0 ==> tm >= per
  {
    FloorBounds(tm, per);
    if tm / per > 0 { MulLe(1, tm / per, per); }
  }

  // ----- a pass from any state of the element -----

  /** What the element carries into a pass, and the current time. */
  datatype Start = Start(prevTm: int, prevVal: Val, now: int) {
    function Q(a_per: int): int
      requires a_per > 0
    {
      prevTm / a_per
    }

    /** The pass carries the value on if it is of the period it starts in. */
    ghost predicate Fits(w: Pass, a_per: int)
      requires a_per > 0
    {
      w.Ok() && w.c0 == (if Q(a_per) == w.Q0() then prevVal else EVal) &&
      if prevTm == 0 then w.Q0() > 1 && now >= a_per else prevTm >= a_per
    }

    /** The pass writes the values of its periods. */
    ghost predicate Own(w: Pass, k1: int, a_per: int)
      requires a_per > 0 && w.m > 0
    {
      Q(a_per) == w.Q0() || w.k0 < k1
    }

    /** What the pass writes before: the carried value, if it is of the period before, or if it is of another period and
        the pass has one sample only. */
    ghost function Extra(w: Pass, k1: int, a_per: int): seq<Val>
      requires a_per > 0 && w.m > 0
    {
      if Q(a_per) == w.Q0() - 1 || !Own(w, k1, a_per) then [prevVal] else []
    }

    /** The period of the first value written; a carried value without a time goes to the current one. */
    ghost function First(w: Pass, k1: int, a_per: int): int
      requires a_per > 0 && w.m > 0
    {
      if Q(a_per) == w.Q0() - 1 then w.Q0() - 1
      else if Own(w, k1, a_per) then w.Q0()
      else (if prevTm == 0 then now else prevTm) / a_per
    }
  }

  /** All that a pass writes, from the period `x.First` on. */
  ghost predicate IsOutput(w: Pass, k1: int, x: Start, a_per: int, all: seq<Val>)
    requires a_per > 0 && w.m > 0
  {
    var pre := x.Extra(w, k1, a_per);
    if x.Own(w, k1, a_per) then |all| >= |pre| && all[..|pre|] == pre && Written(w, all[|pre|..], k1 + 1, k1)
    else all == pre
  }

  /** The state of the loop before cell `k`. */
  ghost predicate InPass(w: Pass, k: int, k1: int, x: Start, a_per: int, prevTm: int, prevVal: Val, all: seq<Val>)
    requires a_per > 0 && w.m > 0
  {
    var pre := x.Extra(w, k1, a_per);
    if k == w.k0 then prevTm == x.prevTm && prevVal == x.prevVal && |all| == 0
    else if k <= k1 then
      Carries(w, k, k1, prevTm / a_per, prevVal) && |all| >= |pre| && all[..|pre|] == pre &&
      Written(w, all[|pre|..], k, k1)
    else IsOutput(w, k1, x, a_per, all) && prevTm == k1 * w.p && IsValue(w, k1 / w.m, k1, prevVal)
  }

  /** What a pass writes, without the names above: a carried value of the period before comes first, in its period; then
      come the periods from that of the first cell to the last one to be written, if the value carried is of the first
      period or there are two samples or more; and if not so, and the value carried is of no period before, it alone is
      written, in its period, or in the current one if it has no time. */
  lemma OutputSeen(w: Pass, k1: int, x: Start, a_per: int, all: seq<Val>)
    requires a_per > 0 && w.Ok() && 0 <= w.k0 <= k1 <= w.s.Last() && IsOutput(w, k1, x, a_per, all)
    ensures x.prevTm / a_per == w.k0 / w.m - 1 ==>
              |all| > 0 && all[0] == x.prevVal && x.First(w, k1, a_per) == w.k0 / w.m - 1
    ensures x.prevTm / a_per != w.k0 / w.m - 1 && (x.prevTm / a_per == w.k0 / w.m || w.k0 < k1) ==>
              x.First(w, k1, a_per) == w.k0 / w.m
    ensures x.prevTm / a_per == w.k0 / w.m || w.k0 < k1 ==>
              x.First(w, k1, a_per) + |all| - 1 == (if k1 % w.m == 0 && k1 > w.k0 then k1 / w.m - 1 else k1 / w.m) &&
              forall i :: 0 <= i < |all| && x.First(w, k1, a_per) + i >= w.k0 / w.m ==>
                IsValue(w, x.First(w, k1, a_per) + i, k1, all[i])
    ensures x.prevTm / a_per != w.k0 / w.m - 1 && x.prevTm / a_per != w.k0 / w.m && w.k0 == k1 ==>
              all == [x.prevVal] && x.First(w, k1, a_per) == (if x.prevTm == 0 then x.now else x.prevTm) / a_per
  {
    OutputCount(w, k1, x, a_per, all);
  }

  ghost predicate Puts(e: Effect, now: int, a_per: int, q: int)
    requires a_per > 0
  {
    var t := if e.tm == 0 then now else e.tm;
    e.write ==> t >= a_per && t / a_per == q
  }

  /** One sample of a pass. */
  lemma TurnEffect(w: Pass, k: int, k1: int, x: Start, prevTm: int, prevVal: Val, c_tm: int, end: int, a_per: int,
                   all: seq<Val>)
    requires AtCell(w, k, k1, a_per, c_tm, end) && x.Fits(w, a_per) && InPass(w, k, k1, x, a_per, prevTm, prevVal, all)
    ensures c_tm - a_per * (c_tm / a_per) >= 0
    ensures var e := EffectOf(w.s.Cell(k), c_tm, end, prevTm, prevVal, a_per, w.p, w.mode);
            Puts(e, x.now, a_per, x.First(w, k1, a_per) + |all|) &&
            InPass(w, k + 1, k1, x, a_per, e.prevTm, e.prevVal, if e.write then all + [e.val] else all)
  {
    if k > w.k0 {
      LaterTurn(w, k, k1, x, prevTm, prevVal, c_tm, end, a_per, all);
    } else {
      FirstTurn(w, k1, x, c_tm, end, a_per, all);
    }
  }

  lemma LaterTurn(w: Pass, k: int, k1: int, x: Start, prevTm: int, prevVal: Val, c_tm: int, end: int, a_per: int,
                  all: seq<Val>)
    requires AtCell(w, k, k1, a_per, c_tm, end) && x.Fits(w, a_per) &&
             InPass(w, k, k1, x, a_per, prevTm, prevVal, all) && k > w.k0
    ensures c_tm - a_per * (c_tm / a_per) >= 0
    ensures var e := EffectOf(w.s.Cell(k), c_tm, end, prevTm, prevVal, a_per, w.p, w.mode);
            Puts(e, x.now, a_per, x.First(w, k1, a_per) + |all|) &&
            InPass(w, k + 1, k1, x, a_per, e.prevTm, e.prevVal, if e.write then all + [e.val] else all)
  {
    var pre := x.Extra(w, k1, a_per);
    StepEffect(w, all[|pre|..], k, k1, prevTm, prevVal, w.s.Cell(k), c_tm, end, a_per);
    var e := EffectOf(w.s.Cell(k), c_tm, end, prevTm, prevVal, a_per, w.p, w.mode);
    AfterPre(pre, all, e.val);
    OwnFirst(w, k1, x, a_per);
    OwnTurn(w, k, k1, x, c_tm, a_per, e.prevVal, if e.write then all + [e.val] else all);
  }

  lemma OwnFirst(w: Pass, k1: int, x: Start, a_per: int)
    requires a_per > 0 && w.m > 0 && x.Own(w, k1, a_per)
    ensures x.First(w, k1, a_per) + |x.Extra(w, k1, a_per)| == w.Q0()
  {
  }

  /** A turn that writes at most a value of a period of the pass. */
  lemma OwnTurn(w: Pass, k: int, k1: int, x: Start, c_tm: int, a_per: int, prevVal: Val, all: seq<Val>)
    requires w.Ok() && a_per == w.m * w.p && a_per > 0 && 0 <= w.k0 <= k <= k1 <= w.s.Last() && c_tm == k * w.p
    requires x.Own(w, k1, a_per) && |all| >= |x.Extra(w, k1, a_per)| &&
             all[..|x.Extra(w, k1, a_per)|] == x.Extra(w, k1, a_per)
    requires Written(w, all[|x.Extra(w, k1, a_per)|..], k + 1, k1) && IsValue(w, k / w.m, k, prevVal)
    ensures InPass(w, k + 1, k1, x, a_per, c_tm, prevVal, all)
  {
    AfterCell(w, k, k1, c_tm, c_tm, prevVal, a_per);
  }

  lemma AfterPre(pre: seq<Val>, all: seq<Val>, v: Val)
    requires |all| >= |pre| && all[..|pre|] == pre
    ensures (all + [v])[..|pre|] == pre && (all + [v])[|pre|..] == all[|pre|..] + [v]
  {
  }

  /** What the loop carries on is as the next turn asks for it. */
  lemma AfterCell(w: Pass, k: int, k1: int, c_tm: int, prevTm: int, prevVal: Val, a_per: int)
    requires w.Ok() && a_per == w.m * w.p && 0 <= w.k0 <= k <= k1 <= w.s.Last() && c_tm == k * w.p == prevTm
    requires IsValue(w, k / w.m, k, prevVal)
    ensures k < k1 ==> a_per > 0 && Carries(w, k + 1, k1, prevTm / a_per, prevVal)
  {
    TimeInPeriod(k, w.m, w.p);
  }

  lemma FirstTurn(w: Pass, k1: int, x: Start, c_tm: int, end: int, a_per: int, all: seq<Val>)
    requires AtCell(w, w.k0, k1, a_per, c_tm, end) && x.Fits(w, a_per) && |all| == 0
    ensures c_tm - a_per * (c_tm / a_per) >= 0
    ensures var e := EffectOf(w.s.Cell(w.k0), c_tm, end, x.prevTm, x.prevVal, a_per, w.p, w.mode);
            Puts(e, x.now, a_per, x.First(w, k1, a_per) + |all|) &&
            InPass(w, w.k0 + 1, k1, x, a_per, e.prevTm, e.prevVal, if e.write then all + [e.val] else all)
  {
    var k, e := w.k0, EffectOf(w.s.Cell(w.k0), c_tm, end, x.prevTm, x.prevVal, a_per, w.p, w.mode);
    TimeInArchive(k, w.m, w.p, a_per);
    if x.Q(a_per) == w.Q0() || (x.Q(a_per) != w.Q0() - 1 && k < k1) {
      assert all[0..] == all;
      StepEffect(w, all, k, k1, x.prevTm, x.prevVal, w.s.Cell(k), c_tm, end, a_per);
      AfterPre([], all, e.val);
      OwnFirst(w, k1, x, a_per);
      OwnTurn(w, k, k1, x, c_tm, a_per, e.prevVal, if e.write then all + [e.val] else all);
    } else {
      assert all + [e.val] == [e.val];
      ExtraTurn(w, k1, x, c_tm, a_per, e);
    }
  }

  /** A first turn that writes the carried value, which is not of a period of the pass. */
  lemma ExtraTurn(w: Pass, k1: int, x: Start, c_tm: int, a_per: int, e: Effect)
    requires w.Ok() && a_per == w.m * w.p && a_per > 0 && 0 <= w.k0 <= k1 <= w.s.Last() && c_tm == w.k0 * w.p &&
             x.Fits(w, a_per)
    requires x.Q(a_per) != w.Q0() && (x.Q(a_per) == w.Q0() - 1 || w.k0 == k1)
    requires e == Effect(c_tm, w.s.Cell(w.k0), true, x.prevTm, x.prevVal)
    ensures Puts(e, x.now, a_per, x.First(w, k1, a_per))
    ensures InPass(w, w.k0 + 1, k1, x, a_per, e.prevTm, e.prevVal, [e.val])
  {
    StepStart(w, w.k0, EVal);
    AfterCell(w, w.k0, k1, c_tm, e.prevTm, e.prevVal, a_per);
    if w.k0 < k1 { StartWritten(w, k1); }
  }

  lemma StartWritten(w: Pass, k1: int)
    requires w.Ok() && 0 <= w.k0 < k1 <= w.s.Last()
    ensures Written(w, [], w.k0 + 1, k1)
  {
  }

  /** The archiving loop: all cells from `k0` to `k1` in turn. */
  method Combine(src: TBuf<Val>, a_per: int, mode: CombMode, beg: int, end: int, prevTm: int, prevVal: Val, now: int,
                 ghost w: Pass, ghost k1: int)
      returns (obuf: TBuf<Val>, wPrevTm: int, wPrevVal: Val, ghost all: seq<Val>)
    requires src.Valid() && src.hrdGrd && !src.Empty() && w.s == src.Contents() && w.p == src.per && w.mode == mode
    requires w.Ok() && a_per == w.m * w.p && a_per > 0 && 0 < w.Q0() && 0 <= w.k0 <= k1 <= w.s.Last()
    requires (w.k0 - 1) * w.p < beg <= w.k0 * w.p && (k1 - 1) * w.p < end <= k1 * w.p && beg <= end
    requires Start(prevTm, prevVal, now).Fits(w, a_per)
    ensures var x := Start(prevTm, prevVal, now);
            fresh(obuf) && IsOut(obuf, a_per, x.First(w, k1, a_per), all) && IsOutput(w, k1, x, a_per, all)
    ensures wPrevTm == k1 * w.p && IsValue(w, k1 / w.m, k1, wPrevVal)
  {
    obuf := new TBuf(EVal, 0, a_per, true, false);
    var x := Start(prevTm, prevVal, now);
    ghost var q0 := x.First(w, k1, a_per);
    wPrevTm, wPrevVal, all := prevTm, prevVal, [];
    var c_tm := beg;
    ghost var k := w.k0;
    while c_tm <= end
      invariant fresh(obuf) && IsOut(obuf, a_per, q0, all) && w.k0 <= k <= k1 + 1
      invariant InPass(w, k, k1, x, a_per, wPrevTm, wPrevVal, all)
      invariant if k <= k1 then (k - 1) * w.p < c_tm <= k * w.p && c_tm <= end else c_tm > end
      decreases k1 + 1 - k
    {
      c_tm, wPrevTm, wPrevVal, all := Round(src, obuf, c_tm, end, wPrevTm, wPrevVal, mode, w, k, k1, x, all);
      k := k + 1;
    }
  }

  /** One round of the loop, up to the time to ask for next. */
  method Round(src: TBuf<Val>, obuf: TBuf<Val>, tm: int, end: int, prevTm: int, prevVal: Val, mode: CombMode,
               ghost w: Pass, ghost k: int, ghost k1: int, x: Start, ghost all: seq<Val>)
      returns (next: int, wPrevTm: int, wPrevVal: Val, ghost all': seq<Val>)
    requires src.Valid() && src.hrdGrd && !src.Empty() && w.s == src.Contents() && w.p == src.per && w.mode == mode
    requires w.Ok() && obuf.per == w.m * w.p && obuf.per > 0 && 0 < w.Q0() && 0 <= w.k0 <= k <= k1 <= w.s.Last()
    requires (k - 1) * w.p < tm <= k * w.p && (k1 - 1) * w.p < end <= k1 * w.p && src != obuf
    requires x.Fits(w, obuf.per) && InPass(w, k, k1, x, obuf.per, prevTm, prevVal, all)
    requires IsOut(obuf, obuf.per, x.First(w, k1, obuf.per), all)
    modifies obuf
    ensures if k < k1 then k * w.p < next <= (k + 1) * w.p && next <= end else next > end
    ensures InPass(w, k + 1, k1, x, old(obuf.per), wPrevTm, wPrevVal, all')
    ensures IsOut(obuf, old(obuf.per), x.First(w, k1, old(obuf.per)), all')
  {
    var c_val, c_tm := Sample(src, tm, k);
    LastSample(k, k1, w.p, end);
    TurnEffect(w, k, k1, x, prevTm, prevVal, c_tm, end, obuf.per, all);
    ghost var e := EffectOf(c_val, c_tm, end, prevTm, prevVal, obuf.per, src.per, mode);
    all' := if e.write then all + [e.val] else all;
    wPrevTm, wPrevVal := Turn(obuf, c_val, c_tm, end, prevTm, prevVal, src.per, mode, x.now, x.First(w, k1, obuf.per),
                              all);
    MulNext(k, k + 1, w.p);
    next := c_tm + 1;
  }

  ghost predicate HasPeriod(w: Pass, q: int, k1: int, first: int, all: seq<Val>) {
    first <= q < first + |all| && IsValue(w, q, k1, all[q - first])
  }

  /** The values written have the value of every period from the one in which the pass starts to the last one that it
      has to write. */
  ghost predicate HasPeriods(w: Pass, k1: int, first: int, all: seq<Val>)
    requires w.m > 0
  {
    forall q :: w.Q0() <= q <= w.LastWritten(k1) ==> HasPeriod(w, q, k1, first, all)
  }

  /** A pass writes the values of its periods exactly if the carried value is of the period it starts in or it has two
      samples or more, or by chance: if the value of a new element, written for the current time, is the sample. Else it
      writes what is carried and not the sample. */
  lemma PassIsRightIff(w: Pass, k1: int, x: Start, a_per: int, all: seq<Val>)
    requires a_per > 0 && w.Ok() && w.Q0() > 0 && 0 <= w.k0 <= k1 <= w.s.Last() && x.Fits(w, a_per) &&
             IsOutput(w, k1, x, a_per, all)
    ensures HasPeriods(w, k1, x.First(w, k1, a_per), all) <==>
            || x.Q(a_per) == w.Q0()
            || w.k0 < k1
            || (x.prevTm == 0 && x.now / a_per == w.Q0() && x.prevVal == w.s.Cell(w.k0))
  {
    if x.Own(w, k1, a_per) { OwnPeriods(w, k1, x, a_per, all); } else { LonelyPeriod(w, x, a_per); }
  }

  /** The only sample of a pass is written only by chance if the carried value is of another period. */
  lemma LonelyPeriod(w: Pass, x: Start, a_per: int)
    requires a_per > 0 && w.Ok() && w.Q0() > 0 && 0 <= w.k0 <= w.s.Last() && x.Fits(w, a_per) && x.Q(a_per) != w.Q0()
    ensures HasPeriods(w, w.k0, x.First(w, w.k0, a_per), [x.prevVal]) <==>
            x.prevTm == 0 && x.now / a_per == w.Q0() && x.prevVal == w.s.Cell(w.k0)
  {
    var first := x.First(w, w.k0, a_per);
    StepStart(w, w.k0, EVal);
    ValueIsOne(w, w.Q0(), w.k0, w.s.Cell(w.k0));
    assert w.LastWritten(w.k0) == w.Q0();
    assert HasPeriods(w, w.k0, first, [x.prevVal]) <==> HasPeriod(w, w.Q0(), w.k0, first, [x.prevVal]);
    if x.prevTm == 0 { DivIs(0, a_per, 0); }
  }

  lemma ValueIsOne(w: Pass, q: int, k: int, v: Val)
    requires IsValue(w, q, k, v)
    ensures forall u :: IsValue(w, q, k, u) <==> u == v
  {
  }

  lemma OwnPeriods(w: Pass, k1: int, x: Start, a_per: int, all: seq<Val>)
    requires a_per > 0 && w.Ok() && 0 <= w.k0 <= k1 <= w.s.Last() && x.Own(w, k1, a_per) &&
             IsOutput(w, k1, x, a_per, all)
    ensures HasPeriods(w, k1, x.First(w, k1, a_per), all)
  {
    var pre, first := x.Extra(w, k1, a_per), x.First(w, k1, a_per);
    var out := all[|pre|..];
    forall q | w.Q0() <= q <= w.LastWritten(k1) ensures HasPeriod(w, q, k1, first, all) {
      var i := q - w.Q0();
      assert i < |out| && IsValue(w, w.Q0() + i, k1, out[i]);
    }
  }

  lemma LastSample(k: int, k1: int, p: int, end: int)
    requires p > 0 && k <= k1 && (k1 - 1) * p < end <= k1 * p
    ensures k * p >= end <==> k == k1
  {
    if k < k1 { MulLe(k, k1 - 1, p); }
  }

  /** The loop of the last-value mode does not look at the periods: after the first sample it goes on by an archive
      period at a time. */
  method CombineLast(src: TBuf<Val>, a_per: int, beg: int, end: int, ghost m: int, ghost k0: int)
      returns (obuf: TBuf<Val>, ghost out: seq<Val>)
    requires src.Valid() && src.hrdGrd && !src.Empty() && m > 0 && a_per == m * src.per && a_per > 0
    requires 0 < k0 / m && (k0 - 1) * src.per < beg <= k0 * src.per && src.Contents().Has(k0) && end <= src.end
    ensures fresh(obuf) && IsOut(obuf, a_per, k0 / m, out) && IsStrided(src.Contents(), k0, m, out)
    ensures var next := k0 + |out| * m; if |out| == 0 then beg > end
                                        else next * src.per > end >= beg && src.Contents().Has(next - m)
  {
    ghost var s, p := src.Contents(), src.per;
    obuf := new TBuf(EVal, 0, a_per, true, false);
    out := [];
    var c_tm := beg;
    ghost var k := k0;
    while c_tm <= end
      invariant fresh(obuf) && IsOut(obuf, a_per, k0 / m, out) && IsStrided(s, k0, m, out) && k == k0 + |out| * m
      invariant if |out| == 0 then c_tm == beg else c_tm == k * p && beg <= end && s.Has(k - m)
      decreases end - c_tm
    {
      c_tm, out := TakeNext(src, obuf, c_tm, end, a_per, k, k0, m, out);
      k := k + m;
    }
  }

  /** One round: the sample at the time goes to the output, and the time on by an archive period. */
  method TakeNext(src: TBuf<Val>, obuf: TBuf<Val>, tm: int, end: int, a_per: int, ghost k: int, ghost k0: int,
                  ghost m: int, ghost out: seq<Val>)
      returns (next: int, ghost out': seq<Val>)
    requires src.Valid() && src.hrdGrd && !src.Empty() && src != obuf && m > 0 && a_per == m * src.per && a_per > 0
    requires 0 < k0 / m && src.Contents().Has(k0) && tm <= end <= src.end && k == k0 + |out| * m
    requires if |out| == 0 then (k0 - 1) * src.per < tm <= k0 * src.per else tm == k * src.per
    requires IsOut(obuf, a_per, k0 / m, out) && IsStrided(src.Contents(), k0, m, out)
    modifies obuf
    ensures IsOut(obuf, a_per, k0 / m, out') && IsStrided(src.Contents(), k0, m, out')
    ensures |out'| == |out| + 1 && k + m == k0 + |out'| * m && next == (k + m) * src.per && src.Contents().Has(k) &&
            next > tm
  {
    StrideInBuffer(k0, |out|, m, src.per, tm, end, src.Contents().Last());
    next, out' := TakeSample(src, obuf, tm, k, k0, m, out);
    StrideNext(k, k0, |out'|, m, src.per);
    next := next + a_per;
  }

  method TakeSample(src: TBuf<Val>, obuf: TBuf<Val>, tm: int, ghost k: int, ghost k0: int, ghost m: int,
                    ghost out: seq<Val>)
      returns (c_tm: int, ghost out': seq<Val>)
    requires src.Valid() && src.hrdGrd && !src.Empty() && src != obuf && src.Contents().Has(k) && m > 0
    requires (k - 1) * src.per < tm <= k * src.per && k == k0 + |out| * m && IsStrided(src.Contents(), k0, m, out)
    requires IsOut(obuf, obuf.per, k0 / m, out) && obuf.per == m * src.per
    requires (k * src.per) / (m * src.per) == k0 / m + |out| && k * src.per >= m * src.per && k * src.per > 0
    modifies obuf
    ensures c_tm == k * src.per && |out'| == |out| + 1 && IsStrided(src.Contents(), k0, m, out') &&
            IsOut(obuf, old(obuf.per), k0 / m, out')
  {
    var c_val;
    c_val, c_tm := Sample(src, tm, k);
    var _ := PutValue(obuf, c_val, c_tm, 0, true, k0 / m, out);
    out' := out + [c_val];
    StridedNext(src.Contents(), k0, m, out, c_val);
  }

  lemma StridedNext(s: History<Val>, k0: int, m: int, out: seq<Val>, v: Val)
    requires IsStrided(s, k0, m, out) && s.Has(k0 + |out| * m) && v == s.Cell(k0 + |out| * m)
    ensures IsStrided(s, k0, m, out + [v])
  {
    var r := out + [v];
    forall i | 0 <= i < |r| ensures s.Has(k0 + i * m) && r[i] == s.Cell(k0 + i * m) {
      if i < |out| { assert r[i] == out[i]; }
    }
  }

  /** Every value is the sample at the same place of its archive period: the first one of the period if the first
      sample is. */
  ghost predicate IsStrided(s: History<Val>, k0: int, m: int, out: seq<Val>) {
    forall i :: 0 <= i < |out| ==> s.Has(k0 + i * m) && out[i] == s.Cell(k0 + i * m)
  }

  lemma StrideInBuffer(k0: int, i: nat, m: int, p: int, tm: int, end: int, last: int)
    requires m > 0 && p > 0 && tm <= end <= last * p && 0 < k0 / m && k0 <= last
    requires if i == 0 then (k0 - 1) * p < tm <= k0 * p else tm == (k0 + i * m) * p
    ensures var k := k0 + i * m;
            k0 <= k <= last && (k - 1) * p < tm <= k * p && (k * p) / (m * p) == k0 / m + i && k * p >= m * p &&
            k * p > 0
  {
    var k := k0 + i * m;
    MulLe(0, i, m);
    MulNext(k - 1, k, p);
    if i > 0 { MulLtOrEq(k, last, p); }
    TimeInPeriod(k, m, p);
    PeriodOf(k0, m);
    assert (k0 / m + i) * m == k0 / m * m + i * m by { Distribute2(k0 / m, i, m); }
    PeriodIs(k, m, k0 / m + i);
    MulLe(1, k0 / m, m);
    MulLe(m, k, p);
  }

  lemma Distribute2(a: int, b: int, m: int)
    ensures (a + b) * m == a * m + b * m
  {
  }

  lemma StrideNext(k: int, k0: int, n: nat, m: int, p: int)
    requires n > 0 && m > 0 && p > 0 && k == k0 + (n - 1) * m
    ensures k + m == k0 + n * m && k * p + m * p == (k + m) * p && m * p > 0
  {
    MulLe(1, m, p);
  }

  // ----- the archive element -----

  /** The archiver's store after it has taken over values for consecutive periods. */
  function Overlay(stored: map<int, Val>, first: int, vals: seq<Val>): (r: map<int, Val>)
    ensures forall q :: q in r <==> q in stored || first <= q < first + |vals|
    ensures forall q :: q in r ==> r[q] == if first <= q < first + |vals| then vals[q - first] else stored[q]
  {
    if |vals| == 0 then stored
    else Overlay(stored, first, vals[..|vals| - 1])[first + |vals| - 1 := vals[|vals| - 1]]
  }

  function Later(a: int, b: int): (r: int)
    ensures r >= a && r >= b && (r == a || r == b)
  {
    if a > b then a else b
  }

  function Earlier(a: int, b: int): (r: int)
    ensures r <= a && r <= b && (r == a || r == b)
  {
    if a < b then a else b
  }

  /** The time up to which the archiver has taken over the values. */
  function AfterGet(mLastGet: int, setOK: int): int {
    if mLastGet == 0 || setOK > mLastGet then setOK + 1 else mLastGet
  }

  /** The store after a pass: the value of each period the pass writes, and nothing else changed. */
  ghost predicate TakenOver(w: Pass, k1: int, before: map<int, Val>, after: map<int, Val>)
    requires w.m > 0
  {
    (forall q :: w.Q0() <= q <= w.LastWritten(k1) ==> q in after && IsValue(w, q, k1, after[q])) &&
    forall q :: !(w.Q0() <= q <= w.LastWritten(k1)) ==>
                  (q in after <==> q in before) && (q in after ==> after[q] == before[q])
  }

  lemma WrittenCount(w: Pass, out: seq<Val>, k1: int)
    requires Written(w, out, k1 + 1, k1)
    ensures |out| > 0 && w.Q0() + |out| - 1 == w.LastWritten(k1)
  {
    NextPeriod(k1, w.m);
    if k1 > w.k0 { DivMono(w.k0, k1 - 1, w.m); }
  }

  lemma OutputCount(w: Pass, k1: int, x: Start, a_per: int, all: seq<Val>)
    requires a_per > 0 && w.m > 0 && IsOutput(w, k1, x, a_per, all)
    ensures |all| > 0
  {
    if x.Own(w, k1, a_per) { WrittenCount(w, all[|x.Extra(w, k1, a_per)|..], k1); }
  }

  /** A pass that does not carry the period before writes its own periods. */
  lemma OutputIsOwn(w: Pass, k1: int, x: Start, a_per: int, all: seq<Val>)
    requires a_per > 0 && w.Ok() && w.k0 < k1 && x.Q(a_per) != w.Q0() - 1 && IsOutput(w, k1, x, a_per, all)
    ensures x.First(w, k1, a_per) == w.Q0() && Written(w, all, k1 + 1, k1)
  {
    assert all[0..] == all;
  }

  lemma OverlayTakesOver(w: Pass, k1: int, all: seq<Val>, stored: map<int, Val>)
    requires Written(w, all, k1 + 1, k1)
    ensures w.Q0() + |all| - 1 == w.LastWritten(k1) && TakenOver(w, k1, stored, Overlay(stored, w.Q0(), all))
  {
    WrittenCount(w, all, k1);
    var r := Overlay(stored, w.Q0(), all);
    forall q | w.Q0() <= q <= w.LastWritten(k1) ensures q in r && IsValue(w, q, k1, r[q]) {
      assert IsValue(w, w.Q0() + (q - w.Q0()), k1, all[q - w.Q0()]);
    }
  }

  lemma OutputTakesOver(w: Pass, k1: int, x: Start, a_per: int, all: seq<Val>, stored: map<int, Val>)
    requires a_per > 0 && w.Ok() && w.k0 < k1 && x.Q(a_per) != w.Q0() - 1 && IsOutput(w, k1, x, a_per, all)
    ensures x.First(w, k1, a_per) == w.Q0() && w.Q0() + |all| - 1 == w.LastWritten(k1)
    ensures TakenOver(w, k1, stored, Overlay(stored, w.Q0(), all))
  {
    OutputIsOwn(w, k1, x, a_per, all);
    OverlayTakesOver(w, k1, all, stored);
  }

  // ----- sources that grow -----

  /** A buffer that holds a part of the full history. */
  ghost predicate SeenIn(full: History<Val>, s: History<Val>) {
    |s.cells| > 0 && full.first <= s.first && s.Last() <= full.Last() &&
    forall k :: s.Has(k) ==> s.Cell(k) == full.Cell(k)
  }

  /** Values are made of the same samples whether the full history is read or the part of it in a buffer. */
  lemma SameValueIn(w: Pass, full: History<Val>, q: int, k: int, v: Val)
    requires SeenIn(full, w.s) && w.Ok() && k <= w.s.Last()
    ensures IsValue(w, q, k, v) <==> IsValue(w.(s := full), q, k, v)
  {
    var f := w.(s := full);
    if 0 <= w.From(q) <= w.Till(q, k) {
      var a, b := w.Samples(q, k), f.Samples(q, k);
      assert |a| == |b|;
      forall i | 0 <= i < |a| ensures a[i] == b[i] {
        assert w.s.Has(w.From(q) + i);
      }
      assert a == b;
    }
  }

  /** A call of the archiving thread: what the source holds then, the end to archive, the current time, and whether the
      archiver takes the values over. */
  datatype Call = Call(s: History<Val>, end: int, now: int, accept: bool)

  function LastCell(c: Call, p: int): int
    requires p > 0
  {
    CeilDiv(Earlier(c.end, Earlier(c.s.Last() * p, c.now)), p)
  }

  /** The cell up to which the calls have archived. */
  function Reached(calls: seq<Call>, k: int, p: int): int
    requires p > 0
  {
    if |calls| == 0 then k
    else
      var n := |calls| - 1;
      if calls[n].accept then LastCell(calls[n], p) else Reached(calls[..n], k, p)
  }

  /** The call does not go back, and what it has to read again is still in the source. */
  ghost predicate GoesOn(w: Pass, c: Call, k: int)
    requires w.Ok()
  {
    SeenIn(w.s, c.s) && c.s.first <= w.From(w.LastWritten(k)) && c.end > 0 && k <= LastCell(c, w.p)
  }

  lemma CallRange(w: Pass, c: Call)
    requires w.Ok() && SeenIn(w.s, c.s)
    ensures var k1 := LastCell(c, w.p);
            k1 <= c.s.Last() <= w.s.Last() &&
            (k1 - 1) * w.p < Earlier(c.end, Earlier(c.s.Last() * w.p, c.now)) <= k1 * w.p
  {
    var e := Earlier(c.end, Earlier(c.s.Last() * w.p, c.now));
    CeilBounds(e, w.p);
    MulLt(CeilDiv(e, w.p) - 1, c.s.Last(), w.p);
  }

  class Element {
    const a_per: int
    const mode: CombMode
    var mLastGet: int
    var prevTm: int
    var prevVal: Val
    /** What the archiver behind the element holds, by archive period. */
    var stored: map<int, Val>

    constructor (per: int, comb: CombMode)
      requires per > 0
      ensures a_per == per && mode == comb && mLastGet == 0 && prevTm == 0 && prevVal == EVal && stored == map[]
    {
      a_per, mode, mLastGet, prevTm, prevVal, stored := per, comb, 0, 0, EVal, map[];
    }

    /** The values of a buffer from `beg0` to `end0`, or all of them if either is 0, go to the archiver, which may
        refuse them. `w` and `k1` are the pass that these times ask for, and `all` the values it writes. */
    method SetVals(src: TBuf<Val>, beg0: int, end0: int, now: int, accept: bool, ghost w: Pass, ghost k1: int)
      returns (ghost all: seq<Val>)
      requires src.Valid() && src.hrdGrd && !src.Empty() && a_per > src.per
      requires Asks(src, beg0, end0, now, w, k1) && Start(prevTm, prevVal, now).Fits(w, a_per)
      modifies this
      ensures !accept ==> stored == old(stored) && mLastGet == old(mLastGet) && prevTm == old(prevTm) &&
                          prevVal == old(prevVal)
      ensures accept ==> prevTm == k1 * w.p && IsValue(w, k1 / w.m, k1, prevVal)
      ensures var x := old(Start(prevTm, prevVal, now));
              |all| > 0 && IsOutput(w, k1, x, a_per, all) &&
              (accept ==>
                 stored == Overlay(old(stored), x.First(w, k1, a_per), all) &&
                 mLastGet == AfterGet(old(mLastGet), (x.First(w, k1, a_per) + |all| - 1) * a_per))
    {
      var beg, end, some := Limits(src, beg0, end0, now, w, k1);
      all := Collect(src, beg, end, now, accept && some, w, k1);
    }

    /** The pass over the times, and the taking over of its output. */
    method Collect(src: TBuf<Val>, beg: int, end: int, now: int, accept: bool, ghost w: Pass, ghost k1: int)
        returns (ghost all: seq<Val>)
      requires src.Valid() && src.hrdGrd && !src.Empty() && w.s == src.Contents() && w.p == src.per && w.mode == mode
      requires w.Ok() && a_per == w.m * w.p && a_per > 0 && 0 < w.Q0() && 0 <= w.k0 <= k1 <= w.s.Last()
      requires (w.k0 - 1) * w.p < beg <= w.k0 * w.p && (k1 - 1) * w.p < end <= k1 * w.p && beg <= end
      requires Start(prevTm, prevVal, now).Fits(w, a_per)
      modifies this
      ensures !accept ==> stored == old(stored) && mLastGet == old(mLastGet) && prevTm == old(prevTm) &&
                          prevVal == old(prevVal)
      ensures accept ==> prevTm == k1 * w.p && IsValue(w, k1 / w.m, k1, prevVal)
      ensures var x := old(Start(prevTm, prevVal, now));
              |all| > 0 && IsOutput(w, k1, x, a_per, all) &&
              (accept ==>
                 stored == Overlay(old(stored), x.First(w, k1, a_per), all) &&
                 mLastGet == AfterGet(old(mLastGet), (x.First(w, k1, a_per) + |all| - 1) * a_per))
    {
      ghost var x := Start(prevTm, prevVal, now);
      var obuf, wPrevTm, wPrevVal;
      obuf, wPrevTm, wPrevVal, all := Combine(src, a_per, mode, beg, end, prevTm, prevVal, now, w, k1);
      OutputCount(w, k1, x, a_per, all);
      if accept { Take(obuf, wPrevTm, wPrevVal, x.First(w, k1, a_per), all); }
    }

    /** The times to read, limited by the buffer and by the current time; the begin goes back to the start of its
        archive period. */
    method Limits(src: TBuf<Val>, beg0: int, end0: int, now: int, ghost w: Pass, ghost k1: int)
        returns (beg: int, end: int, some: bool)
      requires src.Valid() && src.hrdGrd && !src.Empty() && a_per > src.per && Asks(src, beg0, end0, now, w, k1)
      ensures some && (w.k0 - 1) * w.p < beg <= w.k0 * w.p && (k1 - 1) * w.p < end <= k1 * w.p && beg <= end
    {
      beg, end := beg0, end0;
      if beg == 0 || end == 0 { beg, end := src.beg, src.end; }
      beg := Later(beg / a_per * a_per, src.beg);
      end := Earlier(end, Earlier(src.end, now));
      DivMono(beg, end, a_per);
      some := !(beg == 0 || end == 0 || beg / a_per > end / a_per);
    }

    /** The archiver takes over the output buffer, and its end is noted. */
    method Take(obuf: TBuf<Val>, wPrevTm: int, wPrevVal: Val, ghost q0: int, ghost all: seq<Val>)
      requires |all| > 0 && IsOut(obuf, a_per, q0, all)
      modifies this
      ensures prevTm == wPrevTm && prevVal == wPrevVal
      ensures mLastGet == AfterGet(old(mLastGet), (q0 + |all| - 1) * a_per)
      ensures stored == Overlay(old(stored), q0, all)
    {
      OutCells(obuf, a_per, q0, all);
      stored := Overlay(stored, obuf.beg / a_per, obuf.grid);
      var setOK := obuf.end;
      mLastGet := AfterGet(mLastGet, setOK);
      prevTm, prevVal := wPrevTm, wPrevVal;
    }

    /** The pass over the cells from `w.k0` to `k1` is what the times ask for: from the start of the archive period of
        the begin, or from the begin of the buffer, to the end that all limits leave. */
    ghost predicate Asks(src: TBuf<Val>, beg0: int, end0: int, now: int, w: Pass, k1: int)
      reads this, src
      requires src.Valid() && src.hrdGrd && !src.Empty() && a_per > 0
    {
      var b, e := if beg0 == 0 || end0 == 0 then src.beg else beg0, if beg0 == 0 || end0 == 0 then src.end else end0;
      var beg, end := Later(b / a_per * a_per, src.beg), Earlier(e, Earlier(src.end, now));
      w.Ok() && w.s == src.Contents() && w.p == src.per && w.mode == mode && a_per == w.m * w.p &&
      0 < w.Q0() && 0 <= w.k0 <= k1 <= w.s.Last() && beg <= end &&
      (w.k0 - 1) * w.p < beg <= w.k0 * w.p && (k1 - 1) * w.p < end <= k1 * w.p
    }

    /** The element has carried the cells of the pass `w` up to `k`. */
    ghost predicate Follows(w: Pass, k: int)
      reads this
    {
      w.mode == mode && Followed(w, k, a_per, prevTm, prevVal, mLastGet, stored)
    }

    /** The pass that the next call makes after cell `k`. */
    ghost function Resumed(w: Pass, k: int): Pass
      reads this
      requires Follows(w, k)
    {
      var q := w.LastWritten(k);
      w.(k0 := w.From(q), c0 := if k / w.m == q then prevVal else EVal)
    }

    /** The next call of the archiving thread: from where the last one ended, in what the source holds now. */
    method Next(src: TBuf<Val>, end: int, now: int, accept: bool, ghost w: Pass, ghost k: int, ghost k1: int)
      requires src.Valid() && src.hrdGrd && !src.Empty() && Follows(w, k) && w.p == src.per
      requires SeenIn(w.s, src.Contents()) && src.Contents().first <= w.From(w.LastWritten(k)) &&
               k <= k1 <= src.Contents().Last()
      requires end > 0 && (k1 - 1) * w.p < Earlier(end, Earlier(src.end, now)) <= k1 * w.p
      requires Undisturbed(w, w.LastWritten(k), k, k1)
      modifies this
      ensures Follows(w, if accept then k1 else k)
      ensures !accept ==> stored == old(stored)
    {
      ghost var part := Resumed(w, k).(s := src.Contents());
      ghost var before, x := stored, Start(prevTm, prevVal, now);
      NextAsks(src, end, now, w, k, k1);
      ResumeFits(w, k, part, x, a_per);
      ghost var all := SetVals(src, Later(mLastGet, src.beg), end, now, accept, part, k1);
      if accept { NextFollows(w, k, k1, part, x, a_per, all, before, prevVal, mLastGet); }
    }

    /** What the next call asks for. */
    lemma NextAsks(src: TBuf<Val>, end: int, now: int, w: Pass, k: int, k1: int)
      requires src.Valid() && src.hrdGrd && !src.Empty() && Follows(w, k) && w.p == src.per
      requires SeenIn(w.s, src.Contents()) && src.Contents().first <= w.From(w.LastWritten(k)) &&
               k <= k1 <= src.Contents().Last()
      requires end > 0 && (k1 - 1) * w.p < Earlier(end, Earlier(src.end, now)) <= k1 * w.p
      ensures a_per > src.per
      ensures Asks(src, Later(mLastGet, src.beg), end, now, Resumed(w, k).(s := src.Contents()), k1)
    {
      LastPeriod(w, k);
      ResumePoint(w, k, k1, src.Contents().first, src.beg, mLastGet, a_per, Earlier(end, Earlier(src.end, now)));
    }

    /** The first call of a new element, on a source that holds the full history from its begin. */
    method First(src: TBuf<Val>, beg0: int, end: int, now: int, ghost w: Pass, ghost k1: int)
      requires src.Valid() && src.hrdGrd && !src.Empty() && a_per > src.per && mLastGet == 0 && prevTm == 0 &&
               now >= a_per
      requires SeenIn(w.s, src.Contents()) && src.Contents().first == w.s.first
      requires Asks(src, beg0, end, now, w.(s := src.Contents()), k1) && Starts(w) && w.k0 < k1
      modifies this
      ensures Follows(w, k1)
    {
      ghost var part := w.(s := src.Contents());
      ghost var before, x := stored, Start(prevTm, prevVal, now);
      StartFits(part, x, a_per);
      ghost var all := SetVals(src, beg0, end, now, true, part, k1);
      OutputTakesOver(part, k1, x, a_per, all, before);
      PartTakesOver(part, w.s, k1, before, stored, prevVal);
      LastPeriod(w, k1);
      MulLe(1, w.LastWritten(k1), a_per);
      if w.m <= 1 { MulLe(w.m, 1, w.p); }
    }

    /** Any number of further calls, some of them refused by the archiver, while the source grows and drops old cells:
        `srcs` are the source at each call. */
    method Chunks(srcs: seq<TBuf<Val>>, calls: seq<Call>, ghost w: Pass, ghost k: int)
      requires Follows(w, k) && FirstsPresent(w) && Sources(srcs, calls, w.p)
      requires forall i :: 0 <= i < |calls| ==> GoesOn(w, calls[i], Reached(calls[..i], k, w.p))
      modifies this
      ensures Follows(w, Reached(calls, k, w.p))
    {
      ghost var kn := k;
      assert calls[..0] == [];
      for i := 0 to |calls|
        invariant Follows(w, kn) && kn == Reached(calls[..i], k, w.p)
      {
        assert calls[..i + 1][..i] == calls[..i];
        assert srcs[i].Contents() == calls[i].s;
        Further(srcs[i], calls[i], w, kn);
        if calls[i].accept { kn := LastCell(calls[i], w.p); }
      }
      assert calls[..|calls|] == calls;
    }

    /** One further call. */
    method Further(src: TBuf<Val>, call: Call, ghost w: Pass, ghost k: int)
      requires Follows(w, k) && FirstsPresent(w) && GoesOn(w, call, k)
      requires src.Valid() && src.hrdGrd && !src.Empty() && src.per == w.p && src.Contents() == call.s
      modifies this
      ensures Follows(w, if call.accept then LastCell(call, w.p) else k)
    {
      CallRange(w, call);
      NeverDisturbed(w, k, LastCell(call, w.p));
      Next(src, call.end, call.now, call.accept, w, k, LastCell(call, w.p));
    }
  }

  /** The store has the value of every period that the pass up to cell `k` writes, and it is remembered where and with
      what to carry on. */
  ghost predicate Followed(w: Pass, k: int, a_per: int, prevTm: int, prevVal: Val, mLastGet: int,
                           stored: map<int, Val>) {
    w.Ok() && w.c0 == EVal && a_per == w.m * w.p && w.m > 1 && 0 < w.Q0() && 0 <= w.k0 < k <= w.s.Last() &&
    w.k0 == Later(w.Q0() * w.m, w.s.first) &&
    prevTm == k * w.p && IsValue(w, k / w.m, k, prevVal) && mLastGet == w.LastWritten(k) * a_per + 1 &&
    HasWritten(w, k, stored)
  }

  ghost predicate HasWritten(w: Pass, k: int, stored: map<int, Val>)
    requires w.m > 0
  {
    forall q :: w.Q0() <= q <= w.LastWritten(k) ==> q in stored && IsValue(w, q, k, stored[q])
  }

  /** After the next call. */
  lemma NextFollows(w: Pass, k: int, k1: int, part: Pass, x: Start, a_per: int, all: seq<Val>, before: map<int, Val>,
                    v: Val, mLastGet: int)
    requires w.m > 1 && Followed(w, k, a_per, x.prevTm, x.prevVal, w.LastWritten(k) * a_per + 1, before)
    requires SeenIn(w.s, part.s) && k <= k1 <= part.s.Last() && Undisturbed(w, w.LastWritten(k), k, k1)
    requires var q := w.LastWritten(k);
             part == w.(s := part.s, k0 := w.From(q), c0 := if k / w.m == q then x.prevVal else EVal) && part.Ok()
    requires a_per > 0 && x.Q(a_per) != part.Q0() - 1 && IsOutput(part, k1, x, a_per, all)
    requires mLastGet == AfterGet(w.LastWritten(k) * a_per + 1, (x.First(part, k1, a_per) + |all| - 1) * a_per)
    requires IsValue(part, k1 / w.m, k1, v)
    ensures Followed(w, k1, a_per, k1 * w.p, v, mLastGet, Overlay(before, x.First(part, k1, a_per), all))
  {
    NextTakesOver(w, k, k1, part, x, a_per, all, before, v);
    LongerPeriod(w.m, w.p);
    SameOrLater(w.LastWritten(k), w.LastWritten(k1), x.First(part, k1, a_per) + |all| - 1, a_per);
  }

  lemma LongerPeriod(m: int, p: int)
    requires m > 1 && p > 0
    ensures m * p > p >= 1
  {
    MulNext(1, 2, p);
    MulLe(2, m, p);
  }

  ghost predicate Sources(srcs: seq<TBuf<Val>>, calls: seq<Call>, p: int)
    reads srcs
  {
    |srcs| == |calls| &&
    forall i :: 0 <= i < |srcs| ==>
      srcs[i].Valid() && srcs[i].hrdGrd && !srcs[i].Empty() && srcs[i].per == p && srcs[i].Contents() == calls[i].s
  }

  lemma StartFits(w: Pass, x: Start, a_per: int)
    requires w.Ok() && w.c0 == EVal && w.Q0() > 1 && a_per > 0 && x.prevTm == 0 && x.now >= a_per
    ensures x.Fits(w, a_per) && x.Q(a_per) != w.Q0() - 1
  {
    DivIs(0, a_per, 0);
  }

  /** What an element carries on fits the pass of its next call. */
  lemma ResumeFits(w: Pass, k: int, part: Pass, x: Start, a_per: int)
    requires w.Ok() && w.m > 1 && 0 < w.Q0() && 0 <= w.k0 < k && a_per == w.m * w.p && part.Ok() && part.m == w.m
    requires x.prevTm == k * w.p && part.k0 == w.From(w.LastWritten(k))
    requires part.c0 == if k / w.m == w.LastWritten(k) then x.prevVal else EVal
    ensures a_per > 0 && x.Fits(part, a_per) && x.Q(a_per) != part.Q0() - 1 && part.Q0() == w.LastWritten(k)
  {
    LastPeriod(w, k);
    TimeInPeriod(k, w.m, w.p);
    DivMono(w.k0, k, w.m);
    AfterFirstPeriod(k * w.p, a_per);
  }

  lemma PartTakesOver(part: Pass, full: History<Val>, k1: int, before: map<int, Val>, after: map<int, Val>, v: Val)
    requires part.Ok() && SeenIn(full, part.s) && k1 <= part.s.Last()
    requires TakenOver(part, k1, before, after) && IsValue(part, k1 / part.m, k1, v)
    ensures TakenOver(part.(s := full), k1, before, after) && IsValue(part.(s := full), k1 / part.m, k1, v)
  {
    var w := part.(s := full);
    SameValueIn(part, full, k1 / part.m, k1, v);
    forall q | w.Q0() <= q <= w.LastWritten(k1) ensures q in after && IsValue(w, q, k1, after[q]) {
      assert IsValue(part, q, k1, after[q]);
      SameValueIn(part, full, q, k1, after[q]);
    }
  }

  /** A pass from the start of an archive period, or from the begin of the buffer, with nothing carried in; not in the
      first two periods of time. */
  ghost predicate Starts(w: Pass) {
    w.Ok() && w.c0 == EVal && w.Q0() > 1 && w.k0 == Later(w.Q0() * w.m, w.s.first)
  }

  /** What the moving average asks of the source: a start on a period boundary, and that the first sample of each period
      is there. */
  ghost predicate FirstsPresent(w: Pass) {
    w.Ok() && w.k0 >= 0 && (w.mode == MovAver ==> w.k0 % w.m == 0 && forall q :: PresentAt(w, q))
  }

  ghost predicate PresentAt(w: Pass, q: int)
    requires w.Ok()
  {
    w.k0 <= q * w.m <= w.s.Last() ==> w.s.Cell(q * w.m).Num?
  }

  lemma NeverDisturbed(w: Pass, k: int, k1: int)
    requires FirstsPresent(w) && w.m > 1 && 0 <= w.k0 < k <= k1 <= w.s.Last()
    ensures Undisturbed(w, w.LastWritten(k), k, k1)
  {
    var q := w.LastWritten(k);
    LastPeriod(w, k);
    assert w.From(q) <= w.Till(q, k);
    if w.mode == MovAver {
      StartOfPeriod(w, q, k, k1);
      assert PresentAt(w, q);
      assert w.Samples(q, k1)[0] == w.s.Cell(q * w.m);
      assert FirstReal(w.Samples(q, k1)) == 0;
    }
  }

  /** In a pass that starts on a period boundary every period is read from its start. */
  lemma StartOfPeriod(w: Pass, q: int, k: int, k1: int)
    requires w.Ok() && w.m > 1 && 0 <= w.k0 < k <= k1 && w.k0 % w.m == 0 && q == w.LastWritten(k)
    ensures w.k0 <= q * w.m == w.From(q) < k && (q * w.m) % w.m == 0 && w.From(q) < w.Till(q, k1)
  {
    LastPeriod(w, k);
    PeriodOf(w.k0, w.m);
    MulLe(w.Q0(), q, w.m);
    PeriodIs(q * w.m, w.m, q);
    PeriodOf(q * w.m, w.m);
  }

  /** Chunking invariance: an element that archives a source in any number of calls, some of them refused, while the
      source grows and drops old cells, has in the end what an element has that archives the full history in one
      call. */
  method ChunkedIsUninterrupted(chunked: Element, whole: Element, src: TBuf<Val>, beg0: int, end0: int, now0: int,
                                srcs: seq<TBuf<Val>>, calls: seq<Call>, full: TBuf<Val>, beg: int, end: int, now: int,
                                ghost w: Pass, ghost k: int)
    requires src.Valid() && src.hrdGrd && !src.Empty() && full.Valid() && full.hrdGrd && !full.Empty() &&
             chunked != whole
    requires chunked.a_per == whole.a_per > w.p == src.per == full.per && chunked.mode == whole.mode
    requires chunked.mLastGet == 0 && chunked.prevTm == 0 && whole.mLastGet == 0 && whole.prevTm == 0
    requires Earlier(now0, now) >= whole.a_per && Starts(w) && w.k0 < k && FirstsPresent(w)
    requires SeenIn(w.s, src.Contents()) && src.Contents().first == w.s.first
    requires chunked.Asks(src, beg0, end0, now0, w.(s := src.Contents()), k)
    requires Sources(srcs, calls, w.p)
    requires forall i :: 0 <= i < |calls| ==> GoesOn(w, calls[i], Reached(calls[..i], k, w.p))
    requires full.Contents() == w.s && whole.Asks(full, beg, end, now, w, Reached(calls, k, w.p)) &&
             w.k0 < Reached(calls, k, w.p)
    modifies chunked, whole
    ensures var kn := Reached(calls, k, w.p);
            kn <= w.s.Last() &&
            forall q :: w.Q0() <= q <= w.LastWritten(kn) ==>
                          q in chunked.stored && q in whole.stored && chunked.stored[q] == whole.stored[q] &&
                          IsValue(w, q, kn, chunked.stored[q])
  {
    ghost var kn := Reached(calls, k, w.p);
    chunked.First(src, beg0, end0, now0, w, k);
    chunked.Chunks(srcs, calls, w, k);
    assert w.(s := full.Contents()) == w;
    whole.First(full, beg, end, now, w, kn);
    assert chunked.Follows(w, kn) && whole.Follows(w, kn);
  }

  lemma SameOrLater(q: int, q1: int, end: int, a_per: int)
    requires 0 < q <= q1 == end && a_per > 1
    ensures AfterGet(q * a_per + 1, end * a_per) == q1 * a_per + 1
  {
    MulLe(1, q, a_per);
    if q < q1 { MulNext(q, q + 1, a_per); MulLe(q + 1, q1, a_per); }
  }

  /** The period written last by a pass up to cell `k`. */
  lemma LastPeriod(w: Pass, k: int)
    requires w.Ok() && 0 <= w.k0 < k
    ensures var q := w.LastWritten(k);
            q == (k - 1) / w.m && w.Q0() <= q && q * w.m < k <= q * w.m + w.m && k / w.m - 1 <= q <= k / w.m &&
            q * w.m <= w.From(q) < k && w.From(q) / w.m == q
  {
    var q := (k - 1) / w.m;
    NextPeriod(k, w.m);
    PeriodOf(k - 1, w.m);
    DivMono(w.k0, k - 1, w.m);
    PeriodIs(w.From(q), w.m, q);
  }

  /** The first cell of the period, in the buffer and in the pass. */
  lemma FirstOfPeriod(w: Pass, q: int)
    requires w.Ok() && w.k0 >= 0 && w.k0 == Later(w.Q0() * w.m, w.s.first) && w.Q0() <= q
    ensures w.From(q) == Later(q * w.m, w.s.first)
  {
    PeriodOf(w.k0, w.m);
    if q > w.Q0() { MulLe(w.Q0() + 1, q, w.m); MulNext(w.Q0(), w.Q0() + 1, w.m); }
  }

  /** The next call starts at the period written last, which it reads again. */
  lemma ResumePoint(w: Pass, k: int, k1: int, srcFirst: int, srcBeg: int, mLastGet: int, a_per: int, end: int)
    requires w.Ok() && w.m > 1 && 0 < w.Q0() && 0 <= w.k0 < k <= k1 <= w.s.Last() &&
             w.k0 == Later(w.Q0() * w.m, w.s.first)
    requires w.s.first <= srcFirst <= w.From(w.LastWritten(k))
    requires a_per == w.m * w.p && mLastGet == w.LastWritten(k) * a_per + 1 && srcBeg == srcFirst * w.p
    requires (k1 - 1) * w.p < end <= k1 * w.p
    ensures a_per > w.p && Later(mLastGet, srcBeg) > 0
    ensures var beg, k0 := Later(Later(mLastGet, srcBeg) / a_per * a_per, srcBeg), w.From(w.LastWritten(k));
            (k0 - 1) * w.p < beg <= k0 * w.p && beg <= end
  {
    var q := w.LastWritten(k);
    LastPeriod(w, k);
    FirstOfPeriod(w, q);
    MulNext(1, 2, w.p);
    MulLe(2, w.m, w.p);
    assert q * a_per == q * w.m * w.p by { Assoc(q, w.m, w.p); }
    MulLe(1, q, a_per);
    var k0 := w.From(q);
    assert k0 == Later(q * w.m, srcFirst);
    var beg := Later(Later(mLastGet, srcBeg) / a_per * a_per, srcBeg);
    assert beg == k0 * w.p by { ResumeTime(q, w.m, w.p, srcFirst, a_per); }
    MulNext(k0 - 1, k0, w.p);
    MulLe(k0, k1 - 1, w.p);
  }

  lemma ResumeTime(q: int, m: int, p: int, first: int, a_per: int)
    requires p > 0 && m > 1 && a_per == m * p && a_per > 1 && q * a_per == q * m * p
    ensures Later(Later(q * a_per + 1, first * p) / a_per * a_per, first * p) == Later(q * m, first) * p
  {
    MulNext(q, q + 1, a_per);
    if q * a_per + 1 >= first * p {
      DivIs(q * a_per + 1, a_per, q);
    } else {
      FloorBounds(first * p, a_per);
    }
    if q * m <= first { MulLe(q * m, first, p); } else { MulLe(first, q * m, p); }
  }

  /** After the next call the store and the element are as after one uninterrupted pass. */
  lemma CarriedOn(w: Pass, w': Pass, k: int, k1: int, before: map<int, Val>, after: map<int, Val>, v: Val)
    requires w.Ok() && w.m > 1 && 0 < w.Q0() && 0 <= w.k0 < k <= k1 <= w.s.Last()
    requires Resumes(w, w', w.LastWritten(k), k) && Undisturbed(w, w.LastWritten(k), k, k1)
    requires forall q :: w.Q0() <= q <= w.LastWritten(k) ==> q in before && IsValue(w, q, k, before[q])
    requires TakenOver(w', k1, before, after) && IsValue(w', k1 / w.m, k1, v)
    ensures w'.LastWritten(k1) == w.LastWritten(k1) >= w.LastWritten(k)
    ensures forall q :: w.Q0() <= q <= w.LastWritten(k1) ==> q in after && IsValue(w, q, k1, after[q])
    ensures IsValue(w, k1 / w.m, k1, v)
  {
    var q0 := w.LastWritten(k);
    LastPeriod(w, k);
    LastPeriod(w, k1);
    DivMono(k - 1, k1 - 1, w.m);
    SamePeriod(w, w', k, k1, q0, EVal);
    LastPeriod(w', k1);
    PeriodOf(k1, w.m);
    SamePeriod(w, w', k, k1, k1 / w.m, v);
    forall q | w.Q0() <= q <= w.LastWritten(k1) ensures q in after && IsValue(w, q, k1, after[q]) {
      if q < q0 {
        OldPeriod(w, k, k1, q, before[q]);
      } else {
        MulLe(q, w.LastWritten(k1), w.m);
        SamePeriod(w, w', k, k1, q, after[q]);
      }
    }
  }

  /** What the next pass takes over, on the part of the history in the source, is what one uninterrupted pass writes. */
  lemma NextTakesOver(w: Pass, k: int, k1: int, part: Pass, x: Start, a_per: int, all: seq<Val>, before: map<int, Val>,
                      v: Val)
    requires w.Ok() && w.c0 == EVal && w.m > 1 && 0 < w.Q0() && 0 <= w.k0 < k <= k1 <= part.s.Last() &&
             SeenIn(w.s, part.s)
    requires IsValue(w, k / w.m, k, x.prevVal) && Undisturbed(w, w.LastWritten(k), k, k1)
    requires HasWritten(w, k, before)
    requires var q := w.LastWritten(k);
             part == w.(s := part.s, k0 := w.From(q), c0 := if k / w.m == q then x.prevVal else EVal) && part.Ok()
    requires a_per > 0 && x.Q(a_per) != part.Q0() - 1 && IsOutput(part, k1, x, a_per, all) &&
             IsValue(part, k1 / w.m, k1, v)
    ensures x.First(part, k1, a_per) + |all| - 1 == w.LastWritten(k1) >= w.LastWritten(k) > 0
    ensures HasWritten(w, k1, Overlay(before, x.First(part, k1, a_per), all))
    ensures IsValue(w, k1 / w.m, k1, v)
  {
    LastPeriod(w, k);
    OutputTakesOver(part, k1, x, a_per, all, before);
    var after := Overlay(before, x.First(part, k1, a_per), all);
    PartTakesOver(part, w.s, k1, before, after, v);
    CarriedOn(w, part.(s := w.s), k, k1, before, after, v);
  }

  /** A period the next pass reads has the value of one uninterrupted pass. */
  lemma SamePeriod(w: Pass, w': Pass, k: int, k1: int, q: int, v: Val)
    requires w.Ok() && w.m > 1 && 0 < w.Q0() && 0 <= w.k0 < k <= k1 <= w.s.Last()
    requires Resumes(w, w', w.LastWritten(k), k) && Undisturbed(w, w.LastWritten(k), k, k1)
    requires w.LastWritten(k) <= q && q * w.m <= k1
    ensures w'.Q0() == w.LastWritten(k) && 0 <= w'.k0 < k
    ensures IsValue(w', q, k1, v) ==> IsValue(w, q, k1, v)
  {
    LastPeriod(w, k);
    ResumedIsSameIff(w, w', w.LastWritten(k), k, q, k1);
  }

  /** A period before the one read again keeps its value. */
  lemma OldPeriod(w: Pass, k: int, k1: int, q: int, v: Val)
    requires w.Ok() && w.m > 1 && 0 <= w.k0 < k <= k1 <= w.s.Last() && q < w.LastWritten(k) && IsValue(w, q, k, v)
    ensures IsValue(w, q, k1, v)
  {
    LastPeriod(w, k);
    MulLe(q + 1, w.LastWritten(k), w.m);
    MulNext(q, q + 1, w.m);
    ValueClosed(w, q, k, k1);
  }

  lemma OutCells(obuf: TBuf<Val>, a_per: int, q0: int, out: seq<Val>)
    requires IsOut(obuf, a_per, q0, out) && |out| > 0
    ensures a_per > 0 && obuf.grid == out && obuf.beg / a_per == q0 && obuf.end == (q0 + |out| - 1) * a_per
  {
    AlignedCell(q0, a_per);
    assert Log(obuf.grid, obuf.cur) == obuf.grid;
  }
}
