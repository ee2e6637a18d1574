/** How an archive period is made of the samples in it: the step-by-step combination that the archiving loop
    computes, and what it amounts to over a whole period. */
module Aggregate {

  /** A sample, which may be missing. */
  datatype Val = EVal | Num(r: real)

  datatype CombMode = MovAver | MinVal | MaxVal

  /** One combination step: the value so far, the next sample, and the place of that sample in its period. The
      moving average weighs the value so far by the time passed and the sample by its period `n_k`. */
  function Comb(mode: CombMode, v_o: Val, sample: Val, s_k: int, n_k: int): Val
    requires s_k >= 0 && n_k > 0
  {
    var c_val := if sample.EVal? then v_o else sample;
    if c_val.EVal? || v_o.EVal? then c_val
    else
      match mode
      case MovAver => Num((v_o.r * s_k as real + c_val.r * n_k as real) / (s_k + n_k) as real)
      case MinVal => Num(if c_val.r < v_o.r then c_val.r else v_o.r)
      case MaxVal => Num(if c_val.r > v_o.r then c_val.r else v_o.r)
  }

  /** The value after all of `xs`, the first of which is number `j` of its period, carried on from `carry`. */
  function Fold(mode: CombMode, carry: Val, xs: seq<Val>, j: nat, n_k: int): Val
    requires n_k > 0
  {
    if |xs| == 0 then carry
    else
      var i := |xs| - 1;
      Comb(mode, Fold(mode, carry, xs[..i], j, n_k), xs[i], (j + i) * n_k, n_k)
  }

  predicate Real(xs: seq<Val>) {
    forall i :: 0 <= i < |xs| ==> xs[i].Num?
  }

  function Sum(xs: seq<Val>): real {
    if |xs| == 0 then 0.0 else Sum(xs[..|xs| - 1]) + if xs[|xs| - 1].Num? then xs[|xs| - 1].r else 0.0
  }

  /** The weight of the value so far and of the sample, in units of the source period. */
  lemma MovAverStep(v: real, x: real, j: nat, n_k: int)
    requires n_k > 0
    ensures Comb(MovAver, Num(v), Num(x), j * n_k, n_k) == Num((v * j as real + x) / (j + 1) as real)
  {
    var n, a, b := n_k as real, j as real, (j + 1) as real;
    assert (j * n_k) as real == a * n by { CastMul(j, n_k); }
    assert (j * n_k + n_k) as real == b * n by { CastMul(j + 1, n_k); }
    assert v * (a * n) + x * n == (v * a + x) * n;
    Cancel(v * a + x, b, n);
  }

  lemma CastMul(a: int, b: int)
    ensures (a * b) as real == a as real * b as real
  {
  }

  lemma Cancel(x: real, y: real, n: real)
    requires n != 0.0 && y != 0.0
    ensures y * n != 0.0 && (x * n) / (y * n) == x / y
  {
    var q := x / y;
    assert q * y == x;
    assert q * (y * n) == (q * y) * n;
  }

  /** Without missing samples a moving average from the start of the period is the arithmetic mean, whatever is
      carried in. */
  lemma {:induction false} MovAverIsMean(carry: Val, xs: seq<Val>, n_k: int)
    requires n_k > 0 && Real(xs) && |xs| > 0
    ensures Fold(MovAver, carry, xs, 0, n_k) == Num(Sum(xs) / |xs| as real)
  {
    var i := |xs| - 1;
    var pre, x := xs[..i], xs[i].r;
    if i == 0 {
      assert Fold(MovAver, carry, pre, 0, n_k) == carry;
      if carry.Num? { MovAverStep(carry.r, x, 0, n_k); }
      assert Sum(pre) == 0.0;
    } else {
      MovAverIsMean(carry, pre, n_k);
      MovAverStep(Sum(pre) / i as real, x, i, n_k);
      assert Sum(pre) / i as real * i as real == Sum(pre);
    }
  }

  /** The least real sample so far, or the greatest one. */
  ghost predicate IsExtreme(mode: CombMode, v: Val, xs: seq<Val>) {
    if forall i :: 0 <= i < |xs| ==> xs[i].EVal? then v.EVal?
    else
      v.Num? && v in xs &&
      forall i :: 0 <= i < |xs| && xs[i].Num? ==> if mode == MinVal then v.r <= xs[i].r else v.r >= xs[i].r
  }

  /** Minimum and maximum are those of exactly the samples that have a value. */
  lemma {:induction false} ExtremeOfSamples(mode: CombMode, xs: seq<Val>, j: nat, n_k: int)
    requires n_k > 0 && mode != MovAver
    ensures IsExtreme(mode, Fold(mode, EVal, xs, j, n_k), xs)
  {
    if |xs| > 0 {
      var i := |xs| - 1;
      var pre := xs[..i];
      var f := Fold(mode, EVal, pre, j, n_k);
      ExtremeOfSamples(mode, pre, j, n_k);
      assert forall t :: 0 <= t < i ==> xs[t] == pre[t];
      if xs[i].Num? && f.Num? {
        assert f in pre && xs[i] in xs;
      } else if f.Num? {
        assert f in pre;
      }
    }
  }

  ghost predicate Between(v: real, xs: seq<Val>) {
    (exists i :: 0 <= i < |xs| && xs[i].Num? && xs[i].r <= v) &&
    (exists i :: 0 <= i < |xs| && xs[i].Num? && v <= xs[i].r)
  }

  lemma BetweenStep(pre: seq<Val>, sample: Val, f: real, g: real)
    requires Between(f, pre)
    requires var x := if sample.Num? then sample.r else f; if f <= x then f <= g <= x else x <= g <= f
    ensures Between(g, pre + [sample])
  {
    var xs := pre + [sample];
    var lo :| 0 <= lo < |pre| && pre[lo].Num? && pre[lo].r <= f;
    var hi :| 0 <= hi < |pre| && pre[hi].Num? && f <= pre[hi].r;
    var x := if sample.Num? then sample.r else f;
    assert xs[lo] == pre[lo] && xs[hi] == pre[hi] && xs[|pre|] == sample;
    var lo', hi' := if x < f then |pre| else lo, if x > f then |pre| else hi;
    assert xs[lo'].Num? && xs[lo'].r <= g;
    assert xs[hi'].Num? && g <= xs[hi'].r;
  }

  /** A value between the least and the greatest of the real samples, missing only if all of them are. */
  ghost predicate Averages(f: Val, xs: seq<Val>) {
    if f.EVal? then forall i :: 0 <= i < |xs| ==> xs[i].EVal? else Between(f.r, xs)
  }

  lemma BetweenBoth(f: real, sample: Val, j: nat, n_k: int)
    requires n_k > 0
    ensures j * n_k >= 0
    ensures var g, x := Comb(MovAver, Num(f), sample, j * n_k, n_k), if sample.Num? then sample.r else f;
            g.Num? && if f <= x then f <= g.r <= x else x <= g.r <= f
  {
    var x := if sample.Num? then sample.r else f;
    assert Comb(MovAver, Num(f), sample, j * n_k, n_k) == Comb(MovAver, Num(f), Num(x), j * n_k, n_k);
    MovAverStep(f, x, j, n_k);
    Mean(f, x, j);
  }

  lemma AverageStep(pre: seq<Val>, f: Val, sample: Val, j: nat, n_k: int)
    requires n_k > 0 && Averages(f, pre)
    ensures Averages(Comb(MovAver, f, sample, j * n_k, n_k), pre + [sample])
  {
    var xs := pre + [sample];
    assert xs[|pre|] == sample;
    if f.Num? {
      BetweenBoth(f.r, sample, j, n_k);
      BetweenStep(pre, sample, f.r, Comb(MovAver, f, sample, j * n_k, n_k).r);
    } else {
      assert forall i :: 0 <= i < |pre| ==> xs[i] == pre[i];
      if sample.Num? { assert xs[|pre|].r <= sample.r; }
    }
  }

  /** With missing samples a moving average started afresh is still between the least and the greatest of the real
      samples, and it is missing only if all of them are. */
  lemma {:induction false} MovAverIsBetween(xs: seq<Val>, j: nat, n_k: int)
    requires n_k > 0
    ensures Averages(Fold(MovAver, EVal, xs, j, n_k), xs)
  {
    if |xs| > 0 {
      var i := |xs| - 1;
      MovAverIsBetween(xs[..i], j, n_k);
      AverageStep(xs[..i], Fold(MovAver, EVal, xs[..i], j, n_k), xs[i], j + i, n_k);
      assert xs == xs[..i] + [xs[i]];
    }
  }

  lemma Mean(v: real, x: real, j: nat)
    ensures var g := (v * j as real + x) / (j + 1) as real; if v <= x then v <= g <= x else x <= g <= v
  {
    var n := (j + 1) as real;
    var g := (v * j as real + x) / n;
    assert g * n == v * j as real + x;
    var d := (x - v) * j as real;
    assert g * n == v * n + (x - v);
    assert g * n == x * n - d;
    if v <= x {
      assert d >= 0.0;
      DivideLe(v, g, n);
      DivideLe(g, x, n);
    } else {
      assert (v - x) * j as real >= 0.0;
      assert d == -((v - x) * j as real);
      DivideLe(g, v, n);
      DivideLe(x, g, n);
    }
  }

  lemma DivideLe(a: real, b: real, n: real)
    requires n > 0.0 && a * n <= b * n
    ensures a <= b
  {
    if b < a { TimesLt(b, a, n); }
  }

  lemma TimesLt(a: real, b: real, n: real)
    requires n > 0.0 && a < b
    ensures a * n < b * n
  {
    assert (b - a) * n > 0.0;
  }

  // ----- carrying on -----

  lemma {:induction false} FoldSplit(mode: CombMode, carry: Val, xs: seq<Val>, ys: seq<Val>, j: nat, n_k: int)
    requires n_k > 0
    ensures Fold(mode, carry, xs + ys, j, n_k) == Fold(mode, Fold(mode, carry, xs, j, n_k), ys, j + |xs|, n_k)
  {
    if |ys| == 0 {
      assert xs + ys == xs;
    } else {
      var k := |ys| - 1;
      FoldSplit(mode, carry, xs, ys[..k], j, n_k);
      assert (xs + ys)[..|xs| + k] == xs + ys[..k];
    }
  }

  /** A minimum or maximum with a value carried in is that of the value and the samples. */
  lemma {:induction false} CarriedExtreme(mode: CombMode, carry: Val, xs: seq<Val>, j: nat, n_k: int)
    requires n_k > 0 && mode != MovAver
    ensures IsExtreme(mode, Fold(mode, carry, xs, j, n_k), [carry] + xs)
  {
    if |xs| > 0 {
      var i := |xs| - 1;
      var pre := xs[..i];
      var f := Fold(mode, carry, pre, j, n_k);
      CarriedExtreme(mode, carry, pre, j, n_k);
      var a, b := [carry] + pre, [carry] + xs;
      assert b == a + [xs[i]];
      assert forall t :: 0 <= t < |a| ==> b[t] == a[t];
      if f.Num? { assert f in a; }
      if xs[i].Num? { assert b[|a|] == xs[i]; }
    } else {
      assert [carry] + xs == [carry];
    }
  }

  lemma OneExtreme(mode: CombMode, v: Val, w: Val, carry: Val, xs: seq<Val>)
    requires mode != MovAver && IsExtreme(mode, v, [carry] + xs) && IsExtreme(mode, w, xs) &&
             (carry.Num? ==> carry in xs)
    ensures v == w
  {
    var a := [carry] + xs;
    assert forall t :: 0 <= t < |xs| ==> a[t + 1] == xs[t];
    assert a[0] == carry;
  }

  // ----- where carrying on goes wrong -----

  lemma MeanIsInjective(a: real, b: real, x: real, j: nat)
    requires j > 0
    ensures (a * j as real + x) / (j + 1) as real == (b * j as real + x) / (j + 1) as real <==> a == b
  {
    var n := (j + 1) as real;
    var p, q := (a * j as real + x) / n, (b * j as real + x) / n;
    assert p * n == a * j as real + x && q * n == b * j as real + x;
    if p == q {
      assert (a - b) * j as real == 0.0;
    }
  }

  lemma MeanOfOne(a: real, j: nat)
    ensures (a * j as real + a) / (j + 1) as real == a
  {
    assert a * j as real + a == a * (j + 1) as real;
  }

  /** A missing sample leaves a moving average as it is. */
  lemma CombMissing(v: Val, j: nat, n_k: int)
    requires n_k > 0
    ensures j * n_k >= 0 && Comb(MovAver, v, EVal, j * n_k, n_k) == v
  {
    if v.Num? {
      assert Comb(MovAver, v, EVal, j * n_k, n_k) == Comb(MovAver, v, v, j * n_k, n_k);
      MovAverStep(v.r, v.r, j, n_k);
      MeanOfOne(v.r, j);
    }
  }

  lemma CombIsInjective(a: real, b: real, sample: Val, j: nat, n_k: int)
    requires n_k > 0 && j > 0
    ensures j * n_k >= 0
    ensures var p, q := Comb(MovAver, Num(a), sample, j * n_k, n_k), Comb(MovAver, Num(b), sample, j * n_k, n_k);
            p.Num? && q.Num? && (p == q <==> a == b) && (sample.EVal? ==> p == Num(a))
  {
    if sample.Num? {
      MovAverStep(a, sample.r, j, n_k);
      MovAverStep(b, sample.r, j, n_k);
      MeanIsInjective(a, b, sample.r, j);
    } else {
      CombMissing(Num(a), j, n_k);
      CombMissing(Num(b), j, n_k);
    }
  }

  lemma {:induction false} FoldIsInjective(a: real, b: real, ys: seq<Val>, j: nat, n_k: int)
    requires n_k > 0 && j > 0
    ensures var p, q := Fold(MovAver, Num(a), ys, j, n_k), Fold(MovAver, Num(b), ys, j, n_k);
            p.Num? && q.Num? && (p == q <==> a == b)
  {
    if |ys| > 0 {
      var i := |ys| - 1;
      FoldIsInjective(a, b, ys[..i], j, n_k);
      CombIsInjective(Fold(MovAver, Num(a), ys[..i], j, n_k).r, Fold(MovAver, Num(b), ys[..i], j, n_k).r, ys[i], j + i,
                      n_k);
    }
  }

  lemma {:induction false} FoldOfMissing(carry: Val, xs: seq<Val>, j: nat, n_k: int)
    requires n_k > 0 && forall t :: 0 <= t < |xs| ==> xs[t].EVal?
    ensures Fold(MovAver, carry, xs, j, n_k) == carry
  {
    if |xs| > 0 {
      var i := |xs| - 1;
      FoldOfMissing(carry, xs[..i], j, n_k);
      CombMissing(carry, j + i, n_k);
    }
  }

  /** The place of the first sample that has a value. */
  function FirstReal(xs: seq<Val>): (i: nat)
    ensures i <= |xs| && (i < |xs| ==> xs[i].Num?) && forall t :: 0 <= t < i ==> xs[t].EVal?
  {
    if |xs| == 0 || xs[0].Num? then 0 else 1 + FirstReal(xs[1..])
  }

  /** The first real sample goes into the carried value with the weight of its place. */
  lemma FoldFromFirst(carry: Val, xs: seq<Val>, i: nat, j: nat, n_k: int)
    requires n_k > 0 && i < |xs| && xs[i].Num? && forall t :: 0 <= t < i ==> xs[t].EVal?
    ensures (j + i) * n_k >= 0
    ensures Fold(MovAver, carry, xs, j, n_k)
            == Fold(MovAver, Comb(MovAver, carry, xs[i], (j + i) * n_k, n_k), xs[i + 1..], j + i + 1, n_k)
  {
    var pre, ys := xs[..i], xs[i + 1..];
    assert xs == pre + [xs[i]] + ys;
    FoldSplit(MovAver, carry, pre + [xs[i]], ys, j, n_k);
    FoldOfMissing(carry, pre, j, n_k);
    assert (pre + [xs[i]])[..i] == pre;
  }

  /** A value carried into a moving average does not change it exactly if there is none, or if there is a real sample
      and the first one is at the start of the period or is that value. */
  lemma CarryIsHarmlessIff(carry: Val, xs: seq<Val>, j: nat, n_k: int)
    requires n_k > 0
    ensures Fold(MovAver, carry, xs, j, n_k) == Fold(MovAver, EVal, xs, j, n_k)
            <==> carry.EVal? || (FirstReal(xs) < |xs| && (j + FirstReal(xs) == 0 || carry == xs[FirstReal(xs)]))
  {
    var i := FirstReal(xs);
    if i == |xs| {
      FoldOfMissing(carry, xs, j, n_k);
      FoldOfMissing(EVal, xs, j, n_k);
    } else if carry.Num? {
      FoldFromFirst(carry, xs, i, j, n_k);
      FoldFromFirst(EVal, xs, i, j, n_k);
      JoinFirst(carry.r, xs[i].r, xs[i + 1..], j + i, n_k);
    }
  }

  /** A carried value that is joined with a sample is forgotten exactly at the start of the period or if it is the
      sample. */
  lemma JoinFirst(c: real, x: real, ys: seq<Val>, j: nat, n_k: int)
    requires n_k > 0
    ensures j * n_k >= 0
    ensures Fold(MovAver, Comb(MovAver, Num(c), Num(x), j * n_k, n_k), ys, j + 1, n_k) ==
            Fold(MovAver, Num(x), ys, j + 1, n_k)
            <==> j == 0 || c == x
  {
    var a := (c * j as real + x) / (j + 1) as real;
    MovAverStep(c, x, j, n_k);
    FoldIsInjective(a, x, ys, j + 1, n_k);
    MeanOfOne(x, j);
    if j > 0 { MeanIsInjective(c, x, x, j); }
  }

  /** What was read of a period before does not change its moving average: nothing real had been read, or the first real
      sample is at the start of the period or is the value made then. */
  ghost predicate Resumable(xs: seq<Val>, n: nat, j: nat, n_k: int)
    requires n_k > 0 && n <= |xs|
  {
    var i := FirstReal(xs);
    n <= i || j + i == 0 || Fold(MovAver, EVal, xs[..n], j, n_k) == xs[i]
  }

  /** Reading a period again from its start, with the value of the samples read before carried in, gives the value that
      one reading gives: always for minimum and maximum, and for the moving average exactly if that value is
      harmless. */
  lemma ReReadIsSameIff(mode: CombMode, xs: seq<Val>, n: nat, j: nat, n_k: int)
    requires n_k > 0 && n <= |xs|
    ensures Fold(mode, Fold(mode, EVal, xs[..n], j, n_k), xs, j, n_k) == Fold(mode, EVal, xs, j, n_k)
            <==> mode != MovAver || Resumable(xs, n, j, n_k)
  {
    var carry := Fold(mode, EVal, xs[..n], j, n_k);
    if mode == MovAver {
      var i := FirstReal(xs);
      CarryIsHarmlessIff(carry, xs, j, n_k);
      MovAverIsBetween(xs[..n], j, n_k);
      if n <= i { FoldOfMissing(EVal, xs[..n], j, n_k); } else { assert xs[..n][i].Num?; }
    } else {
      CarriedExtreme(mode, carry, xs, j, n_k);
      ExtremeOfSamples(mode, xs, j, n_k);
      ExtremeOfSamples(mode, xs[..n], j, n_k);
      assert carry.Num? ==> carry in xs;
      OneExtreme(mode, Fold(mode, carry, xs, j, n_k), Fold(mode, EVal, xs, j, n_k), carry, xs);
    }
  }
}
