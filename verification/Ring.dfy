/** A vector written in a circle: `cur` is the next place to write. The program grows the vector while `cur` is
    at its end and overwrites the oldest element otherwise; a size of 0 means that there is no limit. */
module Ring {

  ghost predicate RingOk(n: nat, cur: int, size: int) {
    0 <= cur <= n && size >= 0 && (size == 0 ==> cur == n) && (size > 0 ==> cur < size && n <= size)
  }

  /** The elements from the oldest to the newest. */
  function Log<T>(v: seq<T>, cur: int): (s: seq<T>)
    requires 0 <= cur <= |v|
    ensures |s| == |v|
  {
    v[cur..] + v[..cur]
  }

  /** One write at the cursor. */
  function PutAt<T>(v: seq<T>, cur: int, x: T): seq<T>
    requires 0 <= cur <= |v|
  {
    if cur >= |v| then v + [x] else v[cur := x]
  }

  function NextCur(cur: int, size: int): int {
    if size != 0 && cur + 1 >= size then 0 else cur + 1
  }

  /** A write adds the newest element, and drops the oldest one exactly if the cursor is inside the vector. */
  lemma PutIsShift<T>(v: seq<T>, cur: int, size: int, x: T)
    requires RingOk(|v|, cur, size)
    ensures var w := PutAt(v, cur, x);
            RingOk(|w|, NextCur(cur, size), size) &&
            Log(w, NextCur(cur, size)) == (if cur < |v| then Log(v, cur)[1..] else Log(v, cur)) + [x]
  {
    var w := PutAt(v, cur, x);
    if cur < |v| {
      assert Log(v, cur)[1..] == v[cur + 1..] + v[..cur];
      assert w[cur + 1..] == v[cur + 1..];
      assert w[..cur + 1] == v[..cur] + [x];
    } else {
      assert w[..cur] == v;
    }
  }

  /** The element `back` places before the newest one. */
  lemma LogFromNewest<T>(v: seq<T>, cur: int, back: nat)
    requires 0 <= cur <= |v| && back < |v|
    ensures var w := cur - 1 - back;
            Log(v, cur)[|v| - 1 - back] == v[if w < 0 then |v| + w else w]
  {
  }

  /** The element after the oldest one, as the program finds it from the cursor. */
  lemma LogSecond<T>(v: seq<T>, cur: int)
    requires 0 <= cur < |v|
    ensures Log(v, cur)[0] == v[cur]
    ensures Log(v, cur)[if |v| >= 2 then 1 else 0] == v[if cur + 1 >= |v| then 0 else cur + 1]
  {
  }

  /** Overwriting that element in the vector overwrites it in the log. */
  lemma LogUpdate<T>(v: seq<T>, cur: int, back: nat, x: T)
    requires 0 <= cur <= |v| && back < |v|
    ensures var w := cur - 1 - back;
            Log(v[(if w < 0 then |v| + w else w) := x], cur) == Log(v, cur)[|v| - 1 - back := x]
  {
  }

  lemma SuffixAppend<T>(full: seq<T>, d: nat, x: T)
    requires d <= |full|
    ensures (full + [x])[d..] == full[d..] + [x]
    ensures d < |full| ==> (full + [x])[d + 1..] == full[d..][1..] + [x]
  {
  }

  /** What a write does to the ring is what it does to the list of all elements written, `gone` of which have been
      dropped. */
  lemma PutInFull<T>(v: seq<T>, cur: int, size: int, full: seq<T>, gone: nat, x: T)
    requires RingOk(|v|, cur, size) && gone <= |full| && |v| == |full| - gone && Log(v, cur) == full[gone..]
    ensures var gone' := if cur < |v| then gone + 1 else gone;
            RingOk(|PutAt(v, cur, x)|, NextCur(cur, size), size) &&
            |PutAt(v, cur, x)| == |full| + 1 - gone' &&
            Log(PutAt(v, cur, x), NextCur(cur, size)) == (full + [x])[gone'..]
    ensures cur < |v| ==> v[cur] == full[gone]
    ensures cur < |v| ==> v[if cur + 1 >= |v| then 0 else cur + 1] == full[if gone + 1 < |full| then gone + 1 else gone]
  {
    PutIsShift(v, cur, size, x);
    SuffixAppend(full, gone, x);
    if cur < |v| { LogSecond(v, cur); }
  }

  lemma PutCount<T>(v: seq<T>, cur: int, x: T, e: T)
    requires 0 <= cur <= |v|
    ensures multiset(PutAt(v, cur, x))[e]
            == multiset(v)[e] + (if x == e then 1 else 0) - if cur < |v| && v[cur] == e then 1 else 0
  {
  }

  lemma UpdateCount<T>(v: seq<T>, i: nat, x: T, e: T)
    requires i < |v|
    ensures multiset(v[i := x])[e] == multiset(v)[e] + (if x == e then 1 else 0) - if v[i] == e then 1 else 0
  {
  }

  lemma LogMultiset<T>(v: seq<T>, cur: int)
    requires 0 <= cur <= |v|
    ensures multiset(Log(v, cur)) == multiset(v)
  {
    assert v == v[..cur] + v[cur..];
  }

  /** How many elements `m` writes drop: those still ahead of the cursor, and all of them once the vector has
      grown to the size limit. */
  function Dropped(n: nat, cur: int, size: int, m: nat): (d: nat)
    requires RingOk(n, cur, size)
    ensures d <= m
  {
    if size == 0 then 0
    else
      (if m < n - cur then m else n - cur) +
      (if m - (n - cur) > size - n then m - (n - cur) - (size - n) else 0)
  }

  lemma DropsLess(n: nat, cur: int, size: int, m: nat)
    requires RingOk(n, cur, size) && n + m > 0
    ensures Dropped(n, cur, size, m) < n + m && (size == 0 || m == 0 ==> Dropped(n, cur, size, m) == 0)
  {
  }

  lemma DroppedStep(n: nat, cur: int, size: int, m: nat)
    requires RingOk(n, cur, size) && m > 0
    ensures var n' := if cur < n then n else n + 1;
            RingOk(n', NextCur(cur, size), size) &&
            Dropped(n, cur, size, m) ==
              (if cur < n then 1 else 0) + Dropped(n', NextCur(cur, size), size, m - 1)
  {
  }

  /** How many elements the vector has after `m` writes, one after another. */
  ghost function SizeAfter(n: nat, cur: int, size: int, m: nat): nat
    requires RingOk(n, cur, size)
    decreases m
  {
    if m == 0 then n else SizeAfter(if cur < n then n else n + 1, NextCur(cur, size), size, m - 1)
  }

  lemma {:induction false} SizeAfterDrops(n: nat, cur: int, size: int, m: nat)
    requires RingOk(n, cur, size)
    ensures SizeAfter(n, cur, size, m) == n + m - Dropped(n, cur, size, m)
    decreases m
  {
    if m > 0 {
      DroppedStep(n, cur, size, m);
      SizeAfterDrops(if cur < n then n else n + 1, NextCur(cur, size), size, m - 1);
    }
  }

  /** A ring whose limit was never raised under its contents keeps exactly the newest `size` elements. */
  lemma DroppedKeepsSize(n: nat, cur: int, size: int, m: nat)
    requires RingOk(n, cur, size) && (cur == n || n == size)
    ensures n + m - Dropped(n, cur, size, m) == if size == 0 || n + m <= size then n + m else size
  {
  }
}
