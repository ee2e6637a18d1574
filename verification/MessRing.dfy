/** The buffer of messages: one ring that all messages go into, and a head for each archiver that reads from it. */
module MessRing {
  import opened Ring
  import opened Series

  const MIN_LEN: nat := 500
  const MAX_LEN: nat := 100000

  datatype Rec = Rec(time: int, utime: int, categ: string, level: int, mess: string)

  const BLANK := Rec(0, 0, "", 0, "")

  function FTM(r: Rec): int {
    r.time * 1000000 + r.utime
  }

  /** `head` is the next slot to write; a reader's head is -1 before its first reading. */
  datatype Buf = Buf(slots: seq<Rec>, head: int, heads: seq<int>) {
    ghost predicate Ok() {
      |slots| >= 2 && 0 <= head < |slots| && forall i :: 0 <= i < |heads| ==> -1 <= heads[i] < |slots|
    }
  }

  function After(i: int, n: nat): int {
    if i + 1 >= n then 0 else i + 1
  }

  // ----- what the heads stand for -----

  /** The number of slots from a reader's head to the head of the ring. */
  function Count(head: int, h: int, n: nat): int {
    if h <= head then head - h else head - h + n
  }

  /** The messages a reader has not got yet. */
  function Pending(slots: seq<Rec>, head: int, h: int): seq<Rec>
    requires 0 <= head < |slots| && 0 <= h < |slots|
  {
    if h <= head then slots[h..head] else slots[h..] + slots[..head]
  }

  lemma PendingIsNewest(slots: seq<Rec>, head: int, h: int)
    requires 0 <= head < |slots| && 0 <= h < |slots|
    ensures 0 <= Count(head, h, |slots|) < |slots|
    ensures Pending(slots, head, h) == Log(slots, head)[|slots| - Count(head, h, |slots|)..]
  {
  }

  /** The reader's head after the ring's head has come to `head`: the oldest message is given up if it is pushed out. */
  function Pushed(h: int, head: int, n: nat): int {
    if h >= 0 && h == head then After(h, n) else h
  }

  lemma PushedCount(head: int, h: int, n: nat)
    requires n >= 2 && 0 <= head < n && 0 <= h < n
    ensures var head' := After(head, n);
            var c := Count(head, h, n);
            0 <= Pushed(h, head', n) < n && Count(head', Pushed(h, head', n), n) == if c < n - 1 then c + 1 else n - 1
  {
  }

  /** A new message is the newest pending one of each reader; a reader that has all the other slots pending loses its
      oldest message. */
  lemma PutPending(slots: seq<Rec>, head: int, h: int, rec: Rec)
    requires |slots| >= 2 && 0 <= head < |slots| && 0 <= h < |slots|
    ensures var n := |slots|;
            var head' := After(head, n);
            0 <= Pushed(h, head', n) < n &&
            Pending(slots[head := rec], head', Pushed(h, head', n)) == Newest(Pending(slots, head, h) + [rec], n - 1)
  {
    var n := |slots|;
    var head' := After(head, n);
    PendingIsNewest(slots, head, h);
    PendingIsNewest(slots[head := rec], head', Pushed(h, head', n));
    PushedCount(head, h, n);
    PutIsShift(slots, head, n, rec);
  }

  /** A reader that starts takes all that the ring holds, as far as the slot after the head tells whether the ring has
      gone round. */
  function Started(slots: seq<Rec>, head: int, h: int): int
    requires 0 <= head < |slots|
  {
    if h >= 0 then h
    else if head + 1 >= |slots| || slots[head + 1].time == 0 then 0
    else head + 1
  }

  // ----- a new length -----

  /** The oldest slot is taken out. */
  function Shrunk(b: Buf): Buf
    requires 0 <= b.head < |b.slots|
  {
    var n := |b.slots| - 1;
    Buf(b.slots[..b.head] + b.slots[b.head + 1..], if b.head >= n then 0 else b.head, Clamped(b.heads, n))
  }

  function Clamped(heads: seq<int>, n: int): seq<int> {
    seq(|heads|, i requires 0 <= i < |heads| => if heads[i] >= 0 && heads[i] >= n then 0 else heads[i])
  }

  /** A blank is put in before the oldest slot. */
  function Grown(b: Buf): Buf
    requires 0 <= b.head < |b.slots|
  {
    b.(slots := b.slots[..b.head] + [BLANK] + b.slots[b.head..])
  }

  lemma ShrunkRing(b: Buf)
    requires b.Ok() && |b.slots| >= 3
    ensures Shrunk(b).Ok() && Log(Shrunk(b).slots, Shrunk(b).head) == Log(b.slots, b.head)[1..]
  {
  }

  /** What taking out a slot does to a reader. The heads are not moved with their slots: a reader whose pending
      messages wrap round loses one of them although it stays in the ring, and one whose pending messages fill the
      other slots from the first on loses them all. */
  lemma ShrunkPending(b: Buf, i: nat)
    requires b.Ok() && |b.slots| >= 3 && i < |b.heads| && b.heads[i] >= 0
    ensures var h, p := b.heads[i], Pending(b.slots, b.head, b.heads[i]);
            Pending(Shrunk(b).slots, Shrunk(b).head, Shrunk(b).heads[i]) ==
              if h > b.head then p[1..] else if h == 0 && b.head == |b.slots| - 1 then [] else p
  {
  }

  /** The `d` oldest slots are taken out one after another. */
  function ShrunkBy(b: Buf, d: nat): (r: Buf)
    requires b.Ok() && d + 2 <= |b.slots|
    ensures r.Ok() && |r.slots| == |b.slots| - d && |r.heads| == |b.heads|
  {
    if d == 0 then b else Shrunk(ShrunkBy(b, d - 1))
  }

  lemma {:induction false} ShrunkByRing(b: Buf, d: nat)
    requires b.Ok() && d + 2 <= |b.slots|
    ensures Log(ShrunkBy(b, d).slots, ShrunkBy(b, d).head) == Log(b.slots, b.head)[d..]
  {
    if d > 0 {
      ShrunkByRing(b, d - 1);
      ShrunkRing(ShrunkBy(b, d - 1));
    }
  }

  /** As many blanks are put in before the oldest slot. */
  function GrownBy(b: Buf, g: nat): Buf
    requires 0 <= b.head < |b.slots|
  {
    b.(slots := b.slots[..b.head] + Rep(BLANK, g) + b.slots[b.head..])
  }

  lemma GrownByNext(b: Buf, g: nat)
    requires b.Ok()
    ensures GrownBy(b, g).Ok() && Grown(GrownBy(b, g)) == GrownBy(b, g + 1)
  {
    assert [BLANK] + Rep(BLANK, g) == Rep(BLANK, g + 1);
  }

  lemma GrownByRing(b: Buf, g: nat)
    requires b.Ok()
    ensures GrownBy(b, g).Ok() && Log(GrownBy(b, g).slots, b.head) == Rep(BLANK, g) + Log(b.slots, b.head)
  {
  }

  function PendingAt(b: Buf, i: nat): seq<Rec>
    requires b.Ok() && i < |b.heads| && b.heads[i] >= 0
  {
    Pending(b.slots, b.head, b.heads[i])
  }

  /** The slots from a head to the ring's head stay together in a ring of `n` slots that gets `m`: on growing, if they
      do not wrap round; on shrinking, if there are none, or if they do not wrap round and the ring's head stays, or
      comes to the begin while the reader's head is not there. */
  predicate StaysTogether(n: int, m: int, head: int, h: int) {
    if m == n then true
    else if m > n then h <= head
    else h == head || (h < head && (head < m || (head == m && h > 0)))
  }

  /** A reader in a ring that loses one slot after another: while its slots stay together it keeps its head, or goes
      with the ring's head if it has nothing pending; from then on it has less pending. */
  lemma {:induction false} ShrunkByPending(b: Buf, d: nat, i: nat)
    requires b.Ok() && d + 2 <= |b.slots| && i < |b.heads| && b.heads[i] >= 0
    ensures var n, c, h := |b.slots|, ShrunkBy(b, d), b.heads[i];
            c.heads[i] >= 0 && c.head == (if n - d > b.head then b.head else 0) &&
            if StaysTogether(n, n - d, b.head, h) then
              PendingAt(c, i) == PendingAt(b, i) && c.heads[i] == if h == b.head then c.head else h
            else |PendingAt(c, i)| < |PendingAt(b, i)|
  {
    if d > 0 {
      ShrunkByPending(b, d - 1, i);
      ShrunkOn(b, ShrunkBy(b, d - 1), |b.slots| - d, i);
    }
  }

  /** One slot less, `m` slots being left. */
  lemma ShrunkOn(b: Buf, c: Buf, m: int, i: nat)
    requires b.Ok() && c.Ok() && 2 <= m < |b.slots| && |c.slots| == m + 1
    requires i < |b.heads| == |c.heads| && b.heads[i] >= 0 && c.heads[i] >= 0
    requires c.head == if m + 1 > b.head then b.head else 0
    requires if StaysTogether(|b.slots|, m + 1, b.head, b.heads[i]) then
               PendingAt(c, i) == PendingAt(b, i) && c.heads[i] == if b.heads[i] == b.head then c.head else b.heads[i]
             else |PendingAt(c, i)| < |PendingAt(b, i)|
    ensures var r := Shrunk(c);
            r.Ok() && |r.heads| == |c.heads| && r.heads[i] >= 0 && r.head == (if m > b.head then b.head else 0) &&
            if StaysTogether(|b.slots|, m, b.head, b.heads[i]) then
              PendingAt(r, i) == PendingAt(b, i) && r.heads[i] == if b.heads[i] == b.head then r.head else b.heads[i]
            else |PendingAt(r, i)| < |PendingAt(b, i)|
  {
    ShrunkPending(c, i);
    PendingCount(b, i);
    PendingCount(c, i);
  }

  lemma PendingCount(b: Buf, i: nat)
    requires b.Ok() && i < |b.heads| && b.heads[i] >= 0
    ensures |PendingAt(b, i)| == Count(b.head, b.heads[i], |b.slots|) &&
            (|PendingAt(b, i)| == 0 <==> b.heads[i] == b.head)
  {
  }

  lemma GrownByPending(b: Buf, g: nat, i: nat)
    requires b.Ok() && i < |b.heads| && b.heads[i] >= 0
    ensures var c := GrownBy(b, g);
            c.Ok() && if b.heads[i] <= b.head then PendingAt(c, i) == PendingAt(b, i)
                      else |PendingAt(c, i)| == |PendingAt(b, i)| + g
  {
    GrownByRing(b, g);
    PendingCount(b, i);
    PendingCount(GrownBy(b, g), i);
  }

  /** The ring and its readers with another number of slots. */
  function Resized(b: Buf, m: nat): (r: Buf)
    requires b.Ok() && m >= 2
    ensures r.Ok() && |r.slots| == m
  {
    var n := |b.slots|;
    if m <= n then ShrunkBy(b, n - m)
    else
      assert GrownBy(b, m - n).Ok() by { GrownByRing(b, m - n); }
      GrownBy(b, m - n)
  }

  /** A started reader keeps its pending messages exactly if its slots stay together. */
  lemma ResizeKeepsPendingIff(b: Buf, m: nat, i: nat)
    requires b.Ok() && m >= 2 && i < |b.heads| && b.heads[i] >= 0
    ensures |Resized(b, m).heads| == |b.heads| && Resized(b, m).heads[i] >= 0
    ensures PendingAt(Resized(b, m), i) == PendingAt(b, i) <==> StaysTogether(|b.slots|, m, b.head, b.heads[i])
  {
    var n := |b.slots|;
    if m <= n { ShrunkByPending(b, n - m, i); } else { GrownByPending(b, m - n, i); }
  }

  lemma ResizedReaders(b: Buf, m: nat)
    requires b.Ok() && m >= 2
    ensures |Resized(b, m).heads| == |b.heads|
    ensures forall i :: 0 <= i < |b.heads| && b.heads[i] >= 0 ==>
              Resized(b, m).heads[i] >= 0 &&
              (PendingAt(Resized(b, m), i) == PendingAt(b, i) <==> StaysTogether(|b.slots|, m, b.head, b.heads[i]))
  {
    forall i | 0 <= i < |b.heads| && b.heads[i] >= 0
      ensures Resized(b, m).heads[i] >= 0 &&
              (PendingAt(Resized(b, m), i) == PendingAt(b, i) <==> StaysTogether(|b.slots|, m, b.head, b.heads[i]))
    {
      ResizeKeepsPendingIff(b, m, i);
    }
    if m <= |b.slots| { assert |ShrunkBy(b, |b.slots| - m).heads| == |b.heads|; }
  }

  /** The newest records stay, in order; blanks come before the oldest one. */
  lemma ResizedRing(b: Buf, m: nat)
    requires b.Ok() && m >= 2
    ensures Log(Resized(b, m).slots, Resized(b, m).head) == ResizedLog(Log(b.slots, b.head), m)
  {
    var n := |b.slots|;
    if m <= n { ShrunkLog(b, n - m); } else { GrownLog(b, m - n, GrownBy(b, m - n)); }
  }

  lemma ShrunkLog(b: Buf, d: nat)
    requires b.Ok() && d + 2 <= |b.slots|
    ensures Log(ShrunkBy(b, d).slots, ShrunkBy(b, d).head) == ResizedLog(Log(b.slots, b.head), |b.slots| - d)
  {
    ShrunkByRing(b, d);
    ResizedOf(Log(b.slots, b.head), Log(ShrunkBy(b, d).slots, ShrunkBy(b, d).head), |b.slots| - d);
  }

  lemma GrownLog(b: Buf, g: nat, c: Buf)
    requires b.Ok() && c == GrownBy(b, g) && g > 0
    ensures c.Ok() && Log(c.slots, c.head) == ResizedLog(Log(b.slots, b.head), |b.slots| + g)
  {
    GrownByRing(b, g);
    ResizedOf(Log(b.slots, b.head), Log(c.slots, b.head), |b.slots| + g);
  }

  lemma ResizedOf(s: seq<Rec>, t: seq<Rec>, m: nat)
    requires t == if m <= |s| then s[|s| - m..] else Rep(BLANK, m - |s|) + s
    ensures t == ResizedLog(s, m)
  {
  }

  /** The newest records of a ring, blanks for those that are not there. */
  function ResizedLog(s: seq<Rec>, len: nat): seq<Rec> {
    if len <= |s| then Newest(s, len) else Rep(BLANK, len - |s|) + s
  }

  function Newest(s: seq<Rec>, n: nat): seq<Rec> {
    if |s| <= n then s else s[|s| - n..]
  }

  // ----- starting after growth -----

  /** The ring has `z` blank slots and then records. */
  ghost predicate BlanksFirst(b: Buf, z: nat) {
    b.Ok() && z <= |b.slots| && forall k :: 0 <= k < |b.slots| ==> (Log(b.slots, b.head)[k].time == 0 <==> k < z)
  }

  /** A reader that starts in a ring with `z` blanks that has grown by `g` more gets all the records that a reader can
      have pending exactly if there are less than two blanks, or the ring's head is at the end, or the records are all
      before it: the slot after the head is blank in any other ring and is taken for one that was never written. In a
      full ring that is growth by one slot at most. */
  lemma StartedAfterGrowthIff(b: Buf, z: nat, g: nat, h: int)
    requires BlanksFirst(b, z) && h < 0
    ensures var c, r := GrownBy(b, g), |b.slots| - z;
            c.Ok() &&
            var most := if r < |c.slots| then r else |c.slots| - 1;
            Newest(Pending(c.slots, c.head, Started(c.slots, c.head, h)), most) == Newest(Log(b.slots, b.head), most)
            <==> g + z < 2 || b.head + 1 == |c.slots| || r <= b.head
  {
    GrownByRing(b, g);
    StartedInGrown(b, z, g, h, GrownBy(b, g));
  }

  lemma StartedInGrown(b: Buf, z: nat, g: nat, h: int, c: Buf)
    requires BlanksFirst(b, z) && h < 0
    requires c.Ok() && c.head == b.head && Log(c.slots, c.head) == Rep(BLANK, g) + Log(b.slots, b.head)
    ensures var r := |b.slots| - z;
            var most := if r < |c.slots| then r else |c.slots| - 1;
            Newest(Pending(c.slots, c.head, Started(c.slots, c.head, h)), most) == Newest(Log(b.slots, b.head), most)
            <==> g + z < 2 || b.head + 1 == |c.slots| || r <= b.head
  {
    GrownBlanks(b, z, g, c);
    StartedTakes(c, g + z, h, Log(b.slots, b.head));
  }

  lemma GrownBlanks(b: Buf, z: nat, g: nat, c: Buf)
    requires BlanksFirst(b, z) && c.Ok() && Log(c.slots, c.head) == Rep(BLANK, g) + Log(b.slots, b.head)
    ensures BlanksFirst(c, g + z) && |c.slots| == |b.slots| + g
    ensures Log(b.slots, b.head) == Log(c.slots, c.head)[|c.slots| - |b.slots|..]
  {
    var s, t := Log(b.slots, b.head), Log(c.slots, c.head);
    assert |t| == |c.slots| && |s| == |b.slots|;
    forall k | 0 <= k < |t| ensures t[k].time == 0 <==> k < g + z {
      if k >= g { assert t[k] == s[k - g]; }
    }
  }

  /** The same for the newest records `s` of a ring that has `z` blanks. */
  lemma StartedTakes(c: Buf, z: nat, h: int, s: seq<Rec>)
    requires BlanksFirst(c, z) && h < 0
    requires |c.slots| - z <= |s| <= |c.slots| && s == Log(c.slots, c.head)[|c.slots| - |s|..]
    ensures var r := |c.slots| - z;
            var most := if r < |c.slots| then r else |c.slots| - 1;
            Newest(Pending(c.slots, c.head, Started(c.slots, c.head, h)), most) == Newest(s, most) <==>
              z < 2 || c.head + 1 == |c.slots| || r <= c.head
  {
    var n, log, h' := |c.slots|, Log(c.slots, c.head), Started(c.slots, c.head, h);
    var most := if z > 0 then n - z else n - 1;
    StartedSlots(c, z, h);
    PendingIsNewest(c.slots, c.head, h');
    var got := Pending(c.slots, c.head, h');
    if |got| >= most { NewestOfNewest(log, s, got, most); }
  }

  /** How many slots a reader that starts takes. */
  lemma StartedSlots(c: Buf, z: nat, h: int)
    requires BlanksFirst(c, z) && h < 0
    ensures var h', last := Started(c.slots, c.head, h), |c.slots| - 1;
            0 <= h' <= last && Count(c.head, h', |c.slots|) == if c.head == last || z < 2 then last else c.head
  {
    if c.head + 1 < |c.slots| { assert c.slots[c.head + 1] == Log(c.slots, c.head)[1]; }
  }

  lemma NewestOfNewest(log: seq<Rec>, s: seq<Rec>, got: seq<Rec>, k: nat)
    requires k <= |got| <= |log| && got == log[|log| - |got|..] && k <= |s| <= |log| && s == log[|log| - |s|..]
    ensures Newest(got, k) == Newest(s, k)
  {
  }

  // ----- reading by time -----

  predicate ByTime(recs: seq<Rec>) {
    forall i, j :: 0 <= i < j < |recs| ==> FTM(recs[i]) <= FTM(recs[j])
  }

  function Pick(recs: seq<Rec>, p: Rec -> bool): (r: seq<Rec>)
    ensures forall i :: 0 <= i < |r| ==> p(r[i])
  {
    if |recs| == 0 then []
    else
      var n := |recs| - 1;
      Pick(recs[..n], p) + if p(recs[n]) then [recs[n]] else []
  }

  function AtTime(recs: seq<Rec>, t: int): seq<Rec> {
    Pick(recs, r => FTM(r) == t)
  }

  /** The records in the order of their times, those with the same time in the order they have in `s`. */
  ghost predicate IsStableSort(r: seq<Rec>, s: seq<Rec>) {
    ByTime(r) && SameAtTimes(r, s)
  }

  ghost predicate SameAtTimes(r: seq<Rec>, s: seq<Rec>) {
    forall t :: AtTime(r, t) == AtTime(s, t)
  }

  lemma {:induction false} PickConcat(a: seq<Rec>, b: seq<Rec>, p: Rec -> bool)
    ensures Pick(a + b, p) == Pick(a, p) + Pick(b, p)
  {
    if |b| == 0 {
      assert a + b == a;
    } else {
      var n := |b| - 1;
      assert (a + b)[..|a| + n] == a + b[..n];
      PickConcat(a, b[..n], p);
    }
  }

  lemma {:induction false} PickNone(a: seq<Rec>, p: Rec -> bool)
    requires forall i :: 0 <= i < |a| ==> !p(a[i])
    ensures Pick(a, p) == []
  {
    if |a| > 0 { PickNone(a[..|a| - 1], p); }
  }

  lemma {:induction false} PickHas(a: seq<Rec>, p: Rec -> bool, x: Rec)
    ensures multiset(Pick(a, p))[x] == if p(x) then multiset(a)[x] else 0
  {
    if |a| > 0 {
      var n := |a| - 1;
      PickHas(a[..n], p, x);
      assert a == a[..n] + [a[n]];
    }
  }

  /** A stable sort is a permutation. */
  lemma StableSortIsPermutation(r: seq<Rec>, s: seq<Rec>)
    requires IsStableSort(r, s)
    ensures multiset(r) == multiset(s)
  {
    forall x: Rec ensures multiset(r)[x] == multiset(s)[x] {
      var p := (y: Rec) => FTM(y) == FTM(x);
      PickHas(r, p, x);
      PickHas(s, p, x);
      assert AtTime(r, FTM(x)) == AtTime(s, FTM(x));
      SamePick(r, FTM(x), p);
      SamePick(s, FTM(x), p);
    }
  }

  lemma {:induction false} SamePick(r: seq<Rec>, t: int, p: Rec -> bool)
    requires forall x :: p(x) <==> FTM(x) == t
    ensures Pick(r, p) == AtTime(r, t)
  {
    if |r| > 0 {
      var n := |r| - 1;
      SamePick(r[..n], t, p);
      var q := (y: Rec) => FTM(y) == t;
      assert Pick(r, q) == Pick(r[..n], q) + if q(r[n]) then [r[n]] else [];
    }
  }

  lemma AtTimeOfLast(a: seq<Rec>, t: int)
    requires |a| > 0
    ensures AtTime(a, t) == AtTime(a[..|a| - 1], t) + if FTM(a[|a| - 1]) == t then [a[|a| - 1]] else []
  {
    var p := (y: Rec) => FTM(y) == t;
    assert Pick(a, p) == Pick(a[..|a| - 1], p) + if p(a[|a| - 1]) then [a[|a| - 1]] else [];
  }

  lemma SameLast(a: seq<Rec>, b: seq<Rec>)
    requires |a| == |b| > 0 && ByTime(a) && ByTime(b) && multiset(a) == multiset(b)
    requires SameAtTimes(a, b)
    ensures a[|a| - 1] == b[|b| - 1] && SameAtTimes(a[..|a| - 1], b[..|b| - 1])
  {
    var n := |a| - 1;
    var t := FTM(a[n]);
    assert a[n] in multiset(b) && b[n] in multiset(a);
    var i :| 0 <= i <= n && a[i] == b[n];
    var j :| 0 <= j <= n && b[j] == a[n];
    assert FTM(b[n]) == t;
    AtTimeOfLast(a, t);
    AtTimeOfLast(b, t);
    assert AtTime(a, t) == AtTime(b, t);
    assert AtTime(a, t)[|AtTime(a, t)| - 1] == a[n];
    forall u ensures AtTime(a[..n], u) == AtTime(b[..n], u) {
      AtTimeOfLast(a, u);
      AtTimeOfLast(b, u);
      var x, y := AtTime(a[..n], u), AtTime(b[..n], u);
      assert AtTime(a, u) == AtTime(b, u);
      assert x == AtTime(a, u)[..|x|] && y == AtTime(b, u)[..|y|];
    }
  }

  lemma {:induction false} SameSorted(a: seq<Rec>, b: seq<Rec>)
    requires ByTime(a) && IsStableSort(b, a)
    ensures a == b
    decreases |a|
  {
    StableSortIsPermutation(b, a);
    SameLength(a, b);
    if |a| > 0 {
      var n := |a| - 1;
      SameLast(a, b);
      SameSorted(a[..n], b[..n]);
      assert a == a[..n] + [a[n]] && b == b[..n] + [b[n]];
    }
  }

  lemma SameLength(a: seq<Rec>, b: seq<Rec>)
    requires multiset(a) == multiset(b)
    ensures |a| == |b|
  {
    assert |a| == |multiset(a)| && |b| == |multiset(b)|;
  }

  /** There is only one stable sort. */
  lemma StableSortIsUnique(a: seq<Rec>, b: seq<Rec>, s: seq<Rec>)
    requires IsStableSort(a, s) && IsStableSort(b, s)
    ensures a == b
  {
    forall t ensures AtTime(b, t) == AtTime(a, t) {
      assert AtTime(b, t) == AtTime(s, t);
    }
    SameSorted(a, b);
  }

  /** Put in behind the last record that is not later. */
  lemma InsertedIsSorted(r: seq<Rec>, s: seq<Rec>, x: Rec, i: nat)
    requires IsStableSort(r, s) && i <= |r|
    requires forall j :: 0 <= j < i ==> FTM(r[j]) <= FTM(x)
    requires forall j :: i <= j < |r| ==> FTM(r[j]) > FTM(x)
    ensures IsStableSort(r[..i] + [x] + r[i..], s + [x])
  {
    var r' := r[..i] + [x] + r[i..];
    assert r == r[..i] + r[i..];
    forall t ensures AtTime(r', t) == AtTime(s + [x], t) { InsertedAt(r[..i], r[i..], s, x, t); }
  }

  lemma InsertedAt(a: seq<Rec>, b: seq<Rec>, s: seq<Rec>, x: Rec, t: int)
    requires AtTime(a + b, t) == AtTime(s, t) && forall j :: 0 <= j < |b| ==> FTM(b[j]) > FTM(x)
    ensures AtTime(a + [x] + b, t) == AtTime(s + [x], t)
  {
    AtTimeOfOne(x, t);
    AtTimeOfSum(s, [x], t);
    SumWithin(a, b, x, t);
    if FTM(x) == t { AtTimeOfOthers(b, t); }
  }

  lemma SumWithin(a: seq<Rec>, b: seq<Rec>, x: Rec, t: int)
    ensures AtTime(a + b, t) == AtTime(a, t) + AtTime(b, t)
    ensures AtTime(a + [x] + b, t) == AtTime(a, t) + AtTime([x], t) + AtTime(b, t)
  {
    AtTimeOfSum(a, b, t);
    AtTimeOfSum(a, [x], t);
    AtTimeOfSum(a + [x], b, t);
  }

  lemma AtTimeOfSum(a: seq<Rec>, b: seq<Rec>, t: int)
    ensures AtTime(a + b, t) == AtTime(a, t) + AtTime(b, t)
  {
    PickConcat(a, b, r => FTM(r) == t);
  }

  lemma AtTimeOfOne(x: Rec, t: int)
    ensures AtTime([x], t) == if FTM(x) == t then [x] else []
  {
    AtTimeOfLast([x], t);
  }

  lemma AtTimeOfOthers(b: seq<Rec>, t: int)
    requires forall j :: 0 <= j < |b| ==> FTM(b[j]) != t
    ensures AtTime(b, t) == []
  {
    PickNone(b, r => FTM(r) == t);
  }

  // ----- the buffer -----

  /** Whether a message is of the asked level or above; a level above the greatest one has its level in the tens. */
  function LevelTest(condLev: int, messLev: int): bool {
    var c := if Abs(condLev) > 7 then 7 else Abs(condLev);
    var m := Abs(messLev);
    (if m <= 7 then m else m / 10) >= c
  }

  function Abs(x: int): nat {
    if x < 0 then -x else x
  }

  /** What a reader by time asks for. */
  datatype Query = Query(bTm: int, eTm: int, level: int, re: string -> bool) {
    predicate Matches(r: Rec) {
      r.time >= bTm && r.time != 0 && r.time <= eTm && LevelTest(level, r.level) && re(r.categ)
    }
  }

  class MessBuf {
    var mBuf: seq<Rec>
    var headBuf: int
    var messHead: seq<int>

    ghost function View(): Buf
      reads this
    {
      Buf(mBuf, headBuf, messHead)
    }

    ghost predicate Valid()
      reads this
    {
      View().Ok()
    }

    ghost function Content(): seq<Rec>
      reads this
      requires Valid()
    {
      Log(mBuf, headBuf)
    }

    /** The pending messages of a reader that has started. */
    ghost function PendingOf(i: nat): seq<Rec>
      reads this
      requires Valid() && i < |messHead| && messHead[i] >= 0
    {
      Pending(mBuf, headBuf, messHead[i])
    }

    constructor (readers: nat)
      ensures Valid() && Content() == Rep(BLANK, 500) && |messHead| == readers &&
              forall i :: 0 <= i < readers ==> messHead[i] == -1
    {
      mBuf, headBuf, messHead := Rep(BLANK, MIN_LEN), 0, Rep(-1, readers);
      new;
      assert Log(mBuf, headBuf) == mBuf;
    }

    /** A message goes over the oldest one. */
    method Put(rec: Rec)
      requires Valid()
      modifies this
      ensures Valid() && View() == Putting(old(View()), rec)
      ensures Content() == old(Content())[1..] + [rec]
      ensures forall i :: 0 <= i < |messHead| && old(messHead[i]) >= 0 ==>
                messHead[i] >= 0 && PendingOf(i) == Newest(old(PendingOf(i)) + [rec], |mBuf| - 1)
    {
      ghost var b := View();
      mBuf := mBuf[headBuf := rec];
      headBuf := headBuf + 1;
      if headBuf >= |mBuf| { headBuf := 0; }
      PushHeads();
      PutIsShift(b.slots, b.head, |mBuf|, rec);
      PuttingPending(b, rec);
      assert messHead == Putting(b, rec).heads;
    }

    /** A reader whose head the ring's head has come to goes on by one. */
    method PushHeads()
      modifies this`messHead
      ensures |messHead| == |old(messHead)|
      ensures forall i :: 0 <= i < |messHead| ==> messHead[i] == Pushed(old(messHead[i]), headBuf, |mBuf|)
    {
      ghost var heads := messHead;
      var iM := 0;
      while iM < |messHead|
        invariant 0 <= iM <= |messHead| == |heads|
        invariant forall i :: 0 <= i < |messHead| ==>
                                messHead[i] == if i < iM then Pushed(heads[i], headBuf, |mBuf|) else heads[i]
      {
        var h := messHead[iM];
        if h >= 0 && h == headBuf {
          h := h + 1;
          if h >= |mBuf| { h := 0; }
        }
        messHead := messHead[iM := h];
        iM := iM + 1;
      }
    }

    /** A reader takes its pending messages, if it has any; the head to commit goes with them. */
    method Take(i: nat) returns (oMess: seq<Rec>, newHead: int)
      requires Valid() && i < |messHead|
      modifies this
      ensures Valid() && View() == Starting(old(View()), i)
      ensures messHead[i] >= 0 && oMess == PendingOf(i) && newHead == headBuf
    {
      if messHead[i] < 0 {
        messHead := messHead[i := headBuf + 1];
        if messHead[i] >= |mBuf| || mBuf[messHead[i]].time == 0 { messHead := messHead[i := 0]; }
      }
      newHead := headBuf;
      oMess := Collect(messHead[i]);
    }

    method Collect(h: int) returns (oMess: seq<Rec>)
      requires Valid() && 0 <= h < |mBuf|
      ensures oMess == Pending(mBuf, headBuf, h)
    {
      oMess := [];
      var iM2 := h;
      while iM2 != headBuf
        invariant 0 <= iM2 < |mBuf| && (h <= headBuf ==> h <= iM2 <= headBuf)
        invariant h > headBuf ==> iM2 <= headBuf || h <= iM2
        invariant oMess == if h <= iM2 then mBuf[h..iM2] else mBuf[h..] + mBuf[..iM2]
        decreases Count(headBuf, iM2, |mBuf|)
      {
        oMess := oMess + [mBuf[iM2]];
        iM2 := iM2 + 1;
        if iM2 >= |mBuf| { iM2 := 0; }
      }
    }

    /** The reader has put the messages away. */
    method Commit(i: nat, newHead: int)
      requires Valid() && i < |messHead| && 0 <= newHead < |mBuf|
      modifies this
      ensures Valid() && View() == old(View()).(heads := old(messHead)[i := newHead])
    {
      messHead := messHead[i := newHead];
    }

    /** A new length, moved into its limits. The newest records stay, in order; new slots come before the oldest one. A
        reader that has started keeps its pending messages exactly if their slots stay together. */
    method SetLen(length: nat)
      requires Valid()
      modifies this
      ensures Valid() && View() == Resized(old(View()), Length(length))
      ensures |mBuf| == if length < 500 then 500 else if length > 100000 then 100000 else length
      ensures Content() == ResizedLog(old(Content()), Length(length)) && |messHead| == |old(messHead)|
      ensures forall i :: 0 <= i < |messHead| && old(messHead)[i] >= 0 ==>
                messHead[i] >= 0 &&
                (PendingOf(i) == old(PendingOf(i)) <==>
                   StaysTogether(|old(mBuf)|, |mBuf|, old(headBuf), old(messHead)[i]))
    {
      ghost var b := View();
      var len := Length(length);
      Shrink(len);
      Grow(len);
      assert GrownBy(b, 0).slots == b.slots;
      ResizedRing(b, len);
      ResizedReaders(b, len);
    }

    method Shrink(len: nat)
      requires Valid() && len >= 2
      modifies this
      ensures Valid() && View() == if |old(mBuf)| > len then ShrunkBy(old(View()), |old(mBuf)| - len) else old(View())
    {
      ghost var b, d := View(), 0;
      while |mBuf| > len
        invariant Valid() && d + 2 <= |b.slots| && View() == ShrunkBy(b, d) && (d > 0 ==> |mBuf| >= len)
      {
        EraseOldest();
        d := d + 1;
      }
    }

    method Grow(len: nat)
      requires Valid()
      modifies this
      ensures Valid() && View() == if |old(mBuf)| < len then GrownBy(old(View()), len - |old(mBuf)|) else old(View())
    {
      ghost var b, g := View(), 0;
      assert GrownBy(b, 0).slots == b.slots;
      while |mBuf| < len
        invariant Valid() && View() == GrownBy(b, g) && (g > 0 ==> |mBuf| <= len)
      {
        GrownByNext(b, g);
        InsertBlank();
        g := g + 1;
      }
    }

    method InsertBlank()
      requires Valid()
      modifies this
      ensures View() == Grown(old(View()))
    {
      mBuf := mBuf[..headBuf] + [BLANK] + mBuf[headBuf..];
    }

    method EraseOldest()
      requires Valid() && |mBuf| >= 3
      modifies this
      ensures View() == Shrunk(old(View()))
    {
      ghost var b := View();
      mBuf := mBuf[..headBuf] + mBuf[headBuf + 1..];
      if headBuf >= |mBuf| { headBuf := 0; }
      var iM := 0;
      while iM < |messHead|
        invariant 0 <= iM <= |messHead| == |b.heads| && mBuf == Shrunk(b).slots && headBuf == Shrunk(b).head
        invariant forall i :: 0 <= i < |messHead| ==>
                                messHead[i] == if i < iM then Clamped(b.heads, |mBuf|)[i] else b.heads[i]
      {
        if messHead[iM] >= 0 && messHead[iM] >= |mBuf| { messHead := messHead[iM := 0]; }
        iM := iM + 1;
      }
      assert messHead == Clamped(b.heads, |mBuf|);
    }

    /** The records that match, each slot once, in the order of their times. */
    method Get(q: Query) returns (recs: seq<Rec>)
      requires Valid()
      ensures if q.level >= 0 then IsStableSort(recs, Found(Content(), q)) else recs == []
      // Of each record there is as many as in the buffer if it is written, in the range of times, of the asked level
      // or above, and of the category, and none if not.
      ensures q.level >= 0 ==>
                forall r :: multiset(recs)[r] ==
                            if r.time != 0 && q.bTm <= r.time <= q.eTm && q.re(r.categ) &&
                               (var l := if r.level < 0 then -r.level else r.level;
                                (if l <= 7 then l else l / 10) >= if q.level <= 7 then q.level else 7)
                            then multiset(Content())[r] else 0
      ensures forall i, j :: 0 <= i < j < |recs| ==>
                recs[i].time * 1000000 + recs[i].utime <= recs[j].time * 1000000 + recs[j].utime
    {
      recs := GetFound(q);
      if q.level >= 0 {
        StableSortIsPermutation(recs, Found(Content(), q));
        forall r ensures multiset(recs)[r] == if q.Matches(r) then multiset(Content())[r] else 0 {
          FoundCount(Content(), q, r);
        }
      }
    }

    method GetFound(q: Query) returns (recs: seq<Rec>)
      requires Valid()
      ensures if q.level >= 0 then IsStableSort(recs, Found(Content(), q)) else recs == []
    {
      recs := [];
      if q.level < 0 { return; }
      var iBuf := headBuf;
      ghost var n, c := 0, Content();
      assert c[..0] == [];
      while true
        invariant 0 <= n < |mBuf| && iBuf == if headBuf + n < |mBuf| then headBuf + n else headBuf + n - |mBuf|
        invariant IsStableSort(recs, Found(c[..n], q))
        decreases |mBuf| - n
      {
        assert c[n] == mBuf[iBuf];
        recs := Consider(recs, mBuf[iBuf], q, c, n);
        iBuf := iBuf + 1;
        if iBuf >= |mBuf| { iBuf := 0; }
        n := n + 1;
        if iBuf == headBuf { break; }
      }
      assert c[..n] == c;
    }
  }

  method Consider(recs: seq<Rec>, rec: Rec, q: Query, ghost c: seq<Rec>, ghost n: nat) returns (r: seq<Rec>)
    requires n < |c| && rec == c[n] && IsStableSort(recs, Found(c[..n], q))
    ensures IsStableSort(r, Found(c[..n + 1], q))
  {
    FoundNext(c, q, n);
    r := recs;
    if q.Matches(rec) { r := InsertByTime(recs, rec, Found(c[..n], q)); }
  }

  function Length(len: nat): nat {
    if len < MIN_LEN then MIN_LEN else if len > MAX_LEN then MAX_LEN else len
  }

  function Putting(b: Buf, rec: Rec): Buf
    requires 0 <= b.head < |b.slots|
  {
    var head' := After(b.head, |b.slots|);
    Buf(b.slots[b.head := rec], head', seq(|b.heads|,
                                           i requires 0 <= i < |b.heads| => Pushed(b.heads[i], head', |b.slots|)))
  }

  function Starting(b: Buf, i: nat): Buf
    requires 0 <= b.head < |b.slots| && i < |b.heads|
  {
    b.(heads := b.heads[i := Started(b.slots, b.head, b.heads[i])])
  }

  lemma PuttingPending(b: Buf, rec: Rec)
    requires b.Ok()
    ensures Putting(b, rec).Ok()
    ensures forall i :: 0 <= i < |b.heads| && b.heads[i] >= 0 ==>
              Pending(Putting(b, rec).slots, Putting(b, rec).head, Putting(b, rec).heads[i])
              == Newest(Pending(b.slots, b.head, b.heads[i]) + [rec], |b.slots| - 1)
  {
    forall i | 0 <= i < |b.heads| && b.heads[i] >= 0
      ensures Pending(Putting(b, rec).slots, Putting(b, rec).head, Putting(b, rec).heads[i])
              == Newest(Pending(b.slots, b.head, b.heads[i]) + [rec], |b.slots| - 1)
    {
      PutPending(b.slots, b.head, b.heads[i], rec);
    }
  }

  /** The records that match, in their order. */
  function Found(s: seq<Rec>, q: Query): seq<Rec> {
    if |s| == 0 then []
    else
      var n := |s| - 1;
      if q.Matches(s[n]) then Found(s[..n], q) + [s[n]] else Found(s[..n], q)
  }

  lemma {:induction false} FoundCount(s: seq<Rec>, q: Query, r: Rec)
    ensures multiset(Found(s, q))[r] == if q.Matches(r) then multiset(s)[r] else 0
  {
    if |s| > 0 {
      var n := |s| - 1;
      FoundCount(s[..n], q, r);
      assert s == s[..n] + [s[n]];
    }
  }

  lemma FoundNext(s: seq<Rec>, q: Query, n: nat)
    requires n < |s|
    ensures Found(s[..n + 1], q) == if q.Matches(s[n]) then Found(s[..n], q) + [s[n]] else Found(s[..n], q)
  {
    assert s[..n + 1][..n] == s[..n];
  }

  /** The place is looked for from the end; records of the same time are passed, not moved. */
  method InsertByTime(recs: seq<Rec>, rec: Rec, ghost s: seq<Rec>) returns (r: seq<Rec>)
    requires IsStableSort(recs, s)
    ensures IsStableSort(r, s + [rec])
  {
    var iP, iM := |recs|, |recs| - 1;
    while iM >= 0
      invariant -1 <= iM < |recs| && 0 <= iP <= |recs|
      invariant iM < iP && (forall j :: iM < j < iP ==> FTM(recs[j]) == FTM(rec))
      invariant forall j :: iP <= j < |recs| ==> FTM(recs[j]) > FTM(rec)
    {
      if FTM(recs[iM]) > FTM(rec) {
        iP := iM;
      } else if FTM(recs[iM]) < FTM(rec) {
        break;
      }
      iM := iM - 1;
    }
    InsertedIsSorted(recs, s, rec, iP);
    r := recs[..iP] + [rec] + recs[iP..];
  }
}
