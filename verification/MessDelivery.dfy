/** Delivery of the messages to the archivers. The writer and the thread that serves the archivers take turns in any
    way: a reader's messages are taken under the lock, put away without it, and its head is moved under the lock
    again. */
module MessDelivery {
  import opened Ring
  import opened Series
  import opened MessRing

  /** What one reader has got: messages are numbered in the order in which they were put. `pos` is the number of the
      messages that are behind the reader, `out` the numbers of those it got and `got` those themselves; `over` are the
      messages that were written over before they were behind it; `late` is set when a ring of messages or more came
      while it put its messages away. */
  datatype Track = Track(pos: nat, got: seq<Rec>, out: seq<int>, over: set<int>, late: bool)

  datatype Work =
    | Idle
    | Busy(i: nat, oMess: seq<Rec>, newHead: int, from: int, seen: nat)

  datatype State = State(b: Buf, tracks: seq<Track>, hist: seq<Rec>, work: Work) {
    function N(): nat { |b.slots| }

    ghost predicate Fit() {
      b.Ok() && |tracks| == |b.heads| &&
      (work.Busy? ==> work.i < |tracks| && 0 <= work.newHead < N() && work.from <= work.seen <= |hist|)
    }
  }

  // ----- steps -----

  function Putted(t: Track, len: nat, n: nat): Track {
    if len >= n + t.pos then t.(over := t.over + {len - n}) else t
  }

  function PutStep(s: State, rec: Rec): State
    requires s.Fit()
  {
    State(Putting(s.b, rec),
          seq(|s.tracks|, i requires 0 <= i < |s.tracks| => Putted(s.tracks[i], |s.hist| + 1, s.N())),
          s.hist + [rec], s.work)
  }

  function TakeStep(s: State, i: nat): State
    requires s.Fit() && s.work.Idle? && i < |s.tracks|
  {
    var b := Starting(s.b, i);
    var p := Pending(b.slots, b.head, b.heads[i]);
    s.(b := b,
       work := if b.heads[i] == b.head then Idle else Busy(i, p, b.head, |s.hist| - |p|, |s.hist|))
  }

  function Range(a: int, b: int): seq<int>
    requires a <= b
  {
    seq(b - a, k => a + k)
  }

  function Delivered(t: Track, oMess: seq<Rec>, from: int, seen: nat, len: nat, n: nat): Track
    requires from <= seen <= len
  {
    Track(seen, t.got + oMess, t.out + Range(from, seen), t.over, t.late || len - seen >= n)
  }

  function DoneStep(s: State, rez: bool): State
    requires s.Fit() && s.work.Busy?
  {
    var t := s.work;
    if !rez then s.(work := Idle)
    else
      State(s.b.(heads := s.b.heads[t.i := t.newHead]),
            s.tracks[t.i := Delivered(s.tracks[t.i], t.oMess, t.from, t.seen, |s.hist|, s.N())], s.hist, Idle)
  }

  ghost predicate Step(s: State, s': State)
    requires s.Fit()
  {
    || (exists rec: Rec :: rec.time != 0 && s' == PutStep(s, rec))
    || (s.work.Idle? && exists i :: 0 <= i < |s.tracks| && s' == TakeStep(s, i))
    || (s.work.Busy? && exists rez :: s' == DoneStep(s, rez))
  }

  ghost predicate Init(s: State) {
    |s.b.slots| >= 2 && s.b == Buf(Rep(BLANK, |s.b.slots|), 0, Rep(-1, |s.b.heads|)) &&
    s.tracks == Rep(Track(0, [], [], {}, false), |s.b.heads|) && s.hist == [] && s.work == Idle
  }

  ghost predicate IsRun(run: seq<State>) {
    |run| > 0 && Init(run[0]) && forall k :: 0 <= k < |run| - 1 ==> run[k].Fit() && Step(run[k], run[k + 1])
  }

  // ----- what every step keeps -----

  /** The ring holds the newest messages; until it has gone round, its head counts them. */
  ghost predicate RingInv(b: Buf, hist: seq<Rec>) {
    b.Ok() && Log(b.slots, b.head) == (Rep(BLANK, |b.slots|) + hist)[|hist|..] &&
    (|hist| < |b.slots| ==> b.head == |hist|) && forall j :: 0 <= j < |hist| ==> hist[j].time != 0
  }

  ghost predicate Increasing(s: seq<int>) {
    forall i, j :: 0 <= i < j < |s| ==> s[i] < s[j]
  }

  /** What was got are the messages with the numbers in `out`, each once and in order. */
  ghost predicate InOrder(t: Track, hist: seq<Rec>) {
    Increasing(t.out) && (forall k :: 0 <= k < |t.out| ==> 0 <= t.out[k] < t.pos) && t.pos <= |hist| &&
    |t.got| == |t.out| && forall k :: 0 <= k < |t.out| ==> t.got[k] == hist[t.out[k]]
  }

  /** Every message behind the reader was got, or written over before. */
  ghost predicate Complete(t: Track) {
    forall j: nat :: j < t.pos ==> j in t.out || j in t.over
  }

  ghost predicate OverInv(t: Track, len: nat, n: nat) {
    (forall j: nat :: j in t.over ==> j + n <= len) &&
    forall j: nat :: t.pos <= j && j + n <= len ==> j in t.over
  }

  ghost predicate HeadInv(t: Track, h: int, head: int, len: nat, n: nat) {
    t.pos <= len &&
    if h < 0 then t.pos == 0 && !t.late
    else Count(head, h, n) <= len - t.pos && (!t.late ==> Count(head, h, n) == Min(len - t.pos, n - 1))
  }

  ghost predicate TrackInv(t: Track, h: int, head: int, hist: seq<Rec>, n: nat) {
    HeadInv(t, h, head, |hist|, n) && InOrder(t, hist) && OverInv(t, |hist|, n) && (!t.late ==> Complete(t))
  }

  ghost predicate WorkInv(t: Work, track: Track, h: int, head: int, hist: seq<Rec>, n: nat)
    requires n > 0 && t.Busy?
  {
    h >= 0 && 0 <= t.newHead < n && track.pos <= t.from < t.seen <= |hist| && t.oMess == hist[t.from..t.seen] &&
    Count(head, t.newHead, n) == (|hist| - t.seen) % n &&
    (!track.late ==> t.from == track.pos || t.from + n - 1 == t.seen)
  }

  ghost predicate Inv(s: State) {
    s.Fit() && RingInv(s.b, s.hist) &&
    (forall i :: 0 <= i < |s.tracks| ==> TrackInv(s.tracks[i], s.b.heads[i], s.b.head, s.hist, s.N())) &&
    (s.work.Busy? ==> WorkInv(s.work, s.tracks[s.work.i], s.b.heads[s.work.i], s.b.head, s.hist, s.N()))
  }

  function Min(a: int, b: int): int {
    if a < b then a else b
  }

  lemma ModNext(k: nat, n: nat)
    requires n > 0
    ensures (k + 1) % n == if k % n == n - 1 then 0 else k % n + 1
  {
    if k % n == n - 1 {
      assert k + 1 == (k / n + 1) * n;
      DivIs(k + 1, n, k / n + 1);
    } else {
      assert k + 1 == k / n * n + (k % n + 1);
      DivIs(k + 1, n, k / n);
    }
  }

  lemma RingPut(b: Buf, hist: seq<Rec>, rec: Rec)
    requires RingInv(b, hist) && rec.time != 0
    ensures RingInv(Putting(b, rec), hist + [rec])
  {
    var n := |b.slots|;
    PutIsShift(b.slots, b.head, n, rec);
    var full := Rep(BLANK, n) + hist;
    assert full + [rec] == Rep(BLANK, n) + (hist + [rec]);
    SuffixAppend(full, |hist|, rec);
  }

  lemma TrackPut(t: Track, h: int, head: int, hist: seq<Rec>, n: nat, rec: Rec)
    requires n >= 2 && 0 <= head < n && -1 <= h < n && TrackInv(t, h, head, hist, n)
    ensures TrackInv(Putted(t, |hist| + 1, n), Pushed(h, After(head, n), n), After(head, n), hist + [rec], n)
  {
    if h >= 0 { PushedCount(head, h, n); }
  }

  lemma WorkPut(t: Work, track: Track, h: int, head: int, hist: seq<Rec>, n: nat, rec: Rec)
    requires n >= 2 && t.Busy? && 0 <= head < n && 0 <= h < n && WorkInv(t, track, h, head, hist, n)
    ensures WorkInv(t, Putted(track, |hist| + 1, n), Pushed(h, After(head, n), n), After(head, n), hist + [rec], n)
  {
    ModNext(|hist| - t.seen, n);
  }

  lemma PutKeepsTracks(s: State, rec: Rec, i: nat)
    requires Inv(s) && rec.time != 0 && i < |s.tracks|
    ensures var s' := PutStep(s, rec); TrackInv(s'.tracks[i], s'.b.heads[i], s'.b.head, s'.hist, s.N())
    ensures var s' := PutStep(s, rec);
            s.work.Busy? && s.work.i == i ==> WorkInv(s.work, s'.tracks[i], s'.b.heads[i], s'.b.head, s'.hist, s.N())
  {
    var t, h := s.tracks[i], s.b.heads[i];
    TrackPut(t, h, s.b.head, s.hist, s.N(), rec);
    if s.work.Busy? && s.work.i == i { WorkPut(s.work, t, h, s.b.head, s.hist, s.N(), rec); }
  }

  lemma PutKeeps(s: State, rec: Rec)
    requires Inv(s) && rec.time != 0
    ensures Inv(PutStep(s, rec))
  {
    RingPut(s.b, s.hist, rec);
    var s' := PutStep(s, rec);
    assert s'.Fit() && s'.N() == s.N();
    forall i | 0 <= i < |s.tracks|
      ensures TrackInv(s'.tracks[i], s'.b.heads[i], s'.b.head, s'.hist, s.N())
      ensures s.work.Busy? && s.work.i == i ==> WorkInv(s.work, s'.tracks[i], s'.b.heads[i], s'.b.head, s'.hist, s.N())
    {
      PutKeepsTracks(s, rec, i);
    }
  }

  /** A reader that starts finds whether the ring has gone round, and takes what a reader that was there from the
      beginning would have. */
  lemma StartedCount(b: Buf, hist: seq<Rec>)
    requires RingInv(b, hist)
    ensures Count(b.head, Started(b.slots, b.head, -1), |b.slots|) == Min(|hist|, |b.slots| - 1)
  {
    var n := |b.slots|;
    var full := Rep(BLANK, n) + hist;
    if b.head + 1 < n {
      assert b.slots[b.head + 1] == Log(b.slots, b.head)[1] == full[|hist| + 1];
    }
  }

  /** The pending messages are the newest ones. */
  lemma PendingInHist(b: Buf, hist: seq<Rec>, h: int)
    requires RingInv(b, hist) && 0 <= h < |b.slots| && Count(b.head, h, |b.slots|) <= |hist|
    ensures Pending(b.slots, b.head, h) == hist[|hist| - Count(b.head, h, |b.slots|)..]
  {
    PendingIsNewest(b.slots, b.head, h);
    var n, c := |b.slots|, Count(b.head, h, |b.slots|);
    var full := Rep(BLANK, n) + hist;
    assert full[|hist|..][n - c..] == full[|full| - c..] == hist[|hist| - c..];
  }

  lemma TakeKeeps(s: State, i: nat)
    requires Inv(s) && s.work.Idle? && i < |s.tracks|
    ensures Inv(TakeStep(s, i))
  {
    var s' := TakeStep(s, i);
    StartedCount(s.b, s.hist);
    PendingInHist(s'.b, s.hist, s'.b.heads[i]);
  }

  lemma DeliveredIsInOrder(t: Track, oMess: seq<Rec>, from: int, seen: nat, hist: seq<Rec>, n: nat)
    requires InOrder(t, hist) && t.pos <= from <= seen <= |hist| && oMess == hist[from..seen]
    ensures InOrder(Delivered(t, oMess, from, seen, |hist|, n), hist)
  {
  }

  lemma DeliveredIsComplete(t: Track, oMess: seq<Rec>, from: int, seen: nat, len: nat, n: nat)
    requires Complete(t) && OverInv(t, len, n) && t.pos <= from <= seen <= len &&
             (from == t.pos || from + n - 1 == seen)
    ensures Complete(Delivered(t, oMess, from, seen, len, n))
  {
    var d := Delivered(t, oMess, from, seen, len, n);
    forall j: nat | j < seen ensures j in d.out || j in d.over {
      if j < t.pos {
        assert j in t.out || j in t.over;
      } else if j >= from {
        assert d.out[|t.out| + j - from] == j;
      }
    }
  }

  lemma DoneKeeps(s: State, rez: bool)
    requires Inv(s) && s.work.Busy?
    ensures Inv(DoneStep(s, rez))
  {
    if rez {
      var t, n := s.work, s.N();
      DeliveredIsInOrder(s.tracks[t.i], t.oMess, t.from, t.seen, s.hist, n);
      if !s.tracks[t.i].late { DeliveredIsComplete(s.tracks[t.i], t.oMess, t.from, t.seen, |s.hist|, n); }
      ModBounds(|s.hist| - t.seen, n);
    }
  }

  lemma ModBounds(k: nat, n: nat)
    requires n > 0
    ensures k % n <= k && k % n < n && (k < n ==> k % n == k)
  {
  }

  lemma StepKeeps(s: State, s': State)
    requires Inv(s) && Step(s, s')
    ensures Inv(s')
  {
    if rec: Rec :| rec.time != 0 && s' == PutStep(s, rec) {
      PutKeeps(s, rec);
    } else if s.work.Idle? {
      var i :| 0 <= i < |s.tracks| && s' == TakeStep(s, i);
      TakeKeeps(s, i);
    } else {
      var rez :| s' == DoneStep(s, rez);
      DoneKeeps(s, rez);
    }
  }

  /** A run without its last step. */
  lemma Shorter(run: seq<State>)
    requires IsRun(run) && |run| > 1
    ensures var n := |run| - 1;
            IsRun(run[..n]) && run[..n][n - 1] == run[n - 1] && run[n - 1].Fit() && Step(run[n - 1], run[n])
  {
  }

  lemma {:induction false} RunKeeps(run: seq<State>)
    requires IsRun(run)
    ensures Inv(run[|run| - 1])
  {
    var n := |run| - 1;
    if n > 0 {
      Shorter(run);
      RunKeeps(run[..n]);
      StepKeeps(run[n - 1], run[n]);
    }
  }

  // ----- main results -----

  /** In every run a reader gets messages that were put, in the order in which they were put and none of them twice,
      whatever comes while it puts them away. */
  lemma NeverRepeated(run: seq<State>, i: nat)
    requires IsRun(run) && i < |run[|run| - 1].tracks|
    ensures InOrder(run[|run| - 1].tracks[i], run[|run| - 1].hist)
  {
    RunKeeps(run);
  }

  /** Reader `i` is never held up for a whole ring of messages while it puts some away. */
  ghost predicate Prompt(run: seq<State>, i: nat) {
    forall k :: 0 <= k < |run| && run[k].work.Busy? && run[k].work.i == i ==>
                  |run[k].hist| - run[k].work.seen < run[k].N()
  }

  /** Then every message behind the reader was got, or was written over while it was still pending, and what is
      pending is the newest of the others, as many as the ring can tell. */
  lemma NothingMissed(run: seq<State>, i: nat)
    requires IsRun(run) && i < |run[|run| - 1].tracks| && Prompt(run, i)
    ensures var s := run[|run| - 1];
            s.Fit() && Complete(s.tracks[i]) && s.tracks[i].pos <= |s.hist| &&
            (s.b.heads[i] >= 0 ==>
               Pending(s.b.slots, s.b.head, s.b.heads[i]) == Newest(s.hist[s.tracks[i].pos..], s.N() - 1))
  {
    var s := run[|run| - 1];
    RunKeeps(run);
    PromptIsNotLate(run, i);
    if s.b.heads[i] >= 0 { PendingIsRight(s.b, s.hist, s.b.heads[i], s.tracks[i].pos); }
  }

  lemma PendingIsRight(b: Buf, hist: seq<Rec>, h: int, pos: nat)
    requires RingInv(b, hist) && 0 <= h < |b.slots| && pos <= |hist|
    requires Count(b.head, h, |b.slots|) == Min(|hist| - pos, |b.slots| - 1)
    ensures Pending(b.slots, b.head, h) == Newest(hist[pos..], |b.slots| - 1)
  {
    PendingInHist(b, hist, h);
    var k := |b.slots| - 1;
    assert |hist| - pos > k ==> hist[pos..][|hist| - pos - k..] == hist[|hist| - k..];
  }

  /** What a step can do to reader `i`. */
  ghost predicate TrackStep(s: State, s': State, i: nat)
    requires s.Fit() && i < |s.tracks| == |s'.tracks|
  {
    || s'.tracks[i] == s.tracks[i]
    || (|s'.hist| == |s.hist| + 1 && s'.tracks[i] == Putted(s.tracks[i], |s'.hist|, s.N()))
    || (s.work.Busy? && s.work.i == i && s' == DoneStep(s, true))
  }

  lemma StepTracks(s: State, s': State, i: nat)
    requires s.Fit() && Step(s, s') && i < |s'.tracks|
    ensures |s'.tracks| == |s.tracks| && s'.N() == s.N() && TrackStep(s, s', i)
  {
  }

  lemma PromptStep(s: State, s': State, i: nat)
    requires s.Fit() && i < |s.tracks| == |s'.tracks| && TrackStep(s, s', i) && !s.tracks[i].late
    requires s.work.Busy? && s.work.i == i ==> |s.hist| - s.work.seen < s.N()
    ensures !s'.tracks[i].late
  {
  }

  lemma {:induction false} PromptIsNotLate(run: seq<State>, i: nat)
    requires IsRun(run) && i < |run[|run| - 1].tracks| && Prompt(run, i)
    ensures !run[|run| - 1].tracks[i].late
  {
    var n := |run| - 1;
    if n > 0 {
      Shorter(run);
      StepTracks(run[n - 1], run[n], i);
      PromptIsNotLate(run[..n], i);
      PromptStep(run[n - 1], run[n], i);
    }
  }

  /** Less than a ring of messages is ever put that the reader has not behind it. */
  ghost predicate KeepsUp(run: seq<State>, i: nat) {
    forall k :: 0 <= k < |run| && i < |run[k].tracks| ==> |run[k].hist| - run[k].tracks[i].pos < run[k].N()
  }

  /** One step of a reader that keeps up. */
  lemma CleanStep(s: State, s': State, i: nat)
    requires Inv(s) && Inv(s') && i < |s.tracks| == |s'.tracks| && s.N() == s'.N() && TrackStep(s, s', i)
    requires |s.hist| - s.tracks[i].pos < s.N() && |s'.hist| - s'.tracks[i].pos < s.N()
    requires s.tracks[i].over == {} && !s.tracks[i].late
    ensures s'.tracks[i].over == {} && !s'.tracks[i].late
  {
  }

  lemma {:induction false} KeepsUpIsClean(run: seq<State>, i: nat)
    requires IsRun(run) && i < |run[|run| - 1].tracks| && KeepsUp(run, i)
    ensures run[|run| - 1].tracks[i].over == {} && !run[|run| - 1].tracks[i].late
  {
    var n := |run| - 1;
    if n > 0 {
      Shorter(run);
      StepTracks(run[n - 1], run[n], i);
      KeepsUpIsClean(run[..n], i);
      RunKeeps(run[..n]);
      RunKeeps(run);
      CleanStep(run[n - 1], run[n], i);
    }
  }

  /** Then it gets every message behind it exactly once: what it got is what was put. */
  lemma ExactlyOnce(run: seq<State>, i: nat)
    requires IsRun(run) && i < |run[|run| - 1].tracks| && KeepsUp(run, i)
    ensures var s := run[|run| - 1]; s.tracks[i].pos <= |s.hist| && s.tracks[i].got == s.hist[..s.tracks[i].pos]
  {
    RunKeeps(run);
    KeepsUpIsClean(run, i);
    var t := run[|run| - 1].tracks[i];
    AllInOrder(t.out, t.pos);
  }

  lemma {:induction false} AllInOrder(out: seq<int>, pos: nat)
    requires Increasing(out) && (forall k :: 0 <= k < |out| ==> 0 <= out[k] < pos) &&
             forall j: nat :: j < pos ==> j in out
    ensures |out| == pos && forall k :: 0 <= k < pos ==> out[k] == k
  {
    if |out| == 0 {
      assert pos > 0 ==> pos - 1 in out;
    } else {
      var n := |out| - 1;
      assert out[n] < pos;
      assert pos - 1 in out;
      forall j: nat | j < pos - 1 ensures j in out[..n] {
        assert j in out;
        var k :| 0 <= k <= n && out[k] == j;
        assert out[..n][k] == j;
      }
      AllInOrder(out[..n], pos - 1);
    }
  }

  /** Moving the head after `k` messages have come leaves the right messages pending exactly if `k` is below the length
      of the ring, or is one short of a multiple of it. */
  lemma CommitIsRightIff(run: seq<State>)
    requires IsRun(run) && run[|run| - 1].work.Busy?
    ensures var s := run[|run| - 1];
            var k := |s.hist| - s.work.seen;
            s.Fit() &&
            (Pending(s.b.slots, s.b.head, s.work.newHead) == Newest(s.hist[s.work.seen..], s.N() - 1)
             <==> k < s.N() || (k + 1) % s.N() == 0)
  {
    RunKeeps(run);
    var s := run[|run| - 1];
    var k := |s.hist| - s.work.seen;
    ModBounds(k, s.N());
    ModNext(k, s.N());
    PendingInHist(s.b, s.hist, s.work.newHead);
  }
}
