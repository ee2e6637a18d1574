/** Which stations run an object: each station decides by itself, on what the others have last told it. The stations'
    levels and which of them are live are fixed, and requests to live stations are answered. */
module Election {
  import opened Redundancy

  /** The stations of the group, and the preference set for the object. */
  datatype Net = Net(peers: seq<Peer>, mode: Mode) {
    ghost predicate Ok() { Ascending(peers) }

    ghost predicate Live(i: nat) { i < |peers| && peers[i].isLive }

    /** Station `j` has the preference over station `i`. */
    ghost predicate Over(j: nat, i: nat)
      requires i < |peers|
    {
      j != i && Live(j) && Beats(mode, peers[j], peers[i].lev)
    }

    ghost predicate Top(i: nat) {
      Live(i) && forall j: nat :: !Over(j, i)
    }

    /** The stations that station `i` knows. */
    function Others(i: nat): seq<Peer>
      requires i < |peers|
    {
      peers[..i] + peers[i + 1..]
    }
  }

  /** `told[i][j]`: station `i` was last told by station `j` that it runs the object; `use[i]`: station `i` leaves the
      object to another one. */
  datatype State = State(told: seq<seq<bool>>, use: seq<bool>) {
    ghost predicate Fit(n: Net) {
      |told| == |use| == |n.peers| && forall i :: 0 <= i < |told| ==> |told[i]| == |n.peers|
    }
  }

  datatype Action =
    | Exchange(i: nat, j: nat) // station i asks station j for its state
    | Decide(i: nat)           // station i plans
    | TakeOver(i: nat)         // station i finds no station that runs the object to send a request to
    | Forget(i: nat, j: nat)   // station i drops station j, which does not answer

  ghost predicate Yielding(n: Net, s: State, i: nat)
    requires s.Fit(n) && i < |n.peers|
  {
    exists j: nat :: n.Over(j, i) && s.told[i][j]
  }

  ghost predicate Enabled(n: Net, s: State, a: Action)
    requires s.Fit(n)
  {
    match a
    case Exchange(i, j) => n.Live(i) && n.Live(j) && i != j
    case Decide(i) => n.Live(i)
    case TakeOver(i) => n.Live(i) && forall j: nat :: n.Live(j) && j != i ==> !s.told[i][j]
    case Forget(i, j) => n.Live(i) && j < |n.peers| && !n.Live(j)
  }

  ghost function Apply(n: Net, s: State, a: Action): (r: State)
    requires s.Fit(n) && Enabled(n, s, a)
    ensures r.Fit(n)
  {
    match a
    case Exchange(i, j) => s.(told := s.told[i := s.told[i][j := !s.use[j]]])
    case Decide(i) => s.(use := s.use[i := Yielding(n, s, i)])
    case TakeOver(i) => s.(use := s.use[i := false])
    case Forget(i, j) => s.(told := s.told[i := s.told[i][j := false]])
  }

  ghost predicate IsRun(n: Net, states: seq<State>, acts: seq<Action>) {
    |states| == |acts| + 1 &&
    forall k :: 0 <= k < |acts| ==>
      states[k].Fit(n) && Enabled(n, states[k], acts[k]) && states[k + 1] == Apply(n, states[k], acts[k])
  }

  // ----- the steps are those of the stations -----

  /** A plan of the station on what it was told is a decision. */
  lemma PlanIsDecision(n: Net, i: nat, mRd: seq<Entry>, obj: Obj, s: State)
    requires n.Ok() && s.Fit(n) && i < |n.peers| && obj.started && obj.rednt && obj.mode == n.mode
    requires forall j :: 0 <= j < |n.peers| ==> (s.told[i][j] <==> ToldRun(mRd, n.peers[j].id, obj.id))
    ensures Planned(obj, n.peers[i].lev, n.Others(i), mRd).use <==> Yielding(n, s, i)
  {
    var sts := n.Others(i);
    if Yields(n.mode, n.peers[i].lev, sts, mRd, obj.id) {
      var k :| 0 <= k < |sts| && sts[k].isLive && Beats(n.mode, sts[k], n.peers[i].lev) &&
               ToldRun(mRd, sts[k].id, obj.id);
      var j := if k < i then k else k + 1;
      assert n.peers[j] == sts[k];
      assert n.Over(j, i) && s.told[i][j];
    }
    if j: nat :| n.Over(j, i) && s.told[i][j] {
      assert sts[if j < i then j else j - 1] == n.peers[j];
    }
  }

  /** The taking over of an object that nobody answers for is the step of the same name. */
  lemma TakeOverIsStep(n: Net, s: State, i: nat, objs: seq<Obj>, k: nat)
    requires s.Fit(n) && Enabled(n, s, TakeOver(i)) && k < |objs| && s.use[i] == objs[k].use
    requires forall l, m :: 0 <= l < m < |objs| ==> objs[l].id != objs[m].id
    ensures |TakenOver(objs, objs[k].id)| == |objs|
    ensures TakenOver(objs, objs[k].id)[k] == objs[k].(use := Apply(n, s, TakeOver(i)).use[i])
    ensures forall l :: 0 <= l < |objs| && l != k ==> TakenOver(objs, objs[k].id)[l] == objs[l]
  {
  }

  // ----- stability -----

  /** Any top station has the preference over every station that is not top. */
  lemma TopIsOver(n: Net, t: nat, i: nat)
    requires n.Top(t) && n.Live(i) && !n.Top(i)
    ensures n.Over(t, i)
  {
    var u: nat :| n.Over(u, i);
    if u != t { assert !n.Over(u, t); }
  }

  /** If a station is live, there is a top one. */
  lemma SomeTop(n: Net, i: nat)
    requires n.Ok() && n.Live(i)
    ensures exists t: nat :: n.Top(t)
  {
    if !n.Top(i) {
      var j: nat :| n.Over(j, i);
      match n.mode {
        case High => HighestIsTop(n, i);
        case Low => LowestIsTop(n, i);
        case Named(st) => assert n.Top(j);
      }
    }
  }

  lemma HighestIsTop(n: Net, i: nat)
    requires n.Live(i) && n.mode == High
    ensures exists t: nat :: n.Top(t)
  {
    var t: nat, k: nat := i, 0;
    while k < |n.peers|
      invariant n.Live(t) && 0 <= k <= |n.peers| &&
                forall j :: 0 <= j < k && n.Live(j) ==> n.peers[j].lev <= n.peers[t].lev
    {
      if n.Live(k) && n.peers[k].lev > n.peers[t].lev { t := k; }
      k := k + 1;
    }
    assert n.Top(t);
  }

  lemma LowestIsTop(n: Net, i: nat)
    requires n.Live(i) && n.mode == Low
    ensures exists t: nat :: n.Top(t)
  {
    var t: nat, k: nat := i, 0;
    while k < |n.peers|
      invariant n.Live(t) && 0 <= k <= |n.peers| &&
                forall j :: 0 <= j < k && n.Live(j) ==> n.peers[j].lev >= n.peers[t].lev
    {
      if n.Live(k) && n.peers[k].lev < n.peers[t].lev { t := k; }
      k := k + 1;
    }
    assert n.Top(t);
  }

  /** Each station leaves the object to a top one that has told it that it runs, or is top and runs the object. */
  ghost predicate Settled(n: Net, s: State) {
    s.Fit(n) &&
    forall i: nat :: n.Live(i) ==>
      if n.Top(i) then !s.use[i] else s.use[i] && exists t: nat :: n.Top(t) && s.told[i][t]
  }

  /** Which stations are top: those of the greatest level of all live ones, those of the least one, or the named one,
      and all if that one is not live. */
  lemma TopIff(n: Net, i: nat)
    requires n.Ok() && n.Live(i)
    ensures n.mode == High ==>
              (n.Top(i) <==>
               forall j :: 0 <= j < |n.peers| && n.peers[j].isLive ==> n.peers[j].lev <= n.peers[i].lev)
    ensures n.mode == Low ==>
              (n.Top(i) <==>
               forall j :: 0 <= j < |n.peers| && n.peers[j].isLive ==> n.peers[j].lev >= n.peers[i].lev)
    ensures n.mode.Named? ==>
              (n.Top(i) <==>
               n.peers[i].id == n.mode.st ||
               forall j :: 0 <= j < |n.peers| && n.peers[j].isLive ==> n.peers[j].id != n.mode.st)
  {
    forall j | 0 <= j < |n.peers| && n.peers[j].isLive && j != i
      ensures n.Over(j, i) <==> Beats(n.mode, n.peers[j], n.peers[i].lev)
    {
    }
  }

  /** Then the running stations are the ones of the greatest or the least level, or the named one, and if any station is
      live there is one. */
  lemma SettledRuns(n: Net, s: State, i: nat)
    requires n.Ok() && Settled(n, s) && n.Live(i)
    ensures n.mode == High ==>
              (!s.use[i] <==>
               forall j :: 0 <= j < |n.peers| && n.peers[j].isLive ==> n.peers[j].lev <= n.peers[i].lev)
    ensures n.mode == Low ==>
              (!s.use[i] <==>
               forall j :: 0 <= j < |n.peers| && n.peers[j].isLive ==> n.peers[j].lev >= n.peers[i].lev)
    ensures n.mode.Named? ==>
              (!s.use[i] <==>
               n.peers[i].id == n.mode.st ||
               forall j :: 0 <= j < |n.peers| && n.peers[j].isLive ==> n.peers[j].id != n.mode.st)
    ensures exists t :: 0 <= t < |n.peers| && n.peers[t].isLive && !s.use[t]
  {
    TopIff(n, i);
    SomeTop(n, i);
  }

  /** A top station decides to run and goes on running. */
  lemma TopRuns(n: Net, s: State, a: Action, t: nat)
    requires s.Fit(n) && Enabled(n, s, a) && n.Top(t) && (a == Decide(t) || !s.use[t])
    ensures !Apply(n, s, a).use[t]
  {
  }

  /** A station that was told that a running top station runs is told nothing else. */
  lemma TopIsTold(n: Net, s: State, a: Action, t: nat, i: nat)
    requires s.Fit(n) && Enabled(n, s, a) && n.Top(t) && n.Live(i) && i != t && !s.use[t] &&
             (a == Exchange(i, t) || s.told[i][t])
    ensures Apply(n, s, a).told[i][t]
  {
  }

  /** A station that is not top and was told that a top one runs stops when it decides, and does not run again. */
  lemma OtherStops(n: Net, s: State, a: Action, t: nat, i: nat)
    requires s.Fit(n) && Enabled(n, s, a) && n.Top(t) && n.Live(i) && !n.Top(i) && s.told[i][t] &&
             (a == Decide(i) || s.use[i])
    ensures Apply(n, s, a).use[i]
  {
    TopIsOver(n, t, i);
  }

  lemma SettledIsClosed(n: Net, s: State, a: Action)
    requires Settled(n, s) && Enabled(n, s, a)
    ensures Settled(n, Apply(n, s, a))
  {
    var r := Apply(n, s, a);
    forall i: nat | n.Live(i)
      ensures if n.Top(i) then !r.use[i] else r.use[i] && exists t: nat :: n.Top(t) && r.told[i][t]
    {
      if n.Top(i) {
        TopRuns(n, s, a, i);
      } else {
        var t: nat :| n.Top(t) && s.told[i][t];
        TopIsTold(n, s, a, t, i);
        OtherStops(n, s, a, t, i);
      }
    }
  }

  // ----- convergence -----

  lemma {:induction false} TopKeepsRunning(n: Net, states: seq<State>, acts: seq<Action>, t: nat, a: nat, k: nat)
    requires IsRun(n, states, acts) && n.Top(t) && a < |acts| && acts[a] == Decide(t) && a < k < |states|
    ensures states[k].Fit(n) && !states[k].use[t]
    decreases k
  {
    if k > a + 1 { TopKeepsRunning(n, states, acts, t, a, k - 1); }
    TopRuns(n, states[k - 1], acts[k - 1], t);
  }

  lemma {:induction false} TopKeepsTold(n: Net, states: seq<State>, acts: seq<Action>, t: nat, i: nat, a: nat, b: nat,
                                        k: nat)
    requires IsRun(n, states, acts) && n.Top(t) && n.Live(i) && i != t
    requires a < b < |acts| && acts[a] == Decide(t) && acts[b] == Exchange(i, t) && b < k < |states|
    ensures states[k].Fit(n) && states[k].told[i][t]
    decreases k
  {
    if k > b + 1 { TopKeepsTold(n, states, acts, t, i, a, b, k - 1); }
    TopKeepsRunning(n, states, acts, t, a, k - 1);
    TopIsTold(n, states[k - 1], acts[k - 1], t, i);
  }

  lemma {:induction false} OtherKeepsOff(n: Net, states: seq<State>, acts: seq<Action>, t: nat, i: nat, a: nat, b: nat,
                                         c: nat, k: nat)
    requires IsRun(n, states, acts) && n.Top(t) && n.Live(i) && !n.Top(i) && a < b < c < |acts|
    requires acts[a] == Decide(t) && acts[b] == Exchange(i, t) && acts[c] == Decide(i) && c < k < |states|
    ensures states[k].Fit(n) && states[k].use[i]
    decreases k
  {
    if k > c + 1 { OtherKeepsOff(n, states, acts, t, i, a, b, c, k - 1); }
    TopKeepsTold(n, states, acts, t, i, a, b, k - 1);
    OtherStops(n, states[k - 1], acts[k - 1], t, i);
  }

  /** Station `i` has decided; if it is not top, on what the top station `t` told it after having decided. */
  ghost predicate HasFollowed(n: Net, acts: seq<Action>, t: nat, i: nat) {
    if n.Top(i) then exists c :: 0 <= c < |acts| && acts[c] == Decide(i)
    else exists a, b, c :: 0 <= a < b < c < |acts| && acts[a] == Decide(t) && acts[b] == Exchange(i, t) &&
                           acts[c] == Decide(i)
  }

  /** Whatever the stations ran and were told at first, and whatever steps come between: once a top station has
      decided, and each other station has then asked it and decided, the group is settled. */
  lemma Converges(n: Net, states: seq<State>, acts: seq<Action>, t: nat)
    requires IsRun(n, states, acts) && n.Top(t) && forall i: nat :: n.Live(i) ==> HasFollowed(n, acts, t, i)
    ensures Settled(n, states[|acts|])
    ensures n.Ok() && n.mode == High ==>
              forall i :: 0 <= i < |n.peers| && n.peers[i].isLive ==>
                (!states[|acts|].use[i] <==>
                 forall j :: 0 <= j < |n.peers| && n.peers[j].isLive ==> n.peers[j].lev <= n.peers[i].lev)
    ensures n.Ok() && n.mode == Low ==>
              forall i :: 0 <= i < |n.peers| && n.peers[i].isLive ==>
                (!states[|acts|].use[i] <==>
                 forall j :: 0 <= j < |n.peers| && n.peers[j].isLive ==> n.peers[j].lev >= n.peers[i].lev)
    ensures n.Ok() && n.mode.Named? ==>
              forall i :: 0 <= i < |n.peers| && n.peers[i].isLive ==>
                (!states[|acts|].use[i] <==>
                 n.peers[i].id == n.mode.st ||
                 forall j :: 0 <= j < |n.peers| && n.peers[j].isLive ==> n.peers[j].id != n.mode.st)
  {
    FollowedSettles(n, states, acts, t);
    if n.Ok() {
      forall i | 0 <= i < |n.peers| && n.peers[i].isLive
        ensures n.mode == High ==>
                  (!states[|acts|].use[i] <==>
                   forall j :: 0 <= j < |n.peers| && n.peers[j].isLive ==> n.peers[j].lev <= n.peers[i].lev)
        ensures n.mode == Low ==>
                  (!states[|acts|].use[i] <==>
                   forall j :: 0 <= j < |n.peers| && n.peers[j].isLive ==> n.peers[j].lev >= n.peers[i].lev)
        ensures n.mode.Named? ==>
                  (!states[|acts|].use[i] <==>
                   n.peers[i].id == n.mode.st ||
                   forall j :: 0 <= j < |n.peers| && n.peers[j].isLive ==> n.peers[j].id != n.mode.st)
      {
        SettledRuns(n, states[|acts|], i);
      }
    }
  }

  lemma FollowedSettles(n: Net, states: seq<State>, acts: seq<Action>, t: nat)
    requires IsRun(n, states, acts) && n.Top(t) && forall i: nat :: n.Live(i) ==> HasFollowed(n, acts, t, i)
    ensures Settled(n, states[|acts|])
  {
    var k := |acts|;
    assert n.Live(t) && HasFollowed(n, acts, t, t);
    var s := states[k];
    forall i: nat | n.Live(i)
      ensures s.Fit(n) && if n.Top(i) then !s.use[i] else s.use[i] && s.told[i][t]
    {
      assert HasFollowed(n, acts, t, i);
      if n.Top(i) {
        var c :| 0 <= c < |acts| && acts[c] == Decide(i);
        TopKeepsRunning(n, states, acts, i, c, k);
      } else {
        var a, b, c :| 0 <= a < b < c < |acts| && acts[a] == Decide(t) && acts[b] == Exchange(i, t) &&
                       acts[c] == Decide(i);
        TopKeepsTold(n, states, acts, t, i, a, b, k);
        OtherKeepsOff(n, states, acts, t, i, a, b, c, k);
      }
    }
  }
}
