/** One station of a redundant group: the other stations it knows, what they have told about the objects they serve,
    the planning of its own objects, and requests to the others. Stations are numbered in the order of their names. */
module Redundancy {

  datatype Option<T> = None | Some(value: T)

  datatype Peer = Peer(id: int, isLive: bool, lev: int)

  /** A path leads over stations to a node of the last one. */
  datatype Step = Station(id: int) | Node(name: string)

  datatype Entry = Entry(st: int, objs: map<string, bool>)

  /** Which of the stations that serve an object runs it. */
  datatype Mode = High | Low | Named(st: int)

  /** An object; `use` is set while another station runs it. */
  datatype Obj = Obj(id: string, started: bool, rednt: bool, mode: Mode, use: bool)

  // ----- stations -----

  ghost predicate Ascending(mSt: seq<Peer>) {
    forall i, j :: 0 <= i < j < |mSt| ==> mSt[i].id < mSt[j].id
  }

  ghost predicate IsLive(mSt: seq<Peer>, id: int) {
    exists i :: 0 <= i < |mSt| && mSt[i].id == id && mSt[i].isLive
  }

  /** A request to the station is answered. */
  ghost predicate Reaches(mSt: seq<Peer>, up: int -> bool, id: int) {
    IsLive(mSt, id) && up(id)
  }

  predicate Above(prev: Option<int>, id: int) {
    prev.Some? ==> id > prev.value
  }

  /** The first station above another that is reached. */
  ghost predicate IsNext(mSt: seq<Peer>, up: int -> bool, prev: Option<int>, rez: Option<int>) {
    match rez
    case Some(r) => Reaches(mSt, up, r) && Above(prev, r) &&
                    forall id :: Reaches(mSt, up, id) && Above(prev, id) ==> r <= id
    case None => forall id :: Reaches(mSt, up, id) ==> !Above(prev, id)
  }

  ghost predicate SameReach(a: seq<Peer>, b: seq<Peer>, up: int -> bool) {
    |a| == |b| && (forall i :: 0 <= i < |a| ==> a[i].id == b[i].id) &&
    forall i :: 0 <= i < |a| ==> (a[i].isLive && up(a[i].id) <==> b[i].isLive && up(b[i].id))
  }

  lemma SameReaches(a: seq<Peer>, b: seq<Peer>, up: int -> bool, id: int)
    requires SameReach(a, b, up)
    ensures Reaches(a, up, id) <==> Reaches(b, up, id)
  {
    if Reaches(a, up, id) {
      var i :| 0 <= i < |a| && a[i].id == id && a[i].isLive;
      assert b[i].id == id && b[i].isLive;
    }
    if Reaches(b, up, id) {
      var i :| 0 <= i < |b| && b[i].id == id && b[i].isLive;
      assert a[i].id == id && a[i].isLive;
    }
  }

  /** The stations after a request that was answered by `rez`, or by none: those asked before that did not answer are
      taken for dead. */
  function Marked(mSt: seq<Peer>, up: int -> bool, prev: Option<int>, rez: Option<int>): (r: seq<Peer>)
    ensures SameReach(mSt, r, up)
  {
    seq(|mSt|, i requires 0 <= i < |mSt| => MarkedOne(mSt[i], up, prev, rez))
  }

  function MarkedOne(p: Peer, up: int -> bool, prev: Option<int>, rez: Option<int>): Peer {
    if p.isLive && !up(p.id) && Above(prev, p.id) && (rez.Some? ==> p.id < rez.value) then Peer(p.id, false, 0) else p
  }

  /** The first `i` stations have been gone through, and none has answered. */
  ghost predicate Scanned(was: seq<Peer>, now: seq<Peer>, i: nat, prev: Option<int>, prevPresent: bool,
                          up: int -> bool) {
    Ascending(was) && |now| == |was| && i <= |was| && (forall k :: i <= k < |was| ==> now[k] == was[k]) &&
    (prev.Some? ==> (prevPresent <==> exists k :: 0 <= k < i && was[k].id == prev.value && was[k].isLive)) &&
    forall k :: 0 <= k < i ==>
                  if prev.Some? && (!prevPresent || was[k].id <= prev.value) then now[k] == was[k]
                  else now[k] == MarkedOne(was[k], up, None, None) && !(was[k].isLive && up(was[k].id))
  }

  lemma ScanSkip(was: seq<Peer>, now: seq<Peer>, i: nat, prev: Option<int>, prevPresent: bool, up: int -> bool)
    requires i < |was| && Scanned(was, now, i, prev, prevPresent, up) && (was[i].isLive ==> prev.Some? && !prevPresent)
    ensures Scanned(was, now, i + 1, prev, prevPresent || (was[i].isLive && was[i].id == prev.value), up)
  {
    assert prev.Some? && was[i].isLive && was[i].id == prev.value ==> forall k :: 0 <= k < i ==> was[k].id < prev.value;
  }

  lemma ScanMark(was: seq<Peer>, now: seq<Peer>, i: nat, prev: Option<int>, prevPresent: bool, up: int -> bool)
    requires i < |was| && Scanned(was, now, i, prev, prevPresent, up)
    requires was[i].isLive && !(prev.Some? && !prevPresent) && !up(was[i].id)
    ensures Scanned(was, now[i := Peer(was[i].id, false, 0)], i + 1, prev, prevPresent, up)
  {
  }

  lemma ScanFound(was: seq<Peer>, now: seq<Peer>, i: nat, prev: Option<int>, prevPresent: bool, up: int -> bool)
    requires i < |was| && Scanned(was, now, i, prev, prevPresent, up)
    requires was[i].isLive && !(prev.Some? && !prevPresent) && up(was[i].id)
    ensures (prev.Some? ==> IsLive(was, prev.value)) && IsNext(was, up, prev, Some(was[i].id))
    ensures now == Marked(was, up, prev, Some(was[i].id))
  {
  }

  lemma ScanEnd(was: seq<Peer>, now: seq<Peer>, prev: Option<int>, prevPresent: bool, up: int -> bool)
    requires Scanned(was, now, |was|, prev, prevPresent, up)
    ensures if prev.Some? && !IsLive(was, prev.value) then now == was
            else IsNext(was, up, prev, None) && now == Marked(was, up, prev, None)
  {
  }

  /** Two requests of a scan mark as one that goes on. */
  lemma MarkedOn(mSt: seq<Peer>, up: int -> bool, a: int, rez: Option<int>)
    requires Reaches(mSt, up, a) && Ascending(mSt) && (rez.Some? ==> a < rez.value)
    ensures Marked(Marked(mSt, up, None, Some(a)), up, Some(a), rez) == Marked(mSt, up, None, rez)
  {
    var i :| 0 <= i < |mSt| && mSt[i].id == a && mSt[i].isLive;
    assert forall k :: 0 <= k < |mSt| && mSt[k].id == a ==> k == i;
  }

  /** A request and the path it is to go; sending it changes the path. */
  class Req {
    var path: seq<Step>

    constructor (path: seq<Step>)
      ensures this.path == path
    {
      this.path := path;
    }

    /** The sending to the station that the path begins with, which gets the request with the path behind itself. The
        path is put back when there is an answer. */
    method Send(up: int -> bool) returns (ok: bool, got: seq<Step>)
      requires |path| > 0 && path[0].Station?
      modifies this
      ensures ok <==> up(old(path)[0].id)
      ensures path == if ok then old(path) else old(path)[1..]
      ensures got == old(path)[1..]
    {
      var was := path;
      path := path[1..];
      got := path;
      ok := up(was[0].id);
      if ok { path := was; }
    }
  }

  /** The path that requests to stations, one after another, have left before it: none of them is taken off again. */
  function Behind(sent: seq<int>): (r: seq<Step>)
    ensures |r| == |sent| && forall i :: 0 <= i < |sent| ==> r[i] == Station(sent[|sent| - 1 - i])
  {
    if |sent| == 0 then [] else [Station(sent[|sent| - 1])] + Behind(sent[..|sent| - 1])
  }

  lemma BehindNext(sent: seq<int>, id: int)
    ensures Behind(sent + [id]) == [Station(id)] + Behind(sent)
  {
    assert (sent + [id])[..|sent|] == sent;
  }

  /** What each station got: the request with the path that those before it have left. */
  ghost predicate GotBehind(sent: seq<int>, got: seq<seq<Step>>, path: seq<Step>) {
    |got| == |sent| && forall i :: 0 <= i < |sent| ==> got[i] == Behind(sent[..i]) + path
  }

  lemma GotNext(sent: seq<int>, got: seq<seq<Step>>, path: seq<Step>, id: int, now: seq<Step>)
    requires GotBehind(sent, got, path) && now == [Station(id)] + (Behind(sent) + path)
    ensures GotBehind(sent + [id], got + [now[1..]], path) && now == Behind(sent + [id]) + path
  {
    BehindNext(sent, id);
    var s, g := sent + [id], got + [now[1..]];
    forall i | 0 <= i < |s| ensures g[i] == Behind(s[..i]) + path {
      assert s[..i] == sent[..i];
      assert sent[..|sent|] == sent;
    }
  }

  class Stations {
    var mSt: seq<Peer>

    ghost predicate Valid()
      reads this
    {
      Ascending(mSt)
    }

    /** A request to the first live station that answers; only in a scan does it start after a station, which must be
        live then. A station that does not answer is taken for dead. The name of the station that answers stays in
        front of the path. */
    method Request(req: Req, st: Option<int>, toScan: bool, up: int -> bool) returns (rez: Option<int>)
      requires Valid()
      modifies this, req
      ensures Valid() && req.path == (if rez.Some? then [Station(rez.value)] + old(req.path) else old(req.path))
      ensures if toScan && st.Some? && !IsLive(old(mSt), st.value) then rez == None && mSt == old(mSt)
              else var prev := if toScan then st else None;
                   IsNext(old(mSt), up, prev, rez) && mSt == Marked(old(mSt), up, prev, rez)
      // Nothing of the stations changes but that those that were asked before and did not answer are dead, without a
      // level.
      ensures |mSt| == |old(mSt)| &&
              forall i :: 0 <= i < |mSt| ==>
                if old(mSt)[i].isLive && !up(old(mSt)[i].id) && (rez.Some? ==> old(mSt)[i].id < rez.value) &&
                   (toScan && st.Some? ==> IsLive(old(mSt), st.value) && old(mSt)[i].id > st.value)
                then mSt[i] == Peer(old(mSt)[i].id, false, 0) else mSt[i] == old(mSt)[i]
    {
      rez := Seek(req, st, toScan, up);
    }

    method Seek(req: Req, st: Option<int>, toScan: bool, up: int -> bool) returns (rez: Option<int>)
      requires Valid()
      modifies this, req
      ensures Valid() && req.path == Left(old(req.path), rez)
      ensures if toScan && st.Some? && !IsLive(old(mSt), st.value) then rez == None && mSt == old(mSt)
              else var prev := if toScan then st else None;
                   IsNext(old(mSt), up, prev, rez) && mSt == Marked(old(mSt), up, prev, rez)
    {
      rez := None;
      ghost var was := mSt;
      var lcPath := req.path;
      var prev := if toScan then st else None;
      var i, prevPresent := 0, false;
      while i < |mSt|
        invariant i <= |mSt| && rez == None && Scanned(was, mSt, i, prev, prevPresent, up) && req.path == lcPath
      {
        if mSt[i].isLive && !(prev.Some? && !prevPresent) {
          req.path := [Station(mSt[i].id)] + lcPath;
          var ok, got := req.Send(up);
          if ok {
            ScanFound(was, mSt, i, prev, prevPresent, up);
            return Some(mSt[i].id);
          }
          ScanMark(was, mSt, i, prev, prevPresent, up);
          mSt := mSt[i := Peer(mSt[i].id, false, 0)];
        } else {
          ScanSkip(was, mSt, i, prev, prevPresent, up);
          if mSt[i].isLive && mSt[i].id == prev.value { prevPresent := true; }
        }
        i := i + 1;
      }
      ScanEnd(was, mSt, prev, prevPresent, up);
    }

    /** A scan: a request goes to each live station that answers, once, but to every one with the names of those before
        it in its path. */
    method ScanAll(req: Req, up: int -> bool) returns (sent: seq<int>, got: seq<seq<Step>>)
      requires Valid()
      modifies this, req
      ensures Valid() && mSt == Marked(old(mSt), up, None, None)
      ensures IsScan(old(mSt), up, old(req.path), sent, got)
    {
      ghost var was, path := mSt, req.path;
      sent, got := [], [];
      var lstStat := Request(req, None, true, up);
      while lstStat.Some?
        invariant mSt == Marked(was, up, None, lstStat) && SentBefore(was, up, sent, lstStat)
        invariant GotBehind(sent, got, path) && req.path == Left(Behind(sent) + path, lstStat)
        decreases lstStat.Some?, if lstStat.Some? then |was| - Place(was, lstStat.value) else 0
      {
        var prev := lstStat.value;
        ghost var now := mSt;
        SameReaches(was, now, up, prev);
        GotNext(sent, got, path, prev, req.path);
        got := got + [req.path[1..]];
        lstStat := Request(req, lstStat, true, up);
        SameNext(was, now, up, Some(prev), lstStat);
        MarkedOn(was, up, prev, lstStat);
        SentOn(was, up, sent, prev, lstStat);
        sent := sent + [prev];
      }
    }
  }

  /** The path after a request that was answered by `rez`, or by none. */
  function Left(path: seq<Step>, rez: Option<int>): seq<Step> {
    if rez.Some? then [Station(rez.value)] + path else path
  }

  ghost predicate IsScan(mSt: seq<Peer>, up: int -> bool, path: seq<Step>, sent: seq<int>, got: seq<seq<Step>>) {
    Rising(sent) && (forall id :: id in sent <==> Reaches(mSt, up, id)) && GotBehind(sent, got, path)
  }

  /** The station got the request with the path that it was meant with. */
  ghost predicate Got(sent: seq<int>, got: seq<seq<Step>>, path: seq<Step>, id: int) {
    exists i :: 0 <= i < |sent| && i < |got| && sent[i] == id && got[i] == path
  }

  /** A scan brings the request to its node on every station that answers exactly if not more than one does. */
  lemma ScanIsRightIff(mSt: seq<Peer>, up: int -> bool, path: seq<Step>, sent: seq<int>, got: seq<seq<Step>>)
    requires IsScan(mSt, up, path, sent, got)
    ensures (forall id :: Reaches(mSt, up, id) ==> Got(sent, got, path, id)) <==>
            forall a, b :: Reaches(mSt, up, a) && Reaches(mSt, up, b) ==> a == b
  {
    forall id | Got(sent, got, path, id) ensures |sent| > 0 && id == sent[0] {
      var i :| 0 <= i < |sent| && sent[i] == id && got[i] == path;
      assert |got[i]| == i + |path|;
    }
    if |sent| > 0 {
      assert sent[0] in sent && got[0] == path;
      assert Got(sent, got, path, sent[0]);
    }
  }

  /** The request went to all stations reached before the next one, in order. */
  ghost predicate SentBefore(mSt: seq<Peer>, up: int -> bool, sent: seq<int>, next: Option<int>) {
    Ascending(mSt) && Rising(sent) && (next.Some? ==> Reaches(mSt, up, next.value)) &&
    forall id :: id in sent <==> Reaches(mSt, up, id) && (next.Some? ==> id < next.value)
  }

  lemma SentOn(mSt: seq<Peer>, up: int -> bool, sent: seq<int>, prev: int, next: Option<int>)
    requires SentBefore(mSt, up, sent, Some(prev)) && IsNext(mSt, up, Some(prev), next)
    ensures SentBefore(mSt, up, sent + [prev], next)
    ensures next.Some? ==> Place(mSt, prev) < Place(mSt, next.value)
  {
    if next.Some? { PlaceRises(mSt, prev, next.value); }
    forall i | 0 <= i < |sent| ensures sent[i] < prev { assert sent[i] in sent; }
  }

  ghost predicate Rising(s: seq<int>) {
    forall i, j :: 0 <= i < j < |s| ==> s[i] < s[j]
  }

  ghost function Place(mSt: seq<Peer>, id: int): (i: nat)
    requires IsLive(mSt, id)
    ensures i < |mSt| && mSt[i].id == id
  {
    var i :| 0 <= i < |mSt| && mSt[i].id == id && mSt[i].isLive;
    i
  }

  lemma PlaceRises(mSt: seq<Peer>, a: int, b: int)
    requires Ascending(mSt) && IsLive(mSt, a) && IsLive(mSt, b) && a < b
    ensures Place(mSt, a) < Place(mSt, b)
  {
  }

  // ----- objects -----

  ghost predicate Sorted(mRd: seq<Entry>) {
    forall i, j :: 0 <= i < j < |mRd| ==> mRd[i].st < mRd[j].st
  }

  /** What a station has told; a station that has told nothing and one without an entry are the same. */
  ghost function Known(mRd: seq<Entry>, st: int): map<string, bool> {
    if exists i :: 0 <= i < |mRd| && mRd[i].st == st then
      var i :| 0 <= i < |mRd| && mRd[i].st == st;
      mRd[i].objs
    else map[]
  }

  /** The station has told that it runs the object. */
  ghost predicate ToldRun(mRd: seq<Entry>, st: int, obj: string) {
    obj in Known(mRd, st) && Known(mRd, st)[obj]
  }

  lemma KnownAt(mRd: seq<Entry>, i: nat)
    requires Sorted(mRd) && i < |mRd|
    ensures Known(mRd, mRd[i].st) == mRd[i].objs
  {
  }

  /** The peer has the preference over a station of the level `lev`. */
  predicate Beats(mode: Mode, p: Peer, lev: int) {
    match mode
    case High => p.lev > lev
    case Low => p.lev < lev
    case Named(st) => p.id == st
  }

  /** A live station that has the preference is known to run the object. */
  ghost predicate Yields(mode: Mode, lev: int, sts: seq<Peer>, mRd: seq<Entry>, obj: string) {
    exists i :: 0 <= i < |sts| && sts[i].isLive && Beats(mode, sts[i], lev) && ToldRun(mRd, sts[i].id, obj)
  }

  /** The object after planning. */
  ghost function Planned(o: Obj, lev: int, sts: seq<Peer>, mRd: seq<Entry>): Obj {
    if !o.started then o else o.(use := o.rednt && Yields(o.mode, lev, sts, mRd, o.id))
  }

  ghost predicate SameKnown(a: seq<Entry>, b: seq<Entry>) {
    forall st :: Known(a, st) == Known(b, st)
  }

  class Objects {
    const sys: Stations
    var rdLevel: int
    var mRd: seq<Entry>
    var objs: seq<Obj>

    ghost predicate Valid()
      reads this, sys
    {
      sys.Valid() && Sorted(mRd) && forall i, j :: 0 <= i < j < |objs| ==> objs[i].id != objs[j].id
    }

    constructor (sys: Stations, rdLevel: int, objs: seq<Obj>)
      requires sys.Valid() && forall i, j :: 0 <= i < j < |objs| ==> objs[i].id != objs[j].id
      ensures Valid() && this.sys == sys && this.rdLevel == rdLevel && this.objs == objs && mRd == []
    {
      this.sys, this.rdLevel, this.objs, mRd := sys, rdLevel, objs, [];
    }

    /** The place of a station's entry; a missing one is made. */
    method At(st: int) returns (i: nat)
      requires Valid()
      modifies this`mRd
      ensures Valid() && i < |mRd| && mRd[i].st == st && mRd[i].objs == Known(old(mRd), st)
      ensures SameKnown(old(mRd), mRd)
    {
      ghost var was := mRd;
      i := 0;
      while i < |mRd| && mRd[i].st < st
        invariant 0 <= i <= |mRd| && forall k :: 0 <= k < i ==> mRd[k].st < st
      {
        i := i + 1;
      }
      if i == |mRd| || mRd[i].st != st {
        mRd := mRd[..i] + [Entry(st, map[])] + mRd[i..];
        InsertedKnown(was, i, st);
      } else {
        KnownAt(mRd, i);
      }
    }

    /** The reply of a station takes the place of what it told before. */
    method Receive(st: int, reply: map<string, bool>)
      requires Valid()
      modifies this`mRd
      ensures Valid() && forall t :: Known(mRd, t) == if t == st then reply else Known(old(mRd), t)
    {
      var i := At(st);
      ghost var was := mRd;
      mRd := mRd[i := Entry(st, reply)];
      forall t ensures Known(mRd, t) == if t == st then reply else Known(was, t) { UpdatedKnown(was, i, reply, t); }
    }

    /** What this station tells: the started objects, and which of them it runs. */
    method State() returns (reply: map<string, bool>)
      ensures forall i :: 0 <= i < |objs| && objs[i].started ==> objs[i].id in reply
      ensures forall id :: id in reply ==> exists i :: 0 <= i < |objs| && objs[i].started && objs[i].id == id
      ensures forall id :: id in reply ==>
                (reply[id] <==> exists i :: 0 <= i < |objs| && objs[i].started && objs[i].id == id && !objs[i].use)
    {
      reply := map[];
      var i := 0;
      while i < |objs|
        invariant 0 <= i <= |objs|
        invariant forall k :: 0 <= k < i && objs[k].started ==> objs[k].id in reply
        invariant forall id :: id in reply ==> !reply[id] &&
                                               exists k :: 0 <= k < i && objs[k].started && objs[k].id == id
      {
        if objs[i].started { reply := reply[objs[i].id := false]; }
        i := i + 1;
      }
      i := 0;
      ghost var all := reply.Keys;
      while i < |objs|
        invariant 0 <= i <= |objs| && reply.Keys == all
        invariant forall id :: id in reply ==>
                    (reply[id] <==> exists k :: 0 <= k < i && objs[k].started && objs[k].id == id && !objs[k].use)
      {
        if objs[i].started && !objs[i].use { reply := reply[objs[i].id := true]; }
        i := i + 1;
      }
    }

    /** One exchange: another station is asked for its state. */
    method Exchange(other: Objects, st: int)
      requires Valid() && other != this && other.Valid()
      modifies this`mRd
      ensures Valid() && forall t, obj :: ToldRun(mRd, t, obj) <==>
                if t == st then exists i :: 0 <= i < |other.objs| && other.objs[i].started && other.objs[i].id == obj &&
                                            !other.objs[i].use
                else ToldRun(old(mRd), t, obj)
    {
      ghost var was := mRd;
      var reply := other.State();
      Receive(st, reply);
      forall t, obj
        ensures ToldRun(mRd, t, obj) <==> if t == st then obj in reply && reply[obj] else ToldRun(was, t, obj)
      {
      }
    }

    /** The planning of all started objects. */
    method Plan()
      requires Valid()
      modifies this`mRd, this`objs
      ensures Valid() && SameKnown(old(mRd), mRd)
      ensures |objs| == |old(objs)| &&
              forall i :: 0 <= i < |objs| ==> objs[i] == Planned(old(objs)[i], rdLevel, sys.mSt, old(mRd))
      // Only the use of started objects is set, to none for one that is not redundant.
      ensures forall i :: 0 <= i < |objs| ==>
                objs[i] == old(objs)[i].(use := objs[i].use) && (!objs[i].started ==> objs[i] == old(objs)[i]) &&
                (objs[i].started && !objs[i].rednt ==> !objs[i].use)
      // Another station runs the object if a live one of a higher level, of a lower one, or of the name, has told so.
      ensures forall i :: 0 <= i < |objs| && objs[i].started && objs[i].rednt && objs[i].mode == High ==>
                (objs[i].use <==> exists k :: 0 <= k < |sys.mSt| && sys.mSt[k].isLive && sys.mSt[k].lev > rdLevel &&
                                              ToldRun(old(mRd), sys.mSt[k].id, objs[i].id))
      ensures forall i :: 0 <= i < |objs| && objs[i].started && objs[i].rednt && objs[i].mode == Low ==>
                (objs[i].use <==> exists k :: 0 <= k < |sys.mSt| && sys.mSt[k].isLive && sys.mSt[k].lev < rdLevel &&
                                              ToldRun(old(mRd), sys.mSt[k].id, objs[i].id))
      ensures forall i :: 0 <= i < |objs| && objs[i].started && objs[i].rednt && objs[i].mode.Named? ==>
                (objs[i].use <==> exists k :: 0 <= k < |sys.mSt| && sys.mSt[k].isLive &&
                                              sys.mSt[k].id == objs[i].mode.st &&
                                              ToldRun(old(mRd), sys.mSt[k].id, objs[i].id))
    {
      ghost var before, told := objs, mRd;
      PlanAll();
      forall i | 0 <= i < |objs| ensures objs[i] == Planned(before[i], rdLevel, sys.mSt, told) {}
    }

    method PlanAll()
      requires Valid()
      modifies this`mRd, this`objs
      ensures Valid() && SameKnown(old(mRd), mRd)
      ensures |objs| == |old(objs)| &&
              forall i :: 0 <= i < |objs| ==> objs[i] == Planned(old(objs)[i], rdLevel, sys.mSt, old(mRd))
    {
      var iC := 0;
      ghost var was, known := objs, mRd;
      while iC < |objs|
        invariant 0 <= iC <= |objs| == |was| && Valid() && SameKnown(known, mRd)
        invariant forall i :: 0 <= i < |objs| ==>
                                objs[i] == if i < iC then Planned(was[i], rdLevel, sys.mSt, known) else was[i]
      {
        var o := objs[iC];
        if o.started {
          var use := false;
          if o.rednt {
            match o.mode {
              case High => use := PlanLevel(o.id, true);
              case Low => use := PlanLevel(o.id, false);
              case Named(st) => use := PlanNamed(o.id, st);
            }
            assert use == Yields(o.mode, rdLevel, sys.mSt, known, o.id);
          }
          objs := objs[iC := o.(use := use)];
        }
        iC := iC + 1;
      }
    }

    /** The working level is the greatest, or the least, of the levels of this station and of the live ones that run
        the object. */
    method PlanLevel(id: string, high: bool) returns (use: bool)
      requires Valid()
      modifies this`mRd
      ensures Valid() && SameKnown(old(mRd), mRd)
      ensures use <==> exists k :: 0 <= k < |sys.mSt| && sys.mSt[k].isLive &&
                                   (if high then sys.mSt[k].lev > rdLevel else sys.mSt[k].lev < rdLevel) &&
                                   ToldRun(old(mRd), sys.mSt[k].id, id)
    {
      var wLev, i := rdLevel, 0;
      var sts := sys.mSt;
      ghost var was := mRd;
      while i < |sts|
        invariant 0 <= i <= |sts| && Valid() && SameKnown(was, mRd)
        invariant if high then wLev >= rdLevel else wLev <= rdLevel
        invariant forall k :: 0 <= k < i && sts[k].isLive && ToldRun(was, sts[k].id, id) ==>
                    if high then sts[k].lev <= wLev else sts[k].lev >= wLev
        invariant wLev != rdLevel ==> exists k :: 0 <= k < i && sts[k].isLive && ToldRun(was, sts[k].id, id) &&
                                                  sts[k].lev == wLev
      {
        if sts[i].isLive {
          var k := At(sts[i].id);
          if id in mRd[k].objs && mRd[k].objs[id] &&
          (if high then sts[i].lev > wLev else sts[i].lev < wLev) { wLev := sts[i].lev; }
        }
        i := i + 1;
      }
      use := if high then rdLevel < wLev else rdLevel > wLev;
    }

    method PlanNamed(id: string, st: int) returns (use: bool)
      requires Valid()
      modifies this`mRd
      ensures Valid() && SameKnown(old(mRd), mRd)
      ensures use <==> exists k :: 0 <= k < |sys.mSt| && sys.mSt[k].isLive && sys.mSt[k].id == st &&
                                   ToldRun(old(mRd), sys.mSt[k].id, id)
    {
      var sts, i := sys.mSt, 0;
      ghost var was := mRd;
      while i < |sts|
        invariant 0 <= i <= |sts| && Valid() && SameKnown(was, mRd)
        invariant forall k :: 0 <= k < i && sts[k].isLive && ToldRun(was, sts[k].id, id) ==> sts[k].id != st
      {
        if sts[i].isLive {
          var k := At(sts[i].id);
          if id in mRd[k].objs && mRd[k].objs[id] && sts[i].id == st { break; }
        }
        i := i + 1;
      }
      use := i < |sts|;
    }

    /** A request for an object to the first station after `prevSt` that serves it, or only to one that runs it. */
    method Request(req: Req, obj: string, prevSt: Option<int>, toRun: bool, up: int -> bool) returns (rez: Option<int>)
      requires Valid()
      modifies this`mRd, this`objs, sys, req
      ensures req.path == Left(old(req.path), rez)
      ensures Valid() && SameReach(old(sys.mSt), sys.mSt, up)
      ensures Requested(old(sys.mSt), up, old(mRd), obj, prevSt, toRun, rez, mRd)
      ensures Asking(old(sys.mSt), up, old(mRd), |old(mRd)|, obj, prevSt, toRun, rez, sys.mSt)
      // Nothing of the objects changes but that one that nobody answers for is not left to others any more.
      ensures |objs| == |old(objs)| &&
              forall i :: 0 <= i < |objs| ==>
                objs[i] == old(objs)[i].(use := old(objs)[i].use && !(rez == None && prevSt == None &&
                                                                      objs[i].id == obj))
      // Only stations that have told that they serve the object, or run it if it is to be run, are asked and forgotten.
      ensures rez.Some? ==> exists k :: 0 <= k < |old(mRd)| && obj in old(mRd)[k].objs &&
                                        (toRun ==> old(mRd)[k].objs[obj])
      ensures forall e :: e in mRd ==> e in old(mRd)
      ensures forall e :: e in old(mRd) && !(obj in e.objs && (toRun ==> e.objs[obj])) ==> e in mRd
      ensures prevSt == None && (exists id :: Reaches(old(sys.mSt), up, id)) ==>
                (rez.Some? <==> exists k :: 0 <= k < |old(mRd)| && obj in old(mRd)[k].objs &&
                                            (toRun ==> old(mRd)[k].objs[obj]))
    {
      ghost var mSt, was := sys.mSt, mRd;
      rez := Ask(req, obj, prevSt, toRun, up);
      RequestedSeen(mSt, up, was, obj, prevSt, toRun, rez, mRd);
      if rez.None? && prevSt.None? { objs := TakenOver(objs, obj); }
    }

    method Ask(req: Req, obj: string, prevSt: Option<int>, toRun: bool, up: int -> bool) returns (rez: Option<int>)
      requires sys.Valid() && Sorted(mRd)
      modifies this`mRd, sys, req
      ensures sys.Valid() && Sorted(mRd) && req.path == Left(old(req.path), rez)
      ensures Requested(old(sys.mSt), up, old(mRd), obj, prevSt, toRun, rez, mRd)
      ensures Asking(old(sys.mSt), up, old(mRd), |old(mRd)|, obj, prevSt, toRun, rez, sys.mSt)
    {
      var sts, i, prevPresent := mRd, 0, false;
      ghost var mSt := sys.mSt;
      while i < |sts|
        invariant 0 <= i <= |sts| && sys.Valid() && Asking(mSt, up, sts, i, obj, prevSt, toRun, None, sys.mSt) &&
                  Sorted(mRd) && req.path == old(req.path)
        invariant prevPresent <==> prevSt.Some? && Passed(sts, i, obj, prevSt.value, toRun)
        invariant Tried(mSt, up, sts, i, obj, prevSt, toRun, mRd)
      {
        rez, prevPresent := AskNext(req, mSt, sts, i, obj, prevSt, prevPresent, toRun, up);
        if rez.Some? {
          AskedSoFar(sts, i, obj, prevSt, toRun);
          return;
        }
        i := i + 1;
      }
      rez := None;
    }

    method AskNext(req: Req, ghost mSt: seq<Peer>, sts: seq<Entry>, i: nat, obj: string, prevSt: Option<int>,
                   prevPresent: bool, toRun: bool, up: int -> bool)
      returns (rez: Option<int>, present: bool)
      requires sys.Valid() && Sorted(sts) && Sorted(mRd)
      requires i < |sts| && Tried(mSt, up, sts, i, obj, prevSt, toRun, mRd)
      requires Asking(mSt, up, sts, i, obj, prevSt, toRun, None, sys.mSt)
      requires prevPresent <==> prevSt.Some? && Passed(sts, i, obj, prevSt.value, toRun)
      modifies this`mRd, sys, req
      ensures req.path == Left(old(req.path), rez)
      ensures sys.Valid() && Sorted(mRd) && Asking(mSt, up, sts, i + 1, obj, prevSt, toRun, rez, sys.mSt)
      ensures present <==> prevSt.Some? && Passed(sts, i + 1, obj, prevSt.value, toRun)
      ensures rez.Some? ==> AnyAsked(sts, i + 1, obj, prevSt, toRun) &&
                            Requested(mSt, up, sts, obj, prevSt, toRun, rez, mRd)
      ensures rez.None? ==> Tried(mSt, up, sts, i + 1, obj, prevSt, toRun, mRd)
    {
      rez, present := None, prevPresent;
      if prevSt.Some? { PassedNext(sts, i, obj, prevSt.value, toRun); }
      if Holds(sts[i], obj, toRun) && !(prevSt.Some? && !prevPresent) {
        rez := AskOne(req, mSt, sts, i, obj, prevSt, toRun, up);
      } else {
        TriedSkip(mSt, up, sts, i, obj, prevSt, toRun, mRd);
        if Holds(sts[i], obj, toRun) && sts[i].st == prevSt.value { present := true; }
      }
    }

    method AskOne(req: Req, ghost mSt: seq<Peer>, sts: seq<Entry>, i: nat, obj: string, prevSt: Option<int>,
                  toRun: bool, up: int -> bool)
      returns (rez: Option<int>)
      requires sys.Valid() && Sorted(sts) && Sorted(mRd)
      requires i < |sts| && Tried(mSt, up, sts, i, obj, prevSt, toRun, mRd) && Asked(sts, i, obj, prevSt, toRun)
      requires Asking(mSt, up, sts, i, obj, prevSt, toRun, None, sys.mSt)
      modifies this`mRd, sys, req
      ensures req.path == Left(old(req.path), rez)
      ensures sys.Valid() && Sorted(mRd) && Asking(mSt, up, sts, i + 1, obj, prevSt, toRun, rez, sys.mSt)
      ensures rez.Some? ==> AnyAsked(sts, i + 1, obj, prevSt, toRun) &&
                            Requested(mSt, up, sts, obj, prevSt, toRun, rez, mRd)
      ensures rez.None? ==> Tried(mSt, up, sts, i + 1, obj, prevSt, toRun, mRd)
    {
      ghost var now := sys.mSt;
      rez := sys.Request(req, Some(sts[i].st), false, up);
      TriedOne(mSt, now, up, sts, i, obj, prevSt, toRun, mRd, rez);
      if rez.None? { mRd := Erased(mRd, sts[i].st); }
    }

    /** The sending of a request to all stations that serve an object, at most `rounds` times: after each answer the
        next station is asked for. */
    method FanOut(req: Req, obj: string, rounds: nat, up: int -> bool)
        returns (sent: seq<int>, got: seq<seq<Step>>, ended: bool)
      requires Valid()
      modifies this`mRd, this`objs, sys, req
      ensures Valid() && Outcome(old(sys.mSt), up, old(mRd), obj, rounds, _ => true, sent, ended)
      ensures GotBehind(sent, got, old(req.path))
    {
      ghost var mSt, was, path := sys.mSt, mRd, req.path;
      sent, got, ended := [], [], false;
      var lstStat := Begin(req, obj, up, _ => true, rounds);
      ghost var first := lstStat;
      while lstStat.Some? && |sent| < rounds
        invariant Valid() && SendingOn(mSt, sys.mSt, up, was, mRd, obj, rounds, _ => true, first, sent, lstStat)
        invariant GotBehind(sent, got, path) && req.path == Left(Behind(sent) + path, lstStat)
        decreases rounds - |sent|
      {
        GotNext(sent, got, path, lstStat.value, req.path);
        got := got + [req.path[1..]];
        ghost var pre := sent;
        sent := sent + [lstStat.value];
        lstStat := Next(req, obj, lstStat.value, up, _ => true, mSt, was, rounds, first, pre);
      }
      ended := lstStat.None?;
      SentOut(mSt, sys.mSt, up, was, mRd, obj, rounds, _ => true, first, sent, lstStat);
    }

    /** The gathering of missing values from the stations that serve an object, at most `rounds` times: after each reply
        that is taken for incomplete the next station is asked for, by a request made anew. */
    method Gather(path: seq<Step>, obj: string, rounds: nat, up: int -> bool, incomplete: int -> bool)
        returns (sent: seq<int>, got: seq<seq<Step>>, ended: bool)
      requires Valid()
      modifies this`mRd, this`objs, sys
      ensures Valid() && Outcome(old(sys.mSt), up, old(mRd), obj, rounds, incomplete, sent, ended)
      ensures |got| == |sent| && forall i :: 0 <= i < |got| ==> got[i] == path
    {
      ghost var mSt, was := sys.mSt, mRd;
      sent, got, ended := [], [], false;
      var req := new Req(path);
      var lstStat := Begin(req, obj, up, incomplete, rounds);
      ghost var first := lstStat;
      while lstStat.Some? && |sent| < rounds
        invariant Valid() && SendingOn(mSt, sys.mSt, up, was, mRd, obj, rounds, incomplete, first, sent, lstStat)
        invariant |got| == |sent| && (forall i :: 0 <= i < |got| ==> got[i] == path)
        invariant fresh(req) && req.path == Left(path, lstStat)
        decreases rounds - |sent|
      {
        ghost var pre := sent;
        sent, got := sent + [lstStat.value], got + [req.path[1..]];
        if !incomplete(lstStat.value) {
          SentEnough(mSt, up, was, obj, rounds, incomplete, sent, first);
          return sent, got, true;
        }
        req.path := path;
        lstStat := Next(req, obj, lstStat.value, up, incomplete, mSt, was, rounds, first, pre);
      }
      ended := lstStat.None?;
      SentOut(mSt, sys.mSt, up, was, mRd, obj, rounds, incomplete, first, sent, lstStat);
    }

    method Begin(req: Req, obj: string, up: int -> bool, ghost more: int -> bool, ghost rounds: nat)
        returns (first: Option<int>)
      requires Valid()
      modifies this`mRd, this`objs, sys, req
      ensures Valid() && req.path == Left(old(req.path), first)
      ensures SendingOn(old(sys.mSt), sys.mSt, up, old(mRd), mRd, obj, rounds, more, first, [], first)
    {
      first := Request(req, obj, None, false, up);
    }

    /** One round of the sending to all. */
    method Next(req: Req, obj: string, f: int, up: int -> bool, ghost more: int -> bool, ghost mSt: seq<Peer>,
                ghost was: seq<Entry>, ghost rounds: nat, ghost first: Option<int>, ghost sent: seq<int>)
        returns (next: Option<int>)
      requires Valid() && SendingOn(mSt, sys.mSt, up, was, mRd, obj, rounds, more, first, sent, Some(f))
      requires |sent| < rounds && more(f)
      modifies this`mRd, this`objs, sys, req
      ensures Valid() && SendingOn(mSt, sys.mSt, up, was, mRd, obj, rounds, more, first, sent + [f], next)
      ensures req.path == Left(old(req.path), next)
    {
      next := Again(req, obj, f, up, mSt);
    }

    /** After the first station that answers the next one is asked for: the first one answers again. */
    method Again(req: Req, obj: string, f: int, up: int -> bool, ghost mSt: seq<Peer>) returns (lstStat: Option<int>)
      requires Valid() && SameReach(mSt, sys.mSt, up) && IsNext(mSt, up, None, Some(f))
      modifies this`mRd, this`objs, sys, req
      ensures Valid() && SameReach(mSt, sys.mSt, up) && mRd == old(mRd) && req.path == Left(old(req.path), lstStat)
      ensures lstStat == if Circles(mRd, obj, f) then Some(f) else None
    {
      ghost var now := sys.mSt;
      lstStat := Request(req, obj, Some(f), false, up);
      SameNext(mSt, now, up, None, lstStat);
      StillReaches(mSt, up, f);
      if lstStat.Some? { NextIsUnique(mSt, up, lstStat.value, f); }
    }
  }

  /** The state of the sending to all: `first` is the station that answers first, `next` the one that answers now. */
  ghost predicate SendingOn(mSt: seq<Peer>, now: seq<Peer>, up: int -> bool, was: seq<Entry>, mRd: seq<Entry>,
                            obj: string, rounds: nat, more: int -> bool, first: Option<int>, sent: seq<int>,
                            next: Option<int>) {
    SameReach(mSt, now, up) && (first.Some? ==> mRd == was && IsNext(mSt, up, None, first)) &&
    |sent| <= rounds && (next.Some? ==> next == first) &&
    (AnyAsked(was, |was|, obj, None, false) ==> IsNext(mSt, up, None, first)) &&
    (!AnyAsked(was, |was|, obj, None, false) ==> first.None?) &&
    if |sent| == 0 then next == first
    else first.Some? && Sending(was, obj, first.value, more, sent, next.Some?)
  }

  lemma SentOut(mSt: seq<Peer>, now: seq<Peer>, up: int -> bool, was: seq<Entry>, mRd: seq<Entry>, obj: string,
                rounds: nat, more: int -> bool, first: Option<int>, sent: seq<int>, next: Option<int>)
    requires SendingOn(mSt, now, up, was, mRd, obj, rounds, more, first, sent, next)
    requires next.None? || |sent| == rounds
    ensures Outcome(mSt, up, was, obj, rounds, more, sent, next.None?)
  {
    AnyServes(was, obj);
    if first.Some? {
      StillReaches(mSt, up, first.value);
      assert SentTo(mSt, up, was, obj, rounds, more, sent, next.None?, first.value);
    }
  }

  lemma SentEnough(mSt: seq<Peer>, up: int -> bool, was: seq<Entry>, obj: string, rounds: nat, more: int -> bool,
                   sent: seq<int>, first: Option<int>)
    requires AnyAsked(was, |was|, obj, None, false) && IsNext(mSt, up, None, first) && first.Some?
    requires sent == [first.value] && !more(first.value) && rounds > 0
    ensures Outcome(mSt, up, was, obj, rounds, more, sent, true)
  {
    AnyServes(was, obj);
    StillReaches(mSt, up, first.value);
    assert SentTo(mSt, up, was, obj, rounds, more, sent, true, first.value);
  }

  /** All requests went to one station; it is asked for again exactly if there is another one after it. */
  ghost predicate Sending(mRd: seq<Entry>, obj: string, f: int, more: int -> bool, sent: seq<int>, again: bool) {
    more(f) && (forall k :: 0 <= k < |sent| ==> sent[k] == f) && (again <==> Circles(mRd, obj, f)) &&
    (!again ==> |sent| == 1)
  }

  lemma StillReaches(mSt: seq<Peer>, up: int -> bool, f: int)
    requires IsNext(mSt, up, None, Some(f))
    ensures Reaches(mSt, up, f)
  {
  }

  predicate Holds(e: Entry, obj: string, toRun: bool) {
    obj in e.objs && (!toRun || e.objs[obj])
  }

  /** The entry comes in turn: it serves the object, and the previous station does so before it. */
  ghost predicate Asked(mRd: seq<Entry>, i: nat, obj: string, prevSt: Option<int>, toRun: bool)
    requires i < |mRd|
  {
    Holds(mRd[i], obj, toRun) &&
    (prevSt.Some? ==> Passed(mRd, i, obj, prevSt.value, toRun))
  }

  ghost predicate Passed(mRd: seq<Entry>, i: nat, obj: string, prevSt: int, toRun: bool)
    requires i <= |mRd|
  {
    exists p :: 0 <= p < i && mRd[p].st == prevSt && Holds(mRd[p], obj, toRun)
  }

  ghost predicate AnyAsked(mRd: seq<Entry>, n: nat, obj: string, prevSt: Option<int>, toRun: bool)
    requires n <= |mRd|
  {
    exists k :: 0 <= k < n && Asked(mRd, k, obj, prevSt, toRun)
  }

  /** Of the first `n` entries those that come in turn have gone. */
  ghost predicate IsWithout(mRd: seq<Entry>, n: nat, obj: string, prevSt: Option<int>, toRun: bool, mRd': seq<Entry>)
    requires n <= |mRd|
  {
    forall e :: e in mRd' <==> e in mRd && !AskedEntry(mRd, n, obj, prevSt, toRun, e)
  }

  ghost predicate AskedEntry(mRd: seq<Entry>, n: nat, obj: string, prevSt: Option<int>, toRun: bool, e: Entry)
    requires n <= |mRd|
  {
    exists k :: 0 <= k < n && mRd[k] == e && Asked(mRd, k, obj, prevSt, toRun)
  }

  /** A request reaches the first station that answers, whichever it was meant for, if any comes in turn; if none
      answers, all that come in turn are forgotten. */
  ghost predicate Requested(mSt: seq<Peer>, up: int -> bool, mRd: seq<Entry>, obj: string, prevSt: Option<int>,
                            toRun: bool, rez: Option<int>, mRd': seq<Entry>) {
    if AnyAsked(mRd, |mRd|, obj, prevSt, toRun) then
      IsNext(mSt, up, None, rez) && (if rez.Some? then mRd' == mRd else IsWithout(mRd, |mRd|, obj, prevSt, toRun, mRd'))
    else rez == None && mRd' == mRd
  }

  /** Who is asked, in terms of what the stations have told. */
  lemma RequestedSeen(mSt: seq<Peer>, up: int -> bool, mRd: seq<Entry>, obj: string, prevSt: Option<int>, toRun: bool,
                      rez: Option<int>, mRd': seq<Entry>)
    requires Requested(mSt, up, mRd, obj, prevSt, toRun, rez, mRd')
    ensures rez.Some? ==> exists k :: 0 <= k < |mRd| && obj in mRd[k].objs && (toRun ==> mRd[k].objs[obj])
    ensures forall e :: e in mRd' ==> e in mRd
    ensures forall e :: e in mRd && !(obj in e.objs && (toRun ==> e.objs[obj])) ==> e in mRd'
    ensures prevSt == None && (exists id :: Reaches(mSt, up, id)) ==>
              (rez.Some? <==> exists k :: 0 <= k < |mRd| && obj in mRd[k].objs && (toRun ==> mRd[k].objs[obj]))
  {
    if prevSt == None {
      forall k | 0 <= k < |mRd| && obj in mRd[k].objs && (toRun ==> mRd[k].objs[obj])
        ensures AnyAsked(mRd, |mRd|, obj, prevSt, toRun)
      {
        assert Asked(mRd, k, obj, prevSt, toRun);
      }
    }
  }

  function Erased(mRd: seq<Entry>, st: int): (r: seq<Entry>)
    ensures forall e :: e in r <==> e in mRd && e.st != st
    ensures Sorted(mRd) ==> Sorted(r)
  {
    if |mRd| == 0 then []
    else
      var n := |mRd| - 1;
      Erased(mRd[..n], st) + if mRd[n].st == st then [] else [mRd[n]]
  }

  /** The first `n` entries have been gone through, and no request was answered. */
  ghost predicate Tried(mSt: seq<Peer>, up: int -> bool, sts: seq<Entry>, n: nat, obj: string, prevSt: Option<int>,
                        toRun: bool, mRd: seq<Entry>)
    requires n <= |sts|
  {
    IsWithout(sts, n, obj, prevSt, toRun, mRd) &&
    if AnyAsked(sts, n, obj, prevSt, toRun) then IsNext(mSt, up, None, None) else mRd == sts
  }

  /** The stations after requests for the first `n` entries, the last of them answered by `rez`. */
  ghost predicate Asking(mSt: seq<Peer>, up: int -> bool, sts: seq<Entry>, n: nat, obj: string, prevSt: Option<int>,
                         toRun: bool, rez: Option<int>, now: seq<Peer>)
    requires n <= |sts|
  {
    now == if AnyAsked(sts, n, obj, prevSt, toRun) then Marked(mSt, up, None, rez) else mSt
  }

  lemma AskedSoFar(sts: seq<Entry>, i: nat, obj: string, prevSt: Option<int>, toRun: bool)
    requires i < |sts| && AnyAsked(sts, i + 1, obj, prevSt, toRun)
    ensures AnyAsked(sts, |sts|, obj, prevSt, toRun)
  {
  }

  lemma TriedSkip(mSt: seq<Peer>, up: int -> bool, sts: seq<Entry>, i: nat, obj: string, prevSt: Option<int>,
                  toRun: bool, mRd: seq<Entry>)
    requires i < |sts| && Tried(mSt, up, sts, i, obj, prevSt, toRun, mRd) && !Asked(sts, i, obj, prevSt, toRun)
    ensures AnyAsked(sts, i + 1, obj, prevSt, toRun) <==> AnyAsked(sts, i, obj, prevSt, toRun)
    ensures Tried(mSt, up, sts, i + 1, obj, prevSt, toRun, mRd)
  {
    assert AnyAsked(sts, i + 1, obj, prevSt, toRun) ==> AnyAsked(sts, i, obj, prevSt, toRun);
    forall e ensures AskedEntry(sts, i + 1, obj, prevSt, toRun, e) <==> AskedEntry(sts, i, obj, prevSt, toRun, e) {
      if AskedEntry(sts, i + 1, obj, prevSt, toRun, e) {
        var k :| 0 <= k < i + 1 && sts[k] == e && Asked(sts, k, obj, prevSt, toRun);
        assert k < i;
      }
    }
  }

  lemma TriedOne(mSt: seq<Peer>, now: seq<Peer>, up: int -> bool, sts: seq<Entry>, i: nat, obj: string,
                 prevSt: Option<int>, toRun: bool, mRd: seq<Entry>, rez: Option<int>)
    requires Sorted(sts) && i < |sts| && Tried(mSt, up, sts, i, obj, prevSt, toRun, mRd) &&
             Asked(sts, i, obj, prevSt, toRun)
    requires Asking(mSt, up, sts, i, obj, prevSt, toRun, None, now) && IsNext(now, up, None, rez)
    ensures Asking(mSt, up, sts, i + 1, obj, prevSt, toRun, rez, Marked(now, up, None, rez))
    ensures if rez.Some? then Requested(mSt, up, sts, obj, prevSt, toRun, rez, mRd)
            else Tried(mSt, up, sts, i + 1, obj, prevSt, toRun, Erased(mRd, sts[i].st))
  {
    SameNext(mSt, now, up, None, rez);
    assert AnyAsked(sts, i + 1, obj, prevSt, toRun);
    AskedSoFar(sts, i, obj, prevSt, toRun);
    if AnyAsked(sts, i, obj, prevSt, toRun) {
      NoneIsUnique(mSt, up, rez);
      MarkedAgain(mSt, up);
    }
    if rez.None? { EraseNext(sts, i, obj, prevSt, toRun, mRd); }
  }

  lemma NoneIsUnique(mSt: seq<Peer>, up: int -> bool, rez: Option<int>)
    requires IsNext(mSt, up, None, rez) && IsNext(mSt, up, None, None)
    ensures rez.None?
  {
  }

  lemma MarkedAgain(mSt: seq<Peer>, up: int -> bool)
    ensures Marked(Marked(mSt, up, None, None), up, None, None) == Marked(mSt, up, None, None)
  {
  }

  lemma SameNext(a: seq<Peer>, b: seq<Peer>, up: int -> bool, prev: Option<int>, rez: Option<int>)
    requires SameReach(a, b, up)
    ensures IsNext(a, up, prev, rez) <==> IsNext(b, up, prev, rez)
  {
    forall id ensures Reaches(a, up, id) <==> Reaches(b, up, id) { SameReaches(a, b, up, id); }
  }

  lemma AskedOn(sts: seq<Entry>, i: nat, obj: string, prevSt: Option<int>, toRun: bool, e: Entry)
    requires i < |sts| && Asked(sts, i, obj, prevSt, toRun)
    ensures AskedEntry(sts, i + 1, obj, prevSt, toRun, e) <==> AskedEntry(sts, i, obj, prevSt, toRun, e) || e == sts[i]
  {
    if AskedEntry(sts, i + 1, obj, prevSt, toRun, e) {
      var k :| 0 <= k < i + 1 && sts[k] == e && Asked(sts, k, obj, prevSt, toRun);
      assert k < i ==> AskedEntry(sts, i, obj, prevSt, toRun, e);
    }
  }

  lemma OneEntry(sts: seq<Entry>, i: nat, e: Entry)
    requires Sorted(sts) && i < |sts| && e in sts
    ensures e.st == sts[i].st <==> e == sts[i]
  {
  }

  lemma EraseNext(sts: seq<Entry>, i: nat, obj: string, prevSt: Option<int>, toRun: bool, r: seq<Entry>)
    requires Sorted(sts) && i < |sts| && IsWithout(sts, i, obj, prevSt, toRun, r) && Asked(sts, i, obj, prevSt, toRun)
    ensures IsWithout(sts, i + 1, obj, prevSt, toRun, Erased(r, sts[i].st))
  {
    var r' := Erased(r, sts[i].st);
    forall e ensures e in r' <==> e in sts && !AskedEntry(sts, i + 1, obj, prevSt, toRun, e) {
      AskedOn(sts, i, obj, prevSt, toRun, e);
      if e in sts { OneEntry(sts, i, e); }
    }
  }

  lemma PassedNext(mRd: seq<Entry>, i: nat, obj: string, prevSt: int, toRun: bool)
    requires i < |mRd|
    ensures Passed(mRd, i + 1, obj, prevSt, toRun) <==>
            Passed(mRd, i, obj, prevSt, toRun) || (mRd[i].st == prevSt && Holds(mRd[i], obj, toRun))
  {
  }

  function TakenOver(objs: seq<Obj>, obj: string): seq<Obj> {
    seq(|objs|, i requires 0 <= i < |objs| => if objs[i].id == obj then objs[i].(use := false) else objs[i])
  }

  lemma InsertedSorted(was: seq<Entry>, i: nat, e: Entry)
    requires Sorted(was) && i <= |was| && (forall k :: 0 <= k < i ==> was[k].st < e.st) &&
             (i < |was| ==> was[i].st > e.st)
    ensures var now := was[..i] + [e] + was[i..];
            Sorted(now) && forall k :: 0 <= k < |now| ==>
                                         now[k] == if k < i then was[k] else if k == i then e else was[k - 1]
  {
  }

  lemma InsertedKnown(was: seq<Entry>, i: nat, st: int)
    requires Sorted(was) && i <= |was| && (forall k :: 0 <= k < i ==> was[k].st < st) && (i < |was| ==> was[i].st > st)
    ensures var now := was[..i] + [Entry(st, map[])] + was[i..];
            Sorted(now) && SameKnown(was, now) && Known(was, st) == map[]
  {
    var now := was[..i] + [Entry(st, map[])] + was[i..];
    InsertedSorted(was, i, Entry(st, map[]));
    forall t ensures Known(was, t) == Known(now, t) {
      if k :| 0 <= k < |was| && was[k].st == t {
        KnownAt(was, k);
        KnownAt(now, if k < i then k else k + 1);
      } else if t == st {
        KnownAt(now, i);
      }
    }
  }

  lemma UpdatedKnown(was: seq<Entry>, i: nat, objs: map<string, bool>, t: int)
    requires Sorted(was) && i < |was|
    ensures var now := was[i := Entry(was[i].st, objs)];
            Sorted(now) && Known(now, t) == if t == was[i].st then objs else Known(was, t)
  {
    var now := was[i := Entry(was[i].st, objs)];
    if k :| 0 <= k < |was| && was[k].st == t {
      KnownAt(was, k);
      KnownAt(now, k);
    }
  }

  // ----- sending to all -----

  ghost predicate Serves(mRd: seq<Entry>, obj: string, id: int) {
    exists k :: 0 <= k < |mRd| && mRd[k].st == id && obj in mRd[k].objs
  }

  /** The station serves the object, and another one after it does too. */
  ghost predicate Circles(mRd: seq<Entry>, obj: string, id: int) {
    AnyAsked(mRd, |mRd|, obj, Some(id), false)
  }

  /** Nobody is asked if no station serves the object or none answers at all. Else every request goes to the first
      station that answers: one, if it is the last one that serves the object or its answer is enough, and without end
      if not. */
  ghost predicate Outcome(mSt: seq<Peer>, up: int -> bool, mRd: seq<Entry>, obj: string, rounds: nat, more: int -> bool,
                          sent: seq<int>, ended: bool) {
    if (forall id :: !Serves(mRd, obj, id)) || (forall id :: !Reaches(mSt, up, id)) then sent == [] && ended
    else exists f :: SentTo(mSt, up, mRd, obj, rounds, more, sent, ended, f)
  }

  ghost predicate SentTo(mSt: seq<Peer>, up: int -> bool, mRd: seq<Entry>, obj: string, rounds: nat, more: int -> bool,
                         sent: seq<int>, ended: bool, f: int) {
    var endless := more(f) && Circles(mRd, obj, f);
    IsNext(mSt, up, None, Some(f)) && (forall k :: 0 <= k < |sent| ==> sent[k] == f) &&
    |sent| == (if endless || rounds == 0 then rounds else 1) && (ended <==> !endless && rounds > 0)
  }

  lemma AnyServes(mRd: seq<Entry>, obj: string)
    ensures AnyAsked(mRd, |mRd|, obj, None, false) <==> exists id :: Serves(mRd, obj, id)
  {
    if k :| 0 <= k < |mRd| && Asked(mRd, k, obj, None, false) {
      assert Serves(mRd, obj, mRd[k].st);
    }
    if id :| Serves(mRd, obj, id) {
      var k :| 0 <= k < |mRd| && mRd[k].st == id && obj in mRd[k].objs;
      assert Asked(mRd, k, obj, None, false);
    }
  }

  lemma NextIsUnique(mSt: seq<Peer>, up: int -> bool, a: int, b: int)
    requires IsNext(mSt, up, None, Some(a)) && IsNext(mSt, up, None, Some(b))
    ensures a == b
  {
  }

  /** Every station that serves the object and answers got the request once. */
  ghost predicate EachOnce(mSt: seq<Peer>, up: int -> bool, mRd: seq<Entry>, obj: string, sent: seq<int>) {
    Rising(sent) && forall id :: id in sent <==> Serves(mRd, obj, id) && Reaches(mSt, up, id)
  }

  /** The sending to all ends, with every station that serves the object and answers having got the request once,
      exactly if there is no such station and none other that answers, or if the first station that answers at all is
      the last one that serves the object, and no other one that serves it answers. */
  lemma FanOutIsRightIff(mSt: seq<Peer>, up: int -> bool, mRd: seq<Entry>, obj: string, rounds: nat, more: int -> bool,
                         path: seq<Step>, sent: seq<int>, got: seq<seq<Step>>, ended: bool)
    requires Sorted(mRd) && rounds > 0 && (forall id :: more(id)) && GotBehind(sent, got, path) &&
             Outcome(mSt, up, mRd, obj, rounds, more, sent, ended)
    ensures ended && EachOnce(mSt, up, mRd, obj, sent) && (forall i :: 0 <= i < |got| ==> got[i] == path) <==>
            || (forall id :: !Serves(mRd, obj, id))
            || (forall id :: !Reaches(mSt, up, id))
            || exists f :: IsNext(mSt, up, None, Some(f)) && Serves(mRd, obj, f) &&
                           forall id :: Serves(mRd, obj, id) && id != f ==> id < f && !Reaches(mSt, up, id)
  {
    if !((forall id :: !Serves(mRd, obj, id)) || (forall id :: !Reaches(mSt, up, id))) {
      var f :| SentTo(mSt, up, mRd, obj, rounds, more, sent, ended, f);
      CirclesIff(mRd, obj, f);
      forall g | IsNext(mSt, up, None, Some(g)) ensures g == f { NextIsUnique(mSt, up, f, g); }
      if !Circles(mRd, obj, f) {
        assert sent == [f] && ended && got[0] == path;
        assert EachOnce(mSt, up, mRd, obj, sent) <==>
                 forall id :: id == f <==> Serves(mRd, obj, id) && Reaches(mSt, up, id);
      }
    }
  }

  /** The gathering ends exactly if nobody serves the object or answers, or if the first station that answers at all
      gives a complete reply, does not serve the object, or is the last one that serves it. */
  lemma GatherEndsIff(mSt: seq<Peer>, up: int -> bool, mRd: seq<Entry>, obj: string, rounds: nat,
                      incomplete: int -> bool, sent: seq<int>, ended: bool)
    requires Sorted(mRd) && rounds > 0 && Outcome(mSt, up, mRd, obj, rounds, incomplete, sent, ended)
    ensures ended <==>
            || (forall id :: !Serves(mRd, obj, id))
            || (forall id :: !Reaches(mSt, up, id))
            || exists f :: IsNext(mSt, up, None, Some(f)) &&
                           (!incomplete(f) || !Serves(mRd, obj, f) || forall id :: Serves(mRd, obj, id) ==> id <= f)
  {
    if !((forall id :: !Serves(mRd, obj, id)) || (forall id :: !Reaches(mSt, up, id))) {
      var f :| SentTo(mSt, up, mRd, obj, rounds, incomplete, sent, ended, f);
      CirclesIff(mRd, obj, f);
      forall g | IsNext(mSt, up, None, Some(g)) ensures g == f { NextIsUnique(mSt, up, f, g); }
    }
  }

  lemma CirclesIff(mRd: seq<Entry>, obj: string, f: int)
    requires Sorted(mRd)
    ensures Circles(mRd, obj, f) <==> Serves(mRd, obj, f) && exists id :: id > f && Serves(mRd, obj, id)
  {
    if Circles(mRd, obj, f) {
      var k :| 0 <= k < |mRd| && Asked(mRd, k, obj, Some(f), false);
      assert Passed(mRd, k, obj, f, false);
      assert Serves(mRd, obj, mRd[k].st);
    }
    if Serves(mRd, obj, f) && exists id :: id > f && Serves(mRd, obj, id) {
      var id :| id > f && Serves(mRd, obj, id);
      var p :| 0 <= p < |mRd| && mRd[p].st == f && obj in mRd[p].objs;
      var k :| 0 <= k < |mRd| && mRd[k].st == id && obj in mRd[k].objs;
      assert Holds(mRd[p], obj, false) && Asked(mRd, k, obj, Some(f), false);
    }
  }
}
