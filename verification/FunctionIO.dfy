/** The list of a function's inputs and outputs, and the assignment of one function to another, which keeps the entries
    that both have. */
module FunctionIO {

  datatype IO = IO(id: string, name: string, typ: int, flg: nat, def: string, hide: bool, rez: string)

  ghost predicate Distinct(s: seq<IO>) {
    forall i, j :: 0 <= i < j < |s| ==> s[i].id != s[j].id
  }

  ghost function Ids(s: seq<IO>): set<string> {
    set io | io in s :: io.id
  }

  lemma DistinctAppend(r: seq<IO>, io: IO)
    ensures Distinct(r + [io]) <==> Distinct(r) && io.id !in Ids(r)
    ensures Ids(r + [io]) == Ids(r) + {io.id}
  {
    var s := r + [io];
    assert forall i :: 0 <= i < |r| ==> s[i] == r[i];
    assert Distinct(s) ==> Distinct(r);
    if io.id in Ids(r) {
      var i :| 0 <= i < |r| && r[i].id == io.id;
      assert s[i].id == s[|r|].id;
    }
  }

  lemma {:induction false} IdsCount(s: seq<IO>)
    ensures |Ids(s)| <= |s| && (|Ids(s)| == |s| <==> Distinct(s))
  {
    if |s| > 0 {
      var n := |s| - 1;
      IdsCount(s[..n]);
      DistinctAppend(s[..n], s[n]);
      assert s == s[..n] + [s[n]];
    }
  }

  /** How many entries a list has more than it has ids. */
  ghost function Surplus(s: seq<IO>): (n: int)
    ensures n >= 0 && (n == 0 <==> Distinct(s))
  {
    IdsCount(s);
    |s| - |Ids(s)|
  }

  /** The entries whose ids another list has. */
  ghost function Kept(s: seq<IO>, src: seq<IO>): seq<IO> {
    if |s| == 0 then []
    else
      var n := |s| - 1;
      Kept(s[..n], src) + if s[n].id in Ids(src) then [s[n]] else []
  }

  lemma {:induction false} KeptMembers(s: seq<IO>, src: seq<IO>)
    ensures forall io :: io in Kept(s, src) <==> io in s && io.id in Ids(src)
  {
    if |s| > 0 {
      var n := |s| - 1;
      KeptMembers(s[..n], src);
      assert s == s[..n] + [s[n]];
    }
  }

  lemma KeptIds(s: seq<IO>, src: seq<IO>)
    ensures Ids(Kept(s, src)) == Ids(s) * Ids(src)
  {
    KeptMembers(s, src);
    forall x | x in Ids(s) * Ids(src) ensures x in Ids(Kept(s, src)) {
      var io :| io in s && io.id == x;
      assert io in Kept(s, src);
    }
  }

  /** No id of the other list is twice in the list. */
  ghost predicate NoneTwice(s: seq<IO>, src: seq<IO>) {
    forall i, j :: 0 <= i < j < |s| && s[i].id == s[j].id ==> s[i].id !in Ids(src)
  }

  lemma NoneTwiceNext(pre: seq<IO>, io: IO, src: seq<IO>)
    ensures NoneTwice(pre + [io], src) <==> NoneTwice(pre, src) && (io.id in Ids(src) ==> io.id !in Ids(pre))
  {
    var s, n := pre + [io], |pre|;
    assert forall i :: 0 <= i < n ==> s[i] == pre[i];
    if io.id in Ids(src) && io.id in Ids(pre) {
      var i :| 0 <= i < n && pre[i].id == io.id;
      assert s[i].id == s[n].id;
    }
    if !NoneTwice(pre, src) {
      var i, j :| 0 <= i < j < n && pre[i].id == pre[j].id && pre[i].id in Ids(src);
      assert s[i].id == s[j].id && s[i].id in Ids(src);
    }
    if !NoneTwice(s, src) {
      var i, j :| 0 <= i < j < |s| && s[i].id == s[j].id && s[i].id in Ids(src);
      assert pre[i] in pre;
      assert j < n ==> pre[i].id == pre[j].id;
    }
  }

  lemma KeptHasId(s: seq<IO>, src: seq<IO>, id: string)
    requires id in Ids(src)
    ensures id in Ids(Kept(s, src)) <==> id in Ids(s)
  {
    KeptIds(s, src);
  }

  lemma {:induction false} KeptDistinct(s: seq<IO>, src: seq<IO>)
    ensures Distinct(Kept(s, src)) <==> NoneTwice(s, src)
  {
    if |s| > 0 {
      var n := |s| - 1;
      KeptDistinct(s[..n], src);
      KeptNext(s, src, n);
      assert s[..n + 1] == s && s == s[..n] + [s[n]];
      if s[n].id in Ids(src) { KeptHasId(s[..n], src, s[n].id); }
      DistinctNext(s[..n], s[n], src, Kept(s[..n], src), Kept(s, src));
    }
  }

  lemma DistinctNext(pre: seq<IO>, io: IO, src: seq<IO>, kept: seq<IO>, r: seq<IO>)
    requires Distinct(kept) <==> NoneTwice(pre, src)
    requires io.id in Ids(src) ==> (io.id in Ids(kept) <==> io.id in Ids(pre))
    requires r == if io.id in Ids(src) then kept + [io] else kept
    ensures Distinct(r) <==> NoneTwice(pre + [io], src)
  {
    NoneTwiceNext(pre, io, src);
    DistinctAppend(kept, io);
  }

  lemma KeptNext(s: seq<IO>, src: seq<IO>, k: nat)
    requires k < |s|
    ensures Kept(s[..k + 1], src) == Kept(s[..k], src) + if s[k].id in Ids(src) then [s[k]] else []
  {
    assert s[..k + 1][..k] == s[..k];
  }

  lemma WithoutFirst(a: seq<IO>, s: seq<IO>, k: nat)
    requires k < |s|
    ensures var r := a + s[k..]; r[|a|] == s[k] && r[..|a|] + r[|a| + 1..] == a + s[k + 1..]
    ensures a + s[k..] == a + [s[k]] + s[k + 1..]
  {
  }

  lemma SubsetCount(a: set<string>, b: set<string>)
    requires a <= b
    ensures |a| <= |b|
  {
    assert b == a + (b - a);
  }

  lemma AbsentId(src: seq<IO>, id: string)
    requires forall k :: 0 <= k < |src| ==> src[k].id != id
    ensures id !in Ids(src)
  {
  }

  /** `n` entries of the source have been taken by a list that had the entries `kept`: each new id has come once. */
  ghost predicate Taking(s: seq<IO>, kept: seq<IO>, src: seq<IO>, n: nat) {
    n <= |src| && Ids(kept) <= Ids(src) && Surplus(s) == Surplus(kept) && Ids(s) == Ids(kept) + Ids(src[..n])
  }

  /** Of a source without an id twice each entry taken is there, and in its place if the list may be put in order. */
  ghost predicate InPlace(s: seq<IO>, src: seq<IO>, n: nat, used: bool) {
    n <= |src| &&
    (Distinct(src) ==> (forall k :: 0 <= k < n ==> src[k] in s) && (!used ==> Placed(s, src, n)))
  }

  /** A place after the end of the list is come to exactly if the source has more entries over its ids than the list
      had: then the list stays short of it. */
  lemma PlaceIsThere(s: seq<IO>, kept: seq<IO>, src: seq<IO>, n: nat)
    requires Taking(s, kept, src, n)
    ensures |s| < n ==> Surplus(kept) < Surplus(src)
    ensures n == |src| ==> Ids(s) == Ids(src) && (|s| >= n <==> Surplus(kept) >= Surplus(src))
  {
    var rest := src[n..];
    assert src == src[..n] + rest;
    forall io | io in src ensures io in src[..n] || io in rest {}
    assert Ids(src) <= Ids(s) + Ids(rest);
    SubsetCount(Ids(src), Ids(s) + Ids(rest));
    SubsetCount(Ids(s) + Ids(rest) - Ids(s), Ids(rest));
    assert Ids(s) + Ids(rest) == Ids(s) + (Ids(s) + Ids(rest) - Ids(s));
    IdsCount(rest);
    if n == |src| { assert src[..n] == src; }
  }

  /** The first `n` entries are in their places. */
  ghost predicate Placed(s: seq<IO>, src: seq<IO>, n: nat) {
    n <= |src| && n <= |s| && s[..n] == src[..n]
  }

  function Swapped(s: seq<IO>, i: nat, j: nat): seq<IO>
    requires i < |s| && j < |s|
  {
    s[j := s[i]][i := s[j]]
  }

  /** What one entry of the source does to the list: it is written over the first entry with its id or put in at its
      place, and is then exchanged with the entry at its place. */
  lemma PlacedNext(s: seq<IO>, src: seq<IO>, n: nat, at: int, s': seq<IO>)
    requires Distinct(src) && Placed(s, src, n) && n < |src|
    requires at == -1 || (0 <= at < |s| && s[at].id == src[n].id && n < |s|)
    requires s' == if at == -1 then s[..n] + [src[n]] + s[n..] else Swapped(s[at := src[n]], at, n)
    ensures Placed(s', src, n + 1)
  {
    forall k | 0 <= k < n ensures s[k].id != src[n].id {
      assert s[..n][k] == src[..n][k];
    }
  }

  lemma InsertedIds(s: seq<IO>, io: IO, p: nat)
    requires p <= |s| && io.id !in Ids(s)
    ensures Ids(s[..p] + [io] + s[p..]) == Ids(s) + {io.id}
    ensures Surplus(s[..p] + [io] + s[p..]) == Surplus(s)
  {
    var r := s[..p] + [io] + s[p..];
    assert s == s[..p] + s[p..];
    assert forall x :: x in r <==> x in s || x == io;
    assert Ids(r) == Ids(s) + {io.id};
  }

  lemma UpdatedIds(s: seq<IO>, io: IO, at: nat)
    requires at < |s| && s[at].id == io.id
    ensures Ids(s[at := io]) == Ids(s) && Surplus(s[at := io]) == Surplus(s)
  {
    var s' := s[at := io];
    assert forall i :: 0 <= i < |s| ==> s[i].id == s'[i].id;
    forall x | x in Ids(s) ensures x in Ids(s') {
      var i :| 0 <= i < |s| && s[i].id == x;
      assert s'[i] in s';
    }
    forall x | x in Ids(s') ensures x in Ids(s) {
      var i :| 0 <= i < |s| && s'[i].id == x;
      assert s[i] in s;
    }
  }

  lemma SwappedIds(s: seq<IO>, i: nat, j: nat)
    requires i < |s| && j < |s|
    ensures forall io :: io in Swapped(s, i, j) <==> io in s
    ensures Ids(Swapped(s, i, j)) == Ids(s) && Surplus(Swapped(s, i, j)) == Surplus(s)
  {
    var s' := Swapped(s, i, j);
    forall io | io in s ensures io in s' {
      var k :| 0 <= k < |s| && s[k] == io;
      assert s'[if k == i then j else if k == j then i else k] == io;
    }
  }

  lemma TakingNext(s: seq<IO>, kept: seq<IO>, src: seq<IO>, n: nat, s': seq<IO>)
    requires Taking(s, kept, src, n) && n < |src|
    requires Surplus(s') == Surplus(s) && Ids(s') == Ids(s) + {src[n].id}
    ensures Taking(s', kept, src, n + 1)
  {
    assert src[..n + 1] == src[..n] + [src[n]];
    assert Ids(src[..n + 1]) == Ids(src[..n]) + {src[n].id} by { DistinctAppend(src[..n], src[n]); }
  }

  // ----- what an assignment does -----

  /** The assignment of the list `src` to a list `s`: it succeeds exactly if the function is in use or the source has no
      more entries over its ids than the list has for those ids. Then the list has the ids of the source, and as many
      entries over them as before. */
  ghost predicate Assigned(s: seq<IO>, src: seq<IO>, used: bool, ok: bool, r: seq<IO>) {
    (ok <==> used || Surplus(Kept(s, src)) >= Surplus(src)) &&
    Ids(r) <= Ids(src) && Surplus(r) == Surplus(Kept(s, src)) && (ok ==> Ids(r) == Ids(src)) &&
    (Distinct(src) ==> (forall io :: io in src ==> io in r) && (!used ==> Placed(r, src, |src|)))
  }

  /** A source that has no id twice is always taken, and the list is then the source's, or in a function in use has its
      entries, exactly if the list had none of its ids twice. */
  lemma AssignIsRightIff(s: seq<IO>, src: seq<IO>, used: bool, ok: bool, r: seq<IO>)
    requires Assigned(s, src, used, ok, r) && Distinct(src)
    ensures ok
    ensures (if used then |r| == |src| && forall io :: io in r <==> io in src else r == src) <==> NoneTwice(s, src)
  {
    KeptDistinct(s, src);
    assert Surplus(src) == 0 && ok;
    assert |r| == |src| <==> NoneTwice(s, src);
    if |r| == |src| {
      if used {
        forall io | io in r ensures io in src { OnlyThose(r, src, io); }
      } else {
        PlacedAll(r, src);
      }
    }
  }

  lemma PlacedAll(r: seq<IO>, src: seq<IO>)
    requires Placed(r, src, |src|) && |r| == |src|
    ensures r == src
  {
    assert r[..|src|] == r && src[..|src|] == src;
  }

  lemma OnlyThose(r: seq<IO>, src: seq<IO>, io: IO)
    requires Distinct(r) && Ids(r) <= Ids(src) && (forall x :: x in src ==> x in r) && io in r
    ensures io in src
  {
    assert io.id in Ids(src);
    var x :| x in src && x.id == io.id;
    var i, j :| 0 <= i < |r| && 0 <= j < |r| && r[i] == x && r[j] == io;
    assert i == j;
  }

  /** For a list that has none of the source's ids twice the assignment succeeds exactly if the function is in use or
      the source has no id twice. */
  lemma TakenIff(s: seq<IO>, src: seq<IO>, used: bool, ok: bool, r: seq<IO>)
    requires Assigned(s, src, used, ok, r) && NoneTwice(s, src)
    ensures ok <==> used || Distinct(src)
  {
    KeptDistinct(s, src);
  }

  class Function {
    var id: string
    var stor: string
    var mIO: seq<IO>
    var used: bool

    constructor (id: string, stor: string, mIO: seq<IO>, used: bool)
      ensures this.id == id && this.stor == stor && this.mIO == mIO && this.used == used
    {
      this.id, this.stor, this.mIO, this.used := id, stor, mIO, used;
    }

    /** The place of the first entry with the id. */
    method IoId(id: string) returns (i: int)
      ensures -1 <= i < |mIO|
      ensures i >= 0 ==> mIO[i].id == id && forall k :: 0 <= k < i ==> mIO[k].id != id
      ensures i < 0 ==> forall k :: 0 <= k < |mIO| ==> mIO[k].id != id
    {
      i := 0;
      while i < |mIO|
        invariant 0 <= i <= |mIO| && forall k :: 0 <= k < i ==> mIO[k].id != id
      {
        if mIO[i].id == id { return; }
        i := i + 1;
      }
      i := -1;
    }

    method IoIns(io: IO, pos: int) returns (at: nat)
      modifies this`mIO
      ensures at == (if 0 <= pos <= |old(mIO)| then pos else |old(mIO)|) &&
              mIO == old(mIO)[..at] + [io] + old(mIO)[at..]
    {
      at := if pos < 0 || pos > |mIO| then |mIO| else pos;
      mIO := mIO[..at] + [io] + mIO[at..];
    }

    method IoDel(pos: int) returns (ok: bool)
      modifies this`mIO
      ensures ok <==> 0 <= pos < |old(mIO)|
      ensures mIO == if ok then old(mIO)[..pos] + old(mIO)[pos + 1..] else old(mIO)
    {
      ok := 0 <= pos < |mIO|;
      if ok { mIO := mIO[..pos] + mIO[pos + 1..]; }
    }

    /** Two entries change places. */
    method IoMove(pos: int, to: int) returns (ok: bool)
      modifies this`mIO
      ensures ok <==> 0 <= pos < |old(mIO)| && 0 <= to < |old(mIO)|
      ensures mIO == if ok then Swapped(old(mIO), pos, to) else old(mIO)
      ensures |mIO| == |old(mIO)| && forall k :: 0 <= k < |mIO| ==>
                mIO[k] == if ok && k == pos then old(mIO)[to] else if ok && k == to then old(mIO)[pos] else old(mIO)[k]
    {
      ok := 0 <= pos < |mIO| && 0 <= to < |mIO|;
      if ok {
        var io := mIO[to];
        mIO := mIO[to := mIO[pos]];
        mIO := mIO[pos := io];
      }
    }

    /** The assignment of any list to any other. */
    method Assign(func: Function) returns (ok: bool)
      requires func != this
      modifies this`mIO, this`id, this`stor
      ensures Assigned(old(mIO), func.mIO, used, ok, mIO)
      ensures !ok ==> id == old(id) && stor == old(stor)
      ensures ok ==> id == (if old(id) == "" then func.id else old(id)) && stor == func.stor
    {
      ghost var was := mIO;
      ClearAbsent(func);
      KeptIds(was, func.mIO);
      ok := TakeAll(func);
      if !ok { return; }
      if id == "" { id := func.id; }
      stor := func.stor;
    }

    /** The entries that the source does not have go. */
    method ClearAbsent(func: Function)
      requires func != this
      modifies this`mIO
      ensures mIO == Kept(old(mIO), func.mIO)
    {
      ghost var was, src, k, kept := mIO, func.mIO, 0, [];
      var iIO := 0;
      assert was[0..] == was;
      while iIO < |mIO|
        invariant 0 <= k <= |was| && kept == Kept(was[..k], src) && iIO == |kept| && mIO == kept + was[k..]
        decreases |was| - k
      {
        WithoutFirst(kept, was, k);
        KeptNext(was, src, k);
        var at := func.IoId(mIO[iIO].id);
        if at < 0 {
          AbsentId(src, was[k].id);
          var ok := IoDel(iIO);
        } else {
          assert func.mIO[at] in func.mIO;
          kept := kept + [was[k]];
          iIO := iIO + 1;
        }
        k := k + 1;
      }
      assert was[..k] == was;
    }

    method TakeAll(func: Function) returns (ok: bool)
      requires func != this && Ids(mIO) <= Ids(func.mIO)
      modifies this`mIO
      ensures ok <==> used || Surplus(old(mIO)) >= Surplus(func.mIO)
      ensures Ids(mIO) <= Ids(func.mIO) && Surplus(mIO) == Surplus(old(mIO)) && (ok ==> Ids(mIO) == Ids(func.mIO))
      ensures ok ==> InPlace(mIO, func.mIO, |func.mIO|, used)
    {
      ghost var src, kept := func.mIO, mIO;
      var iIO := 0;
      while iIO < |func.mIO|
        invariant 0 <= iIO <= |src| && Taking(mIO, kept, src, iIO) && (!used ==> |mIO| >= iIO)
        invariant InPlace(mIO, src, iIO, used)
      {
        ok := TakeOne(func, iIO, kept);
        PlaceIsThere(mIO, kept, src, iIO + 1);
        if !ok { return; }
        iIO := iIO + 1;
      }
      ok := true;
      PlaceIsThere(mIO, kept, src, iIO);
    }

    /** One entry of the source. It fails exactly at a place after the end of the list. */
    method TakeOne(func: Function, iIO: nat, ghost kept: seq<IO>) returns (ok: bool)
      requires func != this && iIO < |func.mIO| && Taking(mIO, kept, func.mIO, iIO)
      requires InPlace(mIO, func.mIO, iIO, used)
      modifies this`mIO
      ensures Taking(mIO, kept, func.mIO, iIO + 1) && (ok <==> used || iIO < |mIO|)
      ensures ok ==> InPlace(mIO, func.mIO, iIO + 1, used)
    {
      ghost var s := mIO;
      var dst_io := IoId(func.mIO[iIO].id);
      ghost var at := dst_io;
      dst_io := Merge(func.mIO[iIO], dst_io, iIO);
      ghost var merged := mIO;
      ok := ToPlace(dst_io, iIO);
      TookOne(s, kept, func.mIO, iIO, at, dst_io, merged, mIO, used, ok);
    }

    /** The entry changes places with the one at its place, unless the function is in use. */
    method ToPlace(at: nat, pos: nat) returns (ok: bool)
      requires at < |mIO|
      modifies this`mIO
      ensures ok <==> used || pos < |old(mIO)|
      ensures mIO == if ok && !used then Swapped(old(mIO), at, pos) else old(mIO)
    {
      ok := true;
      if at != pos && !used {
        if pos >= |mIO| { return false; }
        ok := IoMove(at, pos);
      }
    }

    /** The entry goes over the one at a place, or is put in. */
    method Merge(io: IO, at: int, pos: nat) returns (dst_io: nat)
      requires -1 <= at < |mIO|
      modifies this`mIO
      ensures mIO == Merged(old(mIO), io, at, pos)
      ensures dst_io == if at >= 0 then at else if pos <= |old(mIO)| then pos else |old(mIO)|
    {
      if at < 0 {
        dst_io := IoIns(io, pos);
      } else {
        dst_io := at;
        mIO := mIO[at := io];
      }
    }
  }

  function Merged(s: seq<IO>, io: IO, at: int, pos: nat): seq<IO>
    requires at < |s|
  {
    var p := if pos <= |s| then pos else |s|;
    if at >= 0 then s[at := io] else s[..p] + [io] + s[p..]
  }

  /** The place is one of an entry with the id, or negative if there is none. */
  ghost predicate IsAt(s: seq<IO>, id: string, at: int) {
    if at >= 0 then at < |s| && s[at].id == id else forall i :: 0 <= i < |s| ==> s[i].id != id
  }

  /** What one entry does to the entries taken and to their places. */
  lemma TookOne(s: seq<IO>, kept: seq<IO>, src: seq<IO>, n: nat, at: int, to: nat, merged: seq<IO>, r: seq<IO>,
                used: bool, ok: bool)
    requires Taking(s, kept, src, n) && n < |src| && IsAt(s, src[n].id, at) && InPlace(s, src, n, used)
    requires merged == Merged(s, src[n], at, n) && to == if at >= 0 then at else if n <= |s| then n else |s|
    requires (ok <==> used || n < |merged|) && r == if ok && !used then Swapped(merged, to, n) else merged
    ensures Taking(r, kept, src, n + 1) && |r| == |merged| && (ok ==> InPlace(r, src, n + 1, used))
  {
    MergedIds(s, kept, src, n, at, merged);
    if ok && !used { TakingSwapped(merged, kept, src, n + 1, to, n); }
    if ok { TookPlace(s, src, n, at, to, merged, r, used); }
  }

  lemma TakingSwapped(s: seq<IO>, kept: seq<IO>, src: seq<IO>, n: nat, i: nat, j: nat)
    requires Taking(s, kept, src, n) && i < |s| && j < |s|
    ensures Taking(Swapped(s, i, j), kept, src, n)
  {
    SwappedIds(s, i, j);
  }

  lemma TookPlace(s: seq<IO>, src: seq<IO>, n: nat, at: int, to: nat, merged: seq<IO>, r: seq<IO>, used: bool)
    requires n < |src| && IsAt(s, src[n].id, at) && InPlace(s, src, n, used)
    requires merged == Merged(s, src[n], at, n) && to == if at >= 0 then at else if n <= |s| then n else |s|
    requires if used then r == merged else n < |merged| && r == Swapped(merged, to, n)
    ensures InPlace(r, src, n + 1, used)
  {
    StillIn(s, src, n, merged, to);
    if Distinct(src) && !used {
      SwappedIds(merged, to, n);
      if at >= 0 {
        forall k | 0 <= k < n ensures s[k].id != src[n].id { assert s[..n][k] == src[..n][k]; }
      }
      PlacedNext(s, src, n, if at >= 0 then at else -1, r);
    }
  }

  lemma MergedIds(s: seq<IO>, kept: seq<IO>, src: seq<IO>, n: nat, at: int, s': seq<IO>)
    requires Taking(s, kept, src, n) && n < |src| && IsAt(s, src[n].id, at) && s' == Merged(s, src[n], at, n)
    ensures Taking(s', kept, src, n + 1)
  {
    if at >= 0 {
      UpdatedIds(s, src[n], at);
      HasId(s, at);
    } else {
      AbsentId(s, src[n].id);
      InsertedIds(s, src[n], if n <= |s| then n else |s|);
    }
    TakingNext(s, kept, src, n, s');
  }

  lemma HasId(s: seq<IO>, at: nat)
    requires at < |s|
    ensures Ids(s) + {s[at].id} == Ids(s)
  {
    assert s[at] in s;
  }

  lemma StillIn(s: seq<IO>, src: seq<IO>, n: nat, s': seq<IO>, at: nat)
    requires n < |src| && at < |s'| && s'[at] == src[n]
    requires (|s'| == |s| && s' == s[at := src[n]] && s[at].id == src[n].id) ||
             (at <= |s| && s' == s[..at] + [src[n]] + s[at..])
    ensures Distinct(src) ==> forall k :: 0 <= k < n && src[k] in s ==> src[k] in s'
    ensures src[n] in s'
  {
    forall k | Distinct(src) && 0 <= k < n && src[k] in s ensures src[k] in s' {
      var i :| 0 <= i < |s| && s[i] == src[k];
      if |s'| == |s| {
        assert s'[i] == src[k];
      } else {
        assert s'[if i < at then i else i + 1] == src[k];
      }
    }
  }
}
