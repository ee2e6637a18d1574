/** An ordered group of children: a map by name whose entries carry their places, 16-bit numbers, in the order. */
module Children {

  const LIMIT: nat := 65536

  datatype Child = Child(name: string, oi: nat, enabled: bool)

  function Wrap(i: int): nat {
    i % LIMIT
  }

  /** The places are a one-to-one numbering of the children, and `order` the names by their places. */
  ghost predicate Numbered(elem: seq<Child>, order: seq<string>) {
    |order| == |elem| &&
    (forall i :: 0 <= i < |elem| ==> elem[i].name != "" && elem[i].oi < |elem| && order[elem[i].oi] == elem[i].name) &&
    (forall i, j :: 0 <= i < j < |elem| ==> elem[i].name != elem[j].name) &&
    forall k :: 0 <= k < |order| ==> Has(elem, k)
  }

  ghost predicate Has(elem: seq<Child>, k: int) {
    exists i :: 0 <= i < |elem| && elem[i].oi == k
  }

  /** No two children have one place. */
  lemma PlacesDiffer(elem: seq<Child>, order: seq<string>, i: nat, j: nat)
    requires Numbered(elem, order) && i < |elem| && j < |elem|
    ensures elem[i].oi == elem[j].oi <==> i == j
  {
    assert order[elem[i].oi] == elem[i].name && order[elem[j].oi] == elem[j].name;
  }

  function InsertAt<T>(s: seq<T>, at: nat, x: T): (r: seq<T>)
    requires at <= |s|
    ensures |r| == |s| + 1 && forall i :: 0 <= i < |r| ==>
                                            r[i] == if i < at then s[i] else if i == at then x else s[i - 1]
  {
    s[..at] + [x] + s[at..]
  }

  function RemoveAt<T>(s: seq<T>, at: nat): (r: seq<T>)
    requires at < |s|
    ensures |r| == |s| - 1 && forall i :: 0 <= i < |r| ==> r[i] == if i < at then s[i] else s[i + 1]
  {
    s[..at] + s[at + 1..]
  }

  function Shifted(elem: seq<Child>, pos: int): seq<Child> {
    seq(|elem|, i requires 0 <= i < |elem| => if elem[i].oi >= pos then elem[i].(oi := Wrap(elem[i].oi + 1))
                                              else elem[i])
  }

  function Closed(elem: seq<Child>, pos: int): seq<Child> {
    seq(|elem|, i requires 0 <= i < |elem| => if elem[i].oi > pos then elem[i].(oi := Wrap(elem[i].oi - 1))
                                              else elem[i])
  }

  lemma AddedIsNumbered(elem: seq<Child>, order: seq<string>, c: Child, at: nat)
    requires Numbered(elem, order) && |elem| < LIMIT && c.oi <= |elem| && at <= |elem| && c.name != ""
    requires forall i :: 0 <= i < |elem| ==> elem[i].name != c.name
    ensures Numbered(InsertAt(Shifted(elem, c.oi), at, c), InsertAt(order, c.oi, c.name))
  {
    var s := Shifted(elem, c.oi);
    var r := InsertAt(s, at, c);
    var o := InsertAt(order, c.oi, c.name);
    forall j | 0 <= j < |s| ensures s[j].name == elem[j].name && s[j].oi < |r| && o[s[j].oi] == s[j].name {
      AddedPlace(elem, order, c.oi, c.name, j);
    }
    AddedHas(elem, order, c, at);
  }

  lemma AddedPlace(elem: seq<Child>, order: seq<string>, p: nat, name: string, j: nat)
    requires Numbered(elem, order) && |elem| < LIMIT && p <= |elem| && j < |elem|
    ensures var s := Shifted(elem, p)[j];
            s.name == elem[j].name && s.oi <= |elem| && InsertAt(order, p, name)[s.oi] == s.name
  {
  }

  lemma AddedHas(elem: seq<Child>, order: seq<string>, c: Child, at: nat)
    requires Numbered(elem, order) && |elem| < LIMIT && c.oi <= |elem| && at <= |elem|
    ensures var r := InsertAt(Shifted(elem, c.oi), at, c); forall k :: 0 <= k <= |elem| ==> Has(r, k)
  {
    var s := Shifted(elem, c.oi);
    var r := InsertAt(s, at, c);
    forall k | 0 <= k <= |elem| ensures Has(r, k) {
      if k == c.oi {
        assert r[at].oi == k;
      } else {
        var l := if k < c.oi then k else k - 1;
        assert Has(elem, l);
        var j :| 0 <= j < |elem| && elem[j].oi == l;
        assert r[if j < at then j else j + 1] == s[j];
      }
    }
  }

  lemma DeletedIsNumbered(elem: seq<Child>, order: seq<string>, at: nat)
    requires Numbered(elem, order) && |elem| <= LIMIT && at < |elem|
    ensures var pos := elem[at].oi;
            var s := Closed(elem, pos);
            Numbered(RemoveAt(s, at), RemoveAt(order, pos))
  {
    var pos := elem[at].oi;
    var s := Closed(elem, pos);
    var r := RemoveAt(s, at);
    var o := RemoveAt(order, pos);
    forall i | 0 <= i < |r| ensures r[i].name != "" && r[i].oi < |r| && o[r[i].oi] == r[i].name {
      DeletedPlace(elem, order, at, i);
    }
    DeletedNames(elem, s, at);
    DeletedHas(elem, order, at);
  }

  lemma DeletedNames(elem: seq<Child>, s: seq<Child>, at: nat)
    requires |s| == |elem| && at < |elem| && forall i :: 0 <= i < |elem| ==> s[i].name == elem[i].name
    requires forall i, j :: 0 <= i < j < |elem| ==> elem[i].name != elem[j].name
    ensures var r := RemoveAt(s, at); forall i, j :: 0 <= i < j < |r| ==> r[i].name != r[j].name
  {
  }

  lemma DeletedPlace(elem: seq<Child>, order: seq<string>, at: nat, i: nat)
    requires Numbered(elem, order) && |elem| <= LIMIT && at < |elem| && i < |elem| - 1
    ensures var r, o := RemoveAt(Closed(elem, elem[at].oi), at), RemoveAt(order, elem[at].oi);
            r[i].name != "" && r[i].oi < |elem| - 1 && o[r[i].oi] == r[i].name
  {
    PlacesDiffer(elem, order, if i < at then i else i + 1, at);
  }

  lemma DeletedHas(elem: seq<Child>, order: seq<string>, at: nat)
    requires Numbered(elem, order) && |elem| <= LIMIT && at < |elem|
    ensures var s := Closed(elem, elem[at].oi);
            var r := RemoveAt(s, at); forall k :: 0 <= k < |elem| - 1 ==> Has(r, k)
  {
    var pos := elem[at].oi;
    var s := Closed(elem, pos);
    var r := RemoveAt(s, at);
    forall k | 0 <= k < |elem| - 1 ensures Has(r, k) {
      var l := if k < pos then k else k + 1;
      assert Has(elem, l);
      var j :| 0 <= j < |elem| && elem[j].oi == l;
      assert r[if j < at then j else j - 1] == s[j];
    }
  }

  /** One child more than there are places. */
  lemma TooMany(elem: seq<Child>, order: seq<string>, p: nat, name: string, at: nat)
    requires Numbered(elem, order) && |elem| == LIMIT && p <= LIMIT && at <= |elem|
    ensures forall o :: !Numbered(InsertAt(Shifted(elem, p), at, Child(name, Wrap(p), true)), o)
  {
    assert !Has(InsertAt(Shifted(elem, p), at, Child(name, Wrap(p), true)), LIMIT);
  }

  // ----- lists -----

  ghost function EnabledNames(elem: seq<Child>): set<string> {
    set c | c in elem && c.enabled :: c.name
  }

  function Picked(order: seq<string>, names: set<string>): seq<string> {
    if |order| == 0 then []
    else
      var n := |order| - 1;
      Picked(order[..n], names) + if order[n] in names then [order[n]] else []
  }

  function Compact(list: seq<string>): seq<string> {
    if |list| == 0 then []
    else
      var n := |list| - 1;
      Compact(list[..n]) + if list[n] == "" then [] else [list[n]]
  }

  lemma {:induction false} CompactOmits(a: seq<string>, b: seq<string>)
    ensures Compact(a + [""] + b) == Compact(a + b)
  {
    if |b| == 0 {
      assert (a + [""] + b)[..|a|] == a == a + b;
    } else {
      var n := |b| - 1;
      CompactOmits(a, b[..n]);
      assert (a + [""] + b)[..|a| + 1 + n] == a + [""] + b[..n] && (a + b)[..|a| + n] == a + b[..n];
    }
  }

  lemma {:induction false} CompactOfFull(list: seq<string>)
    requires forall k :: 0 <= k < |list| ==> list[k] != ""
    ensures Compact(list) == list
  {
    if |list| > 0 { CompactOfFull(list[..|list| - 1]); }
  }

  /** A list with holes for the names that are left out. */
  lemma {:induction false} CompactIsPicked(list: seq<string>, order: seq<string>, names: set<string>)
    requires |list| <= |order| && "" !in names
    requires forall k :: 0 <= k < |list| ==> list[k] == if order[k] in names then order[k] else ""
    requires forall k :: |list| <= k < |order| ==> order[k] !in names
    ensures Compact(list) == Picked(order, names)
    decreases |order|
  {
    if |order| > 0 {
      var n := |order| - 1;
      CompactIsPicked(if |list| > n then list[..n] else list, order[..n], names);
    }
  }

  class Group {
    var elem: seq<Child>
    ghost var order: seq<string>

    ghost predicate Valid()
      reads this
    {
      Numbered(elem, order) && |elem| <= LIMIT
    }

    constructor ()
      ensures Valid() && elem == [] && order == []
    {
      elem, order := [], [];
    }

    method Find(name: string) returns (i: int)
      ensures -1 <= i < |elem|
      ensures if i >= 0 then elem[i].name == name else forall k :: 0 <= k < |elem| ==> elem[k].name != name
    {
      i := 0;
      while i < |elem|
        invariant 0 <= i <= |elem| && forall k :: 0 <= k < i ==> elem[k].name != name
      {
        if elem[i].name == name { return; }
        i := i + 1;
      }
      i := -1;
    }

    /** A child that is not there is put in at a place of the order, the end if the place is not in it; one that is
        there is only enabled. The places number the children as long as there are not more than 16 bits can. */
    method ChldAdd(name: string, pos: int, at: nat)
      requires Valid() && name != "" && at <= |elem|
      modifies this
      ensures var was := old(order);
              var p := if 0 <= pos <= |was| then pos else |was|;
              if name in was then Valid() && order == was
              else order == InsertAt(was, p, name) && if |was| < 65536 then Valid() else forall o :: !Numbered(elem, o)
      ensures EnabledNames(elem) == EnabledNames(old(elem)) + {name}
    {
      var i := Find(name);
      if i >= 0 {
        assert order[elem[i].oi] == name;
        Enable(i);
      } else {
        AbsentName(elem, order, name);
        Insert(name, if pos < 0 || pos > |elem| then |elem| else pos, at);
      }
    }

    method Enable(i: nat)
      requires Valid() && i < |elem|
      modifies this`elem
      ensures Valid() && EnabledNames(elem) == EnabledNames(old(elem)) + {old(elem)[i].name}
    {
      ghost var e := elem;
      elem := elem[i := elem[i].(enabled := true)];
      SameNumbers(e, elem, order);
      UpdatedNames(e, i);
    }

    method Insert(name: string, p: nat, at: nat)
      requires Valid() && name != "" && at <= |elem| && p <= |elem| &&
               forall i :: 0 <= i < |elem| ==> elem[i].name != name
      modifies this
      ensures order == InsertAt(old(order), p, name)
      ensures if |old(order)| < LIMIT then Valid() else forall o :: !Numbered(elem, o)
      ensures EnabledNames(elem) == EnabledNames(old(elem)) + {name}
    {
      ghost var e, o := elem, order;
      OpenPlace(p);
      var c := Child(name, Wrap(p), true);
      elem := InsertAt(elem, at, c);
      order := InsertAt(order, p, name);
      InsertedNames(e, Shifted(e, p), c, at);
      InsertedNumbers(e, o, c, p, at);
    }

    /** The places from `pos` on go up by one. */
    method OpenPlace(pos: int)
      modifies this`elem
      ensures elem == Shifted(old(elem), pos)
    {
      ghost var e := elem;
      var i := 0;
      while i < |elem|
        invariant 0 <= i <= |elem| == |e|
        invariant forall k :: 0 <= k < |elem| ==> elem[k] == if k >= i then e[k] else Shifted(e, pos)[k]
      {
        if elem[i].oi >= pos { elem := elem[i := elem[i].(oi := Wrap(elem[i].oi + 1))]; }
        i := i + 1;
      }
    }

    /** The places after `pos` go down by one. */
    method ClosePlace(pos: int)
      modifies this`elem
      ensures elem == Closed(old(elem), pos)
    {
      ghost var e := elem;
      var i := 0;
      while i < |elem|
        invariant 0 <= i <= |elem| == |e|
        invariant forall k :: 0 <= k < |elem| ==> elem[k] == if k >= i then e[k] else Closed(e, pos)[k]
      {
        if elem[i].oi > pos { elem := elem[i := elem[i].(oi := Wrap(elem[i].oi - 1))]; }
        i := i + 1;
      }
    }

    /** A child is taken out of the order. */
    method ChldDel(name: string) returns (ok: bool)
      requires Valid()
      modifies this
      ensures Valid() && (ok <==> name in old(order))
      ensures if ok then exists p :: 0 <= p < |old(order)| && old(order)[p] == name && order == RemoveAt(old(order), p)
              else order == old(order) && elem == old(elem)
      ensures EnabledNames(elem) == EnabledNames(old(elem)) - {name}
    {
      var i := Find(name);
      ok := i >= 0;
      ghost var e, o := elem, order;
      if ok {
        var pos := elem[i].oi;
        assert o[pos] == name;
        ClosePlace(pos);
        elem := RemoveAt(elem, i);
        order := RemoveAt(order, pos);
        DeletedIsNumbered(e, o, i);
        RemovedNames(e, Closed(e, pos), i);
      } else {
        AbsentName(e, o, name);
      }
    }

    /** The names in their order, all or those of the enabled children. */
    method ChldList(onlyEn: bool) returns (list: seq<string>)
      requires Valid()
      ensures list == if onlyEn then Picked(order, EnabledNames(elem)) else order
    {
      list := [];
      var p := 0;
      while p < |elem|
        invariant 0 <= p <= |elem| && Holed(list, order, elem, p, onlyEn)
      {
        ghost var was := list;
        if !onlyEn || elem[p].enabled { list := Extend(list, elem[p].oi, elem[p].name); }
        HoledNext(was, list, order, elem, p, onlyEn);
        p := p + 1;
      }
      HoledAll(list, order, elem, onlyEn);
      if onlyEn { list := RemoveEmpty(list); }
    }
  }

  method Extend(list: seq<string>, oi: nat, name: string) returns (r: seq<string>)
    ensures |r| == if oi < |list| then |list| else oi + 1
    ensures forall k :: 0 <= k < |r| ==> r[k] == if k == oi then name else if k < |list| then list[k] else ""
  {
    r := list;
    while oi >= |r|
      invariant |r| == |list| || |list| <= |r| <= oi + 1
      invariant forall k :: 0 <= k < |r| ==> r[k] == if k < |list| then list[k] else ""
      decreases oi - |r|
    {
      r := r + [""];
    }
    r := r[oi := name];
  }

  method RemoveEmpty(list: seq<string>) returns (r: seq<string>)
    ensures r == Compact(list)
  {
    r := list;
    var iL := 0;
    while iL < |r|
      invariant 0 <= iL <= |r| && Compact(r) == Compact(list) && forall k :: 0 <= k < iL ==> r[k] != ""
      decreases |r| - iL
    {
      if r[iL] == "" {
        CompactOmits(r[..iL], r[iL + 1..]);
        assert r == r[..iL] + [""] + r[iL + 1..];
        r := r[..iL] + r[iL + 1..];
      } else {
        iL := iL + 1;
      }
    }
    CompactOfFull(r);
  }

  /** One of the first `n` children has the place and is to be listed. */
  ghost predicate Listed(elem: seq<Child>, n: nat, onlyEn: bool, k: int)
    requires n <= |elem|
  {
    exists i :: 0 <= i < n && elem[i].oi == k && (!onlyEn || elem[i].enabled)
  }

  /** The names of the first `n` children that are to be listed are in their places, with holes between them. */
  ghost predicate Holed(list: seq<string>, order: seq<string>, elem: seq<Child>, n: nat, onlyEn: bool)
    requires n <= |elem|
  {
    |list| <= |order| &&
    (forall k :: 0 <= k < |list| ==> list[k] == if Listed(elem, n, onlyEn, k) then order[k] else "") &&
    forall k :: |list| <= k < |order| ==> !Listed(elem, n, onlyEn, k)
  }

  lemma HoledNext(list: seq<string>, r: seq<string>, order: seq<string>, elem: seq<Child>, p: nat, onlyEn: bool)
    requires p < |elem| && Numbered(elem, order) && Holed(list, order, elem, p, onlyEn)
    requires if onlyEn && !elem[p].enabled then r == list
             else |r| == (if elem[p].oi < |list| then |list| else elem[p].oi + 1) &&
                  forall k :: 0 <= k < |r| ==> r[k] == if k == elem[p].oi then elem[p].name
                                                       else if k < |list| then list[k] else ""
    ensures Holed(r, order, elem, p + 1, onlyEn)
  {
    var n := p + 1;
    forall k | 0 <= k < |r| ensures r[k] == if Listed(elem, n, onlyEn, k) then order[k] else "" {
      ListedNext(elem, p, onlyEn, k);
    }
    forall k | |r| <= k < |order| ensures !Listed(elem, n, onlyEn, k) {
      ListedNext(elem, p, onlyEn, k);
    }
  }

  lemma ListedNext(elem: seq<Child>, p: nat, onlyEn: bool, k: int)
    requires p < |elem|
    ensures Listed(elem, p + 1, onlyEn, k) <==>
            Listed(elem, p, onlyEn, k) || (k == elem[p].oi && (!onlyEn || elem[p].enabled))
  {
  }

  lemma HoledAll(list: seq<string>, order: seq<string>, elem: seq<Child>, onlyEn: bool)
    requires Numbered(elem, order) && Holed(list, order, elem, |elem|, onlyEn)
    ensures if onlyEn then Compact(list) == Picked(order, EnabledNames(elem)) else list == order
  {
    ListedAll(elem, order, onlyEn);
    if onlyEn {
      CompactIsPicked(list, order, EnabledNames(elem));
    } else {
      assert |order| > 0 ==> Listed(elem, |elem|, onlyEn, |order| - 1);
    }
  }

  lemma ListedAll(elem: seq<Child>, order: seq<string>, onlyEn: bool)
    requires Numbered(elem, order)
    ensures forall k :: 0 <= k < |order| ==> (Listed(elem, |elem|, onlyEn, k) <==>
                                                !onlyEn || order[k] in EnabledNames(elem))
    ensures "" !in EnabledNames(elem)
  {
    forall k | 0 <= k < |order| ensures Listed(elem, |elem|, onlyEn, k) <==> !onlyEn || order[k] in EnabledNames(elem) {
      assert Has(elem, k);
      var i :| 0 <= i < |elem| && elem[i].oi == k;
      if order[k] in EnabledNames(elem) {
        var c :| c in elem && c.enabled && c.name == order[k];
        assert c == elem[i];
      }
      if Listed(elem, |elem|, onlyEn, k) {
        var j :| 0 <= j < |elem| && elem[j].oi == k && (!onlyEn || elem[j].enabled);
        PlacesDiffer(elem, order, i, j);
        assert elem[i] in elem;
      }
    }
  }

  lemma AbsentName(elem: seq<Child>, order: seq<string>, name: string)
    requires Numbered(elem, order) && forall i :: 0 <= i < |elem| ==> elem[i].name != name
    ensures name !in order && name !in EnabledNames(elem)
  {
    forall k | 0 <= k < |order| ensures order[k] != name { assert Has(elem, k); }
  }

  lemma SameNumbers(a: seq<Child>, b: seq<Child>, order: seq<string>)
    requires Numbered(a, order) && |a| == |b|
    requires forall i :: 0 <= i < |a| ==> a[i].name == b[i].name && a[i].oi == b[i].oi
    ensures Numbered(b, order)
  {
    forall k | 0 <= k < |order| ensures Has(b, k) {
      assert Has(a, k);
      var i :| 0 <= i < |a| && a[i].oi == k;
      assert b[i].oi == k;
    }
  }

  lemma UpdatedNames(e: seq<Child>, i: nat)
    requires i < |e|
    ensures EnabledNames(e[i := e[i].(enabled := true)]) == EnabledNames(e) + {e[i].name}
  {
    var r := e[i := e[i].(enabled := true)];
    assert r[i] in r;
    forall x | x in EnabledNames(e) ensures x in EnabledNames(r) {
      var j :| 0 <= j < |e| && e[j].enabled && e[j].name == x;
      assert r[j] in r;
    }
  }

  lemma InsertedNames(e: seq<Child>, s: seq<Child>, c: Child, at: nat)
    requires |s| == |e| && at <= |e| && c.enabled &&
             forall i :: 0 <= i < |e| ==> s[i].name == e[i].name && s[i].enabled == e[i].enabled
    ensures EnabledNames(InsertAt(s, at, c)) == EnabledNames(e) + {c.name}
  {
    var r := InsertAt(s, at, c);
    assert r[at] in r;
    forall x | x in EnabledNames(e) ensures x in EnabledNames(r) {
      var j :| 0 <= j < |e| && e[j].enabled && e[j].name == x;
      assert r[if j < at then j else j + 1] == s[j];
    }
    forall x | x in EnabledNames(r) ensures x in EnabledNames(e) + {c.name} {
      var j :| 0 <= j < |r| && r[j].enabled && r[j].name == x;
      if j != at { assert e[if j < at then j else j - 1] in e; }
    }
  }

  lemma InsertedNumbers(e: seq<Child>, o: seq<string>, c: Child, p: nat, at: nat)
    requires Numbered(e, o) && |e| <= LIMIT && c == Child(c.name, Wrap(p), true) && c.name != "" && at <= |e| &&
             p <= |e|
    requires forall i :: 0 <= i < |e| ==> e[i].name != c.name
    ensures |e| < LIMIT ==> Numbered(InsertAt(Shifted(e, p), at, c), InsertAt(o, p, c.name))
    ensures |e| == LIMIT ==> forall o' :: !Numbered(InsertAt(Shifted(e, p), at, c), o')
  {
    if |e| < LIMIT {
      assert c.oi == p;
      AddedIsNumbered(e, o, c, at);
    } else {
      TooMany(e, o, p, c.name, at);
    }
  }

  lemma RemovedNames(e: seq<Child>, s: seq<Child>, at: nat)
    requires |s| == |e| && at < |e|
    requires forall i :: 0 <= i < |e| ==> s[i].name == e[i].name && s[i].enabled == e[i].enabled
    requires forall i, j :: 0 <= i < j < |e| ==> e[i].name != e[j].name
    ensures EnabledNames(RemoveAt(s, at)) == EnabledNames(e) - {e[at].name}
  {
    var r := RemoveAt(s, at);
    forall x | x in EnabledNames(e) - {e[at].name} ensures x in EnabledNames(r) {
      var j :| 0 <= j < |e| && e[j].enabled && e[j].name == x;
      assert r[if j < at then j else j - 1] == s[j];
    }
    forall x | x in EnabledNames(r) ensures x in EnabledNames(e) - {e[at].name} {
      var j :| 0 <= j < |r| && r[j].enabled && r[j].name == x;
      assert e[if j < at then j else j + 1] in e;
    }
  }
}
