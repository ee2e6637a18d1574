/** The flow form of a value buffer: entries in strictly ascending time, read as a map from time to value. */
module Flow {
  import opened RunLength

  ghost predicate Ascending<T>(v: seq<Stamp<T>>) {
    forall i, j :: 0 <= i < j < |v| ==> v[i].tm < v[j].tm
  }

  function AsMap<T>(v: seq<Stamp<T>>): map<int, T> {
    if v == [] then map[] else AsMap(v[..|v| - 1])[v[|v| - 1].tm := v[|v| - 1].val]
  }

  /** The keys of the map are the stored times, and each has the value stored with it. */
  lemma {:induction false} AsMapEntries<T>(v: seq<Stamp<T>>)
    requires Ascending(v)
    ensures forall i :: 0 <= i < |v| ==> v[i].tm in AsMap(v) && AsMap(v)[v[i].tm] == v[i].val
    ensures forall t :: t in AsMap(v) ==> exists i :: 0 <= i < |v| && v[i].tm == t
  {
    if v != [] {
      var w := v[..|v| - 1];
      AsMapEntries(w);
      forall i | 0 <= i < |v| ensures v[i].tm in AsMap(v) && AsMap(v)[v[i].tm] == v[i].val {
        if i < |w| { assert w[i] == v[i]; }
      }
      forall t | t in AsMap(v) ensures exists i :: 0 <= i < |v| && v[i].tm == t {
        if t in AsMap(w) {
          var i :| 0 <= i < |w| && w[i].tm == t;
          assert v[i].tm == t;
        } else {
          assert v[|v| - 1].tm == t;
        }
      }
    }
  }

  /** Inserting at the place found by the scan adds one key to the map. */
  lemma {:induction false} InsertIsUpdate<T>(v: seq<Stamp<T>>, c: nat, e: Stamp<T>)
    requires c <= |v|
    requires forall i :: c <= i < |v| ==> e.tm < v[i].tm
    ensures AsMap(v[..c] + [e] + v[c..]) == AsMap(v)[e.tm := e.val]
  {
    var w, n := v[..c] + [e] + v[c..], |v|;
    if c == n {
      assert w[..n] == v;
    } else {
      InsertIsUpdate(v[..n - 1], c, e);
      assert w[..n] == v[..n - 1][..c] + [e] + v[..n - 1][c..];
    }
  }

  lemma {:induction false} ReplaceIsUpdate<T>(v: seq<Stamp<T>>, c: nat, e: Stamp<T>)
    requires Ascending(v) && c < |v| && v[c].tm == e.tm
    ensures AsMap(v[c := e]) == AsMap(v)[e.tm := e.val]
  {
    var w, n := v[c := e], |v|;
    if c == n - 1 {
      assert w[..n - 1] == v[..n - 1];
    } else {
      ReplaceIsUpdate(v[..n - 1], c, e);
      assert w[..n - 1] == v[..n - 1][c := e];
    }
  }

  lemma {:induction false} EraseOldestIsRemove<T>(v: seq<Stamp<T>>)
    requires Ascending(v) && v != []
    ensures AsMap(v[1..]) == AsMap(v) - {v[0].tm}
  {
    var n := |v|;
    if n == 1 {
      assert v[..0] == [] && v[1..] == [];
      assert AsMap(v) == map[v[0].tm := v[0].val];
    } else {
      EraseOldestIsRemove(v[..n - 1]);
      assert v[1..][..n - 2] == v[..n - 1][1..];
    }
  }

  /** What a read of a flow buffer may answer: in up order the first stored time at or after the asked one, in
      down order the last one at or before it, each with the value stored there. */
  ghost predicate FlowAnswers<T>(m: map<int, T>, eval: T, tm: int, up: bool, val: T, otm: int) {
    if exists t :: t in m && (if up then tm <= t else t <= tm) then
      otm in m && val == m[otm] && (if up then tm <= otm else otm <= tm) &&
      forall t :: t in m && (if up then tm <= t else t <= tm) ==> if up then otm <= t else t <= otm
    else val == eval
  }

  lemma InsertAscending<T>(v: seq<Stamp<T>>, c: nat, e: Stamp<T>)
    requires Ascending(v) && c <= |v|
    requires c > 0 ==> v[c - 1].tm < e.tm
    requires c < |v| ==> e.tm < v[c].tm
    ensures Ascending(v[..c] + [e] + v[c..])
    ensures forall i :: c <= i < |v| ==> e.tm < v[i].tm
  {
  }

  /** An entry found from both sides is the answer. */
  lemma NearestAnswers<T>(v: seq<Stamp<T>>, eval: T, tm: int, up: bool, i: nat)
    requires Ascending(v) && i < |v|
    requires if up then tm <= v[i].tm && (i > 0 ==> v[i - 1].tm < tm)
             else v[i].tm <= tm && (i + 1 < |v| ==> tm < v[i + 1].tm)
    ensures FlowAnswers(AsMap(v), eval, tm, up, v[i].val, v[i].tm)
  {
    AsMapEntries(v);
    forall t | t in AsMap(v) && (if up then tm <= t else t <= tm)
      ensures if up then v[i].tm <= t else t <= v[i].tm
    {
      var j :| 0 <= j < |v| && v[j].tm == t;
      if up {
        assert i == 0 || v[i - 1].tm < tm;
      } else {
        assert i + 1 == |v| || tm < v[i + 1].tm;
      }
    }
  }
}
