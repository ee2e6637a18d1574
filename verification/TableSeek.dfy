/** Going through a table row by row, with the rows read page by page, and going through the records of the
    configuration file and of a table. The table does not change meanwhile. */
module TableSeek {

  const SEEK_PRELOAD_LIM: nat := 100

  datatype Row = Row(cells: seq<string>)

  datatype Option<T> = None | Some(value: T)

  function RowAt(rows: seq<Row>, i: nat): Option<Row> {
    if i < |rows| then Some(rows[i]) else None
  }

  /** The answer of the database: the head row, and `limit` rows from `offset` on as far as there are. */
  function Selected(head: Row, rows: seq<Row>, limit: nat, offset: nat): (r: seq<Row>)
    ensures |r| == 1 + if offset >= |rows| then 0 else if offset + limit > |rows| then |rows| - offset else limit
    ensures forall i :: 1 <= i < |r| ==> r[i] == rows[offset + i - 1]
  {
    [head] + if offset >= |rows| then [] else if offset + limit > |rows| then rows[offset..]
                                              else rows[offset..offset + limit]
  }

  /** Each session holds a page. */
  ghost predicate Sessions(head: Row, rows: seq<Row>, sess: map<string, seq<Row>>, pages: map<string, nat>) {
    pages.Keys == sess.Keys && forall k :: k in pages ==> HoldsPage(head, rows, sess[k], pages[k])
  }

  ghost predicate HoldsPage(head: Row, rows: seq<Row>, tbl: seq<Row>, p: nat) {
    tbl == Selected(head, rows, SEEK_PRELOAD_LIM, p * SEEK_PRELOAD_LIM) && |tbl| > 1
  }

  lemma SessionsWithout(head: Row, rows: seq<Row>, sess: map<string, seq<Row>>, pages: map<string, nat>, key: string)
    requires Sessions(head, rows, sess, pages)
    ensures Sessions(head, rows, sess - {key}, pages - {key})
  {
    assert (pages - {key}).Keys == pages.Keys - {key} && (sess - {key}).Keys == sess.Keys - {key};
  }

  lemma SessionsWith(head: Row, rows: seq<Row>, sess: map<string, seq<Row>>, pages: map<string, nat>, key: string,
                     p: nat)
    requires Sessions(head, rows, sess, pages)
    ensures var tbl := Selected(head, rows, SEEK_PRELOAD_LIM, p * SEEK_PRELOAD_LIM);
            |tbl| > 1 ==> Sessions(head, rows, sess[key := tbl], pages[key := p])
  {
    var tbl := Selected(head, rows, SEEK_PRELOAD_LIM, p * SEEK_PRELOAD_LIM);
    assert pages[key := p].Keys == pages.Keys + {key} && sess[key := tbl].Keys == sess.Keys + {key};
  }

  class Table {
    const head: Row
    const rows: seq<Row>
    var seekSess: map<string, seq<Row>>
    ghost var pages: map<string, nat>

    constructor (head: Row, rows: seq<Row>)
      ensures Valid() && this.head == head && this.rows == rows && seekSess == map[]
    {
      this.head, this.rows, seekSess, pages := head, rows, map[], map[];
    }

    ghost predicate Valid()
      reads this
    {
      Sessions(head, rows, seekSess, pages)
    }

    /** The page that a session takes a row from: the one it holds, unless the row is the first one of a page. */
    ghost function PageFor(key: string, row: nat): nat
      reads this
    {
      if key in pages && row % SEEK_PRELOAD_LIM != 0 then pages[key] else row / SEEK_PRELOAD_LIM
    }

    /** Without a session the row itself; with one, the row with its place in the page that the session takes it from.
        The session is over when there is no row. */
    method FieldSeek(row: nat, cacheKey: string) returns (r: Option<Row>)
      requires Valid()
      modifies this
      ensures Valid()
      ensures r == old(Sought(cacheKey, row)) && pages == old(PagesAfter(cacheKey, row))
    {
      ghost var p := PageFor(cacheKey, row);
      var tbl := Load(row, cacheKey);
      var i := if cacheKey != "" then row % SEEK_PRELOAD_LIM + 1 else 1;
      RowInPage(head, rows, row, p);
      if |tbl| < 2 || (cacheKey != "" && i >= |tbl|) {
        if cacheKey != "" {
          SessionsWithout(head, rows, seekSess, pages, cacheKey);
          seekSess, pages := seekSess - {cacheKey}, pages - {cacheKey};
        }
        return None;
      }
      if cacheKey != "" {
        SessionsWith(head, rows, seekSess, pages, cacheKey, p);
        seekSess, pages := seekSess[cacheKey := tbl], pages[cacheKey := p];
      }
      r := Some(tbl[i]);
    }

    /** The rows of the session, or those that are asked of the database. */
    method Load(row: nat, cacheKey: string) returns (tbl: seq<Row>)
      requires Valid()
      ensures tbl == if cacheKey == "" then Selected(head, rows, 1, row)
                     else Selected(head, rows, SEEK_PRELOAD_LIM, PageFor(cacheKey, row) * SEEK_PRELOAD_LIM)
    {
      tbl := [];
      if cacheKey != "" && cacheKey in seekSess { tbl := seekSess[cacheKey]; }
      if cacheKey == "" || |tbl| == 0 || row % SEEK_PRELOAD_LIM == 0 {
        tbl := if cacheKey == "" then Selected(head, rows, 1, row)
               else Selected(head, rows, SEEK_PRELOAD_LIM, row / SEEK_PRELOAD_LIM * SEEK_PRELOAD_LIM);
      }
    }

    /** Asking for the rows one after another, whatever the session was used for before, gives all of them in order,
        with a session and without. */
    method ReadAll(cacheKey: string) returns (out: seq<Row>)
      requires Valid()
      modifies this
      ensures Valid() && out == rows
    {
      out := [];
      var r := FirstSeek(cacheKey);
      while r.Some?
        invariant Valid() && r == RowAt(rows, |out|) && (r.Some? ==> OnRow(|out|, cacheKey))
        invariant |out| <= |rows| && forall k :: 0 <= k < |out| ==> out[k] == rows[k]
        decreases |rows| - |out|
      {
        var row := |out|;
        out := out + [r.value];
        r := NextSeek(row, cacheKey);
      }
      assert out == rows;
    }

    method FirstSeek(cacheKey: string) returns (r: Option<Row>)
      requires Valid()
      modifies this
      ensures Valid() && r == RowAt(rows, 0) && (r.Some? ==> OnRow(0, cacheKey))
    {
      r := FieldSeek(0, cacheKey);
    }

    method NextSeek(row: nat, cacheKey: string) returns (r: Option<Row>)
      requires Valid() && OnRow(row, cacheKey)
      modifies this
      ensures Valid() && r == RowAt(rows, row + 1) && (r.Some? ==> OnRow(row + 1, cacheKey))
    {
      NextRow(row);
      r := FieldSeek(row + 1, cacheKey);
    }

    /** The session has come to the page of the row. */
    ghost predicate OnRow(row: nat, key: string)
      reads this
    {
      key == "" || (key in pages && pages[key] == row / SEEK_PRELOAD_LIM)
    }

    /** The row that a level asks for, as the session finds it. */
    ghost function Sought(key: string, row: nat): Option<Row>
      reads this
    {
      RowAt(rows, if key == "" then row else PageFor(key, row) * SEEK_PRELOAD_LIM + row % SEEK_PRELOAD_LIM)
    }

    ghost function PagesAfter(key: string, row: nat): map<string, nat>
      reads this
    {
      if key == "" then pages else if Sought(key, row).Some? then pages[key := PageFor(key, row)] else pages - {key}
    }

    /** One record of the configuration or, with the levels that the configuration takes off, a row of the table. */
    method DataSeek(conf: Conf, lev: nat, cacheKey: string) returns (r: Option<Found>)
      requires Valid()
      modifies this
      ensures Valid()
      ensures lev < |Confs(conf)| ==> r == Some(Confs(conf)[lev]) && pages == old(pages)
      ensures lev >= |Confs(conf)| ==>
                r == FromRow(old(Sought(cacheKey, RowOf(conf, lev)))) &&
                pages == old(PagesAfter(cacheKey, RowOf(conf, lev)))
    {
      var c_lev;
      r, c_lev := ConfSeek(conf, lev);
      if r.None? {
        assert lev >= |Confs(conf)| && lev - c_lev == RowOf(conf, lev);
        r := RowSeek(lev - c_lev, cacheKey);
      }
    }

    method RowSeek(row: nat, cacheKey: string) returns (r: Option<Found>)
      requires Valid()
      modifies this
      ensures Valid()
      ensures r == FromRow(old(Sought(cacheKey, row))) && pages == old(PagesAfter(cacheKey, row))
    {
      var found := FieldSeek(row, cacheKey);
      r := FromRow(found);
    }

    /** The page that a session holds before the first level is asked for. */
    ghost function Held(key: string): nat
      reads this
    {
      if key != "" && key in pages then pages[key] else 0
    }

    /** Asking for the levels one after another, whatever the session was used for before: the records of the
        configuration and then the rows of the table; after the node of one parameter, the first row is left out, and
        the rows up to the next page are those of the page that the session holds. */
    method Enumerate(conf: Conf, cacheKey: string) returns (out: seq<Found>)
      requires Valid()
      modifies this
      ensures Valid() && IsPage(rows, old(Held(cacheKey))) && out == Enumerated(conf, rows, old(Held(cacheKey)))
    {
      ghost var p := Held(cacheKey);
      HeldIsPage(cacheKey);
      out := Levels(conf, cacheKey, p);
      EnumeratedLevels(conf, rows, p, out);
    }

    method Levels(conf: Conf, cacheKey: string, ghost p: nat) returns (out: seq<Found>)
      requires Valid() && p == Held(cacheKey)
      modifies this
      ensures Valid() && Listing(conf, rows, p, out, None)
    {
      out := [];
      var r := First(conf, cacheKey, p);
      while r.Some?
        invariant Valid() && Listing(conf, rows, p, out, r)
        invariant r.Some? ==> OnPage(conf, |out|, cacheKey, p)
        decreases |Confs(conf)| + |rows| - |out|
      {
        ghost var pre := out;
        var lev := |out|;
        out := out + [r.value];
        r := Next(conf, lev, cacheKey, p);
        Listed(conf, rows, p, pre, out, r);
      }
    }

    method First(conf: Conf, cacheKey: string, ghost p: nat) returns (r: Option<Found>)
      requires Valid() && p == Held(cacheKey)
      modifies this
      ensures Valid() && r == LevelAt(conf, rows, p, 0) && (r.Some? ==> OnPage(conf, 0, cacheKey, p))
    {
      assert |Confs(conf)| == 0 ==> RowOf(conf, 0) == 0;
      r := DataSeek(conf, 0, cacheKey);
    }

    lemma HeldIsPage(key: string)
      requires Valid()
      ensures IsPage(rows, Held(key))
    {
      assert key in pages ==> HoldsPage(head, rows, seekSess[key], pages[key]);
    }

    method Next(conf: Conf, lev: nat, cacheKey: string, ghost p: nat) returns (r: Option<Found>)
      requires Valid() && OnPage(conf, lev, cacheKey, p) && LevelAt(conf, rows, p, lev).Some?
      modifies this
      ensures Valid() && r == LevelAt(conf, rows, p, lev + 1) && (r.Some? ==> OnPage(conf, lev + 1, cacheKey, p))
    {
      if lev + 1 >= |Confs(conf)| { NextPage(conf, lev, cacheKey, p); }
      r := DataSeek(conf, lev + 1, cacheKey);
    }

    /** The session takes the next row from the page of the next level. */
    lemma NextPage(conf: Conf, lev: nat, key: string, p: nat)
      requires OnPage(conf, lev, key, p) && lev + 1 >= |Confs(conf)|
      ensures var row := RowOf(conf, lev + 1);
              if key == "" then PageOf(conf, row, p) * SEEK_PRELOAD_LIM + row % SEEK_PRELOAD_LIM == row
              else PageFor(key, row) == PageOf(conf, row, p)
    {
      if lev >= |Confs(conf)| { NextRow(RowOf(conf, lev)); }
    }

    /** The session has come to the page of the level. */
    ghost predicate OnPage(conf: Conf, lev: nat, key: string, p: nat)
      reads this
    {
      if lev < |Confs(conf)| then p == Held(key)
      else if key == "" then p == 0
      else key in pages && pages[key] == PageOf(conf, RowOf(conf, lev), p)
    }
  }

  /** The levels that the configuration answers; the others are counted down by its matches. */
  method ConfSeek(conf: Conf, lev: nat) returns (r: Option<Found>, c_lev: nat)
    ensures r == if lev < |Confs(conf)| then Some(Confs(conf)[lev]) else None
    ensures lev >= |Confs(conf)| ==> c_lev <= lev && lev - c_lev == RowOf(conf, lev)
  {
    c_lev := 0;
    match conf {
      case NoConf =>
      case Prm => if lev == 0 { return Some(InConf(0)), 0; }
      case Fields(matches) =>
        var iFld := 0;
        assert matches[..0] == [];
        while iFld < |matches|
          invariant 0 <= iFld <= |matches| && c_lev == |Matched(matches[..iFld])| <= lev
        {
          MatchedNext(matches, iFld, lev);
          if matches[iFld] {
            if lev <= c_lev { return Some(InConf(iFld)), c_lev; }
            c_lev := c_lev + 1;
          }
          iFld := iFld + 1;
        }
        assert matches[..iFld] == matches;
    }
    r := None;
  }

  lemma RowInPage(head: Row, rows: seq<Row>, row: nat, p: nat)
    ensures var one, page := Selected(head, rows, 1, row), Selected(head, rows, SEEK_PRELOAD_LIM, p * SEEK_PRELOAD_LIM);
            var i := row % SEEK_PRELOAD_LIM;
            RowAt(rows, row) == (if |one| < 2 then None else Some(one[1])) &&
            RowAt(rows, p * SEEK_PRELOAD_LIM + i) == if i + 1 >= |page| then None else Some(page[i + 1])
  {
  }

  lemma NextRow(row: nat)
    ensures (row + 1) % SEEK_PRELOAD_LIM != 0 ==> (row + 1) / SEEK_PRELOAD_LIM == row / SEEK_PRELOAD_LIM
    ensures (row + 1) / SEEK_PRELOAD_LIM * SEEK_PRELOAD_LIM + (row + 1) % SEEK_PRELOAD_LIM == row + 1
  {
  }

  /** A session answers right for a row that is not the first one of its page exactly if it holds that page, or if
      there is no row at either place. */
  lemma SessionIsRightIff(rows: seq<Row>, row: nat, p: nat)
    requires forall i, j :: 0 <= i < j < |rows| ==> rows[i] != rows[j]
    ensures var at := p * SEEK_PRELOAD_LIM + row % SEEK_PRELOAD_LIM;
            RowAt(rows, at) == RowAt(rows, row) <==> p == row / SEEK_PRELOAD_LIM || (at >= |rows| && row >= |rows|)
  {
  }

  // ----- the configuration and the table -----

  datatype Found = InConf(i: nat) | InTable(row: Row)

  /** What the configuration file has: nothing, the node of one parameter, or fields of which some have the keys. */
  datatype Conf = NoConf | Prm | Fields(matches: seq<bool>)

  function FromRow(r: Option<Row>): Option<Found> {
    match r
    case None => None
    case Some(row) => Some(InTable(row))
  }

  function Matched(matches: seq<bool>): seq<Found> {
    if |matches| == 0 then []
    else
      var n := |matches| - 1;
      Matched(matches[..n]) + if matches[n] then [InConf(n)] else []
  }

  /** The records of the configuration, in order. */
  function Confs(conf: Conf): seq<Found> {
    match conf
    case NoConf => []
    case Prm => [InConf(0)]
    case Fields(matches) => Matched(matches)
  }

  function RowOf(conf: Conf, lev: nat): nat
    requires lev >= |Confs(conf)|
  {
    if conf == Prm then lev else lev - |Confs(conf)|
  }

  function InTables(rows: seq<Row>): (r: seq<Found>)
    ensures |r| == |rows|
  {
    seq(|rows|, i requires 0 <= i < |rows| => InTable(rows[i]))
  }

  /** A session can hold the page. */
  predicate IsPage(rows: seq<Row>, p: nat) {
    p == 0 || p * SEEK_PRELOAD_LIM < |rows|
  }

  /** The rows after the first one, with those up to the next page taken from the page `p`; the last page has less. */
  function AfterFirst(rows: seq<Row>, p: nat): seq<Row>
    requires IsPage(rows, p) && |rows| > 0
  {
    var i := p * SEEK_PRELOAD_LIM;
    if i + SEEK_PRELOAD_LIM <= |rows| then rows[i + 1..i + SEEK_PRELOAD_LIM] + rows[SEEK_PRELOAD_LIM..]
    else rows[i + 1..]
  }

  function Enumerated(conf: Conf, rows: seq<Row>, p: nat): seq<Found>
    requires IsPage(rows, p)
  {
    Confs(conf) + InTables(if conf == Prm && |rows| > 0 then AfterFirst(rows, p) else rows)
  }

  /** The page that a level's row is taken from, of a session that held the page `p` before. */
  function PageOf(conf: Conf, row: nat, p: nat): nat {
    if conf == Prm && row < SEEK_PRELOAD_LIM then p else row / SEEK_PRELOAD_LIM
  }

  /** What the level asks for. */
  function LevelAt(conf: Conf, rows: seq<Row>, p: nat, lev: nat): Option<Found> {
    if lev < |Confs(conf)| then Some(Confs(conf)[lev])
    else
      var row := RowOf(conf, lev);
      FromRow(RowAt(rows, PageOf(conf, row, p) * SEEK_PRELOAD_LIM + row % SEEK_PRELOAD_LIM))
  }

  /** The levels so far have been listed, and `r` is the answer for the next one. */
  ghost predicate Listing(conf: Conf, rows: seq<Row>, p: nat, out: seq<Found>, r: Option<Found>) {
    r == LevelAt(conf, rows, p, |out|) && forall k :: 0 <= k < |out| ==> LevelAt(conf, rows, p, k) == Some(out[k])
  }

  lemma Listed(conf: Conf, rows: seq<Row>, p: nat, pre: seq<Found>, out: seq<Found>, r: Option<Found>)
    requires |out| == |pre| + 1 && out == pre + [out[|pre|]] && Listing(conf, rows, p, pre, Some(out[|pre|]))
    requires r == LevelAt(conf, rows, p, |out|)
    ensures Listing(conf, rows, p, out, r) && |out| <= |Confs(conf)| + |rows|
  {
    forall k | 0 <= k < |out| ensures LevelAt(conf, rows, p, k) == Some(out[k]) {
      if k < |pre| { assert LevelAt(conf, rows, p, k) == Some(pre[k]); }
    }
    LevelInTable(conf, rows, p, |pre|);
  }

  /** The levels after the records of the configuration are the rows, those of a stale page among them. */
  lemma LevelInTable(conf: Conf, rows: seq<Row>, p: nat, lev: nat)
    ensures lev >= |Confs(conf)| && LevelAt(conf, rows, p, lev).Some? ==> lev < |Confs(conf)| + |rows|
    ensures lev >= |Confs(conf)| ==>
              LevelAt(conf, rows, p, lev) ==
              FromRow(RowAt(rows, if conf == Prm && lev < SEEK_PRELOAD_LIM then p * SEEK_PRELOAD_LIM + lev
                                  else RowOf(conf, lev)))
  {
  }

  lemma EnumeratedLevels(conf: Conf, rows: seq<Row>, p: nat, out: seq<Found>)
    requires IsPage(rows, p) && forall k :: 0 <= k < |out| ==> LevelAt(conf, rows, p, k) == Some(out[k])
    requires LevelAt(conf, rows, p, |out|) == None
    ensures out == Enumerated(conf, rows, p)
  {
    var all := Enumerated(conf, rows, p);
    EndOfLevels(conf, rows, p);
    forall k | 0 <= k < |out| && k < |all| ensures out[k] == all[k] {
      LevelIs(conf, rows, p, k);
      assert LevelAt(conf, rows, p, k) == Some(out[k]);
    }
    if |out| < |all| { LevelIs(conf, rows, p, |out|); }
  }

  lemma LevelIs(conf: Conf, rows: seq<Row>, p: nat, k: nat)
    requires IsPage(rows, p) && k < |Enumerated(conf, rows, p)|
    ensures LevelAt(conf, rows, p, k) == Some(Enumerated(conf, rows, p)[k])
  {
    LevelInTable(conf, rows, p, k);
    if conf == Prm && k > 0 { AfterFirstAt(rows, p, k - 1); }
  }

  lemma AfterFirstAt(rows: seq<Row>, p: nat, i: nat)
    requires IsPage(rows, p) && |rows| > 0 && i < |AfterFirst(rows, p)|
    ensures var at := if i + 1 < SEEK_PRELOAD_LIM then p * SEEK_PRELOAD_LIM + i + 1 else i + 1;
            at < |rows| && AfterFirst(rows, p)[i] == rows[at]
  {
  }

  lemma EndOfLevels(conf: Conf, rows: seq<Row>, p: nat)
    requires IsPage(rows, p)
    ensures LevelAt(conf, rows, p, |Enumerated(conf, rows, p)|) == None
  {
    LevelInTable(conf, rows, p, |Enumerated(conf, rows, p)|);
  }

  /** Each record and each row comes once exactly if the table is empty or the configuration has no node of one
      parameter. */
  lemma EnumeratedIsAllIff(conf: Conf, rows: seq<Row>, p: nat)
    requires IsPage(rows, p)
    ensures Enumerated(conf, rows, p) == Confs(conf) + InTables(rows) <==> conf != Prm || |rows| == 0
  {
    assert |Confs(conf) + InTables(rows)| == |Confs(conf)| + |rows|;
    assert conf == Prm && |rows| > 0 ==> |Enumerated(conf, rows, p)| <= |rows|;
  }

  /** After the node of one parameter the other rows all come, in order, exactly if the session holds no page or the
      first one; a configuration without such a node begins with the first row, which sets the page. */
  lemma StaleIsRightIff(conf: Conf, rows: seq<Row>, p: nat)
    requires IsPage(rows, p) && forall i, j :: 0 <= i < j < |rows| ==> rows[i] != rows[j]
    ensures Enumerated(conf, rows, p) == Enumerated(conf, rows, 0) <==> conf != Prm || p == 0
  {
    if conf == Prm && p > 0 {
      var i := p * SEEK_PRELOAD_LIM;
      if i + SEEK_PRELOAD_LIM <= |rows| {
        assert Enumerated(conf, rows, p)[1] == InTable(rows[i + 1]);
        assert Enumerated(conf, rows, 0)[1] == InTable(rows[1]);
      } else {
        assert |Enumerated(conf, rows, p)| < |Enumerated(conf, rows, 0)|;
      }
    }
  }

  /** An instance: with 150 rows and the second page held by the session, only the last 49 rows come after the node. */
  lemma StaleExample(rows: seq<Row>)
    requires |rows| == 150
    ensures Enumerated(Prm, rows, 1) == [InConf(0)] + InTables(rows[101..])
  {
  }

  lemma {:induction false} MatchedNext(matches: seq<bool>, i: nat, lev: nat)
    requires i < |matches| && lev >= |Matched(matches[..i])|
    ensures |Matched(matches[..i + 1])| == |Matched(matches[..i])| + if matches[i] then 1 else 0
    ensures matches[i] && lev == |Matched(matches[..i])| ==>
              lev < |Matched(matches)| && Matched(matches)[lev] == InConf(i)
    decreases |matches|
  {
    assert matches[..i + 1][..i] == matches[..i];
    if i + 1 == |matches| {
      assert matches[..i + 1] == matches;
    } else {
      var n := |matches| - 1;
      assert matches[..n][..i] == matches[..i];
      MatchedNext(matches[..n], i, lev);
    }
  }
}
