/**
 * The two tables of the climate dataset held as sequences of rows, and the
 * meaning of each query the service sends to the store: WHERE filters,
 * ORDER BY date DESC LIMIT 1, GROUP BY with COUNT, the inner join with the
 * station table, ORDER BY count DESC, MIN/AVG/MAX over temperatures, and the
 * flattening of result tuples into a list.
 */
module Tables {
  import opened Wrappers
  import Lex

  /** A row of the measurement table; precipitation and temperature may be NULL. */
  datatype Measurement = Measurement(station: string, date: string, prcp: Option<real>, tobs: Option<int>)

  /** A row of the station table (the columns the service never reads are not modelled). */
  datatype Station = Station(id: string, name: string)

  // ---------------------------------------------------------------------------
  // WHERE

  /** The conjunction of the conditions a query puts on measurement rows; None omits one. */
  datatype Where = Where(station: Option<string>, since: Option<string>, until: Option<string>)

  /** Measurement.station == station AND Measurement.date >= since AND Measurement.date <= until. */
  function Matches(w: Where, m: Measurement): (r: bool)
    ensures r && w.since.Some? && w.until.Some? ==> Lex.Le(w.since.value, w.until.value)
  {
    var ok := (w.station.None? || m.station == w.station.value)
              && (w.since.None? || Lex.Le(w.since.value, m.date))
              && (w.until.None? || Lex.Le(m.date, w.until.value));
    if ok && w.since.Some? && w.until.Some? then
      Lex.Transitive(w.since.value, m.date, w.until.value);
      ok
    else ok
  }

  /** The rows a filtered query returns, in table order. */
  function Select(ms: seq<Measurement>, w: Where): (r: seq<Measurement>)
    ensures |r| <= |ms|
    ensures forall m :: m in r ==> m in ms && Matches(w, m)
    ensures forall m :: m in ms && Matches(w, m) ==> m in r
  {
    if ms == [] then []
    else (if Matches(w, ms[0]) then [ms[0]] else []) + Select(ms[1..], w)
  }

  /** Every selected row, by position, meets the condition. */
  lemma SelectedRows(ms: seq<Measurement>, w: Where)
    ensures forall i :: 0 <= i < |Select(ms, w)| ==> Matches(w, Select(ms, w)[i])
  {
    var r := Select(ms, w);
    forall i | 0 <= i < |r|
      ensures Matches(w, r[i])
    {
      assert r[i] in r;
    }
  }

  /** Selection keeps table order: it distributes over concatenation of tables. */
  lemma {:induction false} SelectAppend(a: seq<Measurement>, b: seq<Measurement>, w: Where)
    ensures Select(a + b, w) == Select(a, w) + Select(b, w)
  {
    if a == [] {
      assert a + b == b;
    } else {
      var head := if Matches(w, a[0]) then [a[0]] else [];
      assert (a + b)[0] == a[0] && (a + b)[1..] == a[1..] + b;
      assert Select(a + b, w) == head + Select(a[1..] + b, w);
      SelectAppend(a[1..], b, w);
      assert head + (Select(a[1..], w) + Select(b, w)) == (head + Select(a[1..], w)) + Select(b, w);
    }
  }

  /** A condition that no date can meet selects nothing: since > until. */
  lemma EmptyRange(ms: seq<Measurement>, w: Where)
    requires w.since.Some? && w.until.Some? && Lex.Lt(w.until.value, w.since.value)
    ensures Select(ms, w) == []
  {
    if Select(ms, w) != [] {
      var m := Select(ms, w)[0];
      assert m in Select(ms, w);
      Lex.Antisymmetric(w.since.value, w.until.value);
    }
  }

  // ---------------------------------------------------------------------------
  // ORDER BY date DESC, first row

  /** The greatest date string of the table, None when the table is empty. */
  function LatestDate(ms: seq<Measurement>): (r: Option<string>)
    ensures r.None? <==> |ms| == 0
    ensures r.Some? ==> exists m :: m in ms && m.date == r.value
    ensures r.Some? ==> forall m :: m in ms ==> Lex.Le(m.date, r.value)
  {
    if |ms| == 0 then None
    else if |ms| == 1 then
      Lex.Reflexive(ms[0].date);
      Some(ms[0].date)
    else
      var rest := LatestDate(ms[1..]).value;
      assert ms[1] in ms[1..];
      if Lex.Le(ms[0].date, rest) then Some(rest)
      else
        Lex.Total(ms[0].date, rest);
        Lex.Reflexive(ms[0].date);
        BoundedBy(ms[1..], rest, ms[0].date);
        Some(ms[0].date)
  }

  lemma BoundedBy(ms: seq<Measurement>, lo: string, hi: string)
    requires forall m :: m in ms ==> Lex.Le(m.date, lo)
    requires Lex.Le(lo, hi)
    ensures forall m :: m in ms ==> Lex.Le(m.date, hi)
  {
    forall m | m in ms
      ensures Lex.Le(m.date, hi)
    {
      Lex.Transitive(m.date, lo, hi);
    }
  }

  // ---------------------------------------------------------------------------
  // GROUP BY with COUNT

  /** Number of occurrences of k in a column. */
  function Count(keys: seq<string>, k: string): (n: nat)
    ensures n <= |keys|
    ensures n > 0 <==> k in keys
  {
    if keys == [] then 0
    else (if keys[0] == k then 1 else 0) + Count(keys[1..], k)
  }

  lemma {:induction false} CountAppend(a: seq<string>, b: seq<string>, k: string)
    ensures Count(a + b, k) == Count(a, k) + Count(b, k)
  {
    if a == [] {
      assert a + b == b;
    } else {
      assert (a + b)[0] == a[0] && (a + b)[1..] == a[1..] + b;
      CountAppend(a[1..], b, k);
    }
  }

  /** The distinct values of a column. */
  function Distinct(keys: seq<string>): (r: seq<string>)
    ensures forall k :: k in r <==> k in keys
    ensures forall i, j :: 0 <= i < j < |r| ==> r[i] != r[j]
  {
    if keys == [] then []
    else
      var rest := Distinct(keys[1..]);
      if keys[0] in rest then rest else [keys[0]] + rest
  }

  /** One result row of `GROUP BY key` with `COUNT(key)`. */
  datatype Group = Group(key: string, count: nat)

  function Counted(keys: seq<string>, ds: seq<string>): (gs: seq<Group>)
    ensures |gs| == |ds|
    ensures forall i :: 0 <= i < |gs| ==> gs[i] == Group(ds[i], Count(keys, ds[i]))
  {
    if ds == [] then [] else [Group(ds[0], Count(keys, ds[0]))] + Counted(keys, ds[1..])
  }

  /** `GROUP BY key` with `COUNT(key)` over a column: one group per distinct value, with its count. */
  function GroupCount(keys: seq<string>): (gs: seq<Group>)
    ensures forall g :: g in gs ==> g.key in keys && g.count == Count(keys, g.key)
    ensures forall k :: k in keys ==> Group(k, Count(keys, k)) in gs
    ensures forall i, j :: 0 <= i < j < |gs| ==> gs[i].key != gs[j].key
  {
    var ds := Distinct(keys);
    var gs := Counted(keys, ds);
    assert forall k :: k in keys ==> Group(k, Count(keys, k)) in gs by {
      forall k | k in keys
        ensures Group(k, Count(keys, k)) in gs
      {
        var i :| 0 <= i < |ds| && ds[i] == k;
        assert gs[i] == Group(k, Count(keys, k));
      }
    }
    gs
  }

  // ---------------------------------------------------------------------------
  // ORDER BY count DESC

  predicate SortedByCount(gs: seq<Group>)
  {
    forall i, j :: 0 <= i < j < |gs| ==> gs[i].count >= gs[j].count
  }

  /** Every group of a permutation of `gs[1..]` plus g, with g below gs[0], is at most gs[0]. */
  lemma InsertBound(g: Group, gs: seq<Group>, tail: seq<Group>)
    requires SortedByCount(gs) && gs != [] && g.count < gs[0].count
    requires multiset(tail) == multiset(gs[1..]) + multiset{g}
    ensures forall x :: x in tail ==> x.count <= gs[0].count
  {
    forall x | x in tail
      ensures x.count <= gs[0].count
    {
      assert x in multiset(tail);
      if x != g {
        assert x in multiset(gs[1..]);
        var j :| 1 <= j < |gs| && gs[j] == x;
      }
    }
  }

  /** A sorted list stays sorted under a new first element at least as large as each. */
  lemma SortedCons(h: Group, t: seq<Group>)
    requires SortedByCount(t) && forall x :: x in t ==> x.count <= h.count
    ensures SortedByCount([h] + t)
  {
    var r := [h] + t;
    forall i, j | 0 <= i < j < |r|
      ensures r[i].count >= r[j].count
    {
      assert r[j] == t[j - 1];
      if i > 0 {
        assert r[i] == t[i - 1];
      } else {
        assert t[j - 1] in t;
      }
    }
  }

  function Insert(g: Group, gs: seq<Group>): (r: seq<Group>)
    requires SortedByCount(gs)
    ensures SortedByCount(r)
    ensures multiset(r) == multiset(gs) + multiset{g}
  {
    if gs == [] || g.count >= gs[0].count then
      SortedCons(g, gs);
      [g] + gs
    else
      var tail := Insert(g, gs[1..]);
      assert gs == [gs[0]] + gs[1..];
      InsertBound(g, gs, tail);
      SortedCons(gs[0], tail);
      [gs[0]] + tail
  }

  /** Groups ordered by count, largest first; the order among equal counts is not promised. */
  function SortByCount(gs: seq<Group>): (r: seq<Group>)
    ensures SortedByCount(r)
    ensures multiset(r) == multiset(gs)
  {
    if gs == [] then []
    else
      assert gs == [gs[0]] + gs[1..];
      Insert(gs[0], SortByCount(gs[1..]))
  }

  /** A sequence without repeated elements has every element once in its multiset. */
  lemma {:induction false} OnceEach(a: seq<Group>, x: Group)
    requires forall i, j :: 0 <= i < j < |a| ==> a[i] != a[j]
    ensures multiset(a)[x] <= 1
  {
    if a != [] {
      assert a == [a[0]] + a[1..];
      OnceEach(a[1..], x);
      if a[0] == x {
        assert x !in a[1..];
      }
    }
  }

  /** An element at two positions occurs twice in the multiset. */
  lemma Twice(b: seq<Group>, i: int, j: int)
    requires 0 <= i < j < |b| && b[i] == b[j]
    ensures multiset(b)[b[i]] >= 2
  {
    assert b == b[..j] + [b[j]] + b[j + 1..];
    assert b[i] in b[..j];
  }

  /** Every element of a permutation of gs is an element of gs. */
  lemma PermutedFrom(gs: seq<Group>, r: seq<Group>)
    requires multiset(r) == multiset(gs)
    ensures forall i :: 0 <= i < |r| ==> r[i] in gs
    ensures forall g :: g in gs ==> g in r
  {
    forall i | 0 <= i < |r| ensures r[i] in gs {
      assert r[i] in multiset(r);
    }
    forall g | g in gs ensures g in r {
      assert g in multiset(gs);
    }
  }

  /** A permutation of groups with distinct keys, each with its count, has distinct keys. */
  lemma PermutedKeysDistinct(keys: seq<string>, gs: seq<Group>, r: seq<Group>)
    requires multiset(r) == multiset(gs)
    requires forall g :: g in gs ==> g.count == Count(keys, g.key)
    requires forall i, j :: 0 <= i < j < |gs| ==> gs[i].key != gs[j].key
    ensures forall i, j :: 0 <= i < j < |r| ==> r[i].key != r[j].key
  {
    PermutedFrom(gs, r);
    forall i, j | 0 <= i < j < |r| ensures r[i].key != r[j].key {
      if r[i].key == r[j].key {
        assert r[i] == r[j];
        Twice(r, i, j);
        OnceEach(gs, r[i]);
      }
    }
  }

  /** `GROUP BY key` with `COUNT(key)` `ORDER BY COUNT(key) DESC`: every key once, with its count, largest first. */
  function Ranking(keys: seq<string>): (r: seq<Group>)
    ensures SortedByCount(r)
    ensures forall i :: 0 <= i < |r| ==> r[i].key in keys && r[i].count == Count(keys, r[i].key)
    ensures forall k :: k in keys ==> exists i :: 0 <= i < |r| && r[i].key == k
    ensures forall i, j :: 0 <= i < j < |r| ==> r[i].key != r[j].key
  {
    var gs := GroupCount(keys);
    var r := SortByCount(gs);
    PermutedFrom(gs, r);
    PermutedKeysDistinct(keys, gs, r);
    assert forall k :: k in keys ==> Group(k, Count(keys, k)) in r;
    r
  }

  // ---------------------------------------------------------------------------
  // JOIN station ON Measurement.station == Station.station

  /** The station column of the measurement table. */
  function StationColumn(ms: seq<Measurement>): (keys: seq<string>)
    ensures |keys| == |ms|
    ensures forall i :: 0 <= i < |ms| ==> keys[i] == ms[i].station
  {
    if ms == [] then [] else [ms[0].station] + StationColumn(ms[1..])
  }

  lemma InStationColumn(ms: seq<Measurement>, s: string)
    ensures s in StationColumn(ms) <==> exists m :: m in ms && m.station == s
  {
    var keys := StationColumn(ms);
    if s in keys {
      var i :| 0 <= i < |keys| && keys[i] == s;
      assert ms[i] in ms;
    }
    if m :| m in ms && m.station == s {
      var i :| 0 <= i < |ms| && ms[i] == m;
      assert keys[i] == s;
    }
  }

  /** How many station rows carry the id s. */
  function IdCount(sts: seq<Station>, s: string): (n: nat)
    ensures n <= |sts|
    ensures n > 0 <==> exists st :: st in sts && st.id == s
  {
    if sts == [] then 0
    else
      assert sts[0] in sts;
      assert forall st :: st in sts[1..] ==> st in sts;
      assert forall st :: st in sts && st != sts[0] ==> st in sts[1..];
      (if sts[0].id == s then 1 else 0) + IdCount(sts[1..], s)
  }

  /** Station ids are unique: the id is the key of the station table. */
  predicate UniqueIds(sts: seq<Station>)
  {
    forall i, j :: 0 <= i < j < |sts| ==> sts[i].id != sts[j].id
  }

  lemma {:induction false} UniqueIdCount(sts: seq<Station>, s: string)
    requires UniqueIds(sts)
    ensures IdCount(sts, s) <= 1
  {
    if sts != [] {
      UniqueIdCount(sts[1..], s);
    }
  }

  function Repeat(s: string, n: nat): (r: seq<string>)
    ensures |r| == n && forall i :: 0 <= i < n ==> r[i] == s
  {
    if n == 0 then [] else [s] + Repeat(s, n - 1)
  }

  lemma {:induction false} CountRepeat(s: string, n: nat, k: string)
    ensures Count(Repeat(s, n), k) == if s == k then n else 0
  {
    if n > 0 {
      assert Repeat(s, n)[1..] == Repeat(s, n - 1);
      CountRepeat(s, n - 1, k);
    }
  }

  /** The Measurement.station column of the inner join: one entry per joined pair of rows. */
  function JoinKeys(ms: seq<Measurement>, sts: seq<Station>): (keys: seq<string>)
    ensures forall k :: k in keys ==> k in StationColumn(ms) && IdCount(sts, k) > 0
  {
    if ms == [] then []
    else Repeat(ms[0].station, IdCount(sts, ms[0].station)) + JoinKeys(ms[1..], sts)
  }

  /** A station's row count in the join is its measurement count times its station rows. */
  lemma {:induction false} JoinCount(ms: seq<Measurement>, sts: seq<Station>, s: string)
    ensures Count(JoinKeys(ms, sts), s) == Count(StationColumn(ms), s) * IdCount(sts, s)
  {
    if ms != [] {
      var head, tail := Repeat(ms[0].station, IdCount(sts, ms[0].station)), JoinKeys(ms[1..], sts);
      var col := StationColumn(ms);
      assert JoinKeys(ms, sts) == head + tail;
      CountAppend(head, tail, s);
      CountRepeat(ms[0].station, IdCount(sts, ms[0].station), s);
      JoinCount(ms[1..], sts, s);
      assert col[1..] == StationColumn(ms[1..]);
      JoinCountStep(Count(JoinKeys(ms, sts), s), Count(head, s), Count(tail, s),
                    Count(col, s), Count(col[1..], s), IdCount(sts, s), ms[0].station == s);
    }
  }

  /** The arithmetic of one step of JoinCount. */
  lemma JoinCountStep(total: nat, head: nat, tail: nat, col: nat, rest: nat, n: nat, same: bool)
    requires total == head + tail && tail == rest * n
    requires head == (if same then n else 0) && col == (if same then rest + 1 else rest)
    ensures total == col * n
  {
    if same {
      MulSucc(rest, n);
    }
  }

  /** Every station in the join has a measurement row and a station row. */
  lemma {:induction false} JoinedHasRows(ms: seq<Measurement>, sts: seq<Station>, s: string)
    requires s in JoinKeys(ms, sts)
    ensures exists m :: m in ms && m.station == s
    ensures exists st :: st in sts && st.id == s
  {
    var head := Repeat(ms[0].station, IdCount(sts, ms[0].station));
    assert JoinKeys(ms, sts) == head + JoinKeys(ms[1..], sts);
    if s in head {
      assert ms[0] in ms;
    } else {
      JoinedHasRows(ms[1..], sts, s);
      var m :| m in ms[1..] && m.station == s;
      assert m in ms;
    }
  }

  /** A measurement whose station has a station row is in the join. */
  lemma {:induction false} RowsJoined(ms: seq<Measurement>, sts: seq<Station>, m: Measurement, st: Station)
    requires m in ms && st in sts && m.station == st.id
    ensures m.station in JoinKeys(ms, sts)
  {
    var head := Repeat(ms[0].station, IdCount(sts, ms[0].station));
    assert JoinKeys(ms, sts) == head + JoinKeys(ms[1..], sts);
    if m == ms[0] {
      assert head[0] == m.station;
    } else {
      RowsJoined(ms[1..], sts, m, st);
    }
  }

  /** The name of the first station row with id s. */
  function NameOf(sts: seq<Station>, s: string): (name: string)
    requires exists st :: st in sts && st.id == s
    ensures exists st :: st in sts && st.id == s && st.name == name
  {
    if sts[0].id == s then sts[0].name
    else
      assert forall st :: st in sts && st.id == s ==> st in sts[1..];
      var name := NameOf(sts[1..], s);
      assert forall st :: st in sts[1..] ==> st in sts;
      name
  }

  /** A row of the station roster query: station id, its joined row count, its name. */
  datatype RosterRow = RosterRow(station: string, count: nat, name: string)

  function Named(gs: seq<Group>, sts: seq<Station>): (r: seq<RosterRow>)
    requires forall i :: 0 <= i < |gs| ==> exists st :: st in sts && st.id == gs[i].key
    ensures |r| == |gs|
    ensures forall i :: 0 <= i < |gs| ==>
              r[i].station == gs[i].key && r[i].count == gs[i].count
              && exists st :: st in sts && st.id == gs[i].key && st.name == r[i].name
    ensures SortedByCount(gs) ==> forall i, j :: 0 <= i < j < |r| ==> r[i].count >= r[j].count
    ensures (forall i, j :: 0 <= i < j < |gs| ==> gs[i].key != gs[j].key) ==>
              forall i, j :: 0 <= i < j < |r| ==> r[i].station != r[j].station
  {
    seq(|gs|, i requires 0 <= i < |gs| => RosterRow(gs[i].key, gs[i].count, NameOf(sts, gs[i].key)))
  }

  /**
   * The roster query of the station analysis: measurements joined with the
   * station table on the station id, grouped by station, counted, and ordered
   * by count, largest first.  Each row's name is that of a station row with its
   * id (the first one, where the table repeats an id).
   */
  function Roster(ms: seq<Measurement>, sts: seq<Station>): (r: seq<RosterRow>)
    ensures forall i, j :: 0 <= i < j < |r| ==> r[i].count >= r[j].count
    ensures forall i, j :: 0 <= i < j < |r| ==> r[i].station != r[j].station
    ensures forall i :: 0 <= i < |r| ==>
              (exists m :: m in ms && m.station == r[i].station)
              && (exists st :: st in sts && st.id == r[i].station && st.name == r[i].name)
  {
    var gs := Ranking(JoinKeys(ms, sts));
    RankedJoined(ms, sts);
    Named(gs, sts)
  }

  /** Every station the join ranks has a measurement row and a station row. */
  lemma RankedJoined(ms: seq<Measurement>, sts: seq<Station>)
    ensures forall i :: 0 <= i < |Ranking(JoinKeys(ms, sts))| ==>
              (exists m :: m in ms && m.station == Ranking(JoinKeys(ms, sts))[i].key)
              && (exists st :: st in sts && st.id == Ranking(JoinKeys(ms, sts))[i].key)
  {
    var gs := Ranking(JoinKeys(ms, sts));
    forall i | 0 <= i < |gs|
      ensures (exists m :: m in ms && m.station == gs[i].key) && (exists st :: st in sts && st.id == gs[i].key)
    {
      JoinedHasRows(ms, sts, gs[i].key);
    }
  }

  /** Every station with both a measurement and a station row is on the roster. */
  lemma RosterCovers(ms: seq<Measurement>, sts: seq<Station>, m: Measurement, st: Station)
    requires m in ms && st in sts && m.station == st.id
    ensures m.station in StationsOf(Roster(ms, sts))
  {
    var gs := Ranking(JoinKeys(ms, sts));
    RowsJoined(ms, sts, m, st);
    var i :| 0 <= i < |gs| && gs[i].key == m.station;
    assert StationsOf(Roster(ms, sts))[i] == m.station;
  }

  /** The station column of a roster. */
  function StationsOf(r: seq<RosterRow>): (ids: seq<string>)
    ensures |ids| == |r| && forall i :: 0 <= i < |r| ==> ids[i] == r[i].station
  {
    seq(|r|, i requires 0 <= i < |r| => r[i].station)
  }

  /** A roster row's count is the station's measurement count times its station rows. */
  lemma RosterCount(ms: seq<Measurement>, sts: seq<Station>, i: int)
    requires 0 <= i < |Roster(ms, sts)|
    ensures Roster(ms, sts)[i].count == Count(StationColumn(ms), Roster(ms, sts)[i].station) * IdCount(sts, Roster(ms, sts)[i].station)
  {
    var gs := Ranking(JoinKeys(ms, sts));
    assert Roster(ms, sts)[i].count == gs[i].count;
    JoinCount(ms, sts, gs[i].key);
  }

  /** Under unique station ids, a roster row counts exactly the station's measurements. */
  lemma RosterCounts(ms: seq<Measurement>, sts: seq<Station>, i: int)
    requires UniqueIds(sts) && 0 <= i < |Roster(ms, sts)|
    ensures Roster(ms, sts)[i].count == Count(StationColumn(ms), Roster(ms, sts)[i].station)
  {
    var r := Roster(ms, sts);
    var s := r[i].station;
    RosterCount(ms, sts, i);
    UniqueIdCount(sts, s);
    var st :| st in sts && st.id == s && st.name == r[i].name;
    assert IdCount(sts, s) > 0;
    MulOne(Count(StationColumn(ms), s), IdCount(sts, s));
  }

  lemma MulOne(c: nat, n: nat)
    requires 0 < n <= 1
    ensures c * n == c
  {
  }

  // ---------------------------------------------------------------------------
  // MIN, AVG, MAX of tobs

  /** The non-NULL temperatures of the rows, in order: what the aggregates see. */
  function Temps(ms: seq<Measurement>): (ts: seq<int>)
    ensures forall t :: t in ts <==> exists m :: m in ms && m.tobs == Some(t)
  {
    if ms == [] then []
    else
      var rest := Temps(ms[1..]);
      assert forall m :: m in ms <==> m == ms[0] || m in ms[1..];
      (if ms[0].tobs.Some? then [ms[0].tobs.value] else []) + rest
  }

  function Min(xs: seq<int>): (r: int)
    requires |xs| > 0
    ensures r in xs && forall x :: x in xs ==> r <= x
  {
    if |xs| == 1 then xs[0]
    else
      var m := Min(xs[1..]);
      assert forall x :: x in xs ==> x == xs[0] || x in xs[1..];
      if xs[0] <= m then xs[0] else m
  }

  function Max(xs: seq<int>): (r: int)
    requires |xs| > 0
    ensures r in xs && forall x :: x in xs ==> x <= r
  {
    if |xs| == 1 then xs[0]
    else
      var m := Max(xs[1..]);
      assert forall x :: x in xs ==> x == xs[0] || x in xs[1..];
      if xs[0] >= m then xs[0] else m
  }

  function Sum(xs: seq<int>): int
  {
    if xs == [] then 0 else xs[0] + Sum(xs[1..])
  }

  lemma {:induction false} SumBounds(xs: seq<int>, lo: int, hi: int)
    requires forall x :: x in xs ==> lo <= x <= hi
    ensures |xs| * lo <= Sum(xs) <= |xs| * hi
  {
    if xs != [] {
      var rest := xs[1..];
      assert forall x :: x in rest ==> x in xs;
      SumBounds(rest, lo, hi);
      assert Sum(xs) == xs[0] + Sum(rest);
      assert xs[0] in xs;
      MulSucc(|rest|, lo);
      MulSucc(|rest|, hi);
    }
  }

  lemma MulSucc(k: nat, x: int)
    ensures (k + 1) * x == k * x + x
  {
  }

  lemma QuotientBounds(s: real, n: real, lo: real, hi: real)
    requires n > 0.0 && n * lo <= s <= n * hi
    ensures lo <= s / n <= hi
  {
  }

  lemma RealProduct(a: int, b: int)
    ensures (a * b) as real == (a as real) * (b as real)
  {
  }

  /** The arithmetic mean of values within [lo, hi] lies within [lo, hi]. */
  lemma MeanBounds(xs: seq<int>, lo: int, hi: int)
    requires |xs| > 0
    requires forall x :: x in xs ==> lo <= x <= hi
    ensures (lo as real) <= (Sum(xs) as real) / (|xs| as real) <= (hi as real)
  {
    var n, total := |xs|, Sum(xs);
    SumBounds(xs, lo, hi);
    RealProduct(n, lo);
    RealProduct(n, hi);
    QuotientBounds(total as real, n as real, lo as real, hi as real);
  }

  /** MIN, AVG and MAX of a column; all three NULL when it has no non-NULL value. */
  datatype Stats = Stats(min: Option<int>, avg: Option<real>, max: Option<int>)

  /**
   * `SELECT MIN(tobs), AVG(tobs), MAX(tobs)` over the given rows.  The average
   * is the exact mean; the store's floating-point rounding is not modelled.
   */
  function Aggregate(ms: seq<Measurement>): (s: Stats)
    ensures s.min.None? <==> (forall m :: m in ms ==> m.tobs.None?)
    ensures s.avg.None? <==> s.min.None?
    ensures s.max.None? <==> s.min.None?
    ensures s.min.Some? ==>
              s.max.Some? && s.avg.Some? && (s.min.value as real) <= s.avg.value <= (s.max.value as real)
    ensures s.min.Some? ==>
              (exists m :: m in ms && m.tobs == s.min)
              && (forall m :: m in ms && m.tobs.Some? ==> s.min.value <= m.tobs.value)
    ensures s.max.Some? ==>
              (exists m :: m in ms && m.tobs == s.max)
              && (forall m :: m in ms && m.tobs.Some? ==> m.tobs.value <= s.max.value)
  {
    var ts := Temps(ms);
    if ts == [] then
      Stats(None, None, None)
    else
      MeanBounds(ts, Min(ts), Max(ts));
      assert ts[0] in ts;
      assert forall m :: m in ms && m.tobs.Some? ==> m.tobs.value in ts;
      Stats(Some(Min(ts)), Some((Sum(ts) as real) / (|ts| as real)), Some(Max(ts)))
  }

  // ---------------------------------------------------------------------------
  // Flattening result tuples (numpy's ravel over a list of tuples)

  /** The entries of all result tuples, row after row. */
  function Ravel<T(!new)>(rows: seq<seq<T>>): (r: seq<T>)
    ensures forall x :: x in r <==> exists i :: 0 <= i < |rows| && x in rows[i]
  {
    if rows == [] then [] else rows[0] + Ravel(rows[1..])
  }

  /** Ravelling one-column rows gives their single entries, one per row, in order. */
  lemma {:induction false} RavelSingletons<T(!new)>(rows: seq<seq<T>>)
    requires forall i :: 0 <= i < |rows| ==> |rows[i]| == 1
    ensures |Ravel(rows)| == |rows|
    ensures forall i :: 0 <= i < |rows| ==> Ravel(rows)[i] == rows[i][0]
  {
    if rows != [] {
      RavelSingletons(rows[1..]);
      assert rows[0] == [rows[0][0]];
      forall i | 1 <= i < |rows|
        ensures Ravel(rows)[i] == rows[i][0]
      {
        assert Ravel(rows)[i] == Ravel(rows[1..])[i - 1];
        assert rows[1..][i - 1] == rows[i];
      }
    }
  }
}
