/** The tournament table: one row per player and hole, loaded once and
    then only read (app.py:90-100). */
module Table {
  import opened Wrappers

  /** One row of the CSV file. `hole` is the global hole number 1..72. */
  datatype Row = Row(
    shortName: string,
    fullName: string,
    round: int,
    hole: int,
    position: int,
    totalScore: int)

  type Table = seq<Row>

  /** The y-axis column of the chart: `"Position"` or `"Total_Score"`. */
  datatype Metric = Position | TotalScore

  function Value(row: Row, metric: Metric): int
  {
    match metric
    case Position => row.position
    case TotalScore => row.totalScore
  }

  /** `data["Hole_Number"].max()`; pandas yields NaN on an empty table and
      the hole range built from it then fails, so a row is demanded. */
  function MaxHole(table: Table): (m: int)
    requires |table| > 0
    ensures forall i :: 0 <= i < |table| ==> table[i].hole <= m
    ensures exists i :: 0 <= i < |table| && table[i].hole == m
  {
    if |table| == 1 then table[0].hole
    else
      var rest := MaxHole(table[..|table| - 1]);
      var last := table[|table| - 1].hole;
      if last > rest then last else rest
  }

  predicate IsRowAt(row: Row, player: string, hole: int) {
    row.shortName == player && row.hole == hole
  }

  /** `player_data[player_data["Hole_Number"] == hole]` followed by
      `.iloc[0]`: the first row of `player` at `hole`, or `None` when the
      filtered frame is empty. */
  function FirstRow(table: Table, player: string, hole: int): (r: Option<Row>)
    ensures r.None? <==> forall i :: 0 <= i < |table| ==> !IsRowAt(table[i], player, hole)
    ensures r.Some? ==> exists k :: 0 <= k < |table| && table[k] == r.value && IsRowAt(r.value, player, hole)
                          && forall j :: 0 <= j < k ==> !IsRowAt(table[j], player, hole)
  {
    if table == [] then None
    else if IsRowAt(table[0], player, hole) then Some(table[0])
    else
      var r := FirstRow(table[1..], player, hole);
      assert forall i :: 1 <= i < |table| ==> table[i] == table[1..][i - 1];
      r
  }

  predicate HasPlayer(table: Table, player: string) {
    exists i :: 0 <= i < |table| && table[i].shortName == player
  }

  /** `data[data["Short_Name"] == player].iloc[0]`: the player's first row. */
  function FirstRowOf(table: Table, player: string): (row: Row)
    requires HasPlayer(table, player)
    ensures exists k :: 0 <= k < |table| && table[k] == row
                          && forall j :: 0 <= j < k ==> table[j].shortName != player
    ensures row.shortName == player
  {
    if table[0].shortName == player then table[0]
    else
      assert HasPlayer(table[1..], player) by {
        var i :| 0 <= i < |table| && table[i].shortName == player;
        assert table[1..][i - 1] == table[i];
      }
      var row := FirstRowOf(table[1..], player);
      assert forall i :: 1 <= i < |table| ==> table[i] == table[1..][i - 1];
      row
  }

  /** `data[data["Hole_Number"] == hole]`: the rows at `hole`, in table order. */
  function AtHole(table: Table, hole: int): (rows: Table)
    ensures forall row :: row in rows <==> row in table && row.hole == hole
    ensures multiset(rows) <= multiset(table)
  {
    if table == [] then []
    else
      var rest := AtHole(table[..|table| - 1], hole);
      var last := table[|table| - 1];
      assert table == table[..|table| - 1] + [last];
      if last.hole == hole then rest + [last] else rest
  }

  /** The selection keeps every row at `hole` as often as the table holds
      it, and no other row. */
  lemma {:induction false} AtHoleCounts(table: Table, hole: int)
    ensures forall x :: multiset(AtHole(table, hole))[x] == if x.hole == hole then multiset(table)[x] else 0
  {
    if table != [] {
      var front := table[..|table| - 1];
      var last := table[|table| - 1];
      assert table == front + [last];
      assert multiset(table) == multiset(front) + multiset{last};
      AtHoleCounts(front, hole);
    }
  }

  /** Selecting rows commutes with concatenation, so the selection keeps
      table order. */
  lemma {:induction false} AtHoleConcat(a: Table, b: Table, hole: int)
    ensures AtHole(a + b, hole) == AtHole(a, hole) + AtHole(b, hole)
    decreases |b|
  {
    if b == [] {
      assert a + b == a;
    } else {
      var b' := b[..|b| - 1];
      var last := b[|b| - 1];
      assert a + b == (a + b') + [last];
      assert b == b' + [last];
      AtHoleConcat(a, b', hole);
      AtHoleSnoc(a + b', last, hole);
      AtHoleSnoc(b', last, hole);
    }
  }

  lemma AtHoleSnoc(table: Table, row: Row, hole: int)
    ensures AtHole(table + [row], hole) == AtHole(table, hole) + if row.hole == hole then [row] else []
  {
    var t := table + [row];
    assert t[..|t| - 1] == table;
  }

  /** pandas `Series.unique()`: each value once, in order of first appearance. */
  function Unique<T(==)>(s: seq<T>): (u: seq<T>)
    ensures forall i :: 0 <= i < |u| ==> u[i] in s
    ensures forall i :: 0 <= i < |s| ==> s[i] in u
    ensures forall i, j :: 0 <= i < j < |u| ==> u[i] != u[j]
    ensures |u| <= |s|
  {
    if s == [] then []
    else
      var u := Unique(s[..|s| - 1]);
      var last := s[|s| - 1];
      assert s == s[..|s| - 1] + [last];
      if last in u then u else u + [last]
  }

  /** Index of the first occurrence of `x` in `s`. */
  function FirstIndex<T(==)>(s: seq<T>, x: T): (k: nat)
    requires x in s
    ensures k < |s| && s[k] == x && x !in s[..k]
  {
    if s[0] == x then 0
    else
      var k := FirstIndex(s[1..], x);
      assert s[..k + 1] == [s[0]] + s[1..][..k];
      k + 1
  }

  /** `unique()` lists values in the order of their first occurrence. */
  lemma {:induction false} UniqueKeepsFirstOccurrenceOrder<T>(s: seq<T>)
    ensures forall i, j :: 0 <= i < j < |Unique(s)| ==>
              FirstIndex(s, Unique(s)[i]) < FirstIndex(s, Unique(s)[j])
  {
    if s != [] {
      var init := s[..|s| - 1];
      var last := s[|s| - 1];
      UniqueKeepsFirstOccurrenceOrder(init);
      var u := Unique(init);
      forall x | x in init
        ensures FirstIndex(s, x) == FirstIndex(init, x)
      {
        FirstIndexOfPrefix(s, init, x);
      }
      if last !in u {
        assert Unique(s) == u + [last];
        assert last !in init;
        assert FirstIndex(s, last) == |s| - 1;
      }
    }
  }

  lemma FirstIndexOfPrefix<T>(s: seq<T>, init: seq<T>, x: T)
    requires init <= s && x in init
    ensures FirstIndex(s, x) == FirstIndex(init, x)
  {
    var a := FirstIndex(s, x);
    var b := FirstIndex(init, x);
    assert s[b] == x;
  }
}
