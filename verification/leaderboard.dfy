/** The default player selection (app.py:105-107) and the leaderboard card
    grid (app.py:331-345). Both sort rows by `Position` with pandas'
    default, unstable sort, so the model accepts any order that is a
    permutation of the rows and nondecreasing by position. */
module Leaderboard {
  import opened Wrappers
  import opened Numerals
  import opened Table
  import opened Rounds

  const DefaultPlayerCount: nat := 6
  const LeaderboardSize: nat := 8
  const CardColumns: nat := 4

  predicate SortedByPosition(rows: seq<Row>) {
    forall i, j :: 0 <= i < j < |rows| ==> rows[i].position <= rows[j].position
  }

  /** `sorted` is an order that `rows.sort_values("Position")` may produce. */
  predicate SortsByPosition(rows: seq<Row>, sorted: seq<Row>) {
    multiset(sorted) == multiset(rows) && SortedByPosition(sorted)
  }

  /** A row no later in position than the head of a sorted sequence may be
      put in front of it. */
  lemma ConsSorted(row: Row, rest: seq<Row>)
    requires SortedByPosition(rest)
    requires rest != [] ==> row.position <= rest[0].position
    ensures SortedByPosition([row] + rest)
  {
    var r := [row] + rest;
    forall i, j | 0 <= i < j < |r|
      ensures r[i].position <= r[j].position
    {
      assert r[j] == rest[j - 1];
      if i > 0 {
        assert r[i] == rest[i - 1];
      }
    }
  }

  function InsertByPosition(row: Row, sorted: seq<Row>): (r: seq<Row>)
    requires SortedByPosition(sorted)
    ensures |r| == |sorted| + 1
    ensures r[0] == if sorted == [] || row.position < sorted[0].position then row else sorted[0]
    ensures SortedByPosition(r)
    ensures multiset(r) == multiset(sorted) + multiset{row}
  {
    if sorted == [] || row.position < sorted[0].position then
      ConsSorted(row, sorted);
      [row] + sorted
    else
      var rest := InsertByPosition(row, sorted[1..]);
      assert sorted == [sorted[0]] + sorted[1..];
      assert multiset(sorted) == multiset{sorted[0]} + multiset(sorted[1..]);
      ConsSorted(sorted[0], rest);
      [sorted[0]] + rest
  }

  /** One admissible result of `sort_values("Position")`, so every
      selection below has an input. A row is inserted after the rows of
      equal position already placed, so ties keep table order. */
  function SortByPosition(rows: seq<Row>): (sorted: seq<Row>)
    ensures SortsByPosition(rows, sorted)
  {
    if rows == [] then []
    else
      assert rows == rows[..|rows| - 1] + [rows[|rows| - 1]];
      InsertByPosition(rows[|rows| - 1], SortByPosition(rows[..|rows| - 1]))
  }

  function MinNat(a: nat, b: nat): nat {
    if a < b then a else b
  }

  /** pandas `head(n)`. */
  function Head(rows: seq<Row>, n: nat): seq<Row>
  {
    rows[..MinNat(n, |rows|)]
  }

  function Names(rows: seq<Row>): seq<string>
  {
    seq(|rows|, i requires 0 <= i < |rows| => rows[i].shortName)
  }

  /** Every row of a sorting of the rows at `hole` is a row of the table
      at that hole. */
  lemma SortedRowsAtHole(table: Table, hole: int, sorted: seq<Row>)
    requires SortsByPosition(AtHole(table, hole), sorted)
    ensures forall k :: 0 <= k < |sorted| ==> sorted[k] in table && sorted[k].hole == hole
  {
    forall k | 0 <= k < |sorted|
      ensures sorted[k] in table && sorted[k].hole == hole
    {
      assert sorted[k] in multiset(AtHole(table, hole));
    }
  }

  /** A sorted head holds rows no worse than any row left out of it. */
  lemma HeadIsBest(rows: seq<Row>, sorted: seq<Row>, n: nat)
    requires SortsByPosition(rows, sorted)
    ensures multiset(Head(sorted, n)) <= multiset(rows)
    ensures forall r, s :: (r in multiset(rows) - multiset(Head(sorted, n)) && s in Head(sorted, n)) ==>
              s.position <= r.position
  {
    var k := MinNat(n, |sorted|);
    var head, tail := sorted[..k], sorted[k..];
    HeadAndTail(sorted, k);
    SortedSplit(sorted, k);
    assert Head(sorted, n) == head;
    forall r | r in multiset(rows) - multiset(head)
      ensures r in tail
    {
      assert r in multiset(tail);
    }
  }

  lemma HeadAndTail(sorted: seq<Row>, k: nat)
    requires k <= |sorted|
    ensures multiset(sorted[..k]) <= multiset(sorted)
    ensures multiset(sorted) - multiset(sorted[..k]) == multiset(sorted[k..])
  {
    assert sorted == sorted[..k] + sorted[k..];
  }

  lemma SortedSplit(sorted: seq<Row>, k: nat)
    requires k <= |sorted| && SortedByPosition(sorted)
    ensures forall r, s :: r in sorted[k..] && s in sorted[..k] ==> s.position <= r.position
  {
    forall r, s | r in sorted[k..] && s in sorted[..k]
      ensures s.position <= r.position
    {
      var a :| 0 <= a < k && sorted[..k][a] == s;
      var b :| 0 <= b < |sorted| - k && sorted[k..][b] == r;
      assert sorted[a] == s && sorted[k + b] == r;
    }
  }

  /** `top_players`: the distinct short names among the first six rows at
      the last hole of the table, in order of first appearance. */
  function DefaultPlayers(table: Table, sorted: seq<Row>): (players: seq<string>)
    requires |table| > 0 && SortsByPosition(AtHole(table, MaxHole(table)), sorted)
    ensures |players| <= DefaultPlayerCount
    ensures forall i, j :: 0 <= i < j < |players| ==> players[i] != players[j]
    ensures forall i :: 0 <= i < |players| ==>
              exists row :: row in table && row.shortName == players[i] && row.hole == MaxHole(table)
    ensures forall i :: 0 <= i < |players| ==> players[i] in Names(Head(sorted, DefaultPlayerCount))
    ensures forall k :: 0 <= k < |Head(sorted, DefaultPlayerCount)| ==>
              Head(sorted, DefaultPlayerCount)[k].shortName in players
  {
    var top := Head(sorted, DefaultPlayerCount);
    var players := Unique(Names(top));
    SortedRowsAtHole(table, MaxHole(table), sorted);
    forall i | 0 <= i < |players|
      ensures exists row :: row in table && row.shortName == players[i] && row.hole == MaxHole(table)
    {
      var k :| 0 <= k < |top| && Names(top)[k] == players[i];
      assert top[k] == sorted[k];
    }
    forall k | 0 <= k < |top|
      ensures top[k].shortName in players
    {
      assert Names(top)[k] == top[k].shortName;
    }
    players
  }

  /** The position that put a name on the list: that of its first row. */
  function PositionOf(rows: seq<Row>, name: string): int
    requires name in Names(rows)
  {
    rows[FirstIndex(Names(rows), name)].position
  }

  /** Default players are listed in the order in which their names first
      occur among the first six rows, hence in nondecreasing final position. */
  lemma DefaultPlayersOrdered(table: Table, sorted: seq<Row>)
    requires |table| > 0 && SortsByPosition(AtHole(table, MaxHole(table)), sorted)
    ensures forall i, j :: 0 <= i < j < |DefaultPlayers(table, sorted)| ==>
              FirstIndex(Names(Head(sorted, DefaultPlayerCount)), DefaultPlayers(table, sorted)[i])
              < FirstIndex(Names(Head(sorted, DefaultPlayerCount)), DefaultPlayers(table, sorted)[j])
    ensures forall i, j :: 0 <= i < j < |DefaultPlayers(table, sorted)| ==>
              PositionOf(Head(sorted, DefaultPlayerCount), DefaultPlayers(table, sorted)[i])
              <= PositionOf(Head(sorted, DefaultPlayerCount), DefaultPlayers(table, sorted)[j])
  {
    var top := Head(sorted, DefaultPlayerCount);
    assert DefaultPlayers(table, sorted) == Unique(Names(top));
    assert SortedByPosition(top);
    UniqueNamesByPosition(top);
  }

  /** The distinct names of sorted rows, in order of first appearance, come
      in nondecreasing position of their first rows. */
  lemma UniqueNamesByPosition(rows: seq<Row>)
    requires SortedByPosition(rows)
    ensures forall i, j :: 0 <= i < j < |Unique(Names(rows))| ==>
              FirstIndex(Names(rows), Unique(Names(rows))[i]) < FirstIndex(Names(rows), Unique(Names(rows))[j])
    ensures forall i, j :: 0 <= i < j < |Unique(Names(rows))| ==>
              PositionOf(rows, Unique(Names(rows))[i]) <= PositionOf(rows, Unique(Names(rows))[j])
  {
    var names := Names(rows);
    var u := Unique(names);
    UniqueKeepsFirstOccurrenceOrder(names);
    forall i, j | 0 <= i < j < |u|
      ensures PositionOf(rows, u[i]) <= PositionOf(rows, u[j])
    {
      assert FirstIndex(names, u[i]) < FirstIndex(names, u[j]);
    }
  }

  /** No row at the last hole that did not make the first six has a better
      position than a default player. */
  lemma DefaultPlayersAreBest(table: Table, sorted: seq<Row>)
    requires |table| > 0 && SortsByPosition(AtHole(table, MaxHole(table)), sorted)
    ensures forall i, r :: (0 <= i < |DefaultPlayers(table, sorted)| &&
              r in multiset(AtHole(table, MaxHole(table))) - multiset(Head(sorted, DefaultPlayerCount))) ==>
              DefaultPlayers(table, sorted)[i] in Names(Head(sorted, DefaultPlayerCount)) &&
              PositionOf(Head(sorted, DefaultPlayerCount), DefaultPlayers(table, sorted)[i]) <= r.position
  {
    var top := Head(sorted, DefaultPlayerCount);
    var players := DefaultPlayers(table, sorted);
    assert players == Unique(Names(top));
    HeadIsBest(AtHole(table, MaxHole(table)), sorted, DefaultPlayerCount);
    forall i | 0 <= i < |players|
      ensures top[FirstIndex(Names(top), players[i])] in top
    {
    }
  }

  /** One card of the grid: its column, its CSS position class and its row. */
  datatype Card = Card(column: nat, positionClass: string, row: Row)

  /** `f"position-{int(p)}"` when `p <= 3`, else no class. */
  function PositionClass(position: int): (c: string)
    ensures c != "" <==> position <= 3
    ensures position <= 3 ==> "position-" <= c && ParseInt(c[9..]) == Some(position)
    ensures 1 <= position <= 3 ==> c == ["position-1", "position-2", "position-3"][position - 1]
  {
    if position <= 3 then
      var c := "position-" + IntToString(position);
      assert c[9..] == IntToString(position);
      IntRoundTrip(position);
      c
    else ""
  }

  /** The leaderboard at `max(hole_range)`: the first eight rows of that
      hole in position order, card `i` in column `i % 4`. */
  function LeaderboardCards(table: Table, range: HoleRange, sorted: seq<Row>): (cards: seq<Card>)
    requires !range.IsEmpty() && SortsByPosition(AtHole(table, range.Max()), sorted)
    ensures |cards| == MinNat(LeaderboardSize, |AtHole(table, range.Max())|)
    ensures |cards| == |Head(sorted, LeaderboardSize)|
    ensures forall i :: 0 <= i < |cards| ==> cards[i].row == Head(sorted, LeaderboardSize)[i]
    ensures forall i :: 0 <= i < |cards| ==> cards[i].column == i % CardColumns < CardColumns
    ensures forall i :: 0 <= i < |cards| ==> cards[i].row in table && cards[i].row.hole == range.Max()
    ensures forall i, j :: 0 <= i < j < |cards| ==> cards[i].row.position <= cards[j].row.position
    ensures forall i :: 0 <= i < |cards| ==> cards[i].positionClass == PositionClass(cards[i].row.position)
  {
    var top := Head(sorted, LeaderboardSize);
    var cards := seq(|top|, i requires 0 <= i < |top| => Card(i % CardColumns, PositionClass(top[i].position), top[i]));
    assert |multiset(sorted)| == |AtHole(table, range.Max())|;
    SortedRowsAtHole(table, range.Max(), sorted);
    forall i | 0 <= i < |cards|
      ensures cards[i].row in table && cards[i].row.hole == range.Max()
    {
      assert top[i] == sorted[i];
    }
    cards
  }

  function CardRows(cards: seq<Card>): seq<Row>
  {
    seq(|cards|, i requires 0 <= i < |cards| => cards[i].row)
  }

  /** The grid shows exactly the first eight sorted rows: their multiset is
      part of the rows at that hole, and no row at that hole that is left off
      the grid has a better position than a row on it. */
  lemma LeaderboardShowsBest(table: Table, range: HoleRange, sorted: seq<Row>)
    requires !range.IsEmpty() && SortsByPosition(AtHole(table, range.Max()), sorted)
    ensures CardRows(LeaderboardCards(table, range, sorted)) == Head(sorted, LeaderboardSize)
    ensures multiset(CardRows(LeaderboardCards(table, range, sorted))) <= multiset(AtHole(table, range.Max()))
    ensures forall i, r :: (0 <= i < |LeaderboardCards(table, range, sorted)| &&
              r in multiset(AtHole(table, range.Max())) - multiset(CardRows(LeaderboardCards(table, range, sorted)))) ==>
              LeaderboardCards(table, range, sorted)[i].row.position <= r.position
  {
    HeadIsBest(AtHole(table, range.Max()), sorted, LeaderboardSize);
    var cards := LeaderboardCards(table, range, sorted);
    var top := Head(sorted, LeaderboardSize);
    assert CardRows(cards) == top;
    forall i | 0 <= i < |cards|
      ensures cards[i].row in top
    {
      assert cards[i].row == top[i];
    }
  }
}
