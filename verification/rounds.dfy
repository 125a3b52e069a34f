/** The round selector: its option labels, how a chosen label is read back,
    the hole range it selects and the rows it keeps (app.py:127, 139-152).
    Holes are numbered globally: hole `k` of round `r` is `(r - 1) * 18 + k`. */
module Rounds {
  import opened Wrappers
  import opened Numerals
  import opened Table

  const HolesPerRound: int := 18

  datatype RoundChoice = AllRounds | SingleRound(round: int)

  const AllRoundsLabel: string := "All Rounds"

  function RoundLabel(round: int): string
  {
    "Round " + IntToString(round)
  }

  /** The radio options: `["All Rounds"] + [f"Round {r}" for r in rounds]`
      where `rounds` is `data["Round"].unique()`. */
  function RoundOptions(table: Table): (options: seq<string>)
    ensures |options| == |RoundsOf(table)| + 1 && options[0] == AllRoundsLabel
    ensures forall i :: 0 <= i < |RoundsOf(table)| ==> options[i + 1] == RoundLabel(RoundsOf(table)[i])
  {
    var rounds := RoundsOf(table);
    [AllRoundsLabel] + seq(|rounds|, i requires 0 <= i < |rounds| => RoundLabel(rounds[i]))
  }

  /** The selector offers no label twice. */
  lemma RoundOptionsDistinct(table: Table)
    ensures forall i, j :: 0 <= i < j < |RoundOptions(table)| ==> RoundOptions(table)[i] != RoundOptions(table)[j]
  {
    var options := RoundOptions(table);
    var rounds := RoundsOf(table);
    forall i, j | 0 <= i < j < |options|
      ensures options[i] != options[j]
    {
      assert options[j] == RoundLabel(rounds[j - 1]);
      if i == 0 {
        RoundLabelNotAll(rounds[j - 1]);
      } else {
        assert options[i] == RoundLabel(rounds[i - 1]);
        RoundLabelInjective(rounds[i - 1], rounds[j - 1]);
      }
    }
  }

  /** The selector offers a label for every round of the table, and besides
      `"All Rounds"` nothing else. */
  lemma RoundOptionsCoverRounds(table: Table)
    ensures forall k :: 0 <= k < |table| ==> RoundLabel(table[k].round) in RoundOptions(table)
    ensures forall i :: 1 <= i < |RoundOptions(table)| ==>
              exists k :: 0 <= k < |table| && RoundOptions(table)[i] == RoundLabel(table[k].round)
  {
    var options := RoundOptions(table);
    var rounds := RoundsOf(table);
    forall k | 0 <= k < |table|
      ensures RoundLabel(table[k].round) in options
    {
      var j :| 0 <= j < |rounds| && rounds[j] == table[k].round;
      assert options[j + 1] == RoundLabel(table[k].round);
    }
    forall i | 1 <= i < |options|
      ensures exists k :: 0 <= k < |table| && options[i] == RoundLabel(table[k].round)
    {
      var k :| 0 <= k < |table| && table[k].round == rounds[i - 1];
      assert options[i] == RoundLabel(table[k].round);
    }
  }

  lemma RoundLabelNotAll(r: int)
    ensures RoundLabel(r) != AllRoundsLabel
  {
    assert RoundLabel(r)[1] == 'o' != AllRoundsLabel[1];
  }

  lemma RoundLabelInjective(a: int, b: int)
    requires a != b
    ensures RoundLabel(a) != RoundLabel(b)
  {
    IntToStringInjective(a, b);
    assert RoundLabel(a)[6..] == IntToString(a);
    assert RoundLabel(b)[6..] == IntToString(b);
  }

  /** The `Round` column, in table order. */
  function RoundColumn(table: Table): (column: seq<int>)
    ensures |column| == |table|
    ensures forall k :: 0 <= k < |table| ==> column[k] == table[k].round
  {
    seq(|table|, i requires 0 <= i < |table| => table[i].round)
  }

  /** `data["Round"].unique()`. */
  function RoundsOf(table: Table): (rounds: seq<int>)
    ensures forall k :: 0 <= k < |table| ==> table[k].round in rounds
    ensures forall i :: 0 <= i < |rounds| ==> exists k :: 0 <= k < |table| && table[k].round == rounds[i]
    ensures forall i, j :: 0 <= i < j < |rounds| ==> rounds[i] != rounds[j]
  {
    var column := RoundColumn(table);
    var rounds := Unique(column);
    forall k | 0 <= k < |table|
      ensures table[k].round in rounds
    {
      assert column[k] == table[k].round;
    }
    rounds
  }

  /** The rounds are listed in the order of their first appearance in the
      `Round` column. */
  lemma RoundsOfFirstAppearance(table: Table)
    ensures forall i, j :: 0 <= i < j < |RoundsOf(table)| ==>
              FirstIndex(RoundColumn(table), RoundsOf(table)[i]) < FirstIndex(RoundColumn(table), RoundsOf(table)[j])
  {
    assert RoundsOf(table) == Unique(RoundColumn(table));
    UniqueKeepsFirstOccurrenceOrder(RoundColumn(table));
  }

  /** Python's `s.split(" ")`: the fields between single spaces, empty
      fields included. */
  function SplitOnSpace(s: string): (fields: seq<string>)
    ensures |fields| >= 1
    ensures forall i :: 0 <= i < |fields| ==> ' ' !in fields[i]
    ensures JoinWithSpace(fields) == s
    ensures |fields| == 1 <==> ' ' !in s
  {
    if s == [] then [[]]
    else
      var rest := SplitOnSpace(s[1..]);
      if s[0] == ' ' then
        assert s == " " + s[1..];
        [[]] + rest
      else
        var fields := [[s[0]] + rest[0]] + rest[1..];
        JoinFirst(s[0], rest);
        assert s == [s[0]] + s[1..];
        fields
  }

  /** `" ".join(fields)`. */
  function JoinWithSpace(fields: seq<string>): string
    requires |fields| >= 1
  {
    if |fields| == 1 then fields[0] else fields[0] + " " + JoinWithSpace(fields[1..])
  }

  lemma JoinFirst(c: char, fields: seq<string>)
    requires |fields| >= 1
    ensures JoinWithSpace([[c] + fields[0]] + fields[1..]) == [c] + JoinWithSpace(fields)
  {
    var g := [[c] + fields[0]] + fields[1..];
    if |fields| > 1 {
      var rest := JoinWithSpace(fields[1..]);
      assert g[1..] == fields[1..];
      assert JoinWithSpace(g) == g[0] + " " + rest;
      PrependAssociates(c, fields[0], rest);
    }
  }

  lemma PrependAssociates(c: char, first: string, rest: string)
    ensures ([c] + first) + " " + rest == [c] + (first + " " + rest)
  {
  }

  lemma {:induction false} SplitWord(w: string)
    requires ' ' !in w
    ensures SplitOnSpace(w) == [w]
  {
    if w != [] {
      SplitWord(w[1..]);
    }
  }

  lemma {:induction false} SplitAfterWord(a: string, b: string)
    requires ' ' !in a
    ensures SplitOnSpace(a + " " + b) == [a] + SplitOnSpace(b)
  {
    if a != [] {
      var s := a + " " + b;
      assert s[0] == a[0] && s[1..] == a[1..] + " " + b;
      SplitAfterWord(a[1..], b);
      var rest := SplitOnSpace(s[1..]);
      assert rest[0] == a[1..] && rest[1..] == SplitOnSpace(b);
      assert [s[0]] + rest[0] == a;
    } else {
      assert (a + " " + b)[1..] == b;
    }
  }

  datatype ParseError = MissingRoundNumber | NotAnInteger

  /** `int(selected_round.split(" ")[1])` behind the `"All Rounds"` test at
      app.py:140-141; an `IndexError` or `ValueError` there is an `Err`. */
  function ParseRoundChoice(selection: string): (r: Result<RoundChoice, ParseError>)
    ensures r == Ok(AllRounds) <==> selection == AllRoundsLabel
    ensures r == Err(MissingRoundNumber) <==> selection != AllRoundsLabel && ' ' !in selection
    ensures r == Err(NotAnInteger) <==>
              selection != AllRoundsLabel && ' ' in selection && ParseInt(SplitOnSpace(selection)[1]) == None
    ensures r.Ok? && r.value.SingleRound? ==>
              ' ' in selection && ParseInt(SplitOnSpace(selection)[1]) == Some(r.value.round)
  {
    if selection == AllRoundsLabel then Ok(AllRounds)
    else
      var fields := SplitOnSpace(selection);
      if |fields| < 2 then Err(MissingRoundNumber)
      else
        match ParseInt(fields[1])
        case None => Err(NotAnInteger)
        case Some(n) => Ok(SingleRound(n))
  }

  /** Every label offered by the selector reads back as the choice it
      names: the first as all rounds, the others as the table's rounds. */
  lemma RoundOptionsRoundTrip(table: Table)
    ensures |RoundOptions(table)| == |RoundsOf(table)| + 1
    ensures ParseRoundChoice(RoundOptions(table)[0]) == Ok(AllRounds)
    ensures forall i :: 0 <= i < |RoundsOf(table)| ==>
              ParseRoundChoice(RoundOptions(table)[i + 1]) == Ok(SingleRound(RoundsOf(table)[i]))
  {
    var opts := RoundOptions(table);
    var rounds := RoundsOf(table);
    forall i | 0 <= i < |rounds|
      ensures ParseRoundChoice(opts[i + 1]) == Ok(SingleRound(rounds[i]))
    {
      assert opts[i + 1] == RoundLabel(rounds[i]);
      ParseRoundLabel(rounds[i]);
    }
  }

  /** `f"Round {r}"` parses back to round `r`, and is never the
      `"All Rounds"` label. */
  lemma ParseRoundLabel(r: int)
    ensures RoundLabel(r) != AllRoundsLabel
    ensures ParseRoundChoice(RoundLabel(r)) == Ok(SingleRound(r))
  {
    var d := IntToString(r);
    RoundLabelNotAll(r);
    assert RoundLabel(r) == "Round" + " " + d;
    SplitAfterWord("Round", d);
    SplitWord(d);
    IntRoundTrip(r);
  }

  /** Python's `range(start, stop)`. */
  datatype HoleRange = HoleRange(start: int, stop: int) {

    function Holes(): (hs: seq<int>)
      ensures |hs| == if start < stop then stop - start else 0
      ensures forall i :: 0 <= i < |hs| ==> hs[i] == start + i
    {
      if start < stop then seq(stop - start, i => start + i) else []
    }

    predicate IsEmpty() {
      stop <= start
    }

    /** `min(hole_range)`; empty ranges raise `ValueError` in Python. */
    function Min(): (m: int)
      requires !IsEmpty()
      ensures m in Holes() && forall h :: h in Holes() ==> m <= h
    {
      assert Holes()[0] == start;
      start
    }

    /** `max(hole_range)`; empty ranges raise `ValueError` in Python. */
    function Max(): (m: int)
      requires !IsEmpty()
      ensures m in Holes() && forall h :: h in Holes() ==> h <= m
    {
      assert Holes()[|Holes()| - 1] == stop - 1;
      stop - 1
    }
  }

  /** Holes `start .. h` of a non-empty range are the first holes of it. */
  lemma TruncatedRange(range: HoleRange, h: int)
    requires range.start <= h < range.stop
    ensures HoleRange(range.start, h + 1).Holes() == range.Holes()[..h + 1 - range.start]
  {
  }

  /** The hole range a round choice selects (app.py:144, 148). */
  function HoleRangeFor(choice: RoundChoice, maxHole: int): (range: HoleRange)
    ensures forall h :: h in range.Holes() <==>
              match choice
              case AllRounds => 1 <= h <= maxHole
              case SingleRound(n) => HolePlace(h).round == n
    ensures choice.SingleRound? ==> |range.Holes()| == HolesPerRound
  {
    match choice
    case AllRounds =>
      var range := HoleRange(1, maxHole + 1);
      forall h ensures h in range.Holes() <==> 1 <= h <= maxHole {
        if 1 <= h <= maxHole {
          assert range.Holes()[h - 1] == h;
        }
      }
      range
    case SingleRound(n) =>
      var range := HoleRange((n - 1) * HolesPerRound + 1, n * HolesPerRound + 1);
      forall h ensures h in range.Holes() <==> HolePlace(h).round == n {
        if HolePlace(h).round == n {
          assert range.Holes()[h - range.start] == h;
        }
      }
      range
  }

  datatype Place = Place(round: int, holeInRound: int)

  /** `round_num = (hole - 1) // 18 + 1` and
      `hole_in_round = ((hole - 1) % 18) + 1` (app.py:196-197). Python's
      `//` and `%` by a positive divisor agree with Dafny's here. */
  function HolePlace(hole: int): (p: Place)
    ensures hole == (p.round - 1) * HolesPerRound + p.holeInRound
    ensures 1 <= p.holeInRound <= HolesPerRound
  {
    Place((hole - 1) / HolesPerRound + 1, (hole - 1) % HolesPerRound + 1)
  }

  /** The decomposition of a hole into round and hole-in-round is unique. */
  lemma HolePlaceUnique(round: int, holeInRound: int)
    requires 1 <= holeInRound <= HolesPerRound
    ensures HolePlace((round - 1) * HolesPerRound + holeInRound) == Place(round, holeInRound)
  {
    var p := HolePlace((round - 1) * HolesPerRound + holeInRound);
    assert (p.round - round) * HolesPerRound == holeInRound - p.holeInRound;
  }

  /** The row filter of app.py:140-152: the chosen round, then the selected
      players when any are selected. */
  predicate Admits(choice: RoundChoice, selected: seq<string>, row: Row)
  {
    && (choice.SingleRound? ==> row.round == choice.round)
    && (selected != [] ==> row.shortName in selected)
  }

  function FilterRows(table: Table, choice: RoundChoice, selected: seq<string>): (rows: Table)
    ensures forall row :: row in rows <==> row in table && Admits(choice, selected, row)
  {
    if table == [] then []
    else
      var rest := FilterRows(table[1..], choice, selected);
      assert table == [table[0]] + table[1..];
      if Admits(choice, selected, table[0]) then [table[0]] + rest else rest
  }

  /** Filtering keeps every admitted row as often as the table holds it,
      and no other row. */
  lemma {:induction false} FilterRowsCounts(table: Table, choice: RoundChoice, selected: seq<string>)
    ensures forall x :: multiset(FilterRows(table, choice, selected))[x] ==
              if Admits(choice, selected, x) then multiset(table)[x] else 0
  {
    if table != [] {
      assert table == [table[0]] + table[1..];
      assert multiset(table) == multiset{table[0]} + multiset(table[1..]);
      FilterRowsCounts(table[1..], choice, selected);
    }
  }

  /** Filtering commutes with concatenation, so the kept rows stay in table
      order. */
  lemma {:induction false} FilterRowsConcat(a: Table, b: Table, choice: RoundChoice, selected: seq<string>)
    ensures FilterRows(a + b, choice, selected) == FilterRows(a, choice, selected) + FilterRows(b, choice, selected)
  {
    if a == [] {
      assert a + b == b;
    } else {
      assert (a + b)[0] == a[0];
      assert (a + b)[1..] == a[1..] + b;
      FilterRowsConcat(a[1..], b, choice, selected);
    }
  }

  /** Filtering keeps the first row of every (player, hole) whose rows it
      all admits. */
  lemma {:induction false} FilterKeepsFirstRow(table: Table, choice: RoundChoice, selected: seq<string>, player: string, hole: int)
    requires forall row :: row in table && IsRowAt(row, player, hole) ==> Admits(choice, selected, row)
    ensures FirstRow(FilterRows(table, choice, selected), player, hole) == FirstRow(table, player, hole)
  {
    if table != [] {
      assert forall row :: row in table[1..] ==> row in table;
      FilterKeepsFirstRow(table[1..], choice, selected, player, hole);
      var rest := FilterRows(table[1..], choice, selected);
      if Admits(choice, selected, table[0]) {
        assert ([table[0]] + rest)[1..] == rest;
      }
    }
  }
}
