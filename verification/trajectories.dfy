/** Per-player trajectories and animation frames built by
    `create_animation` (app.py:159-277). */
module Trajectories {
  import opened Wrappers
  import opened Numerals
  import opened Table
  import opened Rounds

  /** One `{"Hole": hole, y_column: value}` entry of a trajectory. */
  datatype Point = Point(hole: int, value: int)

  /** One line series of the static chart: its legend name and its points. */
  datatype Trace = Trace(name: string, points: seq<Point>)

  /** One animation frame: its name and one point list per selected player. */
  datatype Frame = Frame(name: string, data: seq<seq<Point>>)

  predicate StrictlyIncreasing(hs: seq<int>) {
    forall i, j :: 0 <= i < j < |hs| ==> hs[i] < hs[j]
  }

  predicate HolesIncreasing(points: seq<Point>) {
    forall i, j :: 0 <= i < j < |points| ==> points[i].hole < points[j].hole
  }

  /** The trajectory of `player` over `holes`: for each hole in order, the
      value of the player's first row at that hole, when there is one. */
  function Trajectory(table: Table, player: string, holes: seq<int>, metric: Metric): (t: seq<Point>)
    ensures |t| <= |holes|
    ensures forall i :: 0 <= i < |t| ==> t[i].hole in holes
  {
    if holes == [] then []
    else
      var h := holes[|holes| - 1];
      var before := Trajectory(table, player, holes[..|holes| - 1], metric);
      assert forall x :: x in holes[..|holes| - 1] ==> x in holes;
      match FirstRow(table, player, h)
      case None => before
      case Some(row) => before + [Point(h, Value(row, metric))]
  }

  /** The inner loop of app.py:169-176 (and 260-266). */
  method BuildTrajectory(table: Table, player: string, range: HoleRange, metric: Metric) returns (trajectory: seq<Point>)
    ensures trajectory == Trajectory(table, player, range.Holes(), metric)
  {
    var hs := range.Holes();
    trajectory := [];
    for i := 0 to |hs|
      invariant trajectory == Trajectory(table, player, hs[..i], metric)
    {
      var hole := hs[i];
      var holeData := FirstRow(table, player, hole);
      if holeData.Some? {
        trajectory := trajectory + [Point(hole, Value(holeData.value, metric))];
      }
      assert hs[..i + 1][..i] == hs[..i];
    }
    assert hs[..|hs|] == hs;
  }

  /** A trajectory over ascending holes is ascending by hole. */
  lemma {:induction false} TrajectoryAscending(table: Table, player: string, holes: seq<int>, metric: Metric)
    requires StrictlyIncreasing(holes)
    ensures HolesIncreasing(Trajectory(table, player, holes, metric))
  {
    if holes != [] {
      var init := holes[..|holes| - 1];
      TrajectoryAscending(table, player, init, metric);
      var before := Trajectory(table, player, init, metric);
      forall i | 0 <= i < |before|
        ensures before[i].hole < holes[|holes| - 1]
      {
        var k :| 0 <= k < |init| && init[k] == before[i].hole;
      }
    }
  }

  /** A hole appears in the trajectory exactly when it is in `holes` and the
      player has a row there; its value is the metric of the first such row. */
  lemma {:induction false} TrajectoryContents(table: Table, player: string, holes: seq<int>, metric: Metric)
    ensures forall i :: 0 <= i < |Trajectory(table, player, holes, metric)| ==>
              var p := Trajectory(table, player, holes, metric)[i];
              FirstRow(table, player, p.hole).Some? && p.value == Value(FirstRow(table, player, p.hole).value, metric)
    ensures forall h :: h in holes && FirstRow(table, player, h).Some? ==>
              exists i :: 0 <= i < |Trajectory(table, player, holes, metric)| && Trajectory(table, player, holes, metric)[i].hole == h
  {
    if holes != [] {
      var init := holes[..|holes| - 1];
      var last := holes[|holes| - 1];
      TrajectoryContents(table, player, init, metric);
      var before := Trajectory(table, player, init, metric);
      var t := Trajectory(table, player, holes, metric);
      assert before <= t;
      forall h | h in holes && FirstRow(table, player, h).Some?
        ensures exists i :: 0 <= i < |t| && t[i].hole == h
      {
        if h == last {
          assert t[|t| - 1].hole == h;
        } else {
          assert h in init;
          var i :| 0 <= i < |before| && before[i].hole == h;
          assert t[i].hole == h;
        }
      }
    }
  }

  /** Trajectories over longer hole prefixes extend shorter ones. */
  lemma {:induction false} TrajectoryPrefix(table: Table, player: string, holes: seq<int>, k: nat, metric: Metric)
    requires k <= |holes|
    ensures Trajectory(table, player, holes[..k], metric) <= Trajectory(table, player, holes, metric)
    decreases |holes| - k
  {
    if k < |holes| {
      var init := holes[..|holes| - 1];
      assert init[..k] == holes[..k];
      TrajectoryPrefix(table, player, init, k, metric);
    } else {
      assert holes[..k] == holes;
    }
  }

  /** Legend name `f"{player} ({player_full_name})"`. */
  function TraceName(player: string, fullName: string): string
  {
    player + " (" + fullName + ")"
  }

  /** The static series of one player (app.py:164-191) when it can be
      built: the name carries the full name of the player's first row. */
  function StaticTrace(table: Table, player: string, range: HoleRange, metric: Metric): Trace
    requires HasPlayer(table, player)
  {
    Trace(TraceName(player, FirstRowOf(table, player).fullName), Trajectory(table, player, range.Holes(), metric))
  }

  /** The trajectory over a range is empty exactly when no row of the
      player lies in the range. */
  lemma TrajectoryEmpty(table: Table, player: string, range: HoleRange, metric: Metric)
    ensures Trajectory(table, player, range.Holes(), metric) == [] <==>
              forall row :: row in table && row.shortName == player ==> !(range.start <= row.hole < range.stop)
  {
    var hs := range.Holes();
    var t := Trajectory(table, player, hs, metric);
    TrajectoryContents(table, player, hs, metric);
    if t != [] {
      var k :| 0 <= k < |hs| && hs[k] == t[0].hole;
      var row := FirstRow(table, player, t[0].hole).value;
      assert row in table && row.shortName == player && range.start <= row.hole < range.stop;
    }
    if exists row :: row in table && row.shortName == player && range.start <= row.hole < range.stop {
      var row :| row in table && row.shortName == player && range.start <= row.hole < range.stop;
      assert hs[row.hole - range.start] == row.hole;
      assert FirstRow(table, player, row.hole).Some?;
    }
  }

  /** How the static series of one player fails: `.iloc[0]` on the player's
      rows raises `IndexError` when there are none (app.py:165-166), and
      `trajectory_df["Hole"]` raises `KeyError` when no row lies in the
      range, since `pd.DataFrame([])` has no columns (app.py:179-184). */
  datatype TraceError = NoRowsForPlayer(player: string) | NoPointsInRange(player: string)

  /** The static series of one player as app.py:164-191 builds it, failures
      included. */
  function TraceOutcome(table: Table, player: string, range: HoleRange, metric: Metric): (r: Result<Trace, TraceError>)
    ensures r == Err(NoRowsForPlayer(player)) <==> !HasPlayer(table, player)
    ensures r == Err(NoPointsInRange(player)) <==>
              HasPlayer(table, player) &&
              forall row :: row in table && row.shortName == player ==> !(range.start <= row.hole < range.stop)
    ensures r.Ok? ==> (HasPlayer(table, player) && r.value == StaticTrace(table, player, range, metric) &&
                       r.value.points != [] &&
                       r.value.name == TraceName(player, FirstRowOf(table, player).fullName) &&
                       HolesIncreasing(r.value.points))
  {
    TrajectoryEmpty(table, player, range, metric);
    assert StrictlyIncreasing(range.Holes());
    TrajectoryAscending(table, player, range.Holes(), metric);
    if !HasPlayer(table, player) then Err(NoRowsForPlayer(player))
    else
      var trace := StaticTrace(table, player, range, metric);
      if trace.points == [] then Err(NoPointsInRange(player)) else Ok(trace)
  }

  /** The outer loop of app.py:164-191: one trace per selected player, in
      selection order, or the failure of the first player whose series
      cannot be built. */
  method BuildTraces(table: Table, players: seq<string>, range: HoleRange, metric: Metric)
    returns (r: Result<seq<Trace>, TraceError>)
    ensures r.Ok? <==> forall i :: 0 <= i < |players| ==> TraceOutcome(table, players[i], range, metric).Ok?
    ensures r.Ok? ==> (|r.value| == |players| &&
                       forall i :: 0 <= i < |players| ==> r.value[i] == TraceOutcome(table, players[i], range, metric).value)
    ensures r.Err? ==> (exists k :: 0 <= k < |players| && TraceOutcome(table, players[k], range, metric) == Err(r.error) &&
                          forall i :: 0 <= i < k ==> TraceOutcome(table, players[i], range, metric).Ok?)
  {
    var traces := [];
    for i := 0 to |players|
      invariant |traces| == i
      invariant forall k :: 0 <= k < i ==> TraceOutcome(table, players[k], range, metric) == Ok(traces[k])
    {
      var player := players[i];
      if !HasPlayer(table, player) {
        return Err(NoRowsForPlayer(player));
      }
      var fullName := FirstRowOf(table, player).fullName;
      var trajectory := BuildTrajectory(table, player, range, metric);
      if trajectory == [] {
        return Err(NoPointsInRange(player));
      }
      traces := traces + [Trace(TraceName(player, fullName), trajectory)];
    }
    return Ok(traces);
  }

  /** Frame name `f"hole_{hole}"`. */
  function FrameName(hole: int): string
  {
    "hole_" + IntToString(hole)
  }

  /** The holes a frame covers: `range(min(hole_range), hole + 1)`. */
  function FrameRange(range: HoleRange, hole: int): HoleRange
    requires !range.IsEmpty()
  {
    HoleRange(range.Min(), hole + 1)
  }

  /** The frame for `hole`: each player's trajectory up to that hole. */
  function FrameAt(table: Table, players: seq<string>, range: HoleRange, hole: int, metric: Metric): Frame
    requires !range.IsEmpty()
  {
    Frame(FrameName(hole),
          seq(|players|, j requires 0 <= j < |players| =>
            Trajectory(table, players[j], FrameRange(range, hole).Holes(), metric)))
  }

  /** All frames, one per hole of the range, in ascending hole order. */
  function Frames(table: Table, players: seq<string>, range: HoleRange, metric: Metric): seq<Frame>
  {
    var hs := range.Holes();
    seq(|hs|, i requires 0 <= i < |hs| => FrameAt(table, players, range, hs[i], metric))
  }

  /** The body of the frame loop (app.py:253-277): one series per selected
      player, up to `hole`. */
  method BuildFrame(table: Table, players: seq<string>, range: HoleRange, hole: int, metric: Metric) returns (frame: Frame)
    requires !range.IsEmpty()
    ensures frame == FrameAt(table, players, range, hole, metric)
  {
    var frameData := [];
    for j := 0 to |players|
      invariant |frameData| == j
      invariant forall k :: 0 <= k < j ==>
                  frameData[k] == Trajectory(table, players[k], FrameRange(range, hole).Holes(), metric)
    {
      var playerTrajectory := BuildTrajectory(table, players[j], HoleRange(range.Min(), hole + 1), metric);
      frameData := frameData + [playerTrajectory];
    }
    frame := Frame(FrameName(hole), frameData);
  }

  /** The frame loop of app.py:251-277. */
  method BuildFrames(table: Table, players: seq<string>, range: HoleRange, metric: Metric) returns (frames: seq<Frame>)
    ensures frames == Frames(table, players, range, metric)
  {
    var hs := range.Holes();
    ghost var all := Frames(table, players, range, metric);
    frames := [];
    for i := 0 to |hs|
      invariant frames == all[..i]
    {
      var frame := BuildFrame(table, players, range, hs[i], metric);
      assert frame == all[i];
      frames := frames + [frame];
    }
    assert all[..|hs|] == all;
  }

  /** The series of player `j` in frame `i` is the player's trajectory over
      the first `i + 1` holes of the range. */
  lemma FrameSeries(table: Table, players: seq<string>, range: HoleRange, metric: Metric, i: nat, j: nat)
    requires i < |range.Holes()| && j < |players|
    ensures |Frames(table, players, range, metric)| == |range.Holes()|
    ensures |Frames(table, players, range, metric)[i].data| == |players|
    ensures Frames(table, players, range, metric)[i].data[j] ==
              Trajectory(table, players[j], range.Holes()[..i + 1], metric)
  {
    var hs := range.Holes();
    var frame := Frames(table, players, range, metric)[i];
    assert frame == FrameAt(table, players, range, hs[i], metric);
    assert frame.data[j] == Trajectory(table, players[j], FrameRange(range, hs[i]).Holes(), metric);
    TruncatedRange(range, hs[i]);
  }

  /** One frame per hole of the range, named after its hole, each carrying
      one series per selected player; distinct frames have distinct names. */
  lemma FramesOnePerHole(table: Table, players: seq<string>, range: HoleRange, metric: Metric)
    ensures |Frames(table, players, range, metric)| == |range.Holes()|
    ensures forall i :: 0 <= i < |range.Holes()| ==>
              Frames(table, players, range, metric)[i].name == "hole_" + IntToString(range.Holes()[i])
              && |Frames(table, players, range, metric)[i].data| == |players|
    ensures forall i, j :: 0 <= i < j < |range.Holes()| ==>
              Frames(table, players, range, metric)[i].name != Frames(table, players, range, metric)[j].name
  {
    var fs := Frames(table, players, range, metric);
    var hs := range.Holes();
    forall i, j | 0 <= i < j < |hs|
      ensures fs[i].name != fs[j].name
    {
      IntToStringInjective(hs[i], hs[j]);
      assert fs[i].name[5..] == IntToString(hs[i]);
      assert fs[j].name[5..] == IntToString(hs[j]);
    }
  }

  /** The series of player `j` in frame `i` is a prefix of that player's
      full trajectory and holds only holes from the range start up to the
      frame's hole. */
  lemma FrameIsPrefixOfFull(table: Table, players: seq<string>, range: HoleRange, metric: Metric, i: nat, j: nat)
    requires i < |range.Holes()| && j < |players|
    ensures Frames(table, players, range, metric)[i].data[j] <= Trajectory(table, players[j], range.Holes(), metric)
    ensures forall p :: p in Frames(table, players, range, metric)[i].data[j] ==>
              range.start <= p.hole <= range.Holes()[i]
  {
    var hs := range.Holes();
    FrameSeries(table, players, range, metric, i, j);
    TrajectoryPrefix(table, players[j], hs, i + 1, metric);
    var series := Trajectory(table, players[j], hs[..i + 1], metric);
    forall p | p in series
      ensures range.start <= p.hole <= hs[i]
    {
      var k :| 0 <= k < i + 1 && hs[..i + 1][k] == p.hole;
    }
  }

  /** Each frame's series extends the previous frame's. */
  lemma FramesGrow(table: Table, players: seq<string>, range: HoleRange, metric: Metric, i: nat, j: nat)
    requires i + 1 < |range.Holes()| && j < |players|
    ensures Frames(table, players, range, metric)[i].data[j] <= Frames(table, players, range, metric)[i + 1].data[j]
  {
    FrameSeries(table, players, range, metric, i, j);
    FrameSeries(table, players, range, metric, i + 1, j);
    TrajectoryGrows(table, players[j], range.Holes(), i, metric);
  }

  lemma TrajectoryGrows(table: Table, player: string, holes: seq<int>, i: nat, metric: Metric)
    requires i + 1 < |holes|
    ensures Trajectory(table, player, holes[..i + 1], metric) <= Trajectory(table, player, holes[..i + 2], metric)
  {
    var longer := holes[..i + 2];
    assert longer[..i + 1] == holes[..i + 1];
    TrajectoryPrefix(table, player, longer, i + 1, metric);
  }

  /** The static series as the frame loop (app.py:268) already builds its
      own: a player with no row in the range gets an empty line instead of
      an exception. Without a row to read a full name from, the legend shows
      the short name alone. */
  function GuardedTrace(table: Table, player: string, range: HoleRange, metric: Metric): (trace: Trace)
    ensures HasPlayer(table, player) ==> trace == StaticTrace(table, player, range, metric)
    ensures TraceOutcome(table, player, range, metric).Ok? ==> trace == TraceOutcome(table, player, range, metric).value
    ensures trace.points == [] <==>
              forall row :: row in table && row.shortName == player ==> !(range.start <= row.hole < range.stop)
  {
    TrajectoryEmpty(table, player, range, metric);
    if HasPlayer(table, player) then StaticTrace(table, player, range, metric)
    else Trace(player, Trajectory(table, player, range.Holes(), metric))
  }

  /** The last frame shows the same series as the static chart, for every
      selected player. */
  lemma LastFrameIsFull(table: Table, players: seq<string>, range: HoleRange, metric: Metric, j: nat)
    requires !range.IsEmpty() && j < |players|
    ensures Frames(table, players, range, metric)[|range.Holes()| - 1].data[j] ==
              GuardedTrace(table, players[j], range, metric).points
  {
    var hs := range.Holes();
    FrameSeries(table, players, range, metric, |hs| - 1, j);
    assert hs[..|hs|] == hs;
  }

  /** A selected player with no row in the selected round: the round filter
      leaves none of their rows, the static series fails with `IndexError`,
      while every animation frame holds an empty series for them. */
  lemma MissedRoundFails()
    ensures var table := [Row("A", "Ann", 1, 1, 1, 0), Row("B", "Bob", 2, 19, 1, 0)];
            var rows := FilterRows(table, SingleRound(2), ["A"]);
            var range := HoleRangeFor(SingleRound(2), MaxHole(table));
            && rows == []
            && TraceOutcome(rows, "A", range, Position) == Err(NoRowsForPlayer("A"))
            && Frames(rows, ["A"], range, Position)[HolesPerRound - 1].data[0] == []
  {
    var table := [Row("A", "Ann", 1, 1, 1, 0), Row("B", "Bob", 2, 19, 1, 0)];
    var rows := FilterRows(table, SingleRound(2), ["A"]);
    var range := HoleRangeFor(SingleRound(2), MaxHole(table));
    assert !Admits(SingleRound(2), ["A"], table[0]);
    LastFrameIsFull(rows, ["A"], range, Position, 0);
  }

  /** A selected player whose rows all lie outside the hole range: the
      static series is `pd.DataFrame([])`, which has no `Hole` column, so it
      fails with `KeyError`, while the last frame holds an empty series. */
  lemma HolesOutsideRangeFail()
    ensures var table := [Row("A", "Ann", 1, 0, 1, 0), Row("B", "Bob", 1, 1, 1, 0)];
            var range := HoleRangeFor(AllRounds, MaxHole(table));
            && TraceOutcome(table, "A", range, Position) == Err(NoPointsInRange("A"))
            && Frames(table, ["A"], range, Position)[0].data[0] == []
  {
    var table := [Row("A", "Ann", 1, 0, 1, 0), Row("B", "Bob", 1, 1, 1, 0)];
    var range := HoleRangeFor(AllRounds, MaxHole(table));
    assert MaxHole(table) == 1;
    assert table[0].shortName == "A";
    LastFrameIsFull(table, ["A"], range, Position, 0);
  }

  /** On a table whose rows carry the round of their hole, filtering to a
      round and to the selected players does not change a selected player's
      trajectory over that round's holes. */
  lemma RoundFilterKeepsTrajectory(table: Table, n: int, selected: seq<string>, player: string, metric: Metric)
    requires forall i :: 0 <= i < |table| ==> HolePlace(table[i].hole).round == table[i].round
    requires selected == [] || player in selected
    ensures Trajectory(FilterRows(table, SingleRound(n), selected), player, HoleRangeFor(SingleRound(n), 0).Holes(), metric)
            == Trajectory(table, player, HoleRangeFor(SingleRound(n), 0).Holes(), metric)
  {
    var hs := HoleRangeFor(SingleRound(n), 0).Holes();
    forall h | h in hs
      ensures FirstRow(FilterRows(table, SingleRound(n), selected), player, h) == FirstRow(table, player, h)
    {
      FilterKeepsFirstRow(table, SingleRound(n), selected, player, h);
    }
    SameFirstRowsSameTrajectory(FilterRows(table, SingleRound(n), selected), table, player, hs, metric);
  }

  lemma {:induction false} SameFirstRowsSameTrajectory(a: Table, b: Table, player: string, holes: seq<int>, metric: Metric)
    requires forall h :: h in holes ==> FirstRow(a, player, h) == FirstRow(b, player, h)
    ensures Trajectory(a, player, holes, metric) == Trajectory(b, player, holes, metric)
  {
    if holes != [] {
      SameFirstRowsSameTrajectory(a, b, player, holes[..|holes| - 1], metric);
    }
  }
}
