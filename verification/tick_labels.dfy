/** The x-axis tick labels of the chart (app.py:194-203). */
module TickLabels {
  import opened Numerals
  import opened Rounds

  predicate EndsWith(s: string, tail: string) {
    |tail| <= |s| && s[|s| - |tail|..] == tail
  }

  /** The label of one global hole: `"R{round} H{hole_in_round}"` on the
      first hole of a round, `"H{hole_in_round}"` on every third hole, and
      an empty label otherwise. */
  function HoleName(hole: int): (name: string)
    ensures name != "" <==> HolePlace(hole).holeInRound == 1 || HolePlace(hole).holeInRound % 3 == 0
    ensures name != "" ==> (name[0] == 'R' <==> HolePlace(hole).holeInRound == 1)
    ensures name != "" ==> EndsWith(name, "H" + IntToString(HolePlace(hole).holeInRound))
  {
    var place := HolePlace(hole);
    if place.holeInRound == 1 then
      "R" + IntToString(place.round) + " H" + IntToString(place.holeInRound)
    else if place.holeInRound % 3 == 0 then
      "H" + IntToString(place.holeInRound)
    else
      ""
  }

  /** The `hole_names` loop: one label per hole of the range, in order. */
  method BuildHoleNames(range: HoleRange) returns (names: seq<string>)
    ensures |names| == |range.Holes()|
    ensures forall i :: 0 <= i < |names| ==> names[i] == HoleName(range.Holes()[i])
  {
    var hs := range.Holes();
    names := [];
    for i := 0 to |hs|
      invariant |names| == i
      invariant forall k :: 0 <= k < i ==> names[k] == HoleName(hs[k])
    {
      var place := HolePlace(hs[i]);
      if place.holeInRound == 1 {
        names := names + ["R" + IntToString(place.round) + " H" + IntToString(place.holeInRound)];
      } else if place.holeInRound % 3 == 0 {
        names := names + ["H" + IntToString(place.holeInRound)];
      } else {
        names := names + [""];
      }
    }
  }

  /** Hole `k` of round `r` is labelled by its round and hole-in-round:
      `"R{r} H1"` for the first hole, `"H{k}"` when `k` is a multiple of 3,
      nothing otherwise. */
  lemma HoleNameInRound(r: int, k: int)
    requires 1 <= k <= HolesPerRound
    ensures HoleName((r - 1) * HolesPerRound + k) ==
              if k == 1 then "R" + IntToString(r) + " H1"
              else if k % 3 == 0 then "H" + IntToString(k)
              else ""
  {
    HolePlaceUnique(r, k);
    assert IntToString(1) == "1";
  }

  /** Over the range of round `n`, the label at index `i` is that of hole
      `i + 1` of round `n`; exactly the holes 1, 3, 6, ..., 18 are labelled. */
  lemma RoundTickLabels(n: int, maxHole: int, i: nat)
    requires i < |HoleRangeFor(SingleRound(n), maxHole).Holes()|
    ensures HoleName(HoleRangeFor(SingleRound(n), maxHole).Holes()[i]) ==
              if i == 0 then "R" + IntToString(n) + " H1"
              else if (i + 1) % 3 == 0 then "H" + IntToString(i + 1)
              else ""
    ensures HoleName(HoleRangeFor(SingleRound(n), maxHole).Holes()[i]) != "" <==> i == 0 || (i + 1) % 3 == 0
  {
    var hs := HoleRangeFor(SingleRound(n), maxHole).Holes();
    assert hs[i] == (n - 1) * HolesPerRound + (i + 1);
    HoleNameInRound(n, i + 1);
  }
}
