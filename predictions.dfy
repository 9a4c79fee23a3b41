/**
 * `get_player_pred` of the team page: the predicted points of a player for
 * the coming gameweek, read from the rows of the predictions table.
 */
module Predictions {
  import opened Text

  /**
   * One row of the predictions table. `predPointsRounded` is `None` when the
   * cell holds no number, so that `int(...)` raises.
   */
  datatype PredRow = PredRow(webName: string, team: string, gw: int, predPointsRounded: Option<int>)

  /** `name.strip().split(".")[-1]`: the part of a display name after its last dot. */
  function CleanName(name: string): (clean: string)
    ensures '.' !in clean
  {
    LastPieceIsSuffix(Strip(name), '.');
    LastPiece(Strip(name), '.')
  }

  /** The cleaned name is the part of the stripped name after its last dot. */
  lemma CleanNameIsLastPart(name: string)
    ensures IsPartAfterLast(Strip(name), '.', CleanName(name))
  {
    LastPieceIsSuffix(Strip(name), '.');
  }

  /** The row filter: `web_name` contains the fragment and the team is the given one. */
  predicate Matches(row: PredRow, fragment: string, team: string)
  {
    Contains(row.webName, fragment) && row.team == team
  }

  /** Row `k` matches and no matching row has a later gameweek. */
  predicate IsLatestMatch(rows: seq<PredRow>, fragment: string, team: string, k: int)
  {
    0 <= k < |rows| && Matches(rows[k], fragment, team)
    && forall i :: 0 <= i < |rows| && Matches(rows[i], fragment, team) ==> rows[i].gw <= rows[k].gw
  }

  /**
   * The first row of the filtered table once it is sorted by `gw`, latest
   * first; `None` when no row matches. Among rows that share the latest
   * gameweek this picks the last one.
   */
  function LatestMatch(rows: seq<PredRow>, fragment: string, team: string): (k: Option<nat>)
    ensures k.None? ==> forall i :: 0 <= i < |rows| ==> !Matches(rows[i], fragment, team)
    ensures k.Some? ==> IsLatestMatch(rows, fragment, team, k.value)
  {
    if rows == [] then None
    else
      var n := |rows| - 1;
      var k := LatestMatch(rows[..n], fragment, team);
      if Matches(rows[n], fragment, team) && (k.None? || rows[k.value].gw <= rows[n].gw) then Some(n)
      else k
  }

  /** `int(...)` of the points cell, with the handler's 0 when it raises. */
  function PointsOrZero(row: PredRow): int
  {
    match row.predPointsRounded
    case Some(p) => p
    case None => 0
  }

  /**
   * `get_player_pred(name, team)`: the points of a matching row of the
   * latest gameweek, or 0 when no row matches.
   */
  function PlayerPred(rows: seq<PredRow>, name: string, team: string): (points: int)
    ensures (forall i :: 0 <= i < |rows| ==> !Matches(rows[i], CleanName(name), team)) ==> points == 0
    ensures (exists i :: 0 <= i < |rows| && Matches(rows[i], CleanName(name), team)) ==>
      exists k :: IsLatestMatch(rows, CleanName(name), team, k) && points == PointsOrZero(rows[k])
  {
    match LatestMatch(rows, CleanName(name), team)
    case None => 0
    case Some(k) => PointsOrZero(rows[k])
  }

  /** A match of a later gameweek decides the prediction over an earlier one. */
  lemma LaterRowDecides(rows: seq<PredRow>, name: string, team: string, k: nat)
    requires k < |rows| && Matches(rows[k], CleanName(name), team)
    requires forall i :: 0 <= i < |rows| && i != k && Matches(rows[i], CleanName(name), team) ==> rows[i].gw < rows[k].gw
    ensures PlayerPred(rows, name, team) == PointsOrZero(rows[k])
  {
  }
}
