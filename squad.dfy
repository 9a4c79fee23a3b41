/**
 * The team page's bookkeeping over player records: the cost tally of the
 * picks made for a formation, whether every position has its quota, the
 * grouping of a team by position for display, and the players two teams
 * share.
 */
module Squad {

  datatype Position = GKP | DEF | MID | FWD

  /** The fields of a player record the team page reads; `nowCost` is in tenths of a million. */
  datatype Player = Player(webName: string, teamName: string, position: Position, nowCost: int)

  /** A formation's `position_counts.items()`, in the dictionary's order. */
  type Counts = seq<(Position, nat)>

  /** The player lists kept per position in the session. */
  type Selection = map<Position, seq<Player>>

  /** `sum(int(p['now_cost']) for p in players)`. */
  function SumCost(players: seq<Player>): int
  {
    if players == [] then 0 else players[0].nowCost + SumCost(players[1..])
  }

  lemma {:induction false} SumCostAppend(a: seq<Player>, b: seq<Player>)
    ensures SumCost(a + b) == SumCost(a) + SumCost(b)
  {
    if a != [] {
      SumCostAppend(a[1..], b);
      assert (a + b)[0] == a[0] && (a + b)[1..] == a[1..] + b;
    } else {
      assert a + b == b;
    }
  }

  /**
   * `select_players_for_position(position, count, player_data)` with the
   * player data fixed: the players picked for a position, and the session's
   * per-position picks as the call leaves them.
   */
  type Picker = (Position, nat, Selection) -> (seq<Player>, Selection)

  /**
   * The picks for every position of a formation, one position after the
   * other, each call seeing the session picks the previous call left; and
   * the session picks after the last call.
   */
  function Picks(counts: Counts, pick: Picker, selection: Selection): (seq<Player>, Selection)
  {
    if counts == [] then ([], selection)
    else
      var n := |counts| - 1;
      var (before, mid) := Picks(counts[..n], pick, selection);
      var (here, after) := pick(counts[n].0, counts[n].1, mid);
      (before + here, after)
  }

  /** The players picked for position `i` of the formation, from the session picks the earlier positions left. */
  function PickAt(counts: Counts, pick: Picker, selection: Selection, i: nat): seq<Player>
    requires i < |counts|
  {
    pick(counts[i].0, counts[i].1, Picks(counts[..i], pick, selection).1).0
  }

  /** Cutting off the last position does not change the picks made for the earlier ones. */
  lemma PickAtPrefix(counts: Counts, pick: Picker, selection: Selection, n: nat, i: nat)
    requires i < n <= |counts|
    ensures PickAt(counts[..n], pick, selection, i) == PickAt(counts, pick, selection, i)
  {
    assert counts[..n][..i] == counts[..i];
  }

  /** A player is picked exactly when it is among the picks for some position of the formation. */
  lemma {:induction false} PicksMembers(counts: Counts, pick: Picker, selection: Selection, p: Player)
    ensures p in Picks(counts, pick, selection).0 <==>
      exists i :: 0 <= i < |counts| && p in PickAt(counts, pick, selection, i)
  {
    if counts != [] {
      var n := |counts| - 1;
      PicksMembers(counts[..n], pick, selection, p);
      assert counts[..n] == counts[..|counts| - 1];
      if p in Picks(counts, pick, selection).0 && p !in PickAt(counts, pick, selection, n) {
        var i :| 0 <= i < n && p in PickAt(counts[..n], pick, selection, i);
        PickAtPrefix(counts, pick, selection, n, i);
      }
      if exists i :: 0 <= i < |counts| && p in PickAt(counts, pick, selection, i) {
        var i :| 0 <= i < |counts| && p in PickAt(counts, pick, selection, i);
        if i < n {
          PickAtPrefix(counts, pick, selection, n, i);
        }
      }
    }
  }

  /** A picker that never writes the session picks leaves them as they were. */
  lemma {:induction false} PicksKeepSelection(counts: Counts, pick: Picker, selection: Selection)
    requires forall pos, k, sel :: pick(pos, k, sel).1 == sel
    ensures Picks(counts, pick, selection).1 == selection
  {
    if counts != [] {
      PicksKeepSelection(counts[..|counts| - 1], pick, selection);
    }
  }

  /**
   * The loop of the team page over `position_counts.items()`: it extends the
   * selected players with each position's picks and adds their costs to the
   * running total, while each call may update the session picks. The total
   * it returns is the cost of exactly the players it returns.
   */
  method TallySelection(counts: Counts, pick: Picker, selection: Selection)
    returns (selected: seq<Player>, totalCost: int, after: Selection)
    ensures (selected, after) == Picks(counts, pick, selection)
    ensures totalCost == SumCost(selected)
  {
    selected := [];
    totalCost := 0;
    after := selection;
    var i := 0;
    while i < |counts|
      invariant 0 <= i <= |counts|
      invariant (selected, after) == Picks(counts[..i], pick, selection)
      invariant totalCost == SumCost(selected)
    {
      var (position, count) := counts[i];
      var (positionPlayers, next) := pick(position, count, after);
      SumCostAppend(selected, positionPlayers);
      totalCost := totalCost + SumCost(positionPlayers);
      selected := selected + positionPlayers;
      after := next;
      assert counts[..i + 1][..i] == counts[..i];
      i := i + 1;
    }
    assert counts[..i] == counts;
  }

  /** `selected_players.get(position, [])`. */
  function SelectedAt(selection: Selection, position: Position): seq<Player>
  {
    if position in selection then selection[position] else []
  }

  /**
   * `all(len(selected_players.get(position, [])) >= count for position, count in counts)`:
   * every position of the formation has at least its quota of players, a
   * position missing from the selection counting as none.
   */
  function AllPositionsComplete(selection: Selection, counts: Counts): (complete: bool)
    ensures complete <==> forall i :: 0 <= i < |counts| ==> |SelectedAt(selection, counts[i].0)| >= counts[i].1
  {
    counts == [] ||
    (|SelectedAt(selection, counts[0].0)| >= counts[0].1 && AllPositionsComplete(selection, counts[1..]))
  }

  /** A position the selection lacks leaves the formation incomplete unless its quota is 0. */
  lemma MissingPositionIncomplete(selection: Selection, counts: Counts, i: nat)
    requires i < |counts| && counts[i].0 !in selection && counts[i].1 > 0
    ensures !AllPositionsComplete(selection, counts)
  {
  }

  /** `[p for p in team if p['position'] == position]`. */
  function PlayersAt(team: seq<Player>, position: Position): (group: seq<Player>)
    ensures forall p :: p in group ==> p.position == position
  {
    if team == [] then []
    else
      (if team[0].position == position then [team[0]] else []) + PlayersAt(team[1..], position)
  }

  /** Each player of the position appears in its group as often as in the team. */
  lemma {:induction false} PlayersAtCount(team: seq<Player>, position: Position, p: Player)
    requires p.position == position
    ensures multiset(PlayersAt(team, position))[p] == multiset(team)[p]
  {
    if team != [] {
      PlayersAtCount(team[1..], position, p);
      assert team == [team[0]] + team[1..];
    }
  }

  /** Grouping keeps the team's order: the group of a concatenation is the concatenation of the groups. */
  lemma {:induction false} PlayersAtAppend(a: seq<Player>, b: seq<Player>, position: Position)
    ensures PlayersAt(a + b, position) == PlayersAt(a, position) + PlayersAt(b, position)
  {
    if a == [] {
      assert a + b == b;
    } else {
      var head := if a[0].position == position then [a[0]] else [];
      var rest := PlayersAt(a[1..], position);
      assert a + b == [a[0]] + (a[1..] + b);
      PlayersAtAppend(a[1..], b, position);
      assert head + (rest + PlayersAt(b, position)) == (head + rest) + PlayersAt(b, position);
    }
  }

  /** The order in which the team page shows the positions. */
  const DisplayOrder: seq<Position> := [FWD, MID, DEF, GKP]

  /** The four display groups together hold every player of the team once. */
  lemma {:induction false} GroupsPartitionTeam(team: seq<Player>)
    ensures |PlayersAt(team, DisplayOrder[0])| + |PlayersAt(team, DisplayOrder[1])|
      + |PlayersAt(team, DisplayOrder[2])| + |PlayersAt(team, DisplayOrder[3])| == |team|
  {
    if team != [] {
      GroupsPartitionTeam(team[1..]);
    }
  }

  /** A player of the team is in the group of its own position. */
  lemma PlayerInOwnGroup(team: seq<Player>, p: Player)
    requires p in team
    ensures p in PlayersAt(team, p.position)
  {
    PlayersAtCount(team, p.position, p);
  }

  /** `set(p['web_name'] for p in team)`. */
  function WebNames(team: seq<Player>): (names: set<string>)
    ensures forall n :: n in names <==> exists p :: p in team && p.webName == n
  {
    set p | p in team :: p.webName
  }

  /**
   * `user_player_names & best_player_names`: the names that belong to a
   * player of each team.
   */
  function SharedPlayers(userTeam: seq<Player>, bestTeam: seq<Player>): (common: set<string>)
    ensures forall n :: n in common <==>
      (exists p :: p in userTeam && p.webName == n) && (exists q :: q in bestTeam && q.webName == n)
  {
    WebNames(userTeam) * WebNames(bestTeam)
  }

  /** Sharing does not depend on which team comes first, and the shared names belong to both teams. */
  lemma SharedPlayersSymmetric(userTeam: seq<Player>, bestTeam: seq<Player>)
    ensures SharedPlayers(userTeam, bestTeam) == SharedPlayers(bestTeam, userTeam)
    ensures SharedPlayers(userTeam, bestTeam) <= WebNames(userTeam)
    ensures SharedPlayers(userTeam, bestTeam) <= WebNames(bestTeam)
  {
  }
}
