/**
 * One run of the team-builder page against the session state it keeps
 * between runs: the per-position picks, the cached best team and the
 * formation of the previous run. The best team is recomputed only when the
 * cache is empty or the formation changed.
 *
 * `Run` is the reference definition of a run; `TeamSession.Step` performs
 * it on an object whose fields are the session state.
 */
module Session {
  import opened Text
  import opened Squad

  /**
   * What the page takes from modules outside this model: the player data,
   * the constants `FORMATION_MAP` and `BUDGET`, and the team-selection
   * routines `adjust_selected_players`, `select_players_for_position`,
   * `get_top_players_by_position` and `adjust_team_to_budget`.
   * `adjust_selected_players` and `select_players_for_position` read the
   * session's current picks and return them as they leave them.
   */
  datatype Collaborators = Collaborators(
    players: seq<Player>,
    formationMap: map<string, Counts>,
    budget: int,
    adjustSelectedPlayers: (Counts, seq<Player>, Selection) -> Selection,
    selectPlayersForPosition: (Position, nat, seq<Player>, Selection) -> (seq<Player>, Selection),
    topPlayersByPosition: (seq<Player>, string) -> seq<Player>,
    adjustTeamToBudget: (seq<Player>, int, seq<Player>) -> seq<Player>)

  /** `st.session_state.selected_players`, `.best_team` and `.formation`; `None` stands for Python's `None`. */
  datatype SessionState = SessionState(selectedPlayers: Selection, bestTeam: Option<seq<Player>>, formation: Option<string>)

  /** What one run computes: nothing when the player data is empty, otherwise the page's figures. */
  datatype PageRun =
    | Stopped
    | Shown(selectedPlayers: seq<Player>, totalCost: int, remainingBudget: int,
            allPositionsComplete: bool, budgetExceeded: bool, bestTeam: seq<Player>)

  /** The session state the first run creates: an empty list for each of the four positions, no best team, no formation. */
  function Fresh(): (s: SessionState)
    ensures s.selectedPlayers.Keys == {GKP, DEF, MID, FWD}
    ensures forall p :: p in s.selectedPlayers ==> s.selectedPlayers[p] == []
    ensures s.bestTeam == None && s.formation == None
  {
    SessionState(map[GKP := [], DEF := [], MID := [], FWD := []], None, None)
  }

  /** `select_players_for_position(position, count, player_data)`. */
  function PickerFor(c: Collaborators): Picker
  {
    (position: Position, count: nat, selection: Selection) => c.selectPlayersForPosition(position, count, c.players, selection)
  }

  /** The session picks the loop starts from: adjusted to the formation when it changed. */
  function StartPicks(s: SessionState, choice: string, c: Collaborators): Selection
    requires choice in c.formationMap
  {
    if s.formation != Some(choice) then c.adjustSelectedPlayers(c.formationMap[choice], c.players, s.selectedPlayers)
    else s.selectedPlayers
  }

  /** The best team as the page computes it for a formation: the top players, repaired to the budget. */
  function FreshBestTeam(c: Collaborators, choice: string): seq<Player>
  {
    c.adjustTeamToBudget(c.topPlayersByPosition(c.players, choice), c.budget, c.players)
  }

  /**
   * One run of the page with formation `choice` picked in the side bar
   * (whose options are the keys of `FORMATION_MAP`): the next session state
   * and what the page shows. Without player data the page stops and the
   * session is untouched; otherwise the chosen formation is stored, the best
   * team shown is the one cached, and the figures are the cost of the
   * players shown and the budget less that cost.
   */
  function Run(s: SessionState, choice: string, c: Collaborators): (r: (SessionState, PageRun))
    requires choice in c.formationMap
    ensures c.players == [] <==> r.1.Stopped?
    ensures c.players == [] ==> r.0 == s
    ensures c.players != [] ==> r.0.formation == Some(choice) && r.0.bestTeam == Some(r.1.bestTeam)
    ensures r.1.Shown? ==>
      && r.1.totalCost == SumCost(r.1.selectedPlayers)
      && r.1.remainingBudget == c.budget - r.1.totalCost
      && (r.1.budgetExceeded <==> r.1.remainingBudget < 0)
  {
    if c.players == [] then (s, Stopped)
    else
      var counts := c.formationMap[choice];
      var changed := s.formation != Some(choice);
      var selection := StartPicks(s, choice, c);
      var cached := if changed then None else s.bestTeam;
      var (picked, after) := Picks(counts, PickerFor(c), selection);
      var total := SumCost(picked);
      var best := if cached.None? || changed then FreshBestTeam(c, choice) else cached.value;
      (SessionState(after, Some(best), Some(choice)),
       Shown(picked, total, c.budget - total, AllPositionsComplete(after, counts), total > c.budget, best))
  }

  /**
   * A changed formation re-adjusts the picks before the selection loop runs
   * on them, and recomputes the best team.
   */
  lemma RunRecomputesOnChange(s: SessionState, choice: string, c: Collaborators)
    requires choice in c.formationMap && c.players != [] && s.formation != Some(choice)
    ensures Run(s, choice, c).0.selectedPlayers ==
      Picks(c.formationMap[choice], PickerFor(c), c.adjustSelectedPlayers(c.formationMap[choice], c.players, s.selectedPlayers)).1
    ensures Run(s, choice, c).1.bestTeam == FreshBestTeam(c, choice)
  {
  }

  /**
   * An unchanged formation with a cached best team keeps the formation and
   * the cache and shows the cached team, whatever the selection routines
   * would now compute; the picks are not re-adjusted, only passed through
   * the selection loop.
   */
  lemma RunReusesCache(s: SessionState, choice: string, c: Collaborators)
    requires choice in c.formationMap && c.players != []
    requires s.formation == Some(choice) && s.bestTeam.Some?
    ensures Run(s, choice, c).0.formation == s.formation
    ensures Run(s, choice, c).0.bestTeam == s.bestTeam
    ensures Run(s, choice, c).0.selectedPlayers == Picks(c.formationMap[choice], PickerFor(c), s.selectedPlayers).1
    ensures Run(s, choice, c).1.bestTeam == s.bestTeam.value
  {
  }

  /** `select_players_for_position` leaves the session's picks alone. */
  ghost predicate PickerOnlyReads(c: Collaborators)
  {
    forall pos, k, players, sel :: c.selectPlayersForPosition(pos, k, players, sel).1 == sel
  }

  /** With a picker that only reads the session, a run with an unchanged formation and a cached team leaves the session as it was. */
  lemma RunUnchangedWhenPickerOnlyReads(s: SessionState, choice: string, c: Collaborators)
    requires choice in c.formationMap && c.players != []
    requires s.formation == Some(choice) && s.bestTeam.Some? && PickerOnlyReads(c)
    ensures Run(s, choice, c).0 == s
  {
    PicksKeepSelection(c.formationMap[choice], PickerFor(c), s.selectedPlayers);
  }

  /**
   * Choosing the same formation again does not recompute: the second run
   * keeps the first run's formation and cached best team and shows the same
   * team, even when the routines it is given would compute another one.
   */
  lemma RunIdempotent(s: SessionState, choice: string, c: Collaborators, c': Collaborators)
    requires choice in c.formationMap && c.players != []
    requires choice in c'.formationMap && c'.players != []
    ensures var (s1, run1) := Run(s, choice, c);
      var (s2, run2) := Run(s1, choice, c');
      s2.formation == s1.formation && s2.bestTeam == s1.bestTeam && run2.bestTeam == run1.bestTeam
  {
  }

  /** A stored formation comes with a cached best team; fresh state and every run keep this. */
  ghost predicate CacheFilled(s: SessionState)
  {
    s.formation.Some? ==> s.bestTeam.Some?
  }

  lemma FreshCacheFilled()
    ensures CacheFilled(Fresh())
  {
  }

  lemma RunKeepsCacheFilled(s: SessionState, choice: string, c: Collaborators)
    requires choice in c.formationMap && CacheFilled(s)
    ensures CacheFilled(Run(s, choice, c).0)
  {
  }

  /**
   * The figures a run shows: each player shown was picked for some position
   * of the formation, from the session picks the earlier positions left;
   * completeness is judged on the session's picks as the selection loop
   * leaves them.
   */
  lemma RunReport(s: SessionState, choice: string, c: Collaborators, p: Player)
    requires choice in c.formationMap && c.players != []
    ensures var (s1, run) := Run(s, choice, c);
      var counts := c.formationMap[choice];
      (run.allPositionsComplete <==>
            forall i :: 0 <= i < |counts| ==> |SelectedAt(s1.selectedPlayers, counts[i].0)| >= counts[i].1)
      && (p in run.selectedPlayers <==>
            exists i :: 0 <= i < |counts| && p in PickAt(counts, PickerFor(c), StartPicks(s, choice, c), i))
  {
    PicksMembers(c.formationMap[choice], PickerFor(c), StartPicks(s, choice, c), p);
  }

  /** The session state of the team page, kept across runs. */
  class TeamSession {
    var selectedPlayers: Selection
    var bestTeam: Option<seq<Player>>
    var formation: Option<string>

    function State(): SessionState
      reads this
    {
      SessionState(selectedPlayers, bestTeam, formation)
    }

    /** The state the first run initialises. */
    constructor ()
      ensures State() == Fresh()
    {
      selectedPlayers := map[GKP := [], DEF := [], MID := [], FWD := []];
      bestTeam := None;
      formation := None;
    }

    /** One run of the page with formation `choice`. */
    method Step(choice: string, c: Collaborators) returns (run: PageRun)
      requires choice in c.formationMap
      modifies this
      ensures (State(), run) == Run(old(State()), choice, c)
      ensures c.players != [] ==> formation == Some(choice)
      ensures c.players != [] && old(formation) != Some(choice) ==> run.bestTeam == FreshBestTeam(c, choice)
      ensures old(formation) == Some(choice) && old(bestTeam).Some? ==> formation == old(formation) && bestTeam == old(bestTeam)
    {
      ghost var s0 := State();
      if c.players == [] {
        return Stopped;
      }
      if s0.formation != Some(choice) {
        RunRecomputesOnChange(s0, choice, c);
      }
      if s0.formation == Some(choice) && s0.bestTeam.Some? {
        RunReusesCache(s0, choice, c);
      }
      var positionCounts := c.formationMap[choice];
      var formationChanged := Some(choice) != formation;
      formation := Some(choice);
      if formationChanged {
        selectedPlayers := c.adjustSelectedPlayers(positionCounts, c.players, selectedPlayers);
        bestTeam := None;
      }
      assert selectedPlayers == StartPicks(s0, choice, c);
      var picked, totalCost, after := TallySelection(positionCounts, PickerFor(c), selectedPlayers);
      selectedPlayers := after;
      var remainingBudget := c.budget - totalCost;
      var complete := AllPositionsComplete(selectedPlayers, positionCounts);
      var exceeded := totalCost > c.budget;
      var best: seq<Player>;
      if bestTeam.None? || formationChanged {
        best := FreshBestTeam(c, choice);
        bestTeam := Some(best);
      } else {
        best := bestTeam.value;
      }
      run := Shown(picked, totalCost, remainingBudget, complete, exceeded, best);
    }
  }
}
