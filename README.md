# Fantasy-football dashboard: metric labels and team-page bookkeeping

This project models the small amount of self-contained logic in two
Streamlit pages of a fantasy-football dashboard, and proves properties of it.

- **Player comparison page** (`player.py`): `format_keys` turns snake_case
  metric names such as `goals_conceded` into chart labels such as
  `Goals Conceded`. The model follows the source's split on `_`, capitalise
  each word, join with a space. It proves that this agrees with a
  one-pass, character-by-character reference scan, and from that the length,
  space-count and round-trip properties. The per-word properties come from
  the split/join lemmas instead.
- **Team builder page** (`team.py`):
  - `get_player_pred`: cleans a display name to the part after its last dot,
    filters the predictions rows by name fragment and team, and takes the
    points of a row from the latest gameweek, or 0.
  - The loop that tallies the cost of the players picked for each position
    of the chosen formation.
  - The completeness check and the budget figures.
  - The grouping of a team by position for display, and the names two teams
    share.
  - The session state kept between runs: the per-position picks, the cached
    best team and the last formation. It is a class, `Session.TeamSession`.
    Both `adjust_selected_players` and every call of
    `select_players_for_position` in the selection loop may rewrite the
    picks, so the loop threads them from one position to the next and
    completeness is judged on the picks the loop leaves.
    Its `Step` method is proved equal to the pure reference function
    `Session.Run`, and the cache properties are lemmas about `Run`.

The routines the team page imports from its `utils` package are not part of
this model. They are `adjust_selected_players`, `select_players_for_position`,
`get_top_players_by_position` and `adjust_team_to_budget`, together with the
constants `FORMATION_MAP` and `BUDGET` and the loaded player data. Each is an
arbitrary value or function, a field of `Session.Collaborators`; the two
selection routines take the session's picks and return them as they leave
them. The properties proved about a run hold whatever those routines compute,
except the one lemma that says so in its precondition
(`Session.RunUnchangedWhenPickerOnlyReads`).

Files: `text.dfy` (the Python string operations used: `split`, `join`,
`strip`, `capitalize`, substring test; `lower` and `replace`, which the
pages do not call, only to state the label round trip),
`metric_labels.dfy`, `predictions.dfy`, `squad.dfy`, `session.dfy`.

## Model

| member | source | states |
|---|---|---|
| Text.Split | player.py:19 | `str.split` on one character: the number of pieces is one more than the number of separators, and no piece contains the separator |
| Text.SplitWithoutSeparator | team.py:20 | a text without the separator splits into itself alone |
| Text.JoinSplit | player.py:19 | joining the pieces of a split with the separator gives back the original text |
| Text.SplitJoin | player.py:19 | splitting a join of separator-free words gives back the words, empty ones included |
| Text.Join | player.py:19 | `sep.join(words)`: the words with the separator between each two; its properties are `JoinSplit` and `SplitJoin` |
| Text.LastPiece | team.py:20 | `s.split(sep)[-1]`: the last piece of the split, which always exists; `LastPieceIsSuffix` states what it is |
| Text.Capitalize | player.py:19 | `str.capitalize`: same length, first character upper-cased, all others lower-cased |
| Text.Strip | team.py:20 | `str.strip`: the result neither starts nor ends with whitespace |
| Text.StripFactor | team.py:20 | `str.strip` keeps a factor of the text and removes only whitespace before and after it |
| Text.StripIdempotent | team.py:20 | stripping twice is stripping once |
| Text.LastPieceIsSuffix | team.py:20 | `split(sep)[-1]` is a separator-free suffix; it is the whole text when there is no separator, and otherwise a separator comes just before it |
| Text.Contains | team.py:21 | `pat in s`, the test `str.contains` performs for a pattern without regular-expression metacharacters |
| Text.ContainsOccurs | team.py:21 | the substring test holds exactly when the pattern occurs in the text at some index |
| MetricLabels.FormatKey | player.py:19 | `' '.join(w.capitalize() for w in m.split('_'))`; the label has its metric's length |
| MetricLabels.CapitalizeAll | player.py:19 | one capitalised word per word, in the same order |
| MetricLabels.FormatKeys | player.py:18-21 | exactly one label per metric, in the same order, each the formatted metric |
| MetricLabels.FormatAgreesWithScan | player.py:19 | split, capitalise and join gives exactly what a one-pass scan gives: `_` becomes a space, the character that starts a word is upper-cased, and every other character is lower-cased |
| MetricLabels.FormatKeyAt | player.py:19 | a label has its metric's length, and each character follows the scan's rule at its position |
| MetricLabels.FormatKeySpaces | player.py:19 | a label has as many spaces as its metric has spaces and underscores together |
| MetricLabels.FormatKeySingleWord | player.py:19 | a metric without underscores becomes the capitalised word |
| MetricLabels.FormatKeyWords | player.py:19 | for a metric without spaces, the label's space-separated words are the metric's underscore-separated words, each capitalised independently; empty words survive |
| MetricLabels.FormatKeyRoundTrip | player.py:19 | for lower-case ASCII snake_case, lower-casing the label and turning spaces into underscores gives back the metric |
| MetricLabels.DoubledUnderscore | player.py:19 | `a__b` becomes `A  B` |
| MetricLabels.LabelFromRule | player.py:19 | a text that follows the scan's rule at every position is the label |
| MetricLabels.RadarMetricLabels | player.py:185-187 | the radar metrics `now_cost, total_points, goals_conceded, creativity, form` get the labels `Now Cost, Total Points, Goals Conceded, Creativity, Form` |
| Predictions.CleanName | team.py:20 | `name.strip().split(".")[-1]`; the cleaned name contains no dot |
| Predictions.CleanNameIsLastPart | team.py:20 | the cleaned name contains no dot and is a suffix of the stripped name; it is all of the stripped name when that has no dot, and otherwise it follows the last dot |
| Predictions.Matches | team.py:21 | the row filter: the row's `web_name` contains the cleaned name and its team is the given team |
| Predictions.LatestMatch | team.py:21-22 | no row is chosen only when no row matches both name fragment and team; a chosen row matches and no matching row has a later gameweek |
| Predictions.PointsOrZero | team.py:22-24 | `int(pred_points_rounded)` of the chosen row, and the handler's 0 when the cell holds no number |
| Predictions.PlayerPred | team.py:18-24 | with no matching row the prediction is 0; otherwise it is the points of a matching row from the latest gameweek, and 0 when that row's points cell is not a number |
| Predictions.LaterRowDecides | team.py:21-22 | when one matching row has a strictly later gameweek than every other match, its points are the prediction |
| Squad.SumCostAppend | team.py:64 | the cost of two lists together is the sum of their costs |
| Squad.SumCost | team.py:64 | `sum(int(p['now_cost']) for p in players)`; additivity is `SumCostAppend` |
| Squad.Picks | team.py:60-65 | the players the loop collects, position after position, and the session picks it leaves; each call of the picker sees the picks the previous call left |
| Squad.TallySelection | team.py:60-65 | the loop returns the picks of every position of the formation, in order, the session picks as the last call leaves them, and a running total equal to the cost of exactly the players returned |
| Squad.PicksMembers | team.py:62-65 | a player is selected exactly when it is among the picks made for some position of the formation, from the session picks the earlier positions left |
| Squad.PicksKeepSelection | team.py:62-65 | a picker that never writes the session picks leaves them as they were after the whole loop |
| Squad.SelectedAt | team.py:69 | `selected_players.get(position, [])`: the picks for a position, or none when the position is absent |
| Squad.AllPositionsComplete | team.py:68-71 | completeness holds exactly when every position of the formation has at least its quota of picks, a missing position counting as none |
| Squad.MissingPositionIncomplete | team.py:69 | a formation position absent from the picks, with a positive quota, makes the selection incomplete |
| Squad.PlayersAt | team.py:136 | every player in a display group has that group's position |
| Squad.PlayersAtCount | team.py:136 | each player of the position appears in its group as often as in the team |
| Squad.PlayersAtAppend | team.py:136-140 | the group keeps the team's order: grouping a concatenation gives the concatenation of the groups |
| Squad.GroupsPartitionTeam | team.py:134-136 | the groups of the four positions in display order (FWD, MID, DEF, GKP) together have as many players as the team |
| Squad.PlayerInOwnGroup | team.py:134-136 | each player of the team is in the group of its own position |
| Squad.WebNames | team.py:180-181 | a name is in the set exactly when a player of the team carries it |
| Squad.SharedPlayers | team.py:180-182 | a name is shared exactly when a player of each team has it |
| Squad.SharedPlayersSymmetric | team.py:180-182 | sharing is symmetric and the shared names are a subset of each team's names |
| Session.Fresh | team.py:36-41 | fresh session state: exactly the four positions GKP, DEF, MID and FWD, each with an empty list; no best team and no formation |
| Session.TeamSession.constructor | team.py:36-41 | a new session object holds the fresh state |
| Session.TeamSession.Step | team.py:31-84 | a run changes the session object exactly as `Run` says; with player data the stored formation becomes the chosen one; a changed formation recomputes the best team; an unchanged formation with a cached team keeps the formation and the cached team |
| Session.Run | team.py:31-84 | one run: without player data the page stops and the session is untouched; otherwise the chosen formation is stored, the cached best team is the one shown, the total is the cost of the players shown, the remaining budget is the budget less the total, and "budget exceeded" is flagged exactly when the remainder is negative |
| Session.StartPicks | team.py:51-56 | the picks the selection loop starts from: `adjust_selected_players`' result when the formation changed, otherwise the session's picks as they are |
| Session.FreshBestTeam | team.py:80-81 | the best team as recomputed: the top players for the formation, repaired to the budget |
| Session.RunRecomputesOnChange | team.py:54-82 | a changed formation re-adjusts the picks, the selection loop then runs on the adjusted picks, and the best team is recomputed from the top players repaired to the budget |
| Session.RunReusesCache | team.py:51-84 | an unchanged formation with a cached team keeps the formation and the cached team and shows it; the picks are not re-adjusted, only passed through the selection loop |
| Session.RunUnchangedWhenPickerOnlyReads | team.py:51-84 | when `select_players_for_position` does not write the session, such a run leaves the whole session as it was |
| Session.RunIdempotent | team.py:51-84 | choosing the same formation twice: the second run keeps the formation and the best team the first run cached and shows the same team, even when the routines it is given would compute another one |
| Session.FreshCacheFilled | team.py:36-41 | the fresh session state has no formation, so the cache invariant holds from the start |
| Session.RunKeepsCacheFilled | team.py:79-82 | once a formation is stored a best team is cached, and every run keeps this |
| Session.RunReport | team.py:60-71 | each shown player was picked for some formation position, from the picks the earlier positions left; completeness is judged on the session picks as the selection loop leaves them |

## Left out

- `get_similar_players` (player.py:32-72): feature scaling, the stochastic UMAP embedding and the distance matrix are floating-point library calls.
- `get_prof_pic` (player.py:23-30): an HTTP fetch and image decoding.
- The `Dashboard` class and all rendering: Streamlit widgets and charts, the soccer-field figure, and the photo captions.
- The radar and pie data (player.py:182-205): they use `float()` parsing and percentage division, and they feed charts that are commented out.
- Loading the predictions CSV and the player data from the API (team.py:16, 31; player.py:75-81). The rows are a parameter (`Predictions.PredRow` sequences, `Session.Collaborators.players`).
- The budget column's figures (team.py:103-106, 112-113, 122-126): the best team's cost, the sums of `get_player_pred` over both teams, the £m strings divided by 10 and the warnings on both teams' costs. They are display figures the model does not compute.
- The `utils` routines and constants (team.py:2-4, 13) are not part of this model. The model treats them as arbitrary functions and values and does not describe their behaviour. In particular, the per-position quota truncation and the budget repair are outside it.
- Session.TeamSession.Step: `adjust_selected_players` and `select_players_for_position` update the session's picks in place. The model takes each as a function from the picks before the call to the picks after it. Writes they might make to the best team or the formation are not modelled.
- Predictions.Matches: `str.contains` matches a regular expression, while the model uses a plain substring test. The two differ for names that contain regular-expression metacharacters.
- Predictions.LatestMatch: among rows that share the latest gameweek, pandas' unstable sort picks any one. The model picks the last one. `Predictions.PlayerPred` promises only that some row of the latest gameweek is used.
- Predictions.PredRow: `pred_points_rounded` is an integer or missing. Truncation of a fractional float by `int()` is not modelled. Any other failure caught by the bare `except` is not modelled either, such as a name that is not a string.
- Text.Capitalize: case mapping is ASCII only. Python upper-cases, title-cases and lower-cases all of Unicode, and some characters change length (`'ß'.capitalize()` is `'Ss'`). The length and round-trip lemmas therefore hold for the model's ASCII mapping.
- Squad.Player: only the fields the team page reads are kept. Positions are the four tags GKP, DEF, MID and FWD.
- Squad.Counts: a formation is the sequence of its dictionary items. Distinct keys are not required, because the loop does not rely on them.
