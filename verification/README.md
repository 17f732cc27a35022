# recent — a Dafny model of the match-shaping pipeline

The `recent` slash command of a Discord bot reads the caller's most recent
Valorant match and replies with a summary embed. This project models its
pipeline in `src/commands/matches/recent.js` as pure functions and proves
properties of them. The pipeline has these stages:

- **Account lookup and status check.** The account lookup has three outcomes: found, not found, or a store error. The match response's embedded `status` is then checked for 400.
- **Per-player derivation.** Each participant gets a view with:
  - an average combat score (ACS) and the " :fire:" marker;
  - an author flag from comparing `name#tag`;
  - a party symbol taken from first-appearance party indexing;
  - rank and agent entries found by first-match lookup in static tables.
- **Grouping and sorting.**
  - In team modes, the players are split into the author's team and the enemy team by case-insensitive team label.
  - The team, the enemies and the full list are each sorted by ACS, highest first, with a stable sort.
  - In Deathmatch, the sorted list is cut into two columns of at most six players.
- **Map lookup.** The map is looked up in a catalogue by display name.
- **Outcome and colour.**
  - In team modes, the outcome comes from the red/blue rounds won as seen from the author's side.
  - In Deathmatch, the author wins when they head the sorted list.
  - The embed colour follows the outcome.
- **Game length.** The length is rendered as `m:ss`.

The JavaScript program throws in several places: a table miss, a missing author, a failed rank-history read, a missing map, and a one-player Deathmatch title. Each of these is a `Fault` value. `Shape` returns the fault the program would hit first, in the order the program reaches them.

Modules, one per stage:

- `Wrappers`: `Option` and `Result`.
- `Text`: ASCII lower-casing and decimal digits.
- `Scoring`: ACS and the marker.
- `Parties`: party indexing and the palette.
- `Lookup`: first-match table searches.
- `MatchData`: raw inputs, views and faults.
- `Players`: per-player derivation and the author.
- `Ordering`: the stable descending sort.
- `Grouping`: the team partition and the Deathmatch columns.
- `Outcomes`: the outcome and the colour.
- `Duration`: `secondsToMinutesAndSeconds`.
- `Recent`: fault order, the summaries and the whole command.

The model makes three representation choices:

- **Player identity.** The program compares players with `===`. Each view carries `slot`, its position in the match document, so two views are equal exactly when they are the same player.
- **Integer arithmetic.**
  - `Math.round(score / rounds)` is computed as `(2*score + rounds) / (2*rounds)`. Dafny's `/` with a positive divisor is floor division, so this is round-half-up for every score.
  - `Math.floor` and the truncating `%` are written out for negative lengths.
- **Inputs for I/O.** The account lookup, the parsed match response, the rank-history entry and the map catalogue are parameters.

Three behaviours of the code are worth stating plainly, because the model keeps each of them:

- **Author flag.** Every player whose `name#tag` equals the account's overwrites `author`, so the last such player wins. When no player matches, `author` stays undefined. The first property read on it (line 165, 185, 273 or 351) throws: the `AuthorMissing` fault, unless an earlier fault comes first. The Deathmatch comparison `players[0] === author` at line 283 reads no property and does not throw. `Recent.Triage` gives the order.
- **Failed reads.** When the command gets that far, a Competitive match whose rank-history read yields no entry throws at line 185: the `MmrUnavailable` fault.
- **Map miss.** When the command gets that far, a map missing from the catalogue leaves `map` undefined, and line 267 throws: the `MapNotFound` fault. In a team match with players and no author, line 165 throws before the map is fetched.

## Model

| member | source | states |
|---|---|---|
| Scoring.Acs | src/commands/matches/recent.js:101-103 | ACS r satisfies r - 1/2 <= score/rounds < r + 1/2 (multiplied through by 2*rounds): the nearest integer, halves rounded up |
| Scoring.AcsUnique | src/commands/matches/recent.js:101-103 | only one integer meets the rounding bracket, so ACS is exactly round-half-up of score/rounds |
| Scoring.AcsStatus | src/commands/matches/recent.js:104-105 | the text after the score is " :fire:" exactly when ACS >= 300, otherwise empty |
| Scoring.HotIffScore | src/commands/matches/recent.js:101-105 | a player is marked hot exactly when 2*score >= 599*rounds (score/rounds >= 299.5) |
| Scoring.HotExample | src/commands/matches/recent.js:101-105 | 7200 points over 24 rounds is ACS 300 and is marked hot |
| Parties.Parties | src/commands/matches/recent.js:113-115 | the party list has no repeated id, holds exactly the ids seen, and is no longer than the player list |
| Parties.PartiesPrefix | src/commands/matches/recent.js:113-115 | visiting more players only appends to the party list: earlier positions never move |
| Parties.FirstAppearance | src/commands/matches/recent.js:113-115 | ids are listed in order of first appearance: a player whose id is new puts it at the position equal to the number of parties seen before them |
| Parties.PartyIndex | src/commands/matches/recent.js:116-121 | each player's index is below the number of distinct parties seen so far and points at their own id |
| Parties.PartyIndexFinal | src/commands/matches/recent.js:116-121 | a player's index is the position of their id in the final party list |
| Parties.SameIndexIffSameParty | src/commands/matches/recent.js:113-121 | two players get the same party index exactly when they share a party id |
| Parties.PaletteEmoji | src/commands/matches/recent.js:118 | a palette symbol exists exactly for the first twelve indices (past that the array read is undefined) |
| Parties.PaletteDistinct | src/commands/matches/recent.js:82 | the twelve palette symbols are pairwise different |
| Parties.SameEmojiIffSameParty | src/commands/matches/recent.js:113-121 | among the first twelve parties, two players show the same symbol exactly when they share a party id |
| Parties.Search | src/commands/matches/recent.js:116-121 | the scan stops at the first position holding the id |
| Parties.AssignParties | src/commands/matches/recent.js:113-121 | the loop as written builds the same party list as `Parties` and gives every player the index `PartyIndex` defines, pointing at their own id |
| Lookup.FindFirst | src/commands/matches/recent.js:133-135 | `findIndex`: the position returned matches and no earlier one does; nothing is returned exactly when no element matches |
| Lookup.FindRank | src/commands/matches/recent.js:129-143 | the rank found is the first table entry whose id is the player's current tier; nothing exactly when no entry has that id |
| Lookup.FindAgent | src/commands/matches/recent.js:144-152 | the agent found is the first table entry named as the player's character; nothing exactly when none is |
| Lookup.FindMap | src/commands/matches/recent.js:261-266 | the map found is the first catalogue entry whose display name is the match's map; nothing exactly when none is |
| Lookup.FindFirstExtend | src/commands/matches/recent.js:261-266 | appending entries to a table never changes a hit, because the search stops at the first match |
| Text.Lower | src/commands/matches/recent.js:165 | lower-casing keeps the length, maps each character on its own, and leaves no upper-case letter |
| Text.LowerIdempotent | src/commands/matches/recent.js:165 | lower-casing twice is lower-casing once |
| Players.DerivePlayer | src/commands/matches/recent.js:88-159 | one player's view, which fails exactly when the rank or agent lookup misses (rank checked first). On success it carries: the ACS rounding bracket; the hot marker iff 2*score >= 599*rounds; the author flag iff `name#tag` matches; a team iff the mode is not Deathmatch; the party symbol of the player's party index; total shots = head + body + leg; the name, tag, puuid, region, kills, deaths, assists, score and shot counts copied from the raw player; the status is `AcsStatus` of the ACS; and the rank and agent are the first table entries whose id or name matches |
| Players.DerivePlayers | src/commands/matches/recent.js:88-159 | all views in match order, one per player, each carrying its position, its author flag iff `name#tag` matches, and a team iff the mode is not Deathmatch; a failure is a rank or agent miss |
| Players.CollectResults | src/commands/matches/recent.js:88-159 | all values when every step succeeds, otherwise the error of the first failing step with every earlier step succeeding |
| Players.DerivePlayersAgree | src/commands/matches/recent.js:88-159 | every view is that player's derivation, and a failure is the first failing player's fault |
| Players.DerivedDistinct | src/commands/matches/recent.js:88-158 | the derived views are pairwise different (each loop iteration makes a new object) |
| Players.LastAuthor | src/commands/matches/recent.js:154-156 | the author is the last flagged player: flagged, with no flagged player after it; none exactly when nobody is flagged |
| Players.IsAuthorOf | src/commands/matches/recent.js:95-97 | the author test compares the `name#tag` strings; a player whose name and tag equal the account's always passes |
| Players.AuthorKeyPairwise | src/commands/matches/recent.js:95-97 | when names contain no `#`, comparing `name#tag` strings is the same as comparing names and tags separately |
| Players.AuthorKeyCollision | src/commands/matches/recent.js:95-97 | with a `#` inside a name, two different name/tag pairs can produce the same `name#tag` string |
| Ordering.SortDesc | src/commands/matches/recent.js:171-174 | the sorted list is a permutation of its input and is non-increasing in ACS |
| Ordering.InsertSorted | src/commands/matches/recent.js:171-174 | inserting into a sorted list keeps it sorted |
| Ordering.SortStable | src/commands/matches/recent.js:171-174 | the sort is stable: players with equal ACS keep their input order |
| Ordering.SortHeadIsMax | src/commands/matches/recent.js:174 | the head of the sorted list is an input player with the greatest ACS |
| Ordering.SortHeadIsFirstMax | src/commands/matches/recent.js:174 | the head of the sorted list is the earliest input player with the greatest ACS |
| Ordering.SortHead | src/commands/matches/recent.js:174 | a player heads the sorted list exactly when nobody has a higher ACS and every earlier player has a lower one |
| Grouping.OnTeam | src/commands/matches/recent.js:165 | only a player with a team can be on the author's team, and a player with exactly the author's label always is |
| Grouping.Partition | src/commands/matches/recent.js:163-170 | every player lands in exactly one of the two lists, which together are a permutation of the players; the first holds only players whose lower-cased team equals the author's, the second only the others |
| Grouping.PartitionMembership | src/commands/matches/recent.js:165-169 | a player is in the author's team list exactly when their lower-cased team equals the author's, and in the enemy list exactly when it does not |
| Grouping.AuthorOnOwnTeam | src/commands/matches/recent.js:165-166 | the author is always in the team list and never in the enemy list |
| Grouping.Teams | src/commands/matches/recent.js:163-172 | the two sorted halves are together a permutation of the players, each non-increasing in ACS, split by team label |
| Grouping.Columns | src/commands/matches/recent.js:176-181 | the two columns concatenated are the first min(12, n) sorted players; each holds at most six, and the second is non-empty only when the first is full |
| Outcomes.TeamScores | src/commands/matches/recent.js:273-274 | when the author's team lower-cases to "red", team = red rounds won and enemy = blue; otherwise the two are swapped |
| Outcomes.TeamOutcome | src/commands/matches/recent.js:275-281 | Victory iff team > enemy, Defeat iff enemy > team, Draw iff equal, so exactly one holds |
| Outcomes.OppositeSidesMirror | src/commands/matches/recent.js:272-281 | players on the red and on the blue side of the same match see mirrored outcomes |
| Outcomes.VictoryExample | src/commands/matches/recent.js:272-281 | an author on "Red" with 13 rounds to 7 has scores 13-7 and a victory |
| Outcomes.DeathmatchOutcome | src/commands/matches/recent.js:283-287 | Victory exactly when the author heads the sorted list, otherwise Defeat; never a draw |
| Outcomes.ColourFor | src/commands/matches/recent.js:290-302 | green exactly for "Victory", red exactly for "Defeat", yellow for anything else |
| Outcomes.ColourIdentifiesOutcome | src/commands/matches/recent.js:290-302 | the three outcomes get three different colours |
| Duration.MinutesAndSeconds | src/commands/matches/recent.js:394-396 | for sec >= 0: minutes*60 + seconds = sec with 0 <= seconds < 60; for negative sec the truncated seconds are in (-60, 0] and the sum falls a minute short unless sec is a whole number of minutes |
| Duration.SecondsToMinutesAndSeconds | src/commands/matches/recent.js:394-398 | for sec >= 0 the text is the decimal minutes, a colon and the seconds as exactly two digits, and the independent `m:ss` reader `ParseDuration` gives sec back |
| Duration.FormatShape | src/commands/matches/recent.js:397 | for sec >= 0 the template renders the seconds as exactly two digits after the decimal minutes and a colon |
| Duration.FormatRoundTrip | src/commands/matches/recent.js:397 | reading the rendered `m:ss` text back gives the original non-negative length |
| Duration.FormatExamples | src/commands/matches/recent.js:394-398 | 754 seconds renders as "12:34" and 65 as "1:05" |
| Recent.DeathmatchSummary | src/commands/matches/recent.js:174-181 | the Deathmatch summary: all players sorted by ACS (a sorted permutation) laid out in the two columns, with no scores or MMR, the match's mode, id, start and formatted length, the catalogue entry's map name and image, outcome Victory exactly when the author heads the list and never a draw, and the outcome's colour; the columns are `Grouping.Columns` of the sorted list, the first six and the next six |
| Recent.DeathmatchResult | src/commands/matches/recent.js:354 | a Deathmatch fails exactly when the author is its only player (the title reads `players[1]`) and is otherwise the Deathmatch summary |
| Recent.TeamSummary | src/commands/matches/recent.js:161-174 | the team summary: the halves are `Grouping.Teams` of the players, the first holding exactly the players whose lower-cased team label is the author's, each sorted (author in the team half); scores from the author's side; Victory, Defeat or Draw by comparing them; the colour; the match's mode, id, start, formatted length and map entry; and the fetched MMR entry in Competitive matches, none otherwise |
| Recent.Triage | src/commands/matches/recent.js:163-351 | fault order once players are derived. A missing author fails first in team modes with players (line 165), and in a player-less Competitive match at line 185; then a missing rank-history entry; then a missing map; a Deathmatch, or a player-less match in another team mode, without an author fails after the map check (lines 273 and 351). Success exactly when there is an author, the MMR is present where needed, and the map is found; it gives the last author and the map entry |
| Recent.Locate | src/commands/matches/recent.js:88-267 | a derivation failure comes first; otherwise the fault order of `Triage`; on success the author is a `name#tag` match and the last one, and the map entry is the catalogue's |
| Recent.NoAuthorIffNoMatch | src/commands/matches/recent.js:154-156 | no author is found exactly when no raw player's `name#tag` is the account's |
| Recent.LastAuthorIsLastMatch | src/commands/matches/recent.js:154-156 | once the players derive, an author found matches the account and no later player does |
| Recent.AuthorMissingMeansNoMatch | src/commands/matches/recent.js:165 | the missing-author fault happens only when no player's `name#tag` is the account's |
| Recent.MapNotFoundMeansUnnamed | src/commands/matches/recent.js:261-267 | the missing-map fault happens only when no catalogue entry has the match's map name |
| Recent.MmrUnavailableIff | src/commands/matches/recent.js:184-222 | the rank-history fault happens exactly in Competitive matches whose players all derive, whose author exists, and whose rank-history entry is missing |
| Recent.Shape | src/commands/matches/recent.js:79-302 | the shaped match: the fault `Locate` names, the one-player Deathmatch failure (exactly when Deathmatch with one player), and success in every other case: the Deathmatch or team summary around the derived author, who matches the account and is the last match |
| Recent.ShapeAuthorIsLast | src/commands/matches/recent.js:154-156 | whenever shaping succeeds, the author matches the account and no later player does |
| Recent.ShapeDeathmatch | src/commands/matches/recent.js:174-287 | whenever a Deathmatch shapes successfully, it is the Deathmatch summary of the derived players |
| Recent.DeathmatchSummaryWinner | src/commands/matches/recent.js:283-287 | in the Deathmatch summary, player k wins exactly when nobody has a higher ACS and everyone listed before them has a lower one |
| Recent.DeathmatchWinner | src/commands/matches/recent.js:283-287 | a shaped Deathmatch is won exactly when no player outscores the author and every player listed before the author scores lower (ties go to the first listed, because the sort is stable) |
| Recent.Run | src/commands/matches/recent.js:18-77 | no reply exactly on a store error; "not logged in" exactly when there is no account; "API is down" exactly on status 400; an empty match list crashes; otherwise the reply is the embed of what `Shape` gives for the first match, or the crash with its fault |

## Left out

- **Discord interaction.** `deferReply` and `editReply` are framework calls. The reply is a `Reply` value instead.
- **Network and database reads.** The HTTP fetches, stream reading and JSON parsing are left out, and so is the account store. Their results are the parameters of `Run` and `Shape`: the account lookup, the parsed match response, the rank-history entry and the map catalogue. A rank-history read that fails is `None`.
- **Headshot percentage.** It is a floating-point value, NaN when no shots landed, printed with `toFixed(2)`. Only the shot total is modelled.
- **`millisToMinutesAndSeconds`.** It uses floating-point `toFixed` and is never called.
- **Embed text.** The `EmbedBuilder` calls, the Markdown row templates, the title strings, the zero-width-space separators and the tracker URLs (built with `encodeURIComponent`) are presentation. So is `author.agent.icon`, which reads a field the agent view never has.
- **Zero rounds.** A match with zero rounds makes ACS `NaN` or `Infinity`. `RawMatch.rounds` is a positive `RoundCount`, so that case is not modelled.
- **Floating-point rounding.** `Math.round(score / rounds)` is modelled as exact rational rounding. Floating-point division could round differently right at a half; this is not modelled.
- Duration.SecondsToMinutesAndSeconds: renders minutes in plain decimal for every length. JavaScript switches to exponent form at magnitude 10^21, far beyond any game length.
- Text.Lower: lower-cases ASCII letters only. JavaScript's `toLowerCase` also folds non-ASCII letters.
- **Repeated rank search.** The rank table is searched twice per player, once for the name and once for the icon. The two searches give the same entry, so the model searches once.
- **Asynchronous timing.** The program awaits the rank-history read and the map read one after the other. The model takes both as already available.
- Grouping.Partition: does not state that each list keeps match order, as the `push` loop does. That order shows only as the tie order after the stable sort, which is not stated either (next line).
- Grouping.Teams: does not state the tie order inside each team list. Its stability follows from `Ordering.SortStable`, but is not restated in terms of match order.
