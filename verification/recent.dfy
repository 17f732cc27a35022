/** The `recent` command's pipeline from the account lookup and the parsed
    responses to the reply (recent.js lines 18-32, 68-77 and 79-302). Network
    reads are inputs: the match-history response, the rank-history entry and the
    map catalogue arrive already parsed. */
module Recent {
  import opened Wrappers
  import opened Lookup
  import opened MatchData
  import opened Players
  import opened Ordering
  import opened Grouping
  import opened Outcomes
  import opened Duration

  /** The reply texts of the two handled failures (lines 26 and 75). */
  const NOT_LOGGED_IN: string := "You are not logged in.  Please use the /login command to log in."
  const API_DOWN: string := "**ERROR:** API is down, please try again later."

  /** The player lists the embed shows: both teams, or two Deathmatch columns. */
  datatype Layout =
    | TeamLayout(team: seq<PlayerView>, enemy: seq<PlayerView>)
    | ColumnLayout(first: seq<PlayerView>, second: seq<PlayerView>)

  datatype Scores = Scores(team: int, enemy: int)

  /** The shaped match: the `match` object, the sorted `players`, the `author`,
      the lists to display and the embed colour. */
  datatype Summary = Summary(
    gamemode: string, mapName: string, mapImage: string, matchId: string,
    gameStart: int, gameLength: string, outcome: Outcome, colour: int,
    scores: Option<Scores>, players: seq<PlayerView>, author: PlayerView,
    layout: Layout, mmr: Option<Mmr>)

  /** What the command does: nothing, a plain text reply, an unhandled exception,
      or the embed. */
  datatype Reply = NoReply | Message(text: string) | Crash(fault: Fault) | Embed(summary: Summary)

  /** The Deathmatch summary (lines 174-181 and 283-287): one list sorted by
      ACS, shown as two columns, won exactly when the author heads the list. */
  function DeathmatchSummary(m: RawMatch, ps: seq<PlayerView>, author: PlayerView, entry: MapEntry): (s: Summary)
    requires author in ps
    ensures s.players == SortDesc(ps, AcsOf)
    ensures multiset(s.players) == multiset(ps) && SortedDesc(s.players, AcsOf)
    ensures s.author == author && s.author in s.players
    ensures s.layout.ColumnLayout?
    ensures (s.layout.first, s.layout.second) == Columns(s.players)
    ensures s.layout.first + s.layout.second == s.players[..if |s.players| < 12 then |s.players| else 12]
    ensures s.scores.None? && s.mmr.None?
    ensures s.outcome != Draw
    ensures s.outcome == Victory <==> s.players[0] == author
    ensures s.colour == ColourFor(Label(s.outcome))
    ensures && s.gamemode == m.mode && s.matchId == m.matchId && s.gameStart == m.gameStart
            && s.mapName == entry.displayName && s.mapImage == entry.listViewIcon
            && s.gameLength == SecondsToMinutesAndSeconds(m.gameLength)
  {
    var sorted := SortDesc(ps, AcsOf);
    assert author in multiset(sorted);
    var (first, second) := Columns(sorted);
    var outcome := DeathmatchOutcome(sorted, author);
    Summary(m.mode, entry.displayName, entry.listViewIcon, m.matchId, m.gameStart,
            SecondsToMinutesAndSeconds(m.gameLength), outcome, ColourFor(Label(outcome)), None,
            sorted, author, ColumnLayout(first, second), None)
  }

  /** The Deathmatch summary, unless the author is the only player: then they
      win, and the title's read of the runner-up's kills (line 354) fails. */
  function DeathmatchResult(m: RawMatch, ps: seq<PlayerView>, author: PlayerView, entry: MapEntry)
    : (r: Result<Summary, Fault>)
    requires author in ps
    ensures r.Err? <==> |ps| == 1
    ensures r.Err? ==> r.error == RunnerUpMissing
    ensures r.Ok? ==> r.value == DeathmatchSummary(m, ps, author, entry)
  {
    var s := DeathmatchSummary(m, ps, author, entry);
    assert |ps| == 1 ==> s.players[0] in multiset(ps);
    if s.outcome == Victory && |ps| < 2 then Err(RunnerUpMissing) else Ok(s)
  }

  /** The team-mode summary (lines 161-174 and 272-281): the author's team and
      the enemy team, each sorted by ACS, and the outcome from the rounds won. */
  function TeamSummary(m: RawMatch, ps: seq<PlayerView>, author: PlayerView, entry: MapEntry,
                       mmr: Option<Mmr>): (s: Summary)
    requires author in ps && author.team.Some?
    ensures s.players == SortDesc(ps, AcsOf)
    ensures multiset(s.players) == multiset(ps) && SortedDesc(s.players, AcsOf)
    ensures s.author == author && s.author in s.players
    ensures s.layout.TeamLayout?
    ensures multiset(s.layout.team) + multiset(s.layout.enemy) == multiset(ps)
    ensures author in s.layout.team
    ensures SortedDesc(s.layout.team, AcsOf) && SortedDesc(s.layout.enemy, AcsOf)
    ensures s.scores == Some(Scores(TeamScores(author.team.value, m.redRoundsWon, m.blueRoundsWon).0,
                                    TeamScores(author.team.value, m.redRoundsWon, m.blueRoundsWon).1))
    ensures s.outcome == Victory <==> s.scores.value.team > s.scores.value.enemy
    ensures s.outcome == Defeat <==> s.scores.value.enemy > s.scores.value.team
    ensures s.outcome == Draw <==> s.scores.value.team == s.scores.value.enemy
    ensures s.colour == ColourFor(Label(s.outcome))
    ensures s.mmr == (if m.mode == COMPETITIVE then mmr else None)
    ensures forall i :: 0 <= i < |s.layout.team| ==> OnTeam(s.layout.team[i], author.team.value)
    ensures forall i :: 0 <= i < |s.layout.enemy| ==> !OnTeam(s.layout.enemy[i], author.team.value)
    ensures (s.layout.team, s.layout.enemy) == Teams(ps, author.team.value)
    ensures && s.gamemode == m.mode && s.matchId == m.matchId && s.gameStart == m.gameStart
            && s.mapName == entry.displayName && s.mapImage == entry.listViewIcon
            && s.gameLength == SecondsToMinutesAndSeconds(m.gameLength)
  {
    var sorted := SortDesc(ps, AcsOf);
    assert author in multiset(sorted);
    var authorTeam := author.team.value;
    var (team, enemy) := Teams(ps, authorTeam);
    assert author in multiset(team) by {
      AuthorOnOwnTeam(ps, author);
      assert author in multiset(Partition(ps, authorTeam).0);
    }
    var (teamScore, enemyScore) := TeamScores(authorTeam, m.redRoundsWon, m.blueRoundsWon);
    var outcome := TeamOutcome(teamScore, enemyScore);
    Summary(m.mode, entry.displayName, entry.listViewIcon, m.matchId, m.gameStart,
            SecondsToMinutesAndSeconds(m.gameLength), outcome, ColourFor(Label(outcome)),
            Some(Scores(teamScore, enemyScore)), sorted, author, TeamLayout(team, enemy),
            if m.mode == COMPETITIVE then mmr else None)
  }

  /** Once the players are derived: the author's match position and the map's
      catalogue entry, or the exception the source raises first. In team modes a
      missing author fails at line 165 when there are players, and a
      player-less Competitive match fails at line 185; then a missing
      rank-history entry (line 185); then a map missing from the catalogue
      (line 267); then, in the remaining cases, a missing author fails at line
      273 or 351. `entry` is the map's catalogue entry, if any. */
  function Triage(ps: seq<PlayerView>, mode: string, mmr: Option<Mmr>, entry: Option<MapEntry>)
    : (r: Result<(nat, MapEntry), Fault>)
    ensures r.Ok? <==> LastAuthor(ps).Some? && !(mode == COMPETITIVE && mmr.None?) && entry.Some?
    ensures r.Ok? ==> r.value == (LastAuthor(ps).value, entry.value)
    ensures r.Err? ==> r.error in {AuthorMissing, MmrUnavailable, MapNotFound}
    ensures r == Err(AuthorMissing) ==> LastAuthor(ps).None?
    ensures r == Err(MmrUnavailable) <==> LastAuthor(ps).Some? && mode == COMPETITIVE && mmr.None?
    ensures r == Err(MapNotFound) ==> entry.None?
    ensures entry.None? && LastAuthor(ps).Some? && !(mode == COMPETITIVE && mmr.None?) ==> r == Err(MapNotFound)
    ensures mode == DEATHMATCH && entry.None? ==> r == Err(MapNotFound)
    ensures mode == COMPETITIVE && LastAuthor(ps).None? ==> r == Err(AuthorMissing)
    ensures mode != DEATHMATCH && |ps| > 0 && LastAuthor(ps).None? ==> r == Err(AuthorMissing)
    ensures mode != DEATHMATCH && mode != COMPETITIVE && ps == [] ==>
              r == (if entry.None? then Err(MapNotFound) else Err(AuthorMissing))
  {
    var authorAt := LastAuthor(ps);
    if authorAt.None? && ((mode != DEATHMATCH && |ps| > 0) || mode == COMPETITIVE) then Err(AuthorMissing)
    else if mode == COMPETITIVE && mmr.None? then Err(MmrUnavailable)
    else
      match entry
      case None => Err(MapNotFound)
      case Some(e) =>
        if authorAt.None? then Err(AuthorMissing)
        else Ok((authorAt.value, e))
  }

  /** Finds the author and the map, or names the exception that stops the source
      first: a failed table lookup while deriving the players, then the faults
      of `Triage`. On success, the author's match position and the catalogue
      entry. */
  function Locate(m: RawMatch, account: Account, ranks: seq<RankEntry>, agents: seq<AgentEntry>,
                  maps: seq<MapEntry>, mmr: Option<Mmr>): (r: Result<(nat, MapEntry), Fault>)
    ensures DerivePlayers(m, account, ranks, agents).Err? ==> r == Err(DerivePlayers(m, account, ranks, agents).error)
    ensures DerivePlayers(m, account, ranks, agents).Ok? ==>
              r == Triage(DerivePlayers(m, account, ranks, agents).value, m.mode, mmr, FindMap(maps, m.mapName))
    ensures r.Err? ==> !r.error.NoMatchData? && !r.error.RunnerUpMissing?
    ensures r.Ok? ==> && DerivePlayers(m, account, ranks, agents).Ok?
                      && LastAuthor(DerivePlayers(m, account, ranks, agents).value) == Some(r.value.0)
                      && IsAuthorOf(m.players[r.value.0], account)
                      && FindMap(maps, m.mapName) == Some(r.value.1)
  {
    match DerivePlayers(m, account, ranks, agents)
    case Err(f) => Err(f)
    case Ok(ps) => Triage(ps, m.mode, mmr, FindMap(maps, m.mapName))
  }

  /** With the players derived, `LastAuthor` finds no one exactly when no raw
      player's `name#tag` is the account's. */
  lemma NoAuthorIffNoMatch(m: RawMatch, account: Account, ranks: seq<RankEntry>, agents: seq<AgentEntry>)
    requires DerivePlayers(m, account, ranks, agents).Ok?
    ensures LastAuthor(DerivePlayers(m, account, ranks, agents).value).None? <==>
              forall i :: 0 <= i < |m.players| ==> !IsAuthorOf(m.players[i], account)
  {
    var ps := DerivePlayers(m, account, ranks, agents).value;
    var found := LastAuthor(ps);
    if found.None? {
      forall i | 0 <= i < |m.players|
        ensures !IsAuthorOf(m.players[i], account)
      {
        assert !ps[i].isAuthor;
      }
    } else {
      assert ps[found.value].isAuthor;
      assert IsAuthorOf(m.players[found.value], account);
    }
  }

  /** The author `LastAuthor` finds is the last raw player whose `name#tag` is
      the account's. */
  lemma LastAuthorIsLastMatch(m: RawMatch, account: Account, ranks: seq<RankEntry>, agents: seq<AgentEntry>)
    requires DerivePlayers(m, account, ranks, agents).Ok?
    ensures var found := LastAuthor(DerivePlayers(m, account, ranks, agents).value);
            found.Some? ==>
              && found.value < |m.players| && IsAuthorOf(m.players[found.value], account)
              && forall j :: found.value < j < |m.players| ==> !IsAuthorOf(m.players[j], account)
  {
    var ps := DerivePlayers(m, account, ranks, agents).value;
    if LastAuthor(ps).Some? {
      var k := LastAuthor(ps).value;
      forall j | k < j < |m.players|
        ensures !IsAuthorOf(m.players[j], account)
      {
        assert !ps[j].isAuthor;
      }
    }
  }

  /** A missing author is one no player matches. */
  lemma AuthorMissingMeansNoMatch(m: RawMatch, account: Account, ranks: seq<RankEntry>, agents: seq<AgentEntry>,
                                  maps: seq<MapEntry>, mmr: Option<Mmr>)
    requires Locate(m, account, ranks, agents, maps, mmr) == Err(AuthorMissing)
    ensures forall i :: 0 <= i < |m.players| ==> !IsAuthorOf(m.players[i], account)
  {
    assert DerivePlayers(m, account, ranks, agents).Ok?;
    NoAuthorIffNoMatch(m, account, ranks, agents);
  }

  /** A missing map is one the catalogue does not name. */
  lemma MapNotFoundMeansUnnamed(m: RawMatch, account: Account, ranks: seq<RankEntry>, agents: seq<AgentEntry>,
                                maps: seq<MapEntry>, mmr: Option<Mmr>)
    requires Locate(m, account, ranks, agents, maps, mmr) == Err(MapNotFound)
    ensures forall e :: e in maps ==> e.displayName != m.mapName
  {
  }

  /** A missing rank-history entry stops exactly the Competitive matches whose
      players all derive and include the author. */
  lemma MmrUnavailableIff(m: RawMatch, account: Account, ranks: seq<RankEntry>, agents: seq<AgentEntry>,
                          maps: seq<MapEntry>, mmr: Option<Mmr>)
    ensures Locate(m, account, ranks, agents, maps, mmr) == Err(MmrUnavailable) <==>
              && DerivePlayers(m, account, ranks, agents).Ok?
              && (exists i :: 0 <= i < |m.players| && IsAuthorOf(m.players[i], account))
              && m.mode == COMPETITIVE && mmr.None?
  {
    if DerivePlayers(m, account, ranks, agents).Ok? {
      NoAuthorIffNoMatch(m, account, ranks, agents);
    }
  }

  /** Shapes a match for the account's player: the Deathmatch or the team-mode
      summary around the author, or the fault `Locate` names. A Deathmatch won
      by the only player fails too: its title (line 354) reads the kills of
      `players[1]`. */
  function Shape(m: RawMatch, account: Account, ranks: seq<RankEntry>, agents: seq<AgentEntry>,
                 maps: seq<MapEntry>, mmr: Option<Mmr>): (r: Result<Summary, Fault>)
    ensures Locate(m, account, ranks, agents, maps, mmr).Err? ==>
              r == Err(Locate(m, account, ranks, agents, maps, mmr).error)
    ensures r == Err(RunnerUpMissing) <==>
              Locate(m, account, ranks, agents, maps, mmr).Ok? && m.mode == DEATHMATCH && |m.players| == 1
    ensures r.Ok? <==>
              Locate(m, account, ranks, agents, maps, mmr).Ok? && !(m.mode == DEATHMATCH && |m.players| == 1)
    ensures r.Ok? ==> var ps := DerivePlayers(m, account, ranks, agents).value;
                      var k := r.value.author.slot;
                      && k < |ps| && r.value.author == ps[k]
                      && IsAuthorOf(m.players[k], account)
                      && LastAuthor(ps) == Some(k)
                      && FindMap(maps, m.mapName) == Some(MapEntry(r.value.mapName, r.value.mapImage))
                      && r.value == (if m.mode == DEATHMATCH
                                     then DeathmatchSummary(m, ps, ps[k], FindMap(maps, m.mapName).value)
                                     else TeamSummary(m, ps, ps[k], FindMap(maps, m.mapName).value, mmr))
  {
    match Locate(m, account, ranks, agents, maps, mmr)
    case Err(f) => Err(f)
    case Ok((k, entry)) =>
      var ps := DerivePlayers(m, account, ranks, agents).value;
      var author := ps[k];
      if m.mode == DEATHMATCH then DeathmatchResult(m, ps, author, entry)
      else Ok(TeamSummary(m, ps, author, entry, mmr))
  }

  /** The author of a shaped match is the last player, in match order, whose
      `name#tag` equals the account's: every later match overwrites `author`. */
  lemma ShapeAuthorIsLast(m: RawMatch, account: Account, ranks: seq<RankEntry>, agents: seq<AgentEntry>,
                          maps: seq<MapEntry>, mmr: Option<Mmr>)
    ensures var r := Shape(m, account, ranks, agents, maps, mmr);
            r.Ok? ==>
              && r.value.author.slot < |m.players| && IsAuthorOf(m.players[r.value.author.slot], account)
              && forall j :: r.value.author.slot < j < |m.players| ==> !IsAuthorOf(m.players[j], account)
  {
    if Shape(m, account, ranks, agents, maps, mmr).Ok? {
      LastAuthorIsLastMatch(m, account, ranks, agents);
    }
  }

  /** Player `k` has the highest ACS, and every player listed before it has a
      strictly lower one. */
  predicate TopScorer(ps: seq<PlayerView>, k: nat)
    requires k < |ps|
  {
    && (forall j :: 0 <= j < |ps| ==> ps[j].acs <= ps[k].acs)
    && (forall j :: 0 <= j < k ==> ps[j].acs < ps[k].acs)
  }

  /** In Deathmatch the author wins exactly when no player has a higher ACS and
      every player before the author in match order has a lower one: ties for the
      top score go to whoever the match document lists first, because the sort
      is stable. */
  lemma DeathmatchWinner(m: RawMatch, account: Account, ranks: seq<RankEntry>, agents: seq<AgentEntry>,
                         maps: seq<MapEntry>, mmr: Option<Mmr>)
    requires m.mode == DEATHMATCH
    ensures var r := Shape(m, account, ranks, agents, maps, mmr);
            r.Ok? ==> var ps := DerivePlayers(m, account, ranks, agents).value;
                      r.value.author.slot < |ps| && (r.value.outcome == Victory <==> TopScorer(ps, r.value.author.slot))
  {
    if Shape(m, account, ranks, agents, maps, mmr).Ok? {
      var s := Shape(m, account, ranks, agents, maps, mmr).value;
      var ps := DerivePlayers(m, account, ranks, agents).value;
      var entry := FindMap(maps, m.mapName).value;
      ShapeDeathmatch(m, account, ranks, agents, maps, mmr);
      DeathmatchSummaryWinner(m, ps, s.author.slot, entry);
    }
  }

  /** A shaped Deathmatch is the Deathmatch summary of the derived players. */
  lemma ShapeDeathmatch(m: RawMatch, account: Account, ranks: seq<RankEntry>, agents: seq<AgentEntry>,
                        maps: seq<MapEntry>, mmr: Option<Mmr>)
    requires m.mode == DEATHMATCH
    ensures var r := Shape(m, account, ranks, agents, maps, mmr);
            r.Ok? ==> var ps := DerivePlayers(m, account, ranks, agents).value;
                      && r.value.author.slot < |ps|
                      && r.value == DeathmatchSummary(m, ps, ps[r.value.author.slot], FindMap(maps, m.mapName).value)
  {
  }

  lemma DeathmatchSummaryWinner(m: RawMatch, ps: seq<PlayerView>, k: nat, entry: MapEntry)
    requires k < |ps|
    requires forall i :: 0 <= i < |ps| ==> ps[i].slot == i
    ensures DeathmatchSummary(m, ps, ps[k], entry).outcome == Victory <==> TopScorer(ps, k)
  {
    assert forall i, j :: 0 <= i < j < |ps| ==> ps[i] != ps[j] by {
      forall i, j | 0 <= i < j < |ps|
        ensures ps[i] != ps[j]
      {
        assert ps[i].slot != ps[j].slot;
      }
    }
    SortHead(ps, AcsOf, k);
    assert forall j :: 0 <= j < |ps| ==> AcsOf(ps[j]) == ps[j].acs;
  }

  /** The whole command: account lookup, the embedded status check, then shaping. */
  function Run(lookup: AccountLookup, response: MatchResponse, ranks: seq<RankEntry>,
               agents: seq<AgentEntry>, maps: seq<MapEntry>, mmr: Option<Mmr>): (r: Reply)
    ensures r == NoReply <==> lookup.StoreError?
    ensures r == Message(NOT_LOGGED_IN) <==> lookup.NotFound?
    ensures r == Message(API_DOWN) <==> lookup.Found? && response.status == Some(400)
    ensures r == Crash(NoMatchData) <==> lookup.Found? && response.status != Some(400) && response.data == []
    ensures r.Crash? && r.fault != NoMatchData ==>
              && lookup.Found? && |response.data| > 0
              && Shape(response.data[0], lookup.account, ranks, agents, maps, mmr) == Err(r.fault)
    ensures r.Embed? ==> lookup.Found? && response.status != Some(400) && |response.data| > 0
                         && Shape(response.data[0], lookup.account, ranks, agents, maps, mmr) == Ok(r.summary)
    ensures lookup.Found? && response.status != Some(400) && response.data != [] ==>
              r == match Shape(response.data[0], lookup.account, ranks, agents, maps, mmr)
                   case Ok(s) => Embed(s)
                   case Err(f) => Crash(f)
  {
    match lookup
    case StoreError => NoReply
    case NotFound => Message(NOT_LOGGED_IN)
    case Found(account) =>
      if response.status == Some(400) then Message(API_DOWN)
      else if response.data == [] then Crash(NoMatchData)
      else
        match Shape(response.data[0], account, ranks, agents, maps, mmr)
        case Err(f) => Crash(f)
        case Ok(summary) => Embed(summary)
  }
}
