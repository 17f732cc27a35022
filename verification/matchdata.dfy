/** The records the match-shaping pipeline reads and produces: the parsed match
    document and account as given inputs, the per-player view the command builds
    (recent.js lines 88-159), and the ways the command can stop early. */
module MatchData {
  import opened Wrappers

  /** `game.players.all_players[i].stats`. */
  datatype RawStats = RawStats(
    score: int, kills: int, deaths: int, assists: int,
    headshots: int, bodyshots: int, legshots: int)

  /** One entry of `game.players.all_players`. */
  datatype RawPlayer = RawPlayer(
    name: string, tag: string, puuid: string, team: string, partyId: string,
    character: string, currenttier: int, competitiveTier: int, stats: RawStats)

  /** The number of rounds played; the model only considers matches with at least one. */
  type RoundCount = n: int | n > 0 witness 1

  /** The match document `result.data[0]`, reduced to the fields the command reads. */
  datatype RawMatch = RawMatch(
    mode: string, region: string, mapName: string, matchId: string,
    gameStart: int, gameLength: int, rounds: RoundCount,
    players: seq<RawPlayer>, redRoundsWon: int, blueRoundsWon: int)

  /** The match-history response: an optional embedded status and the match list. */
  datatype MatchResponse = MatchResponse(status: Option<int>, data: seq<RawMatch>)

  /** The stored account of the invoking user. */
  datatype Account = Account(riotName: string, riotTag: string, region: string, puuid: string)

  /** What the account store answered: a record, nothing, or an exception. */
  datatype AccountLookup = Found(account: Account) | NotFound | StoreError

  /** The first entry of the rank-history response, for Competitive matches. */
  datatype Mmr = Mmr(current: int, change: int)

  datatype Shots = Shots(head: int, body: int, leg: int, total: int)
  datatype RankView = RankView(rankId: int, rankName: string, rankIcon: string)
  datatype AgentView = AgentView(agentName: string, agentEmoji: string)

  /** The derived `player` object. `slot` is the player's position in the match
      document; it makes two views equal only when they are the same object, as
      the source's `===` on player objects requires. `team` is absent in
      Deathmatch; `partyEmoji` is absent past the twelfth party. */
  datatype PlayerView = PlayerView(
    slot: nat, name: string, tag: string, puuid: string, region: string,
    isAuthor: bool, kills: int, deaths: int, assists: int,
    acs: int, acsStatus: string, score: int, team: Option<string>,
    partyEmoji: Option<string>, shots: Shots, rank: RankView, agent: AgentView)

  /** Why the command stops without a summary: the exceptions the source would
      throw (a missing match, a failed table lookup, a missing author, a failed
      rank-history read, a map missing from the catalogue, a Deathmatch title
      that reads a second player who does not exist). */
  datatype Fault =
    | NoMatchData
    | RankNotFound(slot: nat)
    | AgentNotFound(slot: nat)
    | AuthorMissing
    | MmrUnavailable
    | MapNotFound
    | RunnerUpMissing

  const DEATHMATCH: string := "Deathmatch"
  const COMPETITIVE: string := "Competitive"
}
