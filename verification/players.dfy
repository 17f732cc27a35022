/** The per-player derivation loop (recent.js lines 88-159): one view per raw
    player, in match order, and the author as the last player whose `name#tag`
    equals the account's. */
module Players {
  import opened Wrappers
  import opened Scoring
  import opened Parties
  import opened Lookup
  import opened MatchData

  /** The party ids of the players, in match order. */
  function PartyIds(players: seq<RawPlayer>): (ids: seq<PartyId>)
    ensures |ids| == |players|
    ensures forall i :: 0 <= i < |players| ==> ids[i] == players[i].partyId
  {
    if players == [] then [] else PartyIds(players[..|players| - 1]) + [players[|players| - 1].partyId]
  }

  /** The string `name#tag` the source compares. */
  function AuthorKey(name: string, tag: string): string {
    name + "#" + tag
  }

  /** Whether `p` is the account's player: line 95 compares the two `name#tag`
      strings. Equal names and tags always match. */
  function IsAuthorOf(p: RawPlayer, account: Account): (b: bool)
    ensures p.name == account.riotName && p.tag == account.riotTag ==> b
  {
    AuthorKey(p.name, p.tag) == AuthorKey(account.riotName, account.riotTag)
  }

  /** The view of player `i`. The rank table is searched first, then the agent
      table, and a miss in either is the exception the source raises when it
      dereferences the entry at index -1. */
  function DerivePlayer(m: RawMatch, account: Account, ranks: seq<RankEntry>,
                        agents: seq<AgentEntry>, i: nat): (r: Result<PlayerView, Fault>)
    requires i < |m.players|
    ensures r.Err? <==> FindRank(ranks, m.players[i].currenttier).None?
                        || FindAgent(agents, m.players[i].character).None?
    ensures r.Err? && FindRank(ranks, m.players[i].currenttier).None? ==> r.error == RankNotFound(i)
    ensures r.Err? && FindRank(ranks, m.players[i].currenttier).Some? ==> r.error == AgentNotFound(i)
    ensures r.Ok? ==> r.value.slot == i
    ensures r.Ok? ==> && r.value.name == m.players[i].name && r.value.tag == m.players[i].tag
                      && r.value.puuid == m.players[i].puuid && r.value.region == m.region
    ensures r.Ok? ==> && r.value.kills == m.players[i].stats.kills && r.value.deaths == m.players[i].stats.deaths
                      && r.value.assists == m.players[i].stats.assists && r.value.score == m.players[i].stats.score
    ensures r.Ok? ==> (r.value.isAuthor <==> IsAuthorOf(m.players[i], account))
    ensures r.Ok? ==> 2 * m.rounds * r.value.acs - m.rounds <= 2 * m.players[i].stats.score
                      < 2 * m.rounds * r.value.acs + m.rounds
    ensures r.Ok? ==> r.value.acsStatus == AcsStatus(r.value.acs)
    ensures r.Ok? ==> (r.value.acsStatus == FIRE <==> 2 * m.players[i].stats.score >= 599 * m.rounds)
    ensures r.Ok? ==> (r.value.team.Some? <==> m.mode != DEATHMATCH)
    ensures r.Ok? && r.value.team.Some? ==> r.value.team.value == m.players[i].team
    ensures r.Ok? ==> r.value.partyEmoji == PaletteEmoji(PartyIndex(PartyIds(m.players), i))
    ensures r.Ok? ==> && r.value.shots.head == m.players[i].stats.headshots
                      && r.value.shots.body == m.players[i].stats.bodyshots
                      && r.value.shots.leg == m.players[i].stats.legshots
                      && r.value.shots.total
                         == m.players[i].stats.headshots + m.players[i].stats.bodyshots + m.players[i].stats.legshots
    ensures r.Ok? ==> r.value.rank.rankId == m.players[i].competitiveTier
                      && FindRank(ranks, m.players[i].currenttier)
                         == Some(RankEntry(m.players[i].currenttier, r.value.rank.rankName, r.value.rank.rankIcon))
    ensures r.Ok? ==> r.value.agent.agentName == m.players[i].character
                      && FindAgent(agents, m.players[i].character)
                         == Some(AgentEntry(m.players[i].character, r.value.agent.agentEmoji))
  {
    var raw := m.players[i];
    var s := raw.stats;
    var acs := Acs(s.score, m.rounds);
    HotIffScore(s.score, m.rounds);
    match FindRank(ranks, raw.currenttier)
    case None => Err(RankNotFound(i))
    case Some(rank) =>
      match FindAgent(agents, raw.character)
      case None => Err(AgentNotFound(i))
      case Some(agent) =>
        Ok(PlayerView(
          slot := i, name := raw.name, tag := raw.tag, puuid := raw.puuid, region := m.region,
          isAuthor := IsAuthorOf(raw, account),
          kills := s.kills, deaths := s.deaths, assists := s.assists,
          acs := acs, acsStatus := AcsStatus(acs), score := s.score,
          team := if m.mode != DEATHMATCH then Some(raw.team) else None,
          partyEmoji := PaletteEmoji(PartyIndex(PartyIds(m.players), i)),
          shots := Shots(s.headshots, s.bodyshots, s.legshots, s.headshots + s.bodyshots + s.legshots),
          rank := RankView(raw.competitiveTier, rank.name, rank.emoji),
          agent := AgentView(raw.character, agent.emoji)))
  }

  /** All the values when every result is `Ok`, otherwise the error of the first
      result that is not: the loop stops at the first exception. */
  function CollectResults<U, E>(rs: seq<Result<U, E>>): (r: Result<seq<U>, E>)
    ensures r.Ok? <==> forall i :: 0 <= i < |rs| ==> rs[i].Ok?
    ensures r.Ok? ==> |r.value| == |rs| && forall i :: 0 <= i < |rs| ==> rs[i] == Ok(r.value[i])
    ensures r.Err? ==> exists i :: 0 <= i < |rs| && rs[i] == Err(r.error)
                                   && forall j :: 0 <= j < i ==> rs[j].Ok?
  {
    if rs == [] then Ok([])
    else
      var prev := CollectResults(rs[..|rs| - 1]);
      if prev.Err? then
        assert forall j :: 0 <= j < |rs| - 1 ==> rs[..|rs| - 1][j] == rs[j];
        Err(prev.error)
      else if rs[|rs| - 1].Err? then
        assert forall j :: 0 <= j < |rs| - 1 ==> rs[..|rs| - 1][j] == rs[j];
        Err(rs[|rs| - 1].error)
      else
        var vs := prev.value + [rs[|rs| - 1].value];
        assert forall i :: 0 <= i < |rs| - 1 ==> rs[..|rs| - 1][i] == rs[i] && vs[i] == prev.value[i];
        Ok(vs)
  }

  /** The derivation result of every player, in match order. */
  function Derivations(m: RawMatch, account: Account, ranks: seq<RankEntry>,
                       agents: seq<AgentEntry>): (rs: seq<Result<PlayerView, Fault>>)
    ensures |rs| == |m.players|
    ensures forall i :: 0 <= i < |m.players| ==> rs[i] == DerivePlayer(m, account, ranks, agents, i)
  {
    seq(|m.players|, i requires 0 <= i < |m.players| => DerivePlayer(m, account, ranks, agents, i))
  }

  /** All the players' views in match order (the `players` array before sorting). */
  function DerivePlayers(m: RawMatch, account: Account, ranks: seq<RankEntry>,
                         agents: seq<AgentEntry>): (r: Result<seq<PlayerView>, Fault>)
    ensures r.Ok? ==> |r.value| == |m.players|
    ensures r.Ok? ==> forall i :: 0 <= i < |m.players| ==> r.value[i].slot == i
    ensures r.Ok? ==> forall i :: 0 <= i < |m.players| ==>
                        (r.value[i].isAuthor <==> IsAuthorOf(m.players[i], account))
    ensures r.Ok? ==> forall i :: 0 <= i < |m.players| ==>
                        (r.value[i].team.Some? <==> m.mode != DEATHMATCH)
    ensures r.Err? ==> r.error.RankNotFound? || r.error.AgentNotFound?
  {
    var rs := Derivations(m, account, ranks, agents);
    var r := CollectResults(rs);
    assert r.Err? ==> r.error.RankNotFound? || r.error.AgentNotFound? by {
      if r.Err? {
        var i :| 0 <= i < |rs| && rs[i] == Err(r.error);
        assert DerivePlayer(m, account, ranks, agents, i) == Err(r.error);
      }
    }
    assert r.Ok? ==> forall i :: 0 <= i < |m.players| ==> DerivePlayer(m, account, ranks, agents, i) == Ok(r.value[i]);
    r
  }

  /** Each view is that player's derivation, and the fault is the one of the
      first player, in match order, whose derivation fails. */
  lemma DerivePlayersAgree(m: RawMatch, account: Account, ranks: seq<RankEntry>, agents: seq<AgentEntry>)
    ensures var r := DerivePlayers(m, account, ranks, agents);
            r.Ok? ==> forall i :: 0 <= i < |m.players| ==> DerivePlayer(m, account, ranks, agents, i) == Ok(r.value[i])
    ensures var r := DerivePlayers(m, account, ranks, agents);
            r.Err? ==> exists i :: && 0 <= i < |m.players| && DerivePlayer(m, account, ranks, agents, i) == Err(r.error)
                                   && forall j :: 0 <= j < i ==> DerivePlayer(m, account, ranks, agents, j).Ok?
    ensures DerivePlayers(m, account, ranks, agents).Err? <==>
              exists i :: 0 <= i < |m.players| && DerivePlayer(m, account, ranks, agents, i).Err?
  {
  }

  /** Views carry their match position, so no two of them are equal. */
  lemma DerivedDistinct(m: RawMatch, account: Account, ranks: seq<RankEntry>, agents: seq<AgentEntry>)
    requires DerivePlayers(m, account, ranks, agents).Ok?
    ensures var ps := DerivePlayers(m, account, ranks, agents).value;
            forall i, j :: 0 <= i < j < |ps| ==> ps[i] != ps[j]
  {
  }

  /** The author: `author = player` runs for every matching player, so the last
      one wins. */
  function LastAuthor(ps: seq<PlayerView>): (r: Option<nat>)
    ensures r.Some? ==> r.value < |ps| && ps[r.value].isAuthor
    ensures r.Some? ==> forall j :: r.value < j < |ps| ==> !ps[j].isAuthor
    ensures r.None? <==> forall j :: 0 <= j < |ps| ==> !ps[j].isAuthor
  {
    if ps == [] then None
    else if ps[|ps| - 1].isAuthor then Some(|ps| - 1)
    else LastAuthor(ps[..|ps| - 1])
  }

  /** When display names contain no `#`, comparing `name#tag` strings is the
      same as comparing names and tags separately. */
  lemma AuthorKeyPairwise(n1: string, t1: string, n2: string, t2: string)
    requires '#' !in n1 && '#' !in n2
    ensures AuthorKey(n1, t1) == AuthorKey(n2, t2) <==> n1 == n2 && t1 == t2
  {
    var k1 := AuthorKey(n1, t1);
    var k2 := AuthorKey(n2, t2);
    AuthorKeyLayout(n1, t1);
    AuthorKeyLayout(n2, t2);
    if k1 == k2 {
      if |n1| < |n2| {
        assert false;
      } else if |n2| < |n1| {
        assert false;
      }
      assert n1 == k1[..|n1|] && n2 == k2[..|n2|];
      assert t1 == k1[|n1| + 1..] && t2 == k2[|n2| + 1..];
    }
  }

  /** The key is the name, a `#` at the name's length, then the tag. */
  lemma AuthorKeyLayout(n: string, t: string)
    ensures |AuthorKey(n, t)| == |n| + 1 + |t|
    ensures AuthorKey(n, t)[|n|] == '#'
    ensures forall i :: 0 <= i < |n| ==> AuthorKey(n, t)[i] == n[i]
  {
  }

  /** With a `#` inside a name the string comparison can match a different
      player: `a#b` tagged `c` and `a` tagged `b#c` both read `a#b#c`. */
  lemma AuthorKeyCollision()
    ensures AuthorKey("a#b", "c") == AuthorKey("a", "b#c")
    ensures "a#b" != "a"
  {
  }
}
