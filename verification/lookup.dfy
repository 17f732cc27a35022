/** First-match searches of the static tables: ranks by tier id and agents by
    name (`findIndex`, recent.js lines 129-152) and the map catalogue by display
    name (the `for` loop of lines 261-265). A miss is `None`: the source
    dereferences `ranks[-1]`, `agents[-1]` or `undefined` and throws. */
module Lookup {
  import opened Wrappers

  datatype RankEntry = RankEntry(id: int, name: string, emoji: string)
  datatype AgentEntry = AgentEntry(name: string, emoji: string)
  datatype MapEntry = MapEntry(displayName: string, listViewIcon: string)

  /** `Array.prototype.findIndex`: the first position whose element satisfies
      `matches`, or `None` where the source gets -1. */
  function FindFirst<T>(s: seq<T>, matches: T -> bool): (r: Option<nat>)
    ensures r.Some? ==> r.value < |s| && matches(s[r.value])
    ensures r.Some? ==> forall j :: 0 <= j < r.value ==> !matches(s[j])
    ensures r.None? <==> forall j :: 0 <= j < |s| ==> !matches(s[j])
  {
    if s == [] then None
    else if matches(s[0]) then Some(0)
    else match FindFirst(s[1..], matches)
      case None => None
      case Some(i) => Some(i + 1)
  }

  /** The rank whose id equals the player's current tier: the first such entry. */
  function FindRank(ranks: seq<RankEntry>, tier: int): (r: Option<RankEntry>)
    ensures r.Some? ==> exists i :: 0 <= i < |ranks| && ranks[i] == r.value
                         && r.value.id == tier && forall j :: 0 <= j < i ==> ranks[j].id != tier
    ensures r.None? <==> forall e :: e in ranks ==> e.id != tier
  {
    match FindFirst(ranks, (e: RankEntry) => e.id == tier)
    case None => None
    case Some(i) => Some(ranks[i])
  }

  /** The agent whose name equals the player's character: the first such entry. */
  function FindAgent(agents: seq<AgentEntry>, character: string): (r: Option<AgentEntry>)
    ensures r.Some? ==> exists i :: 0 <= i < |agents| && agents[i] == r.value
                         && r.value.name == character && forall j :: 0 <= j < i ==> agents[j].name != character
    ensures r.None? <==> forall e :: e in agents ==> e.name != character
  {
    match FindFirst(agents, (e: AgentEntry) => e.name == character)
    case None => None
    case Some(i) => Some(agents[i])
  }

  /** The catalogue map whose display name equals the match's map name: the first such entry. */
  function FindMap(maps: seq<MapEntry>, name: string): (r: Option<MapEntry>)
    ensures r.Some? ==> exists i :: 0 <= i < |maps| && maps[i] == r.value
                         && r.value.displayName == name && forall j :: 0 <= j < i ==> maps[j].displayName != name
    ensures r.None? <==> forall e :: e in maps ==> e.displayName != name
  {
    match FindFirst(maps, (e: MapEntry) => e.displayName == name)
    case None => None
    case Some(i) => Some(maps[i])
  }

  /** Appending entries never changes a hit: the search stops at the first match. */
  lemma {:induction false} FindFirstExtend<T>(s: seq<T>, t: seq<T>, matches: T -> bool)
    requires FindFirst(s, matches).Some?
    ensures FindFirst(s + t, matches) == FindFirst(s, matches)
  {
    if !matches(s[0]) {
      assert (s + t)[1..] == s[1..] + t;
      FindFirstExtend(s[1..], t, matches);
    }
  }
}
