/** How the sorted players are laid out (recent.js lines 161-181): in team
    modes, split into the author's team and the enemy team by case-insensitive
    team label; in Deathmatch, two display columns of at most six. */
module Grouping {
  import opened Wrappers
  import opened Text
  import opened MatchData
  import opened Ordering

  /** The sort key: `b.acs - a.acs` orders by ACS. */
  function AcsOf(p: PlayerView): int {
    p.acs
  }

  /** `players[i].team.toLowerCase() === author.team.toLowerCase()`. */
  function OnTeam(p: PlayerView, authorTeam: string): (b: bool)
    ensures b ==> p.team.Some?
    ensures p.team == Some(authorTeam) ==> b
  {
    p.team.Some? && Lower(p.team.value) == Lower(authorTeam)
  }

  /** The elements of `s` that satisfy `keep` and those that do not. */
  function Split<T>(s: seq<T>, keep: T -> bool): (r: (seq<T>, seq<T>))
    ensures multiset(r.0) + multiset(r.1) == multiset(s)
    ensures forall i :: 0 <= i < |r.0| ==> keep(r.0[i])
    ensures forall i :: 0 <= i < |r.1| ==> !keep(r.1[i])
  {
    if s == [] then ([], [])
    else
      var (yes, no) := Split(s[..|s| - 1], keep);
      var x := s[|s| - 1];
      MultisetSnoc(s);
      if keep(x) then (yes + [x], no) else (yes, no + [x])
  }

  /** The loop of lines 164-170: each player is pushed onto `teamPlayers` or
      `enemyPlayers`. Every player lands in exactly one of the two. */
  function Partition(ps: seq<PlayerView>, authorTeam: string): (r: (seq<PlayerView>, seq<PlayerView>))
    ensures multiset(r.0) + multiset(r.1) == multiset(ps)
    ensures forall i :: 0 <= i < |r.0| ==> OnTeam(r.0[i], authorTeam)
    ensures forall i :: 0 <= i < |r.1| ==> !OnTeam(r.1[i], authorTeam)
  {
    Split(ps, p => OnTeam(p, authorTeam))
  }

  lemma MultisetSnoc<T>(s: seq<T>)
    requires |s| > 0
    ensures multiset(s) == multiset(s[..|s| - 1]) + multiset{s[|s| - 1]}
  {
    assert s == s[..|s| - 1] + [s[|s| - 1]];
  }

  /** A player is on the author's side of the partition exactly when their
      lower-cased team label equals the author's. */
  lemma PartitionMembership(ps: seq<PlayerView>, authorTeam: string, p: PlayerView)
    requires p in ps
    ensures p in Partition(ps, authorTeam).0 <==> OnTeam(p, authorTeam)
    ensures p in Partition(ps, authorTeam).1 <==> !OnTeam(p, authorTeam)
  {
    var (team, enemy) := Partition(ps, authorTeam);
    assert p in multiset(ps);
    assert p in multiset(team) || p in multiset(enemy);
  }

  /** The author, whose team label is compared with itself, is always on their
      own team. */
  lemma AuthorOnOwnTeam(ps: seq<PlayerView>, author: PlayerView)
    requires author in ps && author.team.Some?
    ensures author in Partition(ps, author.team.value).0
    ensures author !in Partition(ps, author.team.value).1
  {
    PartitionMembership(ps, author.team.value, author);
  }

  /** The two sorted halves of a team-mode match: the author's team and the
      enemy team, each non-increasing in ACS. */
  function Teams(ps: seq<PlayerView>, authorTeam: string): (r: (seq<PlayerView>, seq<PlayerView>))
    ensures multiset(r.0) + multiset(r.1) == multiset(ps)
    ensures SortedDesc(r.0, AcsOf) && SortedDesc(r.1, AcsOf)
    ensures forall i :: 0 <= i < |r.0| ==> OnTeam(r.0[i], authorTeam)
    ensures forall i :: 0 <= i < |r.1| ==> !OnTeam(r.1[i], authorTeam)
  {
    var (team, enemy) := Partition(ps, authorTeam);
    var sortedTeam := SortDesc(team, AcsOf);
    var sortedEnemy := SortDesc(enemy, AcsOf);
    assert forall i :: 0 <= i < |sortedTeam| ==> OnTeam(sortedTeam[i], authorTeam) by {
      forall i | 0 <= i < |sortedTeam|
        ensures OnTeam(sortedTeam[i], authorTeam)
      {
        assert sortedTeam[i] in multiset(team);
      }
    }
    assert forall i :: 0 <= i < |sortedEnemy| ==> !OnTeam(sortedEnemy[i], authorTeam) by {
      forall i | 0 <= i < |sortedEnemy|
        ensures !OnTeam(sortedEnemy[i], authorTeam)
      {
        assert sortedEnemy[i] in multiset(enemy);
      }
    }
    (sortedTeam, sortedEnemy)
  }

  /** `players.slice(0, 6)` and `players.slice(6, 12)`: together they are the
      first twelve players (or all of them), the first column is full before the
      second gets anyone, and neither holds more than six. */
  function Columns<T>(sorted: seq<T>): (r: (seq<T>, seq<T>))
    ensures r.0 + r.1 == sorted[..if |sorted| < 12 then |sorted| else 12]
    ensures |r.0| <= 6 && |r.1| <= 6
    ensures |r.1| > 0 ==> |r.0| == 6
  {
    var n := |sorted|;
    var a := if n < 6 then n else 6;
    var b := if n < 12 then n else 12;
    assert sorted[..b] == sorted[..a] + sorted[a..b];
    (sorted[..a], sorted[a..b])
  }
}
