/** The match outcome and the embed colour (recent.js lines 272-302). */
module Outcomes {
  import opened Text
  import opened MatchData

  datatype Outcome = Victory | Defeat | Draw

  /** The outcome as the string the source stores in `match.outcome`. */
  function Label(o: Outcome): string {
    match o
    case Victory => "Victory"
    case Defeat => "Defeat"
    case Draw => "Draw"
  }

  const GREEN: int := 0x16e5b4
  const RED: int := 0xff4655
  const YELLOW: int := 0xcbb765

  /** Lines 273-274: the author's rounds won and the opponents', read from the
      red or blue side according to whether the author's team label lower-cases
      to `red`. */
  function TeamScores(authorTeam: string, redRoundsWon: int, blueRoundsWon: int): (r: (int, int))
    ensures Lower(authorTeam) == "red" ==> r == (redRoundsWon, blueRoundsWon)
    ensures Lower(authorTeam) != "red" ==> r == (blueRoundsWon, redRoundsWon)
  {
    var onRed := Lower(authorTeam) == "red";
    (if onRed then redRoundsWon else blueRoundsWon, if onRed then blueRoundsWon else redRoundsWon)
  }

  /** Lines 275-281: more rounds than the opponents is a victory, fewer a defeat,
      the same a draw. */
  function TeamOutcome(teamScore: int, enemyScore: int): (o: Outcome)
    ensures o == Victory <==> teamScore > enemyScore
    ensures o == Defeat <==> enemyScore > teamScore
    ensures o == Draw <==> teamScore == enemyScore
  {
    if teamScore > enemyScore then Victory
    else if enemyScore > teamScore then Defeat
    else Draw
  }

  /** The outcome seen from the other side. */
  function Mirror(o: Outcome): Outcome {
    match o
    case Victory => Defeat
    case Defeat => Victory
    case Draw => Draw
  }

  /** Two players on opposite sides of the same match see mirrored outcomes: one
      side's victory is the other's defeat, and a draw is a draw for both. */
  lemma {:induction false} OppositeSidesMirror(redTeam: string, blueTeam: string, red: int, blue: int)
    requires Lower(redTeam) == "red" && Lower(blueTeam) != "red"
    ensures var (t1, e1) := TeamScores(redTeam, red, blue);
            var (t2, e2) := TeamScores(blueTeam, red, blue);
            TeamOutcome(t2, e2) == Mirror(TeamOutcome(t1, e1))
  {
  }

  /** The 13-7 example: the author's team on the red side won 13 rounds to 7. */
  lemma VictoryExample()
    ensures TeamScores("Red", 13, 7) == (13, 7)
    ensures TeamOutcome(13, 7) == Victory
  {
    assert Lower("Red") == "red";
  }

  /** Lines 283-287: in Deathmatch the author wins exactly when they head the
      sorted list; there is no draw. */
  function DeathmatchOutcome(sorted: seq<PlayerView>, author: PlayerView): (o: Outcome)
    ensures o != Draw
    ensures o == Victory <==> |sorted| > 0 && sorted[0] == author
  {
    if |sorted| > 0 && sorted[0] == author then Victory else Defeat
  }

  /** Lines 296-302: the colour is chosen by comparing the outcome string, green
      for a victory, red for a defeat and yellow otherwise. */
  function ColourFor(outcome: string): (c: int)
    ensures c == GREEN <==> outcome == "Victory"
    ensures c == RED <==> outcome == "Defeat"
    ensures c == YELLOW <==> outcome != "Victory" && outcome != "Defeat"
  {
    if outcome == "Victory" then GREEN
    else if outcome == "Defeat" then RED
    else YELLOW
  }

  /** Each outcome has its own colour, so the colour alone tells the outcome. */
  lemma ColourIdentifiesOutcome(a: Outcome, b: Outcome)
    ensures ColourFor(Label(a)) == ColourFor(Label(b)) <==> a == b
  {
  }
}
