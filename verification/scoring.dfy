/** Average combat score and the "hot" marker appended to a player's score
    (recent.js lines 101-105). */
module Scoring {

  /** ACS at or above this value earns the marker. */
  const HOT_THRESHOLD: int := 300

  /** The marker appended to the score of a hot player. */
  const FIRE: string := " :fire:"

  /** `Math.round(score / rounds)`: the integer nearest to score/rounds, with
      halves rounded up. The ensures is the defining bracket of that rounding,
      r - 1/2 <= score/rounds < r + 1/2, multiplied through by 2*rounds. */
  function Acs(score: int, rounds: int): (r: int)
    requires rounds > 0
    ensures 2 * rounds * r - rounds <= 2 * score < 2 * rounds * r + rounds
  {
    var q := (2 * score + rounds) / (2 * rounds);
    assert 2 * rounds * q <= 2 * score + rounds < 2 * rounds * q + 2 * rounds by {
      var d := 2 * rounds;
      var a := 2 * score + rounds;
      assert a == d * (a / d) + a % d;
    }
    q
  }

  /** Only one integer satisfies the rounding bracket, so `Acs` is exactly
      round-half-up of score/rounds. */
  lemma AcsUnique(score: int, rounds: int, r: int)
    requires rounds > 0
    requires 2 * rounds * r - rounds <= 2 * score < 2 * rounds * r + rounds
    ensures r == Acs(score, rounds)
  {
    var a := Acs(score, rounds);
    var k := 2 * rounds;
    if r < a {
      MulMonotone(k, r, a - 1);
      assert false;
    } else if r > a {
      MulMonotone(k, a, r - 1);
      assert false;
    }
  }

  /** Multiplying by a non-negative factor preserves order. */
  lemma MulMonotone(k: int, x: int, y: int)
    requires k >= 0 && x <= y
    ensures k * x <= k * y
  {
    assert k * y - k * x == k * (y - x);
  }

  /** The text appended after a player's ACS: the marker or nothing. */
  function AcsStatus(acs: int): (s: string)
    ensures s == FIRE || s == ""
    ensures s == FIRE <==> acs >= HOT_THRESHOLD
  {
    if acs >= HOT_THRESHOLD then FIRE else ""
  }

  /** A player is hot exactly when score/rounds is at least 299.5, i.e. when
      2*score >= 599*rounds; the rounding never moves a player across the line. */
  lemma HotIffScore(score: int, rounds: int)
    requires rounds > 0
    ensures AcsStatus(Acs(score, rounds)) == FIRE <==> 2 * score >= 599 * rounds
  {
    var r := Acs(score, rounds);
    var k := 2 * rounds;
    if r >= 300 {
      MulMonotone(k, 300, r);
    } else {
      MulMonotone(k, r, 299);
    }
  }

  /** 7200 points over 24 rounds is an ACS of exactly 300, which is hot. */
  lemma HotExample()
    ensures Acs(7200, 24) == 300
    ensures AcsStatus(Acs(7200, 24)) == FIRE
  {
    AcsUnique(7200, 24, 300);
  }
}
