/** Party grouping (recent.js lines 81-82 and 113-121): the ordered list of
    distinct party ids built as the players are visited, and the palette
    symbol each player receives from their party's position in that list. */
module Parties {
  import opened Wrappers

  type PartyId = string

  /** The twelve party symbols, in palette order (line 82). */
  const PALETTE: seq<string> := [
    "\U{1F535}", "\U{1F7E2}", "\U{1F7E1}", "\U{1F7E3}", "\U{1F534}", "\U{1F7E0}",
    "\U{1F7E4}", "\U{26AA}", "\U{26AB}", "\U{2B55}", "\U{1F7E5}", "\U{1F7E6}"
  ]

  predicate Distinct(s: seq<PartyId>) {
    forall i, j :: 0 <= i < j < |s| ==> s[i] != s[j]
  }

  /** The party list after visiting `ids` in order: an id is appended when it
      is not yet in the list (`includes` / `push`). */
  function Parties(ids: seq<PartyId>): (r: seq<PartyId>)
    ensures Distinct(r)
    ensures forall x :: x in r <==> x in ids
    ensures |r| <= |ids|
  {
    if ids == [] then []
    else
      var p := Parties(ids[..|ids| - 1]);
      var x := ids[|ids| - 1];
      assert forall y :: y in ids <==> y in ids[..|ids| - 1] || y == x by {
        assert ids == ids[..|ids| - 1] + [x];
      }
      if x in p then p else p + [x]
  }

  /** The first position of `x` in `s`; the inner `for`/`break` search of lines 116-121. */
  function IndexOf(s: seq<PartyId>, x: PartyId): (i: nat)
    requires x in s
    ensures i < |s| && s[i] == x
    ensures forall j :: 0 <= j < i ==> s[j] != x
  {
    if s[0] == x then 0 else 1 + IndexOf(s[1..], x)
  }

  /** In a list without repetitions the position of an element is its only position. */
  lemma IndexOfDistinct(s: seq<PartyId>, i: nat)
    requires Distinct(s) && i < |s|
    ensures IndexOf(s, s[i]) == i
  {
  }

  /** Visiting more players only appends to the party list: earlier positions never move. */
  lemma {:induction false} PartiesPrefix(ids: seq<PartyId>, m: nat)
    requires m <= |ids|
    ensures Parties(ids[..m]) <= Parties(ids)
    decreases |ids| - m
  {
    if m < |ids| {
      PartiesPrefix(ids, m + 1);
      var n := m + 1;
      assert ids[..n][..|ids[..n]| - 1] == ids[..m];
      assert ids[..|ids|] == ids;
    } else {
      assert ids[..m] == ids;
    }
  }

  /** Party ids appear in order of first appearance: when player `i` is the first
      of their party, their id is appended at the position equal to the number of
      distinct parties among the players before them. */
  lemma FirstAppearance(ids: seq<PartyId>, i: nat)
    requires i < |ids| && ids[i] !in ids[..i]
    ensures |Parties(ids[..i])| < |Parties(ids)|
    ensures Parties(ids)[|Parties(ids[..i])|] == ids[i]
  {
    PartiesPrefix(ids, i + 1);
    assert ids[..i + 1][..i] == ids[..i];
    assert Parties(ids[..i + 1]) == Parties(ids[..i]) + [ids[i]];
  }

  /** The position of player `i`'s party in the list as it stood right after
      player `i` was visited, which is the index the source looks up. */
  function PartyIndex(ids: seq<PartyId>, i: nat): (j: nat)
    requires i < |ids|
    ensures j < |Parties(ids[..i + 1])|
    ensures Parties(ids[..i + 1])[j] == ids[i]
  {
    assert ids[i] == ids[..i + 1][i];
    IndexOf(Parties(ids[..i + 1]), ids[i])
  }

  /** The index a player receives does not change as later players are visited:
      it is the position of their party in the final list. */
  lemma PartyIndexFinal(ids: seq<PartyId>, i: nat)
    requires i < |ids|
    ensures PartyIndex(ids, i) < |Parties(ids)|
    ensures PartyIndex(ids, i) == IndexOf(Parties(ids), ids[i])
  {
    PartiesPrefix(ids, i + 1);
    var j := PartyIndex(ids, i);
    assert Parties(ids)[j] == ids[i];
    IndexOfDistinct(Parties(ids), j);
  }

  /** Two players get the same party index exactly when they share a party id. */
  lemma {:induction false} SameIndexIffSameParty(ids: seq<PartyId>, i: nat, k: nat)
    requires i < |ids| && k < |ids|
    ensures PartyIndex(ids, i) == PartyIndex(ids, k) <==> ids[i] == ids[k]
  {
    PartyIndexFinal(ids, i);
    PartyIndexFinal(ids, k);
  }

  /** The symbol at palette position `j`, or nothing past the twelfth party
      (indexing past the end of the array yields `undefined`). */
  function PaletteEmoji(j: nat): (e: Option<string>)
    ensures e.Some? <==> j < 12
    ensures e.Some? ==> e.value == PALETTE[j]
  {
    if j < |PALETTE| then Some(PALETTE[j]) else None
  }

  /** The palette symbols are pairwise different. */
  lemma PaletteDistinct(a: nat, b: nat)
    requires a < 12 && b < 12 && a != b
    ensures PALETTE[a] != PALETTE[b]
  {
    assert PALETTE[a][0] != PALETTE[b][0];
  }

  /** Among the first twelve parties, two players show the same symbol exactly
      when they are in the same party. */
  lemma SameEmojiIffSameParty(ids: seq<PartyId>, i: nat, k: nat)
    requires i < |ids| && k < |ids|
    requires PartyIndex(ids, i) < 12 && PartyIndex(ids, k) < 12
    ensures PaletteEmoji(PartyIndex(ids, i)) == PaletteEmoji(PartyIndex(ids, k)) <==> ids[i] == ids[k]
  {
    SameIndexIffSameParty(ids, i, k);
    if PartyIndex(ids, i) != PartyIndex(ids, k) {
      PaletteDistinct(PartyIndex(ids, i), PartyIndex(ids, k));
    }
  }

  /** The inner loop of lines 116-121: scan the list until the id is found. */
  method Search(parties: seq<PartyId>, id: PartyId) returns (j: nat)
    requires id in parties
    ensures j == IndexOf(parties, id)
  {
    j := 0;
    while parties[j] != id
      invariant 0 <= j < |parties|
      invariant forall q :: 0 <= q < j ==> parties[q] != id
      decreases |parties| - j
    {
      j := j + 1;
    }
    IndexOfFirst(parties, id, j);
  }

  /** A position holding `x` with no earlier `x` is the one `IndexOf` returns. */
  lemma IndexOfFirst(s: seq<PartyId>, x: PartyId, j: nat)
    requires j < |s| && s[j] == x
    requires forall q :: 0 <= q < j ==> s[q] != x
    ensures IndexOf(s, x) == j
  {
  }

  /** The loop of lines 113-121 as written: append the id when the list does not
      include it, then search the list for it. It returns the final list and each
      player's index. */
  method AssignParties(ids: seq<PartyId>) returns (parties: seq<PartyId>, indices: seq<nat>)
    ensures parties == Parties(ids)
    ensures |indices| == |ids|
    ensures forall i :: 0 <= i < |ids| ==> indices[i] == PartyIndex(ids, i)
    ensures forall i :: 0 <= i < |ids| ==> indices[i] < |parties| && parties[indices[i]] == ids[i]
  {
    parties := [];
    indices := [];
    var i := 0;
    while i < |ids|
      invariant 0 <= i <= |ids|
      invariant parties == Parties(ids[..i])
      invariant |indices| == i
      invariant forall k :: 0 <= k < i ==> indices[k] == PartyIndex(ids, k)
    {
      ghost var prefix := ids[..i + 1];
      assert prefix[..|prefix| - 1] == ids[..i] && prefix[|prefix| - 1] == ids[i];
      if ids[i] !in parties {
        parties := parties + [ids[i]];
      }
      assert parties == Parties(prefix);
      var j := Search(parties, ids[i]);
      assert j == PartyIndex(ids, i);
      indices := indices + [j];
      i := i + 1;
    }
    assert ids[..i] == ids;
    forall k | 0 <= k < |ids|
      ensures indices[k] < |parties| && parties[indices[k]] == ids[k]
    {
      PartyIndexFinal(ids, k);
    }
  }
}
