/**
 * The scenarios of `src/tests.rs`, traced through the contract of `compute_winner` in
 * `src/lib.rs`. The first two follow from that contract at once. The ring-and-patron scenarios
 * are taken step by step: the table `mk_candidates` builds, the delegation paths and totals, the
 * ranking and its links, and what `get_tenative_winners`, `best_of_ring` and `get_patron` then
 * choose. Each step is a lemma over the ids as parameters, so the winner does not depend on the
 * hash that breaks ties.
 */
module Scenarios {
  import opened Wrappers
  import opened ElectionTypes
  import opened DelegationPaths
  import opened ElectoriumCandidates
  import opened ElectoriumDelegation
  import opened ElectoriumTally
  import opened ElectoriumRanking
  import opened ElectoriumWinner
  import opened TieBreaking

  /** `test_noone`: a single unwilling voter, for a candidate who does not exist: nobody wins. */
  method NoOne(hash: (string, nat) -> seq<bv8>) returns (winner: string)
    ensures winner == ""
  {
    var votes := [Vote("voter#0", "test_noone/non-existent-candidate", 1, false)];
    assert Select(votes, true) == [];
    winner := ComputeWinner(votes, hash);
  }

  /**
   * `test_alice_alone`: a willing candidate who votes for nobody wins, and so does one whose
   * vote names their own id.
   */
  method AliceAlone(hash: (string, nat) -> seq<bv8>) returns (first: string, second: string)
    ensures first == "test_alice_alone/Alice" && second == "test_alice_alone/Alice"
  {
    var alice := "test_alice_alone/Alice";
    first := LoneBallot(Vote(alice, "test_alice_alone/", 1, true), hash);
    second := LoneBallot(Vote(alice, alice, 1, true), hash);
  }

  /** A single willing ballot elects its own voter, whoever it names. */
  method LoneBallot(ballot: Vote, hash: (string, nat) -> seq<bv8>) returns (winner: string)
    requires ballot.willingCandidate
    ensures winner == ballot.voterId
  {
    var votes := [ballot];
    assert Select(votes, true) == votes;
    assert CountWilling(votes) == 1;
    winner := ComputeWinner(votes, hash);
  }

  // ---------------------------------------------------------------------------------------
  // A ring of two with a patron: `test_alice_bob_charlie` and `charlie_is_patron`

  /**
   * Alice (`ids[0]`) and Bob (`ids[1]`) vote for each other and Charlie (`ids[2]`) for Alice, all
   * three willing with one vote each; `ids[3]` gives `n` votes to Bob and `ids[4]` gives 4 to
   * Charlie.
   */
  function Triangle(ids: seq<string>, n: nat): seq<Vote>
    requires |ids| == 5
  {
    [ Vote(ids[0], ids[1], 1, true), Vote(ids[1], ids[0], 1, true), Vote(ids[2], ids[0], 1, true),
      Vote(ids[3], ids[1], n, false), Vote(ids[4], ids[2], 4, false) ]
  }

  const TriangleLinks: Links := [Some(1), Some(0), Some(0), Some(1), Some(2)]

  lemma TrianglePaths()
    ensures ValidLinks(TriangleLinks)
    ensures Path(TriangleLinks, 0) == [0, 1] && Path(TriangleLinks, 1) == [1, 0]
    ensures Path(TriangleLinks, 2) == [2, 0, 1] && Path(TriangleLinks, 3) == [3, 1, 0]
    ensures Path(TriangleLinks, 4) == [4, 2, 0, 1]
  {
    var vf := TriangleLinks;
    ExtendStep(vf, [0], 1, [0, 1]);
    ExtendStep(vf, [0, 1], 0, [0, 1, 0]);
    ExtendStep(vf, [1], 0, [1, 0]);
    ExtendStep(vf, [1, 0], 1, [1, 0, 1]);
    ExtendStep(vf, [2], 0, [2, 0]);
    ExtendStep(vf, [2, 0], 1, [2, 0, 1]);
    ExtendStep(vf, [2, 0, 1], 0, [2, 0, 1, 0]);
    ExtendStep(vf, [3], 1, [3, 1]);
    ExtendStep(vf, [3, 1], 0, [3, 1, 0]);
    ExtendStep(vf, [3, 1, 0], 1, [3, 1, 0, 1]);
    ExtendStep(vf, [4], 2, [4, 2]);
    ExtendStep(vf, [4, 2], 0, [4, 2, 0]);
    ExtendStep(vf, [4, 2, 0], 1, [4, 2, 0, 1]);
    ExtendStep(vf, [4, 2, 0, 1], 0, [4, 2, 0, 1, 0]);
  }

  /** What origin `o` gives to `t`: its votes when its path reaches `t`. */
  function Share(vf: Links, w: seq<nat>, t: nat, o: nat): nat
    requires ValidLinks(vf) && |w| == |vf| && o < |vf|
  {
    if o != t && t in Path(vf, o) then w[o] else 0
  }

  /** `Received` over five origins, written out as a sum. */
  lemma ReceivedFive(vf: Links, w: seq<nat>, t: nat)
    requires ValidLinks(vf) && |vf| == 5 && |w| == 5
    ensures Received(vf, w, t, 5) ==
      Share(vf, w, t, 0) + Share(vf, w, t, 1) + Share(vf, w, t, 2) + Share(vf, w, t, 3) + Share(vf, w, t, 4)
  {
    assert Received(vf, w, t, 1) == Share(vf, w, t, 0);
    assert Received(vf, w, t, 3) == Received(vf, w, t, 1) + Share(vf, w, t, 1) + Share(vf, w, t, 2);
  }

  lemma TriangleReceived(n: nat)
    ensures ValidLinks(TriangleLinks)
    ensures var w := [1, 1, 1, n, 4];
      && Received(TriangleLinks, w, 0, 5) == 6 + n && Received(TriangleLinks, w, 1, 5) == 6 + n
      && Received(TriangleLinks, w, 2, 5) == 4
      && Received(TriangleLinks, w, 3, 5) == 0 && Received(TriangleLinks, w, 4, 5) == 0
  {
    TrianglePaths();
    var w := [1, 1, 1, n, 4];
    ReceivedFive(TriangleLinks, w, 0);
    ReceivedFive(TriangleLinks, w, 1);
    ReceivedFive(TriangleLinks, w, 2);
    ReceivedFive(TriangleLinks, w, 3);
    ReceivedFive(TriangleLinks, w, 4);
  }

  /** The table after `mk_candidates` and `compute_delegated_votes`: Alice and Bob hold `7 + n`, Charlie 5. */
  lemma TriangleDelegated(ids: seq<string>, n: nat)
    requires |ids| == 5 && DistinctIds(Triangle(ids, n)) && ids[0] != "" && ids[1] != "" && ids[2] != ""
    ensures ValidLinks(LinksOf(Candidates(Triangle(ids, n))))
    ensures var votes := Triangle(ids, n);
      var d := Delegated(Candidates(votes));
      && Placed(votes) == votes && CountWilling(votes) == 3 && |d| == 5
      && LinksOf(d) == TriangleLinks
      && (forall i | 0 <= i < 5 :: d[i].vote == votes[i] && d[i].nextByTotalIndirectVotes.None?)
      && d[0].totalIndirectVotes == 7 + n && d[1].totalIndirectVotes == 7 + n
      && d[2].totalIndirectVotes == 5 && d[3].totalIndirectVotes == 0 && d[4].totalIndirectVotes == 0
      && d[0].isWillingCandidate && d[1].isWillingCandidate && d[2].isWillingCandidate
  {
    var votes := Triangle(ids, n);
    PlacedWhenWillingFirst(votes, 3);
    var cs := Candidates(votes);
    ResolveDistinct(votes[0], votes, 1);
    ResolveDistinct(votes[1], votes, 0);
    ResolveDistinct(votes[2], votes, 0);
    ResolveDistinct(votes[3], votes, 1);
    ResolveDistinct(votes[4], votes, 2);
    assert LinksOf(cs) == TriangleLinks;
    assert WeightsOf(cs) == [1, 1, 1, n, 4];
    TalliedTable(votes);
    DelegatedKeepsBallots(cs);
    TriangleReceived(n);
  }

  /** The insertion sort takes the entries from the back. */
  lemma SortByScoreSnoc(xs: seq<Sortable>, x: Sortable, ys: seq<Sortable>)
    requires ys == xs + [x]
    ensures SortByScore(ys) == InsertByScore(x, SortByScore(xs))
  {
    assert ys[..|ys| - 1] == xs;
  }

  /** `sort_by_key` puts Charlie first and leaves Alice before Bob. */
  lemma TriangleRanking(d: seq<Candidate>, n: nat)
    requires |d| == 5 && d[0].totalIndirectVotes == 7 + n && d[1].totalIndirectVotes == 7 + n
    requires d[2].totalIndirectVotes == 5
    ensures Ranking(d, 3) == [2, 0, 1]
  {
    var s0, s1, s2 := Sortable(0, 7 + n), Sortable(1, 7 + n), Sortable(2, 5);
    assert Sortables(d, 3) == [s0, s1, s2];
    SortByScoreSnoc([], s0, [s0]);
    SortByScoreSnoc([s0], s1, [s0, s1]);
    SortByScoreSnoc([s0, s1], s2, [s0, s1, s2]);
    assert InsertByScore(s1, [s0]) == [s0, s1] by {
      assert [s0][1..] == [];
    }
  }

  /** Alice points at Charlie and Bob at Alice. */
  lemma TriangleLinked(d: seq<Candidate>)
    requires |d| == 5
    ensures var a := d[0 := d[0].(nextByTotalIndirectVotes := Some(2))];
      LinkChain(d, [2, 0, 1]) == a[1 := a[1].(nextByTotalIndirectVotes := Some(0))]
  {
    LinkChainSnoc(d, [2], 0);
    LinkChainSnoc(d, [2, 0], 1);
    assert [2] + [0] == [2, 0] && [2, 0] + [1] == [2, 0, 1];
  }

  /** Alice and Bob each hold one vote of their own; only Alice has support outside the ring. */
  lemma TriangleBest(L: seq<Candidate>, ring: set<nat>)
    requires |L| == 5 && ring == {0, 1}
    requires L[2].totalIndirectVotes == 5 && L[3].totalIndirectVotes == 0 && L[4].totalIndirectVotes == 0
    requires L[0].voteFor == Some(1) && L[1].voteFor == Some(0) && L[2].voteFor == Some(0)
    requires L[3].voteFor == Some(1) && L[4].voteFor == Some(2)
    requires L[0].vote.numberOfVotes == 1 && L[1].vote.numberOfVotes == 1
    ensures BestSet(L, ring) == {0}
  {
    assert Support(L, ring, 0, 1) == 0 && Support(L, ring, 1, 1) == 0;
    assert Support(L, ring, 0, 2) == 0 && Support(L, ring, 1, 2) == 0;
    assert Support(L, ring, 0, 3) == 5 && Support(L, ring, 1, 3) == 0;
    assert Support(L, ring, 0, 4) == 5 && Support(L, ring, 1, 4) == 0;
    assert Support(L, ring, 0, 5) == 5 && Support(L, ring, 1, 5) == 0;
    assert RingScore(L, ring, 0) == 6 && RingScore(L, ring, 1) == 1;
  }

  /**
   * With Alice and Bob on top, Charlie the runner-up, and `n <= 2`: Alice is the best of the
   * ring, and Charlie, holding more than half of her total, is her patron and the only finalist.
   */
  lemma TriangleFinalists(L: seq<Candidate>, n: nat)
    requires |L| == 5 && NextInRange(L) && n <= 2
    requires L[0].totalIndirectVotes == 7 + n && L[1].totalIndirectVotes == 7 + n
    requires L[2].totalIndirectVotes == 5 && L[3].totalIndirectVotes == 0 && L[4].totalIndirectVotes == 0
    requires L[0].voteFor == Some(1) && L[1].voteFor == Some(0) && L[2].voteFor == Some(0)
    requires L[3].voteFor == Some(1) && L[4].voteFor == Some(2)
    requires L[0].vote.numberOfVotes == 1 && L[1].vote.numberOfVotes == 1
    requires L[2].isWillingCandidate && L[2].nextByTotalIndirectVotes.None?
    ensures IsRunnerUp(L, 3, TopScore(L, 3), Some(2))
    ensures forall ru | IsRunnerUp(L, 3, TopScore(L, 3), ru) :: Finalists(L, 3, ru) == {2}
  {
    assert TopScore(L, 1) == 7 + n && TopScore(L, 2) == 7 + n && TopScore(L, 3) == 7 + n;
    var ring := TopRing(L, 3, 7 + n);
    assert ring == {0, 1};
    TriangleBest(L, ring);
    assert Qualified(L, 0, ring, 2, 3) == [] by {
      assert Qualified(L, 0, ring, 2, 5) == [] && Qualified(L, 0, ring, 2, 4) == [];
    }
    assert Qualified(L, 0, ring, 2, 0) == [2] by {
      assert Qualified(L, 0, ring, 2, 2) == [2] && Qualified(L, 0, ring, 2, 1) == [2];
    }
    assert Runoff(L, ring, 0, 2, 5) == Ok(2);
    forall ru | IsRunnerUp(L, 3, TopScore(L, 3), ru) ensures Finalists(L, 3, ru) == {2} {
      assert ru == Some(2);
    }
  }

  /** The table `compute_winner` ranks and links, entry by entry. */
  lemma TriangleTable(ids: seq<string>, n: nat)
    requires |ids| == 5 && DistinctIds(Triangle(ids, n)) && ids[0] != "" && ids[1] != "" && ids[2] != ""
    ensures CountWilling(Triangle(ids, n)) == 3
    ensures var L := RankedTableOf(Triangle(ids, n));
      && |L| == 5 && NextInRange(L)
      && L[0].totalIndirectVotes == 7 + n && L[1].totalIndirectVotes == 7 + n
      && L[2].totalIndirectVotes == 5 && L[3].totalIndirectVotes == 0 && L[4].totalIndirectVotes == 0
      && L[0].voteFor == Some(1) && L[1].voteFor == Some(0) && L[2].voteFor == Some(0)
      && L[3].voteFor == Some(1) && L[4].voteFor == Some(2)
      && L[0].vote.numberOfVotes == 1 && L[1].vote.numberOfVotes == 1
      && L[2].isWillingCandidate && L[2].nextByTotalIndirectVotes.None? && L[2].vote.voterId == ids[2]
  {
    var votes := Triangle(ids, n);
    TriangleDelegated(ids, n);
    var d := Delegated(Candidates(votes));
    TriangleRanking(d, n);
    TriangleLinked(d);
    var L := RankedTableOf(votes);
    assert L == LinkChain(d, [2, 0, 1]);
    assert forall i | 0 <= i < 5 :: L[i].voteFor == LinksOf(d)[i] && L[i].vote == votes[i];
    assert L[2] == d[2];
  }

  /** Whatever the hash, Charlie wins the triangle with `n <= 2`, and nobody else does. */
  lemma TriangleWinner(ids: seq<string>, n: nat, hash: (string, nat) -> seq<bv8>)
    requires |ids| == 5 && DistinctIds(Triangle(ids, n)) && ids[0] != "" && ids[1] != "" && ids[2] != ""
    requires n <= 2
    ensures CountWilling(Triangle(ids, n)) == 3 && RankedTableOf(Triangle(ids, n))[2].vote.voterId == ids[2]
    ensures IsWinner(Triangle(ids, n), hash, 2)
    ensures forall w: nat | IsWinner(Triangle(ids, n), hash, w) :: w == 2
  {
    var votes := Triangle(ids, n);
    TriangleTable(ids, n);
    var L := RankedTableOf(votes);
    TriangleFinalists(L, n);
    BytesLessIrreflexive(Key(L, 2, hash));
    assert LeastKeyed(L, Finalists(L, 3, Some(2)), hash, 2);
    forall w: nat | IsWinner(votes, hash, w) ensures w == 2 {
      var ru :| IsRunnerUp(L, 3, TopScore(L, 3), ru) && LeastKeyed(L, Finalists(L, 3, ru), hash, w);
    }
  }

  /** `charlie_is_patron`: one vote for Bob. Alice and Bob hold 8 each, and Charlie's 5 make him Alice's patron. */
  method CharlieIsPatron(hash: (string, nat) -> seq<bv8>) returns (winner: string)
    ensures winner == "charlie_is_patron/Charlie"
  {
    var ids := ["charlie_is_patron/Alice", "charlie_is_patron/Bob", "charlie_is_patron/Charlie", "voter#0", "voter#1"];
    var votes := [
      Vote("charlie_is_patron/Alice", "charlie_is_patron/Bob", 1, true),
      Vote("charlie_is_patron/Bob", "charlie_is_patron/Alice", 1, true),
      Vote("charlie_is_patron/Charlie", "charlie_is_patron/Alice", 1, true),
      Vote("voter#0", "charlie_is_patron/Bob", 1, false),
      Vote("voter#1", "charlie_is_patron/Charlie", 4, false)];
    assert votes == Triangle(ids, 1);
    assert DistinctIds(votes) by {
      assert "voter#0"[6] != "voter#1"[6];
    }
    TriangleWinner(ids, 1, hash);
    winner := ComputeWinner(votes, hash);
  }

  /** The ballots of `test_alice_bob_charlie`: two votes for Bob. */
  function AliceBobCharlieBallots(): (votes: seq<Vote>)
    ensures |votes| == 5
  {
    [ Vote("test_alice_bob_charlie/Alice", "test_alice_bob_charlie/Bob", 1, true),
      Vote("test_alice_bob_charlie/Bob", "test_alice_bob_charlie/Alice", 1, true),
      Vote("test_alice_bob_charlie/Charlie", "test_alice_bob_charlie/Alice", 1, true),
      Vote("voter#0", "test_alice_bob_charlie/Bob", 2, false),
      Vote("voter#1", "test_alice_bob_charlie/Charlie", 4, false) ]
  }

  lemma AliceBobCharlieIsTriangle(hash: (string, nat) -> seq<bv8>)
    ensures CountWilling(AliceBobCharlieBallots()) == 3
    ensures IsWinner(AliceBobCharlieBallots(), hash, 2)
    ensures forall w: nat | IsWinner(AliceBobCharlieBallots(), hash, w) :: w == 2
    ensures RankedTableOf(AliceBobCharlieBallots())[2].vote.voterId == "test_alice_bob_charlie/Charlie"
  {
    var ids := ["test_alice_bob_charlie/Alice", "test_alice_bob_charlie/Bob", "test_alice_bob_charlie/Charlie", "voter#0", "voter#1"];
    assert AliceBobCharlieBallots() == Triangle(ids, 2);
    assert DistinctIds(Triangle(ids, 2)) by {
      assert "voter#0"[6] != "voter#1"[6];
    }
    TriangleWinner(ids, 2, hash);
  }

  /**
   * `test_alice_bob_charlie` as written expects Alice. With two votes for Bob, Alice and Bob hold
   * 9 each, and Charlie's 5 is still more than half of 9, so Charlie is Alice's patron: the one
   * winner is Charlie, whatever the hash.
   */
  lemma AliceBobCharlieExpectsAlice(hash: (string, nat) -> seq<bv8>)
    ensures forall w: nat | IsWinner(AliceBobCharlieBallots(), hash, w) ::
      RankedTableOf(AliceBobCharlieBallots())[w].vote.voterId != "test_alice_bob_charlie/Alice"
  {
    AliceBobCharlieIsTriangle(hash);
  }

  /** `test_alice_bob_charlie` with the winner `compute_winner` yields: Charlie. */
  method AliceBobCharlie(hash: (string, nat) -> seq<bv8>) returns (winner: string)
    ensures winner == "test_alice_bob_charlie/Charlie"
  {
    AliceBobCharlieIsTriangle(hash);
    winner := ComputeWinner(AliceBobCharlieBallots(), hash);
  }

  // ---------------------------------------------------------------------------------------
  // A chain of patrons: `ernist_is_patron`

  /**
   * Alice (`ids[0]`) and Bob (`ids[1]`) vote for each other, Charlie (`ids[2]`) for Alice, Dave
   * (`ids[3]`) for Charlie and Ernist (`ids[4]`) for Dave, all five willing with one vote each;
   * `ids[5]` gives one vote to Bob and `ids[6]` gives 4 to Ernist.
   */
  function Chain(ids: seq<string>): seq<Vote>
    requires |ids| == 7
  {
    [ Vote(ids[0], ids[1], 1, true), Vote(ids[1], ids[0], 1, true), Vote(ids[2], ids[0], 1, true),
      Vote(ids[3], ids[2], 1, true), Vote(ids[4], ids[3], 1, true),
      Vote(ids[5], ids[1], 1, false), Vote(ids[6], ids[4], 4, false) ]
  }

  const ChainLinks: Links := [Some(1), Some(0), Some(0), Some(2), Some(3), Some(1), Some(4)]

  lemma ChainPathsLow()
    ensures ValidLinks(ChainLinks)
    ensures Path(ChainLinks, 0) == [0, 1] && Path(ChainLinks, 1) == [1, 0] && Path(ChainLinks, 2) == [2, 0, 1]
    ensures Path(ChainLinks, 3) == [3, 2, 0, 1]
  {
    var vf := ChainLinks;
    ExtendStep(vf, [0], 1, [0, 1]);
    ExtendStep(vf, [0, 1], 0, [0, 1, 0]);
    ExtendStep(vf, [1], 0, [1, 0]);
    ExtendStep(vf, [1, 0], 1, [1, 0, 1]);
    ExtendStep(vf, [2], 0, [2, 0]);
    ExtendStep(vf, [2, 0], 1, [2, 0, 1]);
    ExtendStep(vf, [2, 0, 1], 0, [2, 0, 1, 0]);
    ExtendStep(vf, [3], 2, [3, 2]);
    ExtendStep(vf, [3, 2], 0, [3, 2, 0]);
    ExtendStep(vf, [3, 2, 0], 1, [3, 2, 0, 1]);
    ExtendStep(vf, [3, 2, 0, 1], 0, [3, 2, 0, 1, 0]);
  }

  lemma ChainPathsHigh()
    ensures ValidLinks(ChainLinks)
    ensures Path(ChainLinks, 4) == [4, 3, 2, 0, 1] && Path(ChainLinks, 5) == [5, 1, 0]
  {
    var vf := ChainLinks;
    ExtendStep(vf, [4], 3, [4, 3]);
    ExtendStep(vf, [4, 3], 2, [4, 3, 2]);
    ExtendStep(vf, [4, 3, 2], 0, [4, 3, 2, 0]);
    ExtendStep(vf, [4, 3, 2, 0], 1, [4, 3, 2, 0, 1]);
    ExtendStep(vf, [4, 3, 2, 0, 1], 0, [4, 3, 2, 0, 1, 0]);
    ExtendStep(vf, [5], 1, [5, 1]);
    ExtendStep(vf, [5, 1], 0, [5, 1, 0]);
    ExtendStep(vf, [5, 1, 0], 1, [5, 1, 0, 1]);
  }

  lemma ChainPathOfVoter()
    ensures ValidLinks(ChainLinks)
    ensures Path(ChainLinks, 6) == [6, 4, 3, 2, 0, 1]
  {
    var vf := ChainLinks;
    ExtendStep(vf, [6], 4, [6, 4]);
    ExtendStep(vf, [6, 4], 3, [6, 4, 3]);
    ExtendStep(vf, [6, 4, 3], 2, [6, 4, 3, 2]);
    ExtendStep(vf, [6, 4, 3, 2], 0, [6, 4, 3, 2, 0]);
    ExtendStep(vf, [6, 4, 3, 2, 0], 1, [6, 4, 3, 2, 0, 1]);
    ExtendStep(vf, [6, 4, 3, 2, 0, 1], 0, [6, 4, 3, 2, 0, 1, 0]);
  }

  /** `Received` over seven origins, written out as a sum. */
  lemma ReceivedSeven(vf: Links, w: seq<nat>, t: nat)
    requires ValidLinks(vf) && |vf| == 7 && |w| == 7
    ensures Received(vf, w, t, 7) ==
      Share(vf, w, t, 0) + Share(vf, w, t, 1) + Share(vf, w, t, 2) + Share(vf, w, t, 3)
      + Share(vf, w, t, 4) + Share(vf, w, t, 5) + Share(vf, w, t, 6)
  {
    assert Received(vf, w, t, 1) == Share(vf, w, t, 0);
    assert Received(vf, w, t, 3) == Received(vf, w, t, 1) + Share(vf, w, t, 1) + Share(vf, w, t, 2);
    assert Received(vf, w, t, 5) == Received(vf, w, t, 3) + Share(vf, w, t, 3) + Share(vf, w, t, 4);
  }

  lemma ChainReceivedTop()
    ensures ValidLinks(ChainLinks)
    ensures var w := [1, 1, 1, 1, 1, 1, 4];
      && Received(ChainLinks, w, 0, 7) == 9 && Received(ChainLinks, w, 1, 7) == 9
      && Received(ChainLinks, w, 2, 7) == 6
  {
    ChainPathsLow();
    ChainPathsHigh();
    ChainPathOfVoter();
    var w := [1, 1, 1, 1, 1, 1, 4];
    ReceivedSeven(ChainLinks, w, 0);
    ReceivedSeven(ChainLinks, w, 1);
    ReceivedSeven(ChainLinks, w, 2);
  }

  lemma ChainReceivedRest()
    ensures ValidLinks(ChainLinks)
    ensures var w := [1, 1, 1, 1, 1, 1, 4];
      && Received(ChainLinks, w, 3, 7) == 5 && Received(ChainLinks, w, 4, 7) == 4
      && Received(ChainLinks, w, 5, 7) == 0 && Received(ChainLinks, w, 6, 7) == 0
  {
    ChainPathsLow();
    ChainPathsHigh();
    ChainPathOfVoter();
    var w := [1, 1, 1, 1, 1, 1, 4];
    ReceivedSeven(ChainLinks, w, 3);
    ReceivedSeven(ChainLinks, w, 4);
    ReceivedSeven(ChainLinks, w, 5);
    ReceivedSeven(ChainLinks, w, 6);
  }

  /** The table after `mk_candidates` and `compute_delegated_votes`: totals 10, 10, 7, 6 and 5. */
  lemma ChainDelegated(ids: seq<string>)
    requires |ids| == 7 && DistinctIds(Chain(ids))
    requires ids[0] != "" && ids[1] != "" && ids[2] != "" && ids[3] != "" && ids[4] != ""
    ensures ValidLinks(LinksOf(Candidates(Chain(ids))))
    ensures var votes := Chain(ids);
      var d := Delegated(Candidates(votes));
      && Placed(votes) == votes && CountWilling(votes) == 5 && |d| == 7
      && LinksOf(d) == ChainLinks
      && (forall i | 0 <= i < 7 :: d[i].vote == votes[i] && d[i].nextByTotalIndirectVotes.None?)
      && d[0].totalIndirectVotes == 10 && d[1].totalIndirectVotes == 10 && d[2].totalIndirectVotes == 7
      && d[3].totalIndirectVotes == 6 && d[4].totalIndirectVotes == 5
      && d[5].totalIndirectVotes == 0 && d[6].totalIndirectVotes == 0
      && d[2].isWillingCandidate && d[3].isWillingCandidate && d[4].isWillingCandidate
  {
    var votes := Chain(ids);
    PlacedWhenWillingFirst(votes, 5);
    var cs := Candidates(votes);
    ResolveDistinct(votes[0], votes, 1);
    ResolveDistinct(votes[1], votes, 0);
    ResolveDistinct(votes[2], votes, 0);
    ResolveDistinct(votes[3], votes, 2);
    ResolveDistinct(votes[4], votes, 3);
    ResolveDistinct(votes[5], votes, 1);
    ResolveDistinct(votes[6], votes, 4);
    assert LinksOf(cs) == ChainLinks;
    assert WeightsOf(cs) == [1, 1, 1, 1, 1, 1, 4];
    TalliedTable(votes);
    DelegatedKeepsBallots(cs);
    ChainReceivedTop();
    ChainReceivedRest();
  }

  /** `sort_by_key` ranks Ernist, Dave and Charlie below Alice and Bob. */
  lemma ChainRanking(d: seq<Candidate>)
    requires |d| == 7 && d[0].totalIndirectVotes == 10 && d[1].totalIndirectVotes == 10
    requires d[2].totalIndirectVotes == 7 && d[3].totalIndirectVotes == 6 && d[4].totalIndirectVotes == 5
    ensures Ranking(d, 5) == [4, 3, 2, 0, 1]
  {
    var s0, s1, s2, s3, s4 := Sortable(0, 10), Sortable(1, 10), Sortable(2, 7), Sortable(3, 6), Sortable(4, 5);
    assert Sortables(d, 5) == [s0, s1, s2, s3, s4];
    SortByScoreSnoc([], s0, [s0]);
    SortByScoreSnoc([s0], s1, [s0, s1]);
    SortByScoreSnoc([s0, s1], s2, [s0, s1, s2]);
    SortByScoreSnoc([s0, s1, s2], s3, [s0, s1, s2, s3]);
    SortByScoreSnoc([s0, s1, s2, s3], s4, [s0, s1, s2, s3, s4]);
    assert InsertByScore(s1, [s0]) == [s0, s1] by {
      assert [s0][1..] == [];
    }
  }

  /** Dave points at Ernist and Charlie at Dave. */
  lemma ChainLinkedLow(d: seq<Candidate>)
    requires |d| == 7
    ensures var a := d[3 := d[3].(nextByTotalIndirectVotes := Some(4))];
      LinkChain(d, [4, 3, 2]) == a[2 := a[2].(nextByTotalIndirectVotes := Some(3))]
  {
    LinkChainSnoc(d, [4], 3);
    LinkChainSnoc(d, [4, 3], 2);
    assert [4] + [3] == [4, 3] && [4, 3] + [2] == [4, 3, 2];
  }

  /** Then Alice points at Charlie and Bob at Alice; nothing else changes. */
  lemma ChainLinked(d: seq<Candidate>)
    requires |d| == 7
    ensures var L := LinkChain(d, [4, 3, 2, 0, 1]);
      && |L| == 7
      && (forall i | 0 <= i < 7 ::
            L[i].vote == d[i].vote && L[i].voteFor == d[i].voteFor
            && L[i].totalIndirectVotes == d[i].totalIndirectVotes
            && L[i].isWillingCandidate == d[i].isWillingCandidate)
      && L[2].nextByTotalIndirectVotes == Some(3) && L[3].nextByTotalIndirectVotes == Some(4)
      && L[4] == d[4]
  {
    ChainLinkedLow(d);
    LinkChainSnoc(d, [4, 3, 2], 0);
    LinkChainSnoc(d, [4, 3, 2, 0], 1);
    assert [4, 3, 2] + [0] == [4, 3, 2, 0] && [4, 3, 2, 0] + [1] == [4, 3, 2, 0, 1];
  }

  /** The ranked, linked table of `ernist_is_patron`, as far as the choice of the winner reads it. */
  predicate ChainShape(L: seq<Candidate>) {
    && |L| == 7 && NextInRange(L)
    && L[0].totalIndirectVotes == 10 && L[1].totalIndirectVotes == 10 && L[2].totalIndirectVotes == 7
    && L[3].totalIndirectVotes == 6 && L[4].totalIndirectVotes == 5
    && L[5].totalIndirectVotes == 0 && L[6].totalIndirectVotes == 0
    && L[0].voteFor == Some(1) && L[1].voteFor == Some(0) && L[2].voteFor == Some(0)
    && L[3].voteFor == Some(2) && L[4].voteFor == Some(3) && L[5].voteFor == Some(1) && L[6].voteFor == Some(4)
    && L[0].vote.numberOfVotes == 1 && L[1].vote.numberOfVotes == 1
    && L[2].isWillingCandidate && L[3].isWillingCandidate && L[4].isWillingCandidate
    && L[2].nextByTotalIndirectVotes == Some(3) && L[3].nextByTotalIndirectVotes == Some(4)
    && L[4].nextByTotalIndirectVotes.None?
  }

  /** The table `compute_winner` ranks and links. */
  lemma ChainTable(ids: seq<string>)
    requires |ids| == 7 && DistinctIds(Chain(ids))
    requires ids[0] != "" && ids[1] != "" && ids[2] != "" && ids[3] != "" && ids[4] != ""
    ensures CountWilling(Chain(ids)) == 5
    ensures ChainShape(RankedTableOf(Chain(ids))) && RankedTableOf(Chain(ids))[4].vote.voterId == ids[4]
  {
    var votes := Chain(ids);
    ChainDelegated(ids);
    var d := Delegated(Candidates(votes));
    ChainRanking(d);
    ChainLinked(d);
    var L := RankedTableOf(votes);
    assert L == LinkChain(d, [4, 3, 2, 0, 1]);
    assert forall i | 0 <= i < 7 :: L[i].voteFor == LinksOf(d)[i];
  }

  /** Alice and Bob each hold one vote of their own; only Alice has support outside the ring. */
  lemma ChainBest(L: seq<Candidate>, ring: set<nat>)
    requires ChainShape(L) && ring == {0, 1}
    ensures BestSet(L, ring) == {0}
  {
    assert Support(L, ring, 0, 1) == 0 && Support(L, ring, 1, 1) == 0;
    assert Support(L, ring, 0, 2) == 0 && Support(L, ring, 1, 2) == 0;
    assert Support(L, ring, 0, 3) == 7 && Support(L, ring, 1, 3) == 0;
    assert Support(L, ring, 0, 4) == 7 && Support(L, ring, 1, 4) == 0;
    assert Support(L, ring, 0, 5) == 7 && Support(L, ring, 1, 5) == 0;
    assert Support(L, ring, 0, 6) == 7 && Support(L, ring, 1, 6) == 0;
    assert Support(L, ring, 0, 7) == 7 && Support(L, ring, 1, 7) == 0;
    assert RingScore(L, ring, 0) == 8 && RingScore(L, ring, 1) == 1;
  }

  /** First round: Charlie, with 7 of Alice's 10 and more than Dave's 6, is Alice's patron. */
  lemma ChainFirstPatron(L: seq<Candidate>, ring: set<nat>)
    requires ChainShape(L) && ring == {0, 1}
    ensures PatronOf(L, 0, ring, 2) == Ok(Some(2))
  {
    var tw, ru := 0, 2;
    assert Qualified(L, tw, ring, ru, 7) == [];
    assert Qualified(L, tw, ring, ru, 6) == [];
    assert Qualified(L, tw, ring, ru, 5) == [];
    assert Qualified(L, tw, ring, ru, 4) == [];
    assert Qualified(L, tw, ring, ru, 3) == [];
    assert Qualified(L, tw, ring, ru, 2) == [2] && Qualified(L, tw, ring, ru, 0) == [2];
  }

  /** Second round: Dave, with 6 of Charlie's 7 and more than Ernist's 5, is Charlie's patron. */
  lemma ChainSecondPatron(L: seq<Candidate>, ring: set<nat>)
    requires ChainShape(L) && ring == {0, 1}
    ensures PatronOf(L, 2, ring, 3) == Ok(Some(3))
  {
    var tw, ru := 2, 3;
    assert Qualified(L, tw, ring, ru, 7) == [];
    assert Qualified(L, tw, ring, ru, 6) == [];
    assert Qualified(L, tw, ring, ru, 5) == [];
    assert Qualified(L, tw, ring, ru, 4) == [];
    assert Qualified(L, tw, ring, ru, 3) == [3] && Qualified(L, tw, ring, ru, 1) == [3] && Qualified(L, tw, ring, ru, 0) == [3];
  }

  /** Third round: Ernist, with 5 of Dave's 6 and nobody ranked below him, is Dave's patron. */
  lemma ChainThirdPatron(L: seq<Candidate>, ring: set<nat>)
    requires ChainShape(L) && ring == {0, 1}
    ensures PatronOf(L, 3, ring, 4) == Ok(Some(4))
  {
    var tw, ru := 3, 4;
    assert Qualified(L, tw, ring, ru, 7) == [];
    assert Qualified(L, tw, ring, ru, 6) == [];
    assert Qualified(L, tw, ring, ru, 5) == [];
    assert Qualified(L, tw, ring, ru, 3) == [4] && Qualified(L, tw, ring, ru, 2) == [4] && Qualified(L, tw, ring, ru, 1) == [4] && Qualified(L, tw, ring, ru, 0) == [4];
  }

  /**
   * Alice and Bob share the top, Charlie is the runner-up and Alice the best of the ring; the
   * patrons Charlie, Dave and Ernist follow one another down the ranking, and Ernist, at its
   * bottom, is the only finalist.
   */
  lemma ChainFinalists(L: seq<Candidate>)
    requires ChainShape(L)
    ensures IsRunnerUp(L, 5, TopScore(L, 5), Some(2))
    ensures forall ru | IsRunnerUp(L, 5, TopScore(L, 5), ru) :: Finalists(L, 5, ru) == {4}
  {
    assert TopScore(L, 1) == 10 && TopScore(L, 2) == 10 && TopScore(L, 3) == 10;
    assert TopScore(L, 4) == 10 && TopScore(L, 5) == 10;
    var ring := TopRing(L, 5, 10);
    assert ring == {0, 1};
    ChainBest(L, ring);
    ChainFirstPatron(L, ring);
    ChainSecondPatron(L, ring);
    ChainThirdPatron(L, ring);
    assert Runoff(L, ring, 3, 4, 5) == Ok(4);
    assert Runoff(L, ring, 2, 3, 6) == Ok(4);
    assert Runoff(L, ring, 0, 2, 7) == Ok(4);
    forall ru | IsRunnerUp(L, 5, TopScore(L, 5), ru) ensures Finalists(L, 5, ru) == {4} {
      assert ru == Some(2) by { assert L[2].totalIndirectVotes < TopScore(L, 5); }
    }
  }

  /** Whatever the hash, Ernist wins the chain, and nobody else does. */
  lemma ChainWinner(ids: seq<string>, hash: (string, nat) -> seq<bv8>)
    requires |ids| == 7 && DistinctIds(Chain(ids))
    requires ids[0] != "" && ids[1] != "" && ids[2] != "" && ids[3] != "" && ids[4] != ""
    ensures CountWilling(Chain(ids)) == 5 && RankedTableOf(Chain(ids))[4].vote.voterId == ids[4]
    ensures IsWinner(Chain(ids), hash, 4)
    ensures forall w: nat | IsWinner(Chain(ids), hash, w) :: w == 4
  {
    var votes := Chain(ids);
    ChainTable(ids);
    var L := RankedTableOf(votes);
    ChainFinalists(L);
    BytesLessIrreflexive(Key(L, 4, hash));
    assert LeastKeyed(L, Finalists(L, 5, Some(2)), hash, 4);
    forall w: nat | IsWinner(votes, hash, w) ensures w == 4 {
      var ru :| IsRunnerUp(L, 5, TopScore(L, 5), ru) && LeastKeyed(L, Finalists(L, 5, ru), hash, w);
    }
  }

  /** `ernist_is_patron`: the patron of Alice's patron's patron wins. */
  method ErnistIsPatron(hash: (string, nat) -> seq<bv8>) returns (winner: string)
    ensures winner == "ernist_is_patron/Ernist"
  {
    var ids := [
      "ernist_is_patron/Alice", "ernist_is_patron/Bob", "ernist_is_patron/Charlie",
      "ernist_is_patron/Dave", "ernist_is_patron/Ernist", "voter#0", "voter#1"];
    var votes := [
      Vote("ernist_is_patron/Alice", "ernist_is_patron/Bob", 1, true),
      Vote("ernist_is_patron/Bob", "ernist_is_patron/Alice", 1, true),
      Vote("ernist_is_patron/Charlie", "ernist_is_patron/Alice", 1, true),
      Vote("ernist_is_patron/Dave", "ernist_is_patron/Charlie", 1, true),
      Vote("ernist_is_patron/Ernist", "ernist_is_patron/Dave", 1, true),
      Vote("voter#0", "ernist_is_patron/Bob", 1, false),
      Vote("voter#1", "ernist_is_patron/Ernist", 4, false)];
    assert votes == Chain(ids);
    assert DistinctIds(votes) by {
      assert "voter#0"[6] != "voter#1"[6];
    }
    ChainWinner(ids, hash);
    winner := ComputeWinner(votes, hash);
  }
}
