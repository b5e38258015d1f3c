/**
 * The candidate table of the earlier variant in `src/main.rs` and how its `mk_candidates` builds
 * it. Unlike `src/lib.rs`, the table keeps the input order, every entry records its own index and
 * its direct votes apart from its total (which starts at zero), and a ballot naming its own voter
 * is resolved like any other.
 */
module EarlyCandidates {
  import opened Wrappers
  import opened ElectionTypes
  import opened ElectoriumCandidates

  /** One entry of the candidate table (`struct Candidate` in `src/main.rs`). */
  datatype EarlyCandidate = EarlyCandidate(
    idx: nat,
    voteFor: Option<nat>,
    votingForSame: Option<nat>,
    totalDirectVotes: nat,
    totalIndirectVotes: nat,
    votedForMe: Option<nat>,
    isWillingCandidate: bool)

  /** The entry pushed for ballot `i`, before its `vote_for` is resolved. */
  function Fresh(v: Vote, i: nat): EarlyCandidate {
    EarlyCandidate(i, None, None, v.numberOfVotes, 0, None, v.willingCandidate)
  }

  /** What the `vote_for` of a ballot resolves to: any known id, the voter's own included. */
  function Resolve(ballot: Vote, byName: map<string, nat>): Option<nat> {
    if ballot.voteFor == "" then None
    else if ballot.voteFor in byName then Some(byName[ballot.voteFor])
    else None
  }

  /** The table `mk_candidates` leaves behind. */
  function Candidates(votes: seq<Vote>): (cs: seq<EarlyCandidate>)
    ensures |cs| == |votes|
  {
    seq(|votes|, i requires 0 <= i < |votes| =>
      Fresh(votes[i], i).(voteFor := Resolve(votes[i], IndexByName(votes))))
  }

  // ---------------------------------------------------------------------------------------
  // Properties of the table

  /**
   * A ballot's `vote_for` resolves exactly when it names an id of the table, the voter's own
   * included, and then to the last entry carrying that id.
   */
  lemma ResolveSpec(ballot: Vote, votes: seq<Vote>)
    ensures Resolve(ballot, IndexByName(votes)).Some? <==>
      ballot.voteFor != "" && exists i | 0 <= i < |votes| :: votes[i].voterId == ballot.voteFor
    ensures Resolve(ballot, IndexByName(votes)).Some? ==>
      var idx := Resolve(ballot, IndexByName(votes)).value;
      && idx < |votes| && votes[idx].voterId == ballot.voteFor
      && forall j | idx < j < |votes| :: votes[j].voterId != ballot.voteFor
  {
    IndexByNameIsLast(votes, ballot.voteFor);
  }

  /** Entry `i` is ballot `i`: its index, direct votes and flag, with an empty total and lists. */
  lemma CandidatesInInputOrder(votes: seq<Vote>, i: nat)
    requires i < |votes|
    ensures Candidates(votes)[i].idx == i
    ensures Candidates(votes)[i].totalDirectVotes == votes[i].numberOfVotes
    ensures Candidates(votes)[i].isWillingCandidate == votes[i].willingCandidate
    ensures Candidates(votes)[i].totalIndirectVotes == 0
    ensures Candidates(votes)[i].votedForMe.None? && Candidates(votes)[i].votingForSame.None?
    ensures Candidates(votes)[i].voteFor.Some? ==>
      var idx := Candidates(votes)[i].voteFor.value;
      idx < |votes| && votes[idx].voterId == votes[i].voteFor
  {
    ResolveSpec(votes[i], votes);
  }

  /** A voter who names themselves keeps the self-vote (`src/lib.rs` drops it). */
  lemma SelfVoteKept()
    ensures Candidates([Vote("a", "a", 5, true)])[0].voteFor == Some(0)
  {
    var votes := [Vote("a", "a", 5, true)];
    assert votes[..0] == [];
    assert IndexByName(votes) == map["a" := 0];
  }

  // ---------------------------------------------------------------------------------------
  // The operation

  /** `mk_candidates`: pushes one entry per ballot, indexing ids, then resolves every vote. */
  method MkCandidates(votes: seq<Vote>) returns (cands: array<EarlyCandidate>)
    ensures fresh(cands)
    ensures cands[..] == Candidates(votes)
  {
    var byName: map<string, nat> := map[];
    var built: seq<EarlyCandidate> := [];
    assert votes[..0] == [];
    for i := 0 to |votes|
      invariant |built| == i
      invariant forall k | 0 <= k < i :: built[k] == Fresh(votes[k], k)
      invariant byName == IndexByName(votes[..i])
    {
      assert votes[..i + 1][..i] == votes[..i];
      byName := byName[votes[i].voterId := |built|];
      built := built + [Fresh(votes[i], |built|)];
    }
    assert votes[..|votes|] == votes;
    cands := new EarlyCandidate[|built|](i requires 0 <= i < |built| => built[i]);
    for i := 0 to cands.Length
      invariant forall k | 0 <= k < i :: cands[k] == Candidates(votes)[k]
      invariant forall k | i <= k < cands.Length :: cands[k] == built[k]
    {
      var vote := votes[i];
      if vote.voteFor == "" {
        // They did not vote.
      } else if vote.voteFor in byName {
        cands[i] := cands[i].(voteFor := Some(byName[vote.voteFor]));
      }
    }
  }
}
