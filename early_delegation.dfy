/**
 * `compute_delegated_votes` of `src/main.rs`: every candidate, in table order, first threads
 * itself onto the list of those who voted for the same candidate, then walks its delegation path
 * and adds its direct votes to the indirect total of every other candidate on it. Totals start
 * at zero, so an entry's total is what it received, never its own votes.
 */
module EarlyDelegation {
  import opened Wrappers
  import opened ElectionTypes
  import opened DelegationPaths
  import opened EarlyCandidates

  /** The `vote_for` links of a table. */
  function LinksOf(cs: seq<EarlyCandidate>): Links {
    seq(|cs|, i requires 0 <= i < |cs| => cs[i].voteFor)
  }

  /** The number of votes every entry holds. */
  function WeightsOf(cs: seq<EarlyCandidate>): seq<nat> {
    seq(|cs|, i requires 0 <= i < |cs| => cs[i].totalDirectVotes)
  }

  /** The head of the list of voters of `t` once the entries below `k` have threaded themselves. */
  function HeadBefore(cs: seq<EarlyCandidate>, t: nat, k: nat): Option<nat>
    requires t < |cs| && k <= |cs|
  {
    match LastVoterBelow(LinksOf(cs), t, k)
    case Some(j) => Some(j)
    case None => cs[t].votedForMe
  }

  /** Entry `t` once the entries below `k` have threaded themselves onto the voter lists. */
  function Threaded(cs: seq<EarlyCandidate>, t: nat, k: nat): EarlyCandidate
    requires ValidLinks(LinksOf(cs)) && t < |cs| && k <= |cs|
  {
    assert LinksOf(cs)[t] == cs[t].voteFor;
    var own :=
      if t < k && cs[t].voteFor.Some? then HeadBefore(cs, cs[t].voteFor.value, t)
      else cs[t].votingForSame;
    cs[t].(votedForMe := HeadBefore(cs, t, k), votingForSame := own)
  }

  /** Entry `t` once the entries below `k` have been processed. */
  function Partial(cs: seq<EarlyCandidate>, t: nat, k: nat): EarlyCandidate
    requires ValidLinks(LinksOf(cs)) && t < |cs| && k <= |cs|
  {
    Threaded(cs, t, k).(totalIndirectVotes :=
      cs[t].totalIndirectVotes + Received(LinksOf(cs), WeightsOf(cs), t, k))
  }

  /** The table once the entries below `k` have been processed. */
  function PartialAll(cs: seq<EarlyCandidate>, k: nat): seq<EarlyCandidate>
    requires ValidLinks(LinksOf(cs)) && k <= |cs|
  {
    seq(|cs|, t requires 0 <= t < |cs| => Partial(cs, t, k))
  }

  /** The table once entry `k` has threaded itself onto the voter list, before its walk. */
  function Enlisted(cs: seq<EarlyCandidate>, k: nat): seq<EarlyCandidate>
    requires ValidLinks(LinksOf(cs)) && k < |cs|
  {
    seq(|cs|, t requires 0 <= t < |cs| =>
      Threaded(cs, t, k + 1).(totalIndirectVotes :=
        cs[t].totalIndirectVotes + Received(LinksOf(cs), WeightsOf(cs), t, k)))
  }

  /** The table `compute_delegated_votes` leaves behind. */
  function Delegated(cs: seq<EarlyCandidate>): seq<EarlyCandidate>
    requires ValidLinks(LinksOf(cs))
  {
    PartialAll(cs, |cs|)
  }

  // ---------------------------------------------------------------------------------------
  // Steps of the operation

  /** What threading entry `k` changes in entry `t`. */
  lemma ThreadedStep(cs: seq<EarlyCandidate>, t: nat, k: nat)
    requires ValidLinks(LinksOf(cs)) && t < |cs| && k < |cs|
    ensures cs[k].voteFor.Some? ==> cs[k].voteFor.value < |cs|
    ensures Threaded(cs, t, k + 1) ==
      var before := Threaded(cs, t, k);
      before.(
        votedForMe := if cs[k].voteFor == Some(t) then Some(k) else before.votedForMe,
        votingForSame :=
          if t == k && cs[k].voteFor.Some? then Threaded(cs, cs[k].voteFor.value, k).votedForMe
          else before.votingForSame)
  {
    assert LinksOf(cs)[k] == cs[k].voteFor;
  }

  /** Threading entry `k` onto the voter list of the one it votes for. */
  lemma EnlistStep(cs: seq<EarlyCandidate>, k: nat)
    requires ValidLinks(LinksOf(cs)) && k < |cs|
    ensures cs[k].voteFor.None? ==> PartialAll(cs, k) == Enlisted(cs, k)
    ensures cs[k].voteFor.Some? ==>
      var p := PartialAll(cs, k);
      var x := cs[k].voteFor.value;
      && x < |cs|
      && var s1 := p[k := p[k].(votingForSame := p[x].votedForMe)];
         s1[x := s1[x].(votedForMe := Some(k))] == Enlisted(cs, k)
  {
    assert LinksOf(cs)[k] == cs[k].voteFor;
    var p := PartialAll(cs, k);
    var e := Enlisted(cs, k);
    if cs[k].voteFor.None? {
      forall t | 0 <= t < |cs| ensures p[t] == e[t] {
        ThreadedStep(cs, t, k);
      }
    } else {
      var x := cs[k].voteFor.value;
      var s1 := p[k := p[k].(votingForSame := p[x].votedForMe)];
      var s2 := s1[x := s1[x].(votedForMe := Some(k))];
      forall t | 0 <= t < |cs| ensures s2[t] == e[t] {
        ThreadedStep(cs, t, k);
      }
    }
  }

  /** Threading entries onto voter lists leaves the links alone. */
  lemma EnlistedKeepsLinks(cs: seq<EarlyCandidate>, k: nat)
    requires ValidLinks(LinksOf(cs)) && k < |cs|
    ensures |Enlisted(cs, k)| == |cs|
    ensures forall t | 0 <= t < |cs| :: Enlisted(cs, k)[t].voteFor == LinksOf(cs)[t]
  {
  }

  /** Once the walk of `k` has added its votes along its whole path, `k` is done. */
  lemma WalkDone(cs: seq<EarlyCandidate>, k: nat)
    requires ValidLinks(LinksOf(cs)) && k < |cs|
    ensures forall t | 0 <= t < |cs| ::
      var e := Enlisted(cs, k)[t];
      PartialAll(cs, k + 1)[t] ==
        if t != k && t in Path(LinksOf(cs), k)
        then e.(totalIndirectVotes := e.totalIndirectVotes + cs[k].totalDirectVotes)
        else e
  {
    var vf := LinksOf(cs);
    var weights := WeightsOf(cs);
    forall t | 0 <= t < |cs|
      ensures Received(vf, weights, t, k + 1) ==
        Received(vf, weights, t, k) + if k != t && t in Path(vf, k) then cs[k].totalDirectVotes else 0
    {
    }
  }

  // ---------------------------------------------------------------------------------------
  // The operation

  /**
   * `compute_delegated_votes`. Every `vote_for` must name an entry of the table (the Rust code
   * indexes the table with it).
   */
  method ComputeDelegatedVotes(cand: array<EarlyCandidate>)
    requires ValidLinks(LinksOf(cand[..]))
    modifies cand
    ensures cand[..] == Delegated(old(cand[..]))
  {
    ghost var cs := cand[..];
    ghost var vf := LinksOf(cs);
    var delegationPath: seq<nat>;
    for node := 0 to cand.Length
      invariant cand[..] == PartialAll(cs, node)
    {
      var votes := cand[node].totalDirectVotes;
      assert votes == cs[node].totalDirectVotes;
      Enlist(cand, node, cs);
      EnlistedKeepsLinks(cs, node);
      ghost var enlisted := cand[..];
      delegationPath := WalkPath(cand, node, votes, vf);
      WalkDone(cs, node);
      assert cand[..] == PartialAll(cs, node + 1) by {
        forall t | 0 <= t < cand.Length ensures cand[t] == PartialAll(cs, node + 1)[t] {
          assert enlisted[t] == Enlisted(cs, node)[t];
        }
      }
    }
  }

  /** Inserts entry `node` at the head of the voter list of the one it votes for. */
  method Enlist(cand: array<EarlyCandidate>, node: nat, ghost cs: seq<EarlyCandidate>)
    requires ValidLinks(LinksOf(cs)) && node < |cs|
    requires cand[..] == PartialAll(cs, node)
    modifies cand
    ensures cand[..] == Enlisted(cs, node)
  {
    EnlistStep(cs, node);
    var voteFor := cand[node].voteFor;
    assert voteFor == cs[node].voteFor;
    if voteFor.Some? {
      var target := voteFor.value;
      cand[node] := cand[node].(votingForSame := cand[target].votedForMe);
      cand[target] := cand[target].(votedForMe := Some(node));
    }
  }

  /**
   * The walk of `compute_delegated_votes` for one origin: follows the links from `node` until the
   * next one is missing or already on the path, adding `votes` to every candidate it reaches.
   * Returns the path walked (`delegation_path`).
   */
  method WalkPath(cand: array<EarlyCandidate>, node: nat, votes: nat, ghost vf: Links)
    returns (delegationPath: seq<nat>)
    requires ValidLinks(vf) && cand.Length == |vf| && node < |vf|
    requires forall t | 0 <= t < cand.Length :: cand[t].voteFor == vf[t]
    modifies cand
    ensures delegationPath == Path(vf, node)
    ensures forall t | 0 <= t < cand.Length ::
      cand[t] ==
        if t != node && t in delegationPath
        then old(cand[t]).(totalIndirectVotes := old(cand[t]).totalIndirectVotes + votes)
        else old(cand[t])
  {
    var voteFor := cand[node].voteFor;
    delegationPath := [node];
    while true
      invariant IsWalk(vf, delegationPath) && delegationPath[0] == node
      invariant Extend(vf, delegationPath) == Path(vf, node)
      invariant voteFor == vf[delegationPath[|delegationPath| - 1]]
      invariant forall t | 0 <= t < cand.Length ::
        cand[t] ==
          if t != node && t in delegationPath
          then old(cand[t]).(totalIndirectVotes := old(cand[t]).totalIndirectVotes + votes)
          else old(cand[t])
      decreases Unvisited(vf, delegationPath)
    {
      if voteFor.None? {
        // Nobody left to delegate to, end of the line.
        assert Extend(vf, delegationPath) == delegationPath;
        break;
      }
      var next := voteFor.value;
      if next in delegationPath {
        // It is a ring: we already delegated to them.
        assert Extend(vf, delegationPath) == delegationPath;
        break;
      }
      WalkStep(vf, delegationPath, next);
      delegationPath := delegationPath + [next];
      cand[next] := cand[next].(totalIndirectVotes := cand[next].totalIndirectVotes + votes);
      voteFor := cand[next].voteFor;
    }
  }
}

/**
 * What the table looks like once `mk_candidates` and `compute_delegated_votes` have run: the
 * voter lists hold exactly the voters, and every total is what flows along the delegation paths.
 */
module EarlyTally {
  import opened Wrappers
  import opened ElectionTypes
  import opened DelegationPaths
  import opened EarlyCandidates
  import opened EarlyDelegation

  /**
   * The `voted_for_me` / `voting_for_same` lists are threaded in table order: the head of the
   * list of `t` is its last voter, and each voter points at the previous voter of the same one.
   */
  predicate ListsThreaded(cs: seq<EarlyCandidate>) {
    && ValidLinks(LinksOf(cs))
    && (forall t | 0 <= t < |cs| :: cs[t].votedForMe == LastVoterBelow(LinksOf(cs), t, |cs|))
    && (forall i | 0 <= i < |cs| ::
          cs[i].votingForSame ==
            if cs[i].voteFor.Some? then LastVoterBelow(LinksOf(cs), cs[i].voteFor.value, i) else None)
  }

  /**
   * Every total is what the OTHER candidates whose delegation path reaches the entry hold
   * directly: the entry's own votes are never part of it, willing or not.
   */
  predicate TotalsDelegated(cs: seq<EarlyCandidate>)
    requires ValidLinks(LinksOf(cs))
  {
    forall t | 0 <= t < |cs| ::
      cs[t].totalIndirectVotes == Received(LinksOf(cs), WeightsOf(cs), t, |cs|)
  }

  predicate Tallied(cs: seq<EarlyCandidate>) {
    ListsThreaded(cs) && TotalsDelegated(cs)
  }

  /** The table as `mk_candidates` leaves it: no lists yet, every total at zero. */
  predicate Untallied(cs: seq<EarlyCandidate>) {
    && ValidLinks(LinksOf(cs))
    && forall t | 0 <= t < |cs| ::
         && cs[t].votedForMe.None? && cs[t].votingForSame.None?
         && cs[t].totalIndirectVotes == 0
  }

  /** `compute_delegated_votes` changes neither the links nor the ballots. */
  lemma DelegatedKeepsBallots(cs: seq<EarlyCandidate>)
    requires ValidLinks(LinksOf(cs))
    ensures |Delegated(cs)| == |cs|
    ensures LinksOf(Delegated(cs)) == LinksOf(cs) && WeightsOf(Delegated(cs)) == WeightsOf(cs)
    ensures forall t | 0 <= t < |cs| ::
      && Delegated(cs)[t].idx == cs[t].idx
      && Delegated(cs)[t].totalDirectVotes == cs[t].totalDirectVotes
      && Delegated(cs)[t].isWillingCandidate == cs[t].isWillingCandidate
  {
    var d := Delegated(cs);
    assert forall t | 0 <= t < |cs| :: LinksOf(d)[t] == LinksOf(cs)[t];
    assert forall t | 0 <= t < |cs| :: WeightsOf(d)[t] == WeightsOf(cs)[t];
  }

  /** Run on a freshly built table, `compute_delegated_votes` threads the lists and tallies. */
  lemma DelegatedIsTallied(cs: seq<EarlyCandidate>)
    requires Untallied(cs)
    ensures Tallied(Delegated(cs))
  {
    DelegatedKeepsBallots(cs);
    var d := Delegated(cs);
    var vf := LinksOf(cs);
    forall i | 0 <= i < |cs|
      ensures d[i].votingForSame ==
        if d[i].voteFor.Some? then LastVoterBelow(LinksOf(d), d[i].voteFor.value, i) else None
    {
      assert vf[i] == cs[i].voteFor;
      if cs[i].voteFor.Some? {
        LastVoterBelowSpec(vf, cs[i].voteFor.value, i);
      }
    }
    forall t | 0 <= t < |cs|
      ensures d[t].votedForMe == LastVoterBelow(LinksOf(d), t, |cs|)
    {
    }
  }

  /** `mk_candidates` leaves a table with valid links, no lists and zero totals. */
  lemma CandidatesUntallied(votes: seq<Vote>)
    ensures Untallied(Candidates(votes))
  {
    var cs := Candidates(votes);
    forall i | 0 <= i < |cs| && LinksOf(cs)[i].Some?
      ensures LinksOf(cs)[i].value < |cs|
    {
      ResolveSpec(votes[i], votes);
    }
  }

  // ---------------------------------------------------------------------------------------
  // The voter lists

  /** The entries visited by following `voting_for_same` from `head`. */
  function VoterList(cs: seq<EarlyCandidate>, head: Option<nat>): seq<nat>
    requires ListsThreaded(cs)
    requires head.Some? ==> head.value < |cs|
    decreases if head.Some? then head.value + 1 else 0
  {
    match head
    case None => []
    case Some(j) =>
      PreviousVoterBelow(cs, j);
      [j] + VoterList(cs, cs[j].votingForSame)
  }

  /** Each `voting_for_same` link points further down the table. */
  lemma PreviousVoterBelow(cs: seq<EarlyCandidate>, j: nat)
    requires ListsThreaded(cs) && j < |cs|
    ensures cs[j].votingForSame.Some? ==> cs[j].votingForSame.value < j
  {
    assert LinksOf(cs)[j] == cs[j].voteFor;
    if cs[j].voteFor.Some? {
      LastVoterBelowSpec(LinksOf(cs), cs[j].voteFor.value, j);
    }
  }

  /** The list through a voter of `t` goes on with the previous voter of `t`. */
  lemma VoterListStep(cs: seq<EarlyCandidate>, t: nat, j: nat)
    requires ListsThreaded(cs) && j < |cs| && LinksOf(cs)[j] == Some(t)
    ensures LastVoterBelow(LinksOf(cs), t, j).Some? ==> LastVoterBelow(LinksOf(cs), t, j).value < j
    ensures VoterList(cs, Some(j)) == [j] + VoterList(cs, LastVoterBelow(LinksOf(cs), t, j))
  {
    LastVoterBelowSpec(LinksOf(cs), t, j);
    assert cs[j].voteFor == Some(t);
    assert cs[j].votingForSame == LastVoterBelow(LinksOf(cs), t, j);
  }

  lemma {:induction false} VoterListFrom(cs: seq<EarlyCandidate>, t: nat, k: nat)
    requires ListsThreaded(cs) && t < |cs| && k <= |cs|
    ensures LastVoterBelow(LinksOf(cs), t, k).Some? ==> LastVoterBelow(LinksOf(cs), t, k).value < |cs|
    ensures VoterList(cs, LastVoterBelow(LinksOf(cs), t, k)) == VotersBelow(LinksOf(cs), t, k)
  {
    var vf := LinksOf(cs);
    if k > 0 {
      VoterListFrom(cs, t, k - 1);
      if vf[k - 1] == Some(t) {
        VoterListStep(cs, t, k - 1);
      }
    }
  }

  /**
   * Walking `voted_for_me` and then `voting_for_same` from `t` lists exactly the entries that vote
   * for `t`, each once (in decreasing table order).
   */
  lemma VoterListIsVoters(cs: seq<EarlyCandidate>, t: nat)
    requires ListsThreaded(cs) && t < |cs|
    ensures cs[t].votedForMe.Some? ==> cs[t].votedForMe.value < |cs|
    ensures forall j :: j in VoterList(cs, cs[t].votedForMe) <==> 0 <= j < |cs| && cs[j].voteFor == Some(t)
    ensures forall a, b | 0 <= a < b < |VoterList(cs, cs[t].votedForMe)| ::
      VoterList(cs, cs[t].votedForMe)[a] > VoterList(cs, cs[t].votedForMe)[b]
  {
    VoterListFrom(cs, t, |cs|);
    VotersBelowSpec(LinksOf(cs), t, |cs|);
  }

  // ---------------------------------------------------------------------------------------
  // The totals

  /**
   * What a candidate holds is what flows into it less its own votes: a self-vote, or a ring that
   * leads back to the candidate, never counts its own votes.
   */
  lemma TotalIsInflowLessOwn(cs: seq<EarlyCandidate>, t: nat)
    requires ValidLinks(LinksOf(cs)) && TotalsDelegated(cs) && t < |cs|
    ensures cs[t].totalIndirectVotes + cs[t].totalDirectVotes == Inflow(LinksOf(cs), WeightsOf(cs), t, |cs|)
  {
    InflowIsReceivedPlusOwn(LinksOf(cs), WeightsOf(cs), t, |cs|);
  }
}
