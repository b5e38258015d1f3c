/**
 * The candidate table of `src/lib.rs` and how `mk_candidates` builds it.
 *
 * `mk_candidates` pushes the willing candidates first and the others after them, both groups in
 * input order, and indexes every voter id by its position in that new order. It then resolves the
 * `vote_for` of entry `i` from the ballot at position `i` of the ORIGINAL input (the two sequences
 * are zipped), which is not the ballot entry `i` holds once the groups have been reordered; the
 * model keeps that behaviour (see `ReorderedBallotsExample`).
 */
module ElectoriumCandidates {
  import opened Wrappers
  import opened ElectionTypes

  /** One entry of the candidate table (`struct Candidate` in `src/lib.rs`). */
  datatype Candidate = Candidate(
    vote: Vote,
    voteFor: Option<nat>,
    votingForSame: Option<nat>,
    totalIndirectVotes: nat,
    votedForMe: Option<nat>,
    isWillingCandidate: bool,
    nextByTotalIndirectVotes: Option<nat>)

  /** The ballots whose `willing_candidate` flag is `willing`, in input order. */
  function Select(votes: seq<Vote>, willing: bool): seq<Vote> {
    if votes == [] then []
    else
      var last := votes[|votes| - 1];
      Select(votes[..|votes| - 1], willing) + (if last.willingCandidate == willing then [last] else [])
  }

  /** The ballots in the order `mk_candidates` pushes them: willing ones first. */
  function Placed(votes: seq<Vote>): seq<Vote> {
    Select(votes, true) + Select(votes, false)
  }

  /** The entry pushed for a ballot, before its `vote_for` is resolved. */
  function Fresh(v: Vote): Candidate {
    Candidate(
      v, None, None,
      if v.willingCandidate then v.numberOfVotes else 0,
      None, v.willingCandidate, None)
  }

  /** `candidate_idx_by_name` after inserting every id of `placed` in order. */
  function IndexByName(placed: seq<Vote>): map<string, nat> {
    if placed == [] then map[]
    else IndexByName(placed[..|placed| - 1])[placed[|placed| - 1].voterId := |placed| - 1]
  }

  /** What the `vote_for` of a ballot resolves to. */
  function ResolveVoteFor(ballot: Vote, byName: map<string, nat>): Option<nat> {
    if ballot.voteFor == "" then None
    else if ballot.voteFor == ballot.voterId then None
    else if ballot.voteFor in byName then Some(byName[ballot.voteFor])
    else None
  }

  /** The table `mk_candidates` leaves behind. */
  function Candidates(votes: seq<Vote>): (cs: seq<Candidate>)
    ensures |cs| == |votes|
  {
    var placed := Placed(votes);
    PlacedIsPermutation(votes);
    seq(|votes|, i requires 0 <= i < |votes| =>
      Fresh(placed[i]).(voteFor := ResolveVoteFor(votes[i], IndexByName(placed))))
  }

  /** The entries pushed for `placed`, in order. */
  function FreshAll(placed: seq<Vote>): (r: seq<Candidate>)
    ensures |r| == |placed|
  {
    if placed == [] then [] else FreshAll(placed[..|placed| - 1]) + [Fresh(placed[|placed| - 1])]
  }

  /** What the two passes of `mk_candidates` have placed after the first `p` of them. */
  function PassesDone(votes: seq<Vote>, p: nat): seq<Vote> {
    if p == 0 then [] else if p == 1 then Select(votes, true) else Placed(votes)
  }

  function CountWilling(votes: seq<Vote>): nat {
    |Select(votes, true)|
  }

  // ---------------------------------------------------------------------------------------
  // Properties of the table

  lemma {:induction false} SelectLength(votes: seq<Vote>)
    ensures |Select(votes, true)| + |Select(votes, false)| == |votes|
  {
    if votes != [] {
      SelectLength(votes[..|votes| - 1]);
    }
  }

  lemma {:induction false} SelectSplit(votes: seq<Vote>)
    ensures multiset(Select(votes, true)) + multiset(Select(votes, false)) == multiset(votes)
  {
    if votes != [] {
      var init := votes[..|votes| - 1];
      SelectSplit(init);
      assert votes == init + [votes[|votes| - 1]];
    }
  }

  lemma SelectStep(votes: seq<Vote>, j: nat, willing: bool)
    requires j < |votes|
    ensures Select(votes[..j + 1], willing) ==
      Select(votes[..j], willing) + (if votes[j].willingCandidate == willing then [votes[j]] else [])
  {
    assert votes[..j + 1][..j] == votes[..j];
  }

  lemma IndexByNameStep(placed: seq<Vote>, v: Vote)
    ensures IndexByName(placed + [v]) == IndexByName(placed)[v.voterId := |placed|]
  {
    assert (placed + [v])[..|placed|] == placed;
  }

  lemma {:induction false} FreshAllAt(placed: seq<Vote>, i: nat)
    requires i < |placed|
    ensures FreshAll(placed)[i] == Fresh(placed[i])
  {
    if i < |placed| - 1 {
      FreshAllAt(placed[..|placed| - 1], i);
    }
  }

  lemma FreshAllStep(placed: seq<Vote>, v: Vote)
    ensures FreshAll(placed + [v]) == FreshAll(placed) + [Fresh(v)]
  {
    assert (placed + [v])[..|placed|] == placed;
  }

  /** The reordered table holds every ballot exactly once. */
  lemma PlacedIsPermutation(votes: seq<Vote>)
    ensures |Placed(votes)| == |votes|
    ensures multiset(Placed(votes)) == multiset(votes)
  {
    SelectLength(votes);
    SelectSplit(votes);
  }

  /** Every placed entry is one of the ballots; `j` is where it came from. */
  lemma PlacedFromBallot(votes: seq<Vote>, i: nat) returns (j: nat)
    requires i < |Placed(votes)|
    ensures j < |votes| && votes[j] == Placed(votes)[i]
  {
    PlacedIsPermutation(votes);
    assert Placed(votes)[i] in multiset(votes);
    j :| 0 <= j < |votes| && votes[j] == Placed(votes)[i];
  }

  lemma {:induction false} SelectFlags(votes: seq<Vote>, willing: bool)
    ensures forall v | v in Select(votes, willing) :: v.willingCandidate == willing
  {
    if votes != [] {
      SelectFlags(votes[..|votes| - 1], willing);
    }
  }

  /** The first `CountWilling(votes)` entries are the willing ones, the rest are not. */
  lemma PlacedWillingFirst(votes: seq<Vote>)
    ensures forall i | 0 <= i < |Placed(votes)| ::
      Placed(votes)[i].willingCandidate <==> i < CountWilling(votes)
  {
    SelectFlags(votes, true);
    SelectFlags(votes, false);
    var p := Placed(votes);
    var w := CountWilling(votes);
    forall i | 0 <= i < |p| ensures p[i].willingCandidate <==> i < w {
      if i < w {
        assert p[i] == Select(votes, true)[i];
        assert p[i] in Select(votes, true);
      } else {
        assert p[i] == Select(votes, false)[i - w];
        assert p[i] in Select(votes, false);
      }
    }
  }

  /** A name is indexed iff some entry carries it, and it is indexed at its LAST occurrence. */
  lemma {:induction false} IndexByNameIsLast(placed: seq<Vote>, name: string)
    ensures name in IndexByName(placed) <==> exists i | 0 <= i < |placed| :: placed[i].voterId == name
    ensures name in IndexByName(placed) ==>
      var i := IndexByName(placed)[name];
      && i < |placed| && placed[i].voterId == name
      && forall j | i < j < |placed| :: placed[j].voterId != name
  {
    if placed != [] {
      var init := placed[..|placed| - 1];
      IndexByNameIsLast(init, name);
      if name != placed[|placed| - 1].voterId && name in IndexByName(placed) {
        assert IndexByName(placed)[name] == IndexByName(init)[name];
      }
      if exists i | 0 <= i < |placed| :: placed[i].voterId == name {
        var i :| 0 <= i < |placed| && placed[i].voterId == name;
        if i < |init| {
          assert init[i].voterId == name;
        }
      }
    }
  }

  /**
   * `vote_for` becomes `Some(idx)` exactly when the ballot names somebody, not the voter, and a
   * known id; `idx` is then the last entry carrying that id.
   */
  lemma ResolveVoteForSpec(ballot: Vote, placed: seq<Vote>)
    ensures ResolveVoteFor(ballot, IndexByName(placed)).Some? <==>
      && ballot.voteFor != ""
      && ballot.voteFor != ballot.voterId
      && exists i | 0 <= i < |placed| :: placed[i].voterId == ballot.voteFor
    ensures ResolveVoteFor(ballot, IndexByName(placed)).Some? ==>
      var idx := ResolveVoteFor(ballot, IndexByName(placed)).value;
      && idx < |placed| && placed[idx].voterId == ballot.voteFor
      && forall j | idx < j < |placed| :: placed[j].voterId != ballot.voteFor
  {
    IndexByNameIsLast(placed, ballot.voteFor);
  }

  /** No two ballots carry the same id. */
  predicate DistinctIds(placed: seq<Vote>) {
    forall i, j | 0 <= i < j < |placed| :: placed[i].voterId != placed[j].voterId
  }

  /** With distinct ids, a ballot naming the id of entry `t`, and not its own, resolves to `t`. */
  lemma ResolveDistinct(ballot: Vote, placed: seq<Vote>, t: nat)
    requires DistinctIds(placed) && t < |placed|
    requires ballot.voteFor == placed[t].voterId && ballot.voteFor != "" && ballot.voteFor != ballot.voterId
    ensures ResolveVoteFor(ballot, IndexByName(placed)) == Some(t)
  {
    ResolveVoteForSpec(ballot, placed);
    var idx := ResolveVoteFor(ballot, IndexByName(placed)).value;
    if idx != t {
      assert false;
    }
  }

  /** Over the first `j` ballots, when the willing ones come first, each pass keeps input order. */
  lemma {:induction false} SelectWillingFirst(votes: seq<Vote>, k: nat, j: nat)
    requires k <= |votes| && j <= |votes|
    requires forall i | 0 <= i < |votes| :: votes[i].willingCandidate <==> i < k
    ensures var p := if j < k then j else k;
      Select(votes[..j], true) == votes[..p] && Select(votes[..j], false) == votes[p..j]
  {
    if j == 0 {
      assert votes[..0] == [];
    } else {
      SelectWillingFirst(votes, k, j - 1);
      SelectStep(votes, j - 1, true);
      SelectStep(votes, j - 1, false);
      WillingFirstStep(votes, k, j - 1);
    }
  }

  /** One ballot more: it joins the willing prefix or the unwilling suffix. */
  lemma WillingFirstStep(votes: seq<Vote>, k: nat, j: nat)
    requires k <= |votes| && j < |votes|
    ensures j < k ==> votes[..j] + [votes[j]] == votes[..j + 1]
    ensures k <= j ==> votes[k..j] + [votes[j]] == votes[k..j + 1]
  {
    if j < k {
      assert votes[..j] + [votes[j]] == votes[..j + 1];
    } else {
      assert votes[k..j] + [votes[j]] == votes[k..j + 1];
    }
  }

  /**
   * When the willing ballots already come first, `mk_candidates` keeps the input order, so the
   * zip resolves every entry from its own ballot.
   */
  lemma PlacedWhenWillingFirst(votes: seq<Vote>, k: nat)
    requires k <= |votes| && forall i | 0 <= i < |votes| :: votes[i].willingCandidate <==> i < k
    ensures Placed(votes) == votes && CountWilling(votes) == k
  {
    SelectWillingFirst(votes, k, |votes|);
    assert votes[..|votes|] == votes;
    assert votes[..k] + votes[k..] == votes;
  }

  /** Every id known to the table is one of the input's ids and the other way round. */
  lemma PlacedKnowsSameIds(votes: seq<Vote>, name: string)
    ensures (exists i | 0 <= i < |Placed(votes)| :: Placed(votes)[i].voterId == name) <==>
            (exists i | 0 <= i < |votes| :: votes[i].voterId == name)
  {
    PlacedIsPermutation(votes);
    var p := Placed(votes);
    if exists i | 0 <= i < |p| :: p[i].voterId == name {
      var i :| 0 <= i < |p| && p[i].voterId == name;
      assert p[i] in multiset(p);
      assert p[i] in votes;
    }
    if exists i | 0 <= i < |votes| :: votes[i].voterId == name {
      var i :| 0 <= i < |votes| && votes[i].voterId == name;
      assert votes[i] in multiset(votes);
      assert votes[i] in p;
    }
  }

  /**
   * The reordering in action: a non-willing ballot listed before a willing one. Entry 0 is the
   * willing candidate "c", yet its `vote_for` is resolved from ballot 0 (that of "n", which votes
   * for "c"), so "c" ends up voting for itself; the vote of "n" is resolved from the ballot of
   * "c", which is empty, and is lost.
   */
  lemma ReorderedBallotsExample()
    ensures
      var votes := [Vote("n", "c", 1, false), Vote("c", "", 1, true)];
      && Candidates(votes)[0].vote.voterId == "c"
      && Candidates(votes)[0].voteFor == Some(0)
      && Candidates(votes)[1].vote.voterId == "n"
      && Candidates(votes)[1].voteFor == None
  {
    var votes := [Vote("n", "c", 1, false), Vote("c", "", 1, true)];
    ReorderedPlacement();
    var p := Placed(votes);
    var byName := IndexByName(p);
    assert "c" != "n" && "c" != "" by { assert "c"[0] != "n"[0]; }
    assert DistinctIds(p) by { assert p[0].voterId != p[1].voterId; }
    ResolveDistinct(votes[0], p, 0);
    assert ResolveVoteFor(votes[1], byName) == None;
    var cs := Candidates(votes);
    assert cs[0] == Fresh(p[0]).(voteFor := ResolveVoteFor(votes[0], byName));
    assert cs[1] == Fresh(p[1]).(voteFor := ResolveVoteFor(votes[1], byName));
  }

  /** Selecting from two ballots keeps each one that matches, in order. */
  lemma SelectPair(a: Vote, b: Vote, willing: bool)
    ensures Select([a, b], willing)
      == (if a.willingCandidate == willing then [a] else []) + (if b.willingCandidate == willing then [b] else [])
  {
    assert [a, b][..1] == [a] && [a][..0] == [];
    assert Select([a], willing) == (if a.willingCandidate == willing then [a] else []);
  }

  /** The ids known after two ballots are placed. */
  lemma IndexByNamePair(a: Vote, b: Vote)
    ensures IndexByName([a, b]) == map[a.voterId := 0][b.voterId := 1]
  {
    assert [a, b][..1] == [a] && [a][..0] == [];
    assert IndexByName([a]) == map[a.voterId := 0];
  }

  /** Where the two ballots of the example are placed, and the ids the table then knows. */
  lemma ReorderedPlacement()
    ensures var votes := [Vote("n", "c", 1, false), Vote("c", "", 1, true)];
      && Placed(votes) == [votes[1], votes[0]]
      && IndexByName(Placed(votes)) == map["c" := 0, "n" := 1]
  {
    var a, b := Vote("n", "c", 1, false), Vote("c", "", 1, true);
    SelectPair(a, b, true);
    SelectPair(a, b, false);
    assert Placed([a, b]) == [b, a];
    IndexByNamePair(b, a);
  }


  // ---------------------------------------------------------------------------------------
  // The operation

  /**
   * `mk_candidates`: builds the table and returns the number of willing candidates. The Rust code
   * pushes onto a caller-provided empty `Vec`; here the table is a fresh array.
   */
  method MkCandidates(votes: seq<Vote>) returns (cands: array<Candidate>, totalWilling: nat)
    ensures fresh(cands)
    ensures cands[..] == Candidates(votes)
    ensures totalWilling == CountWilling(votes)
  {
    var byName: map<string, nat> := map[];
    var built: seq<Candidate> := [];
    ghost var placed: seq<Vote> := [];
    totalWilling := 0;
    var passes := [true, false];
    for p := 0 to 2
      invariant placed == PassesDone(votes, p)
      invariant built == FreshAll(placed)
      invariant byName == IndexByName(placed)
      invariant totalWilling == if p == 0 then 0 else CountWilling(votes)
    {
      built, byName, totalWilling := PushPass(votes, passes[p], built, byName, totalWilling, placed);
      placed := placed + Select(votes, passes[p]);
    }
    SelectLength(votes);
    cands := new Candidate[|built|](i requires 0 <= i < |built| => built[i]);
    assert cands[..] == built;
    ResolveVotes(cands, votes, byName);
    ResolvedIsCandidates(votes);
  }

  /** Entry `c` once the ballot zipped with it has been resolved against `byName`. */
  function Resolve(c: Candidate, ballot: Vote, byName: map<string, nat>): Candidate {
    match ResolveVoteFor(ballot, byName)
    case Some(idx) => c.(voteFor := Some(idx))
    case None => c
  }

  /** The table after the zip loop of `mk_candidates`. */
  function ResolvedAll(cs: seq<Candidate>, votes: seq<Vote>, byName: map<string, nat>): seq<Candidate>
    requires |cs| == |votes|
  {
    seq(|cs|, i requires 0 <= i < |cs| => Resolve(cs[i], votes[i], byName))
  }

  lemma ResolvedIsCandidates(votes: seq<Vote>)
    ensures |FreshAll(Placed(votes))| == |votes|
    ensures ResolvedAll(FreshAll(Placed(votes)), votes, IndexByName(Placed(votes))) == Candidates(votes)
  {
    SelectLength(votes);
    var built := FreshAll(Placed(votes));
    forall i | 0 <= i < |votes|
      ensures ResolvedAll(built, votes, IndexByName(Placed(votes)))[i] == Candidates(votes)[i]
    {
      FreshAllAt(Placed(votes), i);
    }
  }

  /** One ballot of a pass: the placed ballots, the table and the index each grow by it if it matches. */
  lemma PushStep(votes: seq<Vote>, j: nat, willing: bool, placed: seq<Vote>, now: seq<Vote>)
    requires j < |votes| && now == placed + Select(votes[..j], willing)
    ensures var v := votes[j];
      && (v.willingCandidate == willing ==>
            && now + [v] == placed + Select(votes[..j + 1], willing)
            && FreshAll(now + [v]) == FreshAll(now) + [Fresh(v)]
            && IndexByName(now + [v]) == IndexByName(now)[v.voterId := |now|])
      && (v.willingCandidate != willing ==> now == placed + Select(votes[..j + 1], willing))
  {
    var v, sel := votes[j], Select(votes[..j], willing);
    SelectStep(votes, j, willing);
    if v.willingCandidate == willing {
      assert Select(votes[..j + 1], willing) == sel + [v];
      assert now + [v] == placed + (sel + [v]);
      IndexByNameStep(now, v);
      FreshAllStep(now, v);
    } else {
      assert Select(votes[..j + 1], willing) == sel;
    }
  }

  /**
   * One pass of the first loop of `mk_candidates`: pushes the ballots whose flag is `willing`, in
   * input order, indexing each id by its new position and counting the willing ones.
   */
  method PushPass(votes: seq<Vote>, willing: bool, built: seq<Candidate>, byName: map<string, nat>,
                  total: nat, ghost placed: seq<Vote>)
    returns (built': seq<Candidate>, byName': map<string, nat>, total': nat)
    requires built == FreshAll(placed) && byName == IndexByName(placed)
    ensures built' == FreshAll(placed + Select(votes, willing))
    ensures byName' == IndexByName(placed + Select(votes, willing))
    ensures total' == total + if willing then |Select(votes, true)| else 0
  {
    built', byName', total' := built, byName, total;
    ghost var now := placed;
    assert votes[..0] == [];
    for j := 0 to |votes|
      invariant now == placed + Select(votes[..j], willing)
      invariant built' == FreshAll(now) && byName' == IndexByName(now)
      invariant total' == total + if willing then |now| - |placed| else 0
    {
      var v := votes[j];
      PushStep(votes, j, willing, placed, now);
      if v.willingCandidate == willing {
        total' := total' + if willing then 1 else 0;
        byName' := byName'[v.voterId := |built'|];
        built' := built' + [Fresh(v)];
        now := now + [v];
      }
    }
    assert votes[..|votes|] == votes;
  }

  /** The second loop of `mk_candidates`: entry `i` takes its `vote_for` from ballot `i`. */
  method ResolveVotes(cands: array<Candidate>, votes: seq<Vote>, byName: map<string, nat>)
    requires cands.Length == |votes|
    modifies cands
    ensures cands[..] == ResolvedAll(old(cands[..]), votes, byName)
  {
    for i := 0 to cands.Length
      invariant forall k | 0 <= k < i :: cands[k] == Resolve(old(cands[k]), votes[k], byName)
      invariant forall k | i <= k < cands.Length :: cands[k] == old(cands[k])
    {
      var vote := votes[i];
      if vote.voteFor == "" {
        // They did not vote.
      } else if vote.voteFor == vote.voterId {
        // They voted for themselves.
      } else if vote.voteFor in byName {
        cands[i] := cands[i].(voteFor := Some(byName[vote.voteFor]));
      } else {
        // They voted for somebody unknown.
      }
    }
  }
}
