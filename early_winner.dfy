/**
 * How the earlier variant in `src/main.rs` picks its winner from the tallied table: it keeps
 * the willing candidates with the top total and a second bucket, scores the top ones by their
 * first voter from outside, hands the win to a patron while one holds more than the mark, and
 * breaks a remaining tie by hash.
 */
module EarlyWinner {
  import opened Wrappers
  import opened ElectionTypes
  import opened DelegationPaths
  import opened TieBreaking
  import opened EarlyCandidates
  import opened EarlyDelegation
  import opened EarlyTally

  function Max(a: nat, b: nat): nat {
    if a < b then b else a
  }

  // ---------------------------------------------------------------------------------------
  // get_two_best_rings

  /** The largest total of a willing entry below `k`, zero when there is none. */
  function TopBelow(cs: seq<EarlyCandidate>, k: nat): nat
    requires k <= |cs|
  {
    if k == 0 then 0
    else Max(TopBelow(cs, k - 1), if cs[k - 1].isWillingCandidate then cs[k - 1].totalIndirectVotes else 0)
  }

  /** A willing entry that some willing entry before it beats: the loop offers it the second bucket. */
  predicate Beaten(cs: seq<EarlyCandidate>, i: nat)
    requires i < |cs|
  {
    cs[i].isWillingCandidate && cs[i].totalIndirectVotes < TopBelow(cs, i)
  }

  /** The largest total of a beaten entry below `k`, zero when there is none. */
  function SecondBelow(cs: seq<EarlyCandidate>, k: nat): nat
    requires k <= |cs|
  {
    if k == 0 then 0
    else Max(SecondBelow(cs, k - 1), if Beaten(cs, k - 1) then cs[k - 1].totalIndirectVotes else 0)
  }

  /** The first bucket once the entries below `k` are in. */
  function BestRing(cs: seq<EarlyCandidate>, k: nat): set<nat>
    requires k <= |cs|
  {
    set i | 0 <= i < k && cs[i].isWillingCandidate && cs[i].totalIndirectVotes == TopBelow(cs, k)
  }

  /** The second bucket once the entries below `k` are in. */
  function SecondRing(cs: seq<EarlyCandidate>, k: nat): set<nat>
    requires k <= |cs|
  {
    set i | 0 <= i < k && Beaten(cs, i) && cs[i].totalIndirectVotes == SecondBelow(cs, k)
  }

  lemma {:induction false} TopBelowSpec(cs: seq<EarlyCandidate>, k: nat)
    requires k <= |cs|
    ensures forall i | 0 <= i < k && cs[i].isWillingCandidate :: cs[i].totalIndirectVotes <= TopBelow(cs, k)
    ensures TopBelow(cs, k) == 0 ||
      exists i | 0 <= i < k :: cs[i].isWillingCandidate && cs[i].totalIndirectVotes == TopBelow(cs, k)
  {
    if k > 0 {
      TopBelowSpec(cs, k - 1);
    }
  }

  lemma {:induction false} TopBelowGrows(cs: seq<EarlyCandidate>, a: nat, k: nat)
    requires a <= k <= |cs|
    ensures TopBelow(cs, a) <= TopBelow(cs, k)
    decreases k - a
  {
    if a < k {
      TopBelowGrows(cs, a, k - 1);
    }
  }

  lemma {:induction false} SecondBelowSpec(cs: seq<EarlyCandidate>, k: nat)
    requires k <= |cs|
    ensures forall i | 0 <= i < k && Beaten(cs, i) :: cs[i].totalIndirectVotes <= SecondBelow(cs, k)
    ensures SecondBelow(cs, k) == 0 ||
      exists i | 0 <= i < k :: Beaten(cs, i) && cs[i].totalIndirectVotes == SecondBelow(cs, k)
    ensures SecondBelow(cs, k) <= TopBelow(cs, k)
    ensures SecondBelow(cs, k) == 0 || SecondBelow(cs, k) < TopBelow(cs, k)
  {
    if k > 0 {
      SecondBelowSpec(cs, k - 1);
      TopBelowGrows(cs, k - 1, k);
    }
  }

  /** What entry `i` does to the first bucket. */
  lemma BestStep(cs: seq<EarlyCandidate>, i: nat)
    requires i < |cs|
    ensures var top := TopBelow(cs, i); var t := cs[i].totalIndirectVotes;
      && TopBelow(cs, i + 1) == (if cs[i].isWillingCandidate && t > top then t else top)
      && BestRing(cs, i + 1) ==
           if !cs[i].isWillingCandidate || t < top then BestRing(cs, i)
           else if t > top then {i}
           else BestRing(cs, i) + {i}
  {
    TopBelowSpec(cs, i);
  }

  /** What entry `i` does to the second bucket. */
  lemma SecondStep(cs: seq<EarlyCandidate>, i: nat)
    requires i < |cs|
    ensures var second := SecondBelow(cs, i); var t := cs[i].totalIndirectVotes;
      && SecondBelow(cs, i + 1) == (if Beaten(cs, i) && t > second then t else second)
      && SecondRing(cs, i + 1) ==
           if !Beaten(cs, i) || t < second then SecondRing(cs, i)
           else if t > second then {i}
           else SecondRing(cs, i) + {i}
  {
    SecondBelowSpec(cs, i);
  }

  /**
   * The first bucket holds exactly the willing candidates with the largest total, and is empty
   * only when nobody is willing.
   */
  lemma BestRingSpec(cs: seq<EarlyCandidate>)
    ensures forall i :: i in BestRing(cs, |cs|) <==>
      && 0 <= i < |cs| && cs[i].isWillingCandidate
      && forall j | 0 <= j < |cs| && cs[j].isWillingCandidate :: cs[j].totalIndirectVotes <= cs[i].totalIndirectVotes
    ensures BestRing(cs, |cs|) == {} <==> forall i | 0 <= i < |cs| :: !cs[i].isWillingCandidate
  {
    TopBelowSpec(cs, |cs|);
    if exists i | 0 <= i < |cs| :: cs[i].isWillingCandidate {
      var i :| 0 <= i < |cs| && cs[i].isWillingCandidate;
      if TopBelow(cs, |cs|) == 0 {
        assert i in BestRing(cs, |cs|);
      } else {
        var j :| 0 <= j < |cs| && cs[j].isWillingCandidate && cs[j].totalIndirectVotes == TopBelow(cs, |cs|);
        assert j in BestRing(cs, |cs|);
      }
    }
  }

  /**
   * The members of the second bucket are willing, share one total, and that total is below the
   * top one, so none of them is in the first bucket; an empty bucket means no entry was beaten.
   */
  lemma SecondRingSpec(cs: seq<EarlyCandidate>)
    ensures forall i | i in SecondRing(cs, |cs|) ::
      && 0 <= i < |cs| && cs[i].isWillingCandidate
      && cs[i].totalIndirectVotes == SecondBelow(cs, |cs|)
      && cs[i].totalIndirectVotes < TopBelow(cs, |cs|)
    ensures SecondRing(cs, |cs|) !! BestRing(cs, |cs|)
    ensures SecondRing(cs, |cs|) == {} <==> forall i | 0 <= i < |cs| :: !Beaten(cs, i)
    ensures SecondRing(cs, |cs|) == {} ==> SecondBelow(cs, |cs|) == 0
  {
    SecondBelowSpec(cs, |cs|);
    forall i | 0 <= i < |cs| && Beaten(cs, i) ensures cs[i].totalIndirectVotes < TopBelow(cs, |cs|) {
      TopBelowGrows(cs, i, |cs|);
    }
    if exists i | 0 <= i < |cs| :: Beaten(cs, i) {
      var i :| 0 <= i < |cs| && Beaten(cs, i);
      if SecondBelow(cs, |cs|) == 0 {
        assert i in SecondRing(cs, |cs|);
      } else {
        var j :| 0 <= j < |cs| && Beaten(cs, j) && cs[j].totalIndirectVotes == SecondBelow(cs, |cs|);
        assert j in SecondRing(cs, |cs|);
      }
    }
  }

  /**
   * The second bucket is not the runner-up: a willing candidate with total 1 followed by one with
   * total 2 leaves it empty, since the first is displaced from the top bucket and dropped.
   */
  lemma SecondRingIsNotRunnerUp()
    ensures var cs := [EarlyCandidate(0, None, None, 0, 1, None, true),
                       EarlyCandidate(1, None, None, 0, 2, None, true)];
      && BestRing(cs, 2) == {1}
      && SecondRing(cs, 2) == {}
      && cs[0].isWillingCandidate && 0 < cs[0].totalIndirectVotes < cs[1].totalIndirectVotes
  {
    var cs := [EarlyCandidate(0, None, None, 0, 1, None, true),
               EarlyCandidate(1, None, None, 0, 2, None, true)];
    BestStep(cs, 0);
    BestStep(cs, 1);
    SecondStep(cs, 0);
    SecondStep(cs, 1);
  }

  /** Every entry records its own position (the `HashMap` keys of `src/main.rs` are `idx`). */
  predicate Indexed(cs: seq<EarlyCandidate>) {
    forall i | 0 <= i < |cs| :: cs[i].idx == i
  }

  /** `get_two_best_rings`: one pass over the table, filling the two buckets. */
  method GetTwoBestRings(cand: array<EarlyCandidate>) returns (best: set<nat>, second: set<nat>)
    requires Indexed(cand[..])
    ensures best == BestRing(cand[..], cand.Length)
    ensures second == SecondRing(cand[..], cand.Length)
  {
    ghost var cs := cand[..];
    var score0: nat, score1: nat := 0, 0;
    var cand0: set<nat>, cand1: set<nat> := {}, {};
    for i := 0 to cand.Length
      invariant score1 == TopBelow(cs, i) && cand1 == BestRing(cs, i)
      invariant score0 == SecondBelow(cs, i) && cand0 == SecondRing(cs, i)
    {
      var c := cand[i];
      assert c == cs[i];
      BestStep(cs, i);
      SecondStep(cs, i);
      SecondBelowSpec(cs, i);
      if !c.isWillingCandidate {
        continue;
      }
      if c.totalIndirectVotes >= score0 {
        if c.totalIndirectVotes >= score1 {
          if c.totalIndirectVotes > score1 {
            cand1 := {};
            score1 := c.totalIndirectVotes;
          }
          cand1 := cand1 + {c.idx};
        } else {
          if c.totalIndirectVotes > score0 {
            cand0 := {};
            score0 := c.totalIndirectVotes;
          }
          cand0 := cand0 + {c.idx};
        }
      }
    }
    best, second := cand1, cand0;
  }

  // ---------------------------------------------------------------------------------------
  // best_of_ring

  /** Every `voted_for_me` head names an entry of the table. */
  predicate HeadsInRange(cs: seq<EarlyCandidate>) {
    forall t | 0 <= t < |cs| :: cs[t].votedForMe.Some? ==> cs[t].votedForMe.value < |cs|
  }

  /**
   * What ring member `c` scores in `best_of_ring`: the total of the FIRST entry of its voter
   * list, when that one is outside the ring, and nothing otherwise.
   */
  function RingScore(cs: seq<EarlyCandidate>, ring: set<nat>, c: nat): nat
    requires HeadsInRange(cs) && c < |cs|
  {
    match cs[c].votedForMe
    case Some(v) => if v in ring then 0 else cs[v].totalIndirectVotes
    case None => 0
  }

  /** `c` is a ring member whose score no member beats. */
  predicate IsBestOfRing(cs: seq<EarlyCandidate>, ring: set<nat>, c: nat)
    requires HeadsInRange(cs) && forall d | d in ring :: d < |cs|
  {
    c in ring && forall d | d in ring :: RingScore(cs, ring, d) <= RingScore(cs, ring, c)
  }

  /** In a tallied table the head of a voter list is the last entry voting for it. */
  lemma TalliedHeads(cs: seq<EarlyCandidate>)
    requires ListsThreaded(cs)
    ensures HeadsInRange(cs)
    ensures forall t | 0 <= t < |cs| && cs[t].votedForMe.Some? ::
      var v := cs[t].votedForMe.value;
      && cs[v].voteFor == Some(t)
      && forall j | v < j < |cs| :: cs[j].voteFor != Some(t)
  {
    var vf := LinksOf(cs);
    forall t | 0 <= t < |cs|
      ensures cs[t].votedForMe.Some? ==>
        var v := cs[t].votedForMe.value;
        && v < |cs| && cs[v].voteFor == Some(t)
        && forall j | v < j < |cs| :: cs[j].voteFor != Some(t)
    {
      LastVoterBelowSpec(vf, t, |cs|);
      if cs[t].votedForMe.Some? {
        var v := cs[t].votedForMe.value;
        assert vf[v] == cs[v].voteFor;
        forall j | v < j < |cs| ensures cs[j].voteFor != Some(t) {
          assert vf[j] == cs[j].voteFor;
        }
      }
    }
  }

  /**
   * `best_of_ring`: the ring members (in the map's iteration order) with the top score, each
   * once; empty exactly when the ring is.
   */
  method BestOfRing(cand: array<EarlyCandidate>, ring: set<nat>) returns (out: seq<nat>)
    requires HeadsInRange(cand[..]) && forall c | c in ring :: c < cand.Length
    ensures Distinct(out)
    ensures forall c :: c in out <==> IsBestOfRing(cand[..], ring, c)
    ensures out == [] <==> ring == {}
  {
    ghost var cs := cand[..];
    var winningCount: nat := 0;
    out := [];
    var remaining := ring;
    while remaining != {}
      invariant remaining <= ring
      invariant forall c :: c in out <==> c in ring - remaining && RingScore(cs, ring, c) == winningCount
      invariant forall c | c in ring - remaining :: RingScore(cs, ring, c) <= winningCount
      invariant remaining == ring ==> winningCount == 0
      invariant remaining != ring ==> exists c | c in ring - remaining :: RingScore(cs, ring, c) == winningCount
      invariant Distinct(out)
      decreases remaining
    {
      var c :| c in remaining;
      remaining := remaining - {c};
      var count: nat := 0;
      if cand[c].votedForMe.Some? {
        var vfm := cand[c].votedForMe.value;
        if vfm !in ring {
          count := count + cand[vfm].totalIndirectVotes;
        }
      }
      assert count == RingScore(cs, ring, c);
      if count >= winningCount {
        if count > winningCount {
          out := [];
          winningCount := count;
        }
        out := out + [c];
      }
    }
    if ring != {} {
      ghost var c :| c in ring && RingScore(cs, ring, c) == winningCount;
      assert c in out;
    }
    if out != [] {
      assert out[0] in out;
    }
  }

  // ---------------------------------------------------------------------------------------
  // get_patron

  /**
   * `v` may be the patron of `tw`: it votes for `tw`, lies outside the ring, is willing and
   * holds more than the mark.
   */
  predicate Eligible(cs: seq<EarlyCandidate>, tw: nat, ring: set<nat>, mark: nat, v: nat)
    requires v < |cs|
  {
    && cs[v].voteFor == Some(tw)
    && v !in ring
    && cs[v].isWillingCandidate
    && cs[v].totalIndirectVotes > mark
  }

  /**
   * What `get_patron` keeps once it has walked the voters of `tw` from the highest index down
   * to `k`: the first eligible one whose total beats everything kept so far.
   */
  function PatronFrom(cs: seq<EarlyCandidate>, tw: nat, ring: set<nat>, mark: nat, k: nat): (r: Option<nat>)
    requires k <= |cs|
    ensures r.Some? ==> k <= r.value < |cs|
    decreases |cs| - k
  {
    if k == |cs| then None
    else
      var rest := PatronFrom(cs, tw, ring, mark, k + 1);
      if Eligible(cs, tw, ring, mark, k) && (rest.None? || cs[k].totalIndirectVotes > cs[rest.value].totalIndirectVotes)
      then Some(k)
      else rest
  }

  /**
   * The patron is the eligible voter with the largest total, the highest-indexed one (the first
   * in the voter list) among equals, and there is none only when no voter is eligible.
   */
  lemma {:induction false} PatronFromSpec(cs: seq<EarlyCandidate>, tw: nat, ring: set<nat>, mark: nat, k: nat)
    requires k <= |cs|
    ensures PatronFrom(cs, tw, ring, mark, k).None? <==>
      forall j | k <= j < |cs| :: !Eligible(cs, tw, ring, mark, j)
    ensures PatronFrom(cs, tw, ring, mark, k).Some? ==>
      var p := PatronFrom(cs, tw, ring, mark, k).value;
      && Eligible(cs, tw, ring, mark, p)
      && (forall j | k <= j < |cs| && Eligible(cs, tw, ring, mark, j) ::
            cs[j].totalIndirectVotes <= cs[p].totalIndirectVotes)
      && (forall j | p < j < |cs| && Eligible(cs, tw, ring, mark, j) ::
            cs[j].totalIndirectVotes < cs[p].totalIndirectVotes)
    decreases |cs| - k
  {
    if k < |cs| {
      PatronFromSpec(cs, tw, ring, mark, k + 1);
    }
  }

  /** Entries that do not vote for `tw` leave the patron unchanged. */
  lemma {:induction false} PatronFlat(cs: seq<EarlyCandidate>, tw: nat, ring: set<nat>, mark: nat, a: nat, k: nat)
    requires a <= k <= |cs|
    requires forall j | a <= j < k :: LinksOf(cs)[j] != Some(tw)
    ensures PatronFrom(cs, tw, ring, mark, a) == PatronFrom(cs, tw, ring, mark, k)
    decreases k - a
  {
    if a < k {
      assert LinksOf(cs)[a] == cs[a].voteFor;
      PatronFlat(cs, tw, ring, mark, a + 1, k);
    }
  }

  /**
   * The next voter down the list of `tw` from `k` replaces the patron kept from `k` on when it is
   * eligible and beats it.
   */
  lemma PatronNextVoter(cs: seq<EarlyCandidate>, tw: nat, ring: set<nat>, mark: nat, k: nat)
    requires k <= |cs| && LastVoterBelow(LinksOf(cs), tw, k).Some?
    ensures var v := LastVoterBelow(LinksOf(cs), tw, k).value;
      var rest := PatronFrom(cs, tw, ring, mark, k);
      && v < k && cs[v].voteFor == Some(tw)
      && PatronFrom(cs, tw, ring, mark, v) ==
         if Eligible(cs, tw, ring, mark, v) && (rest.None? || cs[v].totalIndirectVotes > cs[rest.value].totalIndirectVotes)
         then Some(v) else rest
  {
    var v := LastVoterBelow(LinksOf(cs), tw, k).value;
    LastVoterBelowSpec(LinksOf(cs), tw, k);
    PatronFlat(cs, tw, ring, mark, v + 1, k);
  }

  /** Once the list of `tw` is exhausted below `k`, the patron is the one kept from `k` on. */
  lemma PatronListEnd(cs: seq<EarlyCandidate>, tw: nat, ring: set<nat>, mark: nat, k: nat)
    requires k <= |cs| && LastVoterBelow(LinksOf(cs), tw, k).None?
    ensures PatronFrom(cs, tw, ring, mark, 0) == PatronFrom(cs, tw, ring, mark, k)
  {
    LastVoterBelowSpec(LinksOf(cs), tw, k);
    PatronFlat(cs, tw, ring, mark, 0, k);
  }

  /** `get_patron`: walks the voter list of `tw`, keeping the eligible voter with the top total. */
  method GetPatron(cand: array<EarlyCandidate>, tw: nat, ring: set<nat>, mark: nat) returns (best: Option<nat>)
    requires ListsThreaded(cand[..]) && tw < cand.Length
    ensures best == PatronFrom(cand[..], tw, ring, mark, 0)
  {
    ghost var cs := cand[..];
    ghost var vf := LinksOf(cs);
    var nextVfm := cand[tw].votedForMe;
    var bestCount: nat := 0;
    best := None;
    ghost var k: nat := cand.Length;
    while nextVfm.Some?
      invariant k <= |cs|
      invariant nextVfm == LastVoterBelow(vf, tw, k)
      invariant best == PatronFrom(cs, tw, ring, mark, k)
      invariant bestCount == if best.Some? then cs[best.value].totalIndirectVotes else 0
      decreases k
    {
      var vfmId := nextVfm.value;
      PatronNextVoter(cs, tw, ring, mark, k);
      var vfm := cand[vfmId];
      assert vfm == cs[vfmId];
      nextVfm := vfm.votingForSame;
      k := vfmId;
      if vfmId in ring {
        continue;
      }
      if !vfm.isWillingCandidate {
        continue;
      }
      if vfm.totalIndirectVotes <= mark {
        continue;
      }
      if vfm.totalIndirectVotes > bestCount {
        bestCount := vfm.totalIndirectVotes;
        best := Some(vfmId);
      }
    }
    PatronListEnd(cs, tw, ring, mark, k);
  }

  // ---------------------------------------------------------------------------------------
  // solve_winner

  /**
   * The mark a patron of `tw` must beat: the total shared by the second bucket (zero when it is
   * empty) or half the total of `tw`, whichever is larger.
   */
  function MarkToBeat(cs: seq<EarlyCandidate>, tw: nat): nat
    requires tw < |cs|
  {
    Max(SecondBelow(cs, |cs|), cs[tw].totalIndirectVotes / 2)
  }

  /** The patron `solve_winner` finds for `tw`, if any. */
  function Patron(cs: seq<EarlyCandidate>, ring: set<nat>, tw: nat): (r: Option<nat>)
    requires tw < |cs|
    ensures r.Some? ==> r.value < |cs|
  {
    PatronFrom(cs, tw, ring, MarkToBeat(cs, tw), 0)
  }

  /** The run-off from `tw`: the win passes to the patron for as long as there is one. */
  function Runoff(cs: seq<EarlyCandidate>, ring: set<nat>, tw: nat, fuel: nat): (r: nat)
    requires tw < |cs|
    ensures r < |cs|
    decreases fuel
  {
    if fuel == 0 then tw
    else
      match Patron(cs, ring, tw)
      case None => tw
      case Some(p) => Runoff(cs, ring, p, fuel - 1)
  }

  /**
   * The successive tentative winners: the first is in the ring, and each later one is outside
   * it and votes for the one before, so none comes back.
   */
  predicate PatronChain(cs: seq<EarlyCandidate>, ring: set<nat>, chain: seq<nat>) {
    && |chain| > 0 && chain[0] in ring
    && (forall i | 0 <= i < |chain| :: chain[i] < |cs|)
    && (forall i | 1 <= i < |chain| :: chain[i] !in ring && cs[chain[i]].voteFor == Some(chain[i - 1]))
    && Distinct(chain)
  }

  /** A patron of the last tentative winner is not already on the chain. */
  lemma ChainExtends(cs: seq<EarlyCandidate>, ring: set<nat>, chain: seq<nat>, p: nat)
    requires PatronChain(cs, ring, chain) && p < |cs| && p !in ring
    requires cs[p].voteFor == Some(chain[|chain| - 1])
    ensures PatronChain(cs, ring, chain + [p])
  {
    forall i | 0 <= i < |chain| ensures chain[i] != p {
      if i > 0 {
        assert chain[i - 1] != chain[|chain| - 1];
      }
    }
  }

  /** The chain cannot be longer than the table. */
  lemma ChainBound(cs: seq<EarlyCandidate>, ring: set<nat>, chain: seq<nat>)
    requires PatronChain(cs, ring, chain)
    ensures |chain| <= |cs|
  {
    ElemsCard(chain);
    SubsetCard(Elems(chain), Below(|cs|));
    BelowCard(|cs|);
  }

  /** A patron found for the last tentative winner extends the chain, which stays within the table. */
  lemma PatronStep(cs: seq<EarlyCandidate>, ring: set<nat>, chain: seq<nat>, p: nat)
    requires PatronChain(cs, ring, chain)
    requires Patron(cs, ring, chain[|chain| - 1]) == Some(p)
    ensures PatronChain(cs, ring, chain + [p]) && |chain + [p]| <= |cs|
  {
    var tw := chain[|chain| - 1];
    PatronFromSpec(cs, tw, ring, MarkToBeat(cs, tw), 0);
    ChainExtends(cs, ring, chain, p);
    ChainBound(cs, ring, chain + [p]);
  }

  /** One round of `solve_winner`: the mark to beat, then the patron of `tw`. */
  method FindPatron(cand: array<EarlyCandidate>, tw: nat, bestRing: set<nat>, secondBestRing: set<nat>)
    returns (patron: Option<nat>)
    requires ListsThreaded(cand[..]) && tw < cand.Length
    requires secondBestRing == SecondRing(cand[..], cand.Length)
    ensures patron == Patron(cand[..], bestRing, tw)
  {
    SecondRingSpec(cand[..]);
    var fromSecond: nat := 0;
    if secondBestRing != {} {
      var s :| s in secondBestRing;
      fromSecond := cand[s].totalIndirectVotes;
    }
    var markToBeat := Max(fromSecond, cand[tw].totalIndirectVotes / 2);
    patron := GetPatron(cand, tw, bestRing, markToBeat);
  }

  /**
   * `solve_winner`: a tie is returned as it is; a single tentative winner hands the win to its
   * patron while it has one, and the chain ends, within the size of the table, at an entry
   * without a patron.
   */
  method SolveWinner(cand: array<EarlyCandidate>, tenativeWinner: seq<nat>, bestRing: set<nat>,
                     secondBestRing: set<nat>) returns (out: seq<nat>)
    requires ListsThreaded(cand[..])
    requires secondBestRing == SecondRing(cand[..], cand.Length)
    requires forall c | c in bestRing :: c < cand.Length
    requires forall k | 0 <= k < |tenativeWinner| :: tenativeWinner[k] in bestRing
    ensures |tenativeWinner| != 1 ==> out == tenativeWinner
    ensures |tenativeWinner| == 1 ==>
      && out == [Runoff(cand[..], bestRing, tenativeWinner[0], cand.Length)]
      && Patron(cand[..], bestRing, out[0]).None?
  {
    if |tenativeWinner| != 1 {
      return tenativeWinner;
    }
    ghost var cs := cand[..];
    var tw := tenativeWinner[0];
    ghost var chain := [tw];
    while true
      invariant PatronChain(cs, bestRing, chain) && tw == chain[|chain| - 1]
      invariant |chain| <= |cs|
      invariant Runoff(cs, bestRing, tenativeWinner[0], |cs|) == Runoff(cs, bestRing, tw, |cs| + 1 - |chain|)
      decreases |cs| - |chain|
    {
      var patron := FindPatron(cand, tw, bestRing, secondBestRing);
      if patron.None? {
        return [tw];
      }
      PatronStep(cs, bestRing, chain, patron.value);
      chain := chain + [patron.value];
      tw := patron.value;
    }
  }

  /** The run-off from a willing entry ends at a willing entry. */
  lemma {:induction false} RunoffWilling(cs: seq<EarlyCandidate>, ring: set<nat>, tw: nat, fuel: nat)
    requires tw < |cs| && cs[tw].isWillingCandidate
    ensures cs[Runoff(cs, ring, tw, fuel)].isWillingCandidate
    decreases fuel
  {
    if fuel > 0 {
      var p := Patron(cs, ring, tw);
      if p.Some? {
        PatronFromSpec(cs, tw, ring, MarkToBeat(cs, tw), 0);
        RunoffWilling(cs, ring, p.value, fuel - 1);
      }
    }
  }

  // ---------------------------------------------------------------------------------------
  // tie_breaker

  /** The tie-breaking key of entry `c`: the hash of its voter id and its total. */
  function Key(cs: seq<EarlyCandidate>, votes: seq<Vote>, c: nat, hash: (string, nat) -> seq<bv8>): seq<bv8>
    requires c < |cs| && cs[c].idx < |votes|
  {
    hash(votes[cs[c].idx].voterId, cs[c].totalIndirectVotes)
  }

  /** The tie-breaking key of each winner. */
  function Keys(cs: seq<EarlyCandidate>, votes: seq<Vote>, winners: seq<nat>,
                hash: (string, nat) -> seq<bv8>): seq<seq<bv8>>
    requires forall k | 0 <= k < |winners| :: winners[k] < |cs| && cs[winners[k]].idx < |votes|
  {
    seq(|winners|, k requires 0 <= k < |winners| => Key(cs, votes, winners[k], hash))
  }

  /** `tie_breaker`: no winner, the only one, or the first of those with the least hash. */
  function TieBreak(cs: seq<EarlyCandidate>, votes: seq<Vote>, winners: seq<nat>,
                    hash: (string, nat) -> seq<bv8>): Option<nat>
    requires forall k | 0 <= k < |winners| :: winners[k] < |cs| && cs[winners[k]].idx < |votes|
  {
    PickByKey(winners, Keys(cs, votes, winners, hash))
  }

  // ---------------------------------------------------------------------------------------
  // What the steps choose, as sets

  /** The members of `ring` that `best_of_ring` returns, in whatever order it visits them. */
  function BestSet(cs: seq<EarlyCandidate>, ring: set<nat>): set<nat>
    requires HeadsInRange(cs) && forall d | d in ring :: d < |cs|
  {
    set c | c in ring && IsBestOfRing(cs, ring, c)
  }

  /**
   * The finalists `solve_winner` hands to `tie_breaker`: the best of the top bucket when several
   * (or none) tie, and otherwise the end of the run-off from the single best.
   */
  ghost function Finalists(cs: seq<EarlyCandidate>): (r: set<nat>)
    requires HeadsInRange(cs)
    ensures forall f | f in r :: f < |cs|
  {
    BestRingSpec(cs);
    var ring := BestRing(cs, |cs|);
    var best := BestSet(cs, ring);
    if |best| != 1 then best
    else
      var t :| t in best;
      {Runoff(cs, ring, t, |cs|)}
  }

  /** `w` is a finalist whose key no finalist's key undercuts. */
  ghost predicate LeastKeyed(cs: seq<EarlyCandidate>, votes: seq<Vote>, finalists: set<nat>,
                             hash: (string, nat) -> seq<bv8>, w: nat)
    requires forall f | f in finalists :: f < |cs| && cs[f].idx < |votes|
  {
    && w in finalists
    && forall f | f in finalists :: !BytesLess(Key(cs, votes, f, hash), Key(cs, votes, w, hash))
  }

  /** `BestOfRing` and `SolveWinner` together return the finalists, each once. */
  lemma FinalistsAreSteps(cs: seq<EarlyCandidate>, ring: set<nat>, tenative: seq<nat>, winners: seq<nat>)
    requires HeadsInRange(cs) && ring == BestRing(cs, |cs|) && forall d | d in ring :: d < |cs|
    requires Distinct(tenative) && forall k | 0 <= k < |tenative| :: tenative[k] < |cs|
    requires forall c :: c in tenative <==> IsBestOfRing(cs, ring, c)
    requires |tenative| != 1 ==> winners == tenative
    requires |tenative| == 1 ==> winners == [Runoff(cs, ring, tenative[0], |cs|)]
    ensures Elems(winners) == Finalists(cs)
  {
    ElemsCard(tenative);
    assert Elems(tenative) == BestSet(cs, ring);
    if |tenative| == 1 {
      assert tenative == [tenative[0]];
    }
  }

  /** The tie breaker picks a least-keyed member of a non-empty list. */
  lemma TieBreakLeast(cs: seq<EarlyCandidate>, votes: seq<Vote>, finalists: seq<nat>, hash: (string, nat) -> seq<bv8>)
    requires finalists != []
    requires forall k | 0 <= k < |finalists| :: finalists[k] < |cs| && cs[finalists[k]].idx < |votes|
    ensures TieBreak(cs, votes, finalists, hash).Some?
    ensures LeastKeyed(cs, votes, Elems(finalists), hash, TieBreak(cs, votes, finalists, hash).value)
  {
    var keys := Keys(cs, votes, finalists, hash);
    var w := PickByKey(finalists, keys);
    PickByKeySpec(finalists, keys);
    var i :| 0 <= i < |finalists| && finalists[i] == w.value && IsFirstLeast(keys, i);
    assert keys[i] == Key(cs, votes, w.value, hash);
    forall f | f in Elems(finalists) ensures !BytesLess(Key(cs, votes, f, hash), Key(cs, votes, w.value, hash)) {
      var j :| 0 <= j < |finalists| && finalists[j] == f;
      assert keys[j] == Key(cs, votes, f, hash);
      assert !BytesLess(keys[j], keys[i]);
    }
  }

  // ---------------------------------------------------------------------------------------
  // compute_winner

  /** The table `compute_winner` works on: tallied, indexed, and flagged as the ballots are. */
  predicate Prepared(cs: seq<EarlyCandidate>, votes: seq<Vote>) {
    && |cs| == |votes|
    && Tallied(cs)
    && Indexed(cs)
    && forall i | 0 <= i < |cs| :: cs[i].isWillingCandidate == votes[i].willingCandidate
  }

  /** The winner steps 3 to 6 of `compute_winner` may choose on a prepared table. */
  ghost predicate ChosenWinner(cs: seq<EarlyCandidate>, votes: seq<Vote>, hash: (string, nat) -> seq<bv8>, w: nat)
    requires Prepared(cs, votes)
  {
    TalliedHeads(cs);
    LeastKeyed(cs, votes, Finalists(cs), hash, w)
  }

  /** `w` is an entry `compute_winner` may pick for `votes`. */
  ghost predicate IsWinner(votes: seq<Vote>, hash: (string, nat) -> seq<bv8>, w: nat) {
    PreparedTable(votes);
    ChosenWinner(Delegated(Candidates(votes)), votes, hash, w)
  }

  lemma PreparedTable(votes: seq<Vote>)
    ensures ValidLinks(LinksOf(Candidates(votes)))
    ensures Prepared(Delegated(Candidates(votes)), votes)
  {
    var cs := Candidates(votes);
    CandidatesUntallied(votes);
    DelegatedIsTallied(cs);
    DelegatedKeepsBallots(cs);
    forall i | 0 <= i < |cs| ensures Delegated(cs)[i].idx == i {
      CandidatesInInputOrder(votes, i);
    }
  }

  /**
   * Steps 3 to 6 of `compute_winner` on a prepared table: the winner is willing, and there is
   * one exactly when somebody is willing.
   */
  method SelectWinner(cand: array<EarlyCandidate>, votes: seq<Vote>, hash: (string, nat) -> seq<bv8>)
    returns (winner: Option<nat>)
    requires Prepared(cand[..], votes)
    ensures winner.Some? <==> exists i | 0 <= i < |votes| :: votes[i].willingCandidate
    ensures winner.Some? ==> winner.value < cand.Length && cand[winner.value].isWillingCandidate
    ensures winner.Some? ==> ChosenWinner(cand[..], votes, hash, winner.value)
  {
    ghost var cs := cand[..];
    TalliedHeads(cs);
    var bestRing, secondBestRing := GetTwoBestRings(cand);
    var tenativeWinner := BestOfRing(cand, bestRing);
    assert forall k | 0 <= k < |tenativeWinner| :: tenativeWinner[k] in bestRing by {
      forall k | 0 <= k < |tenativeWinner| ensures tenativeWinner[k] in bestRing {
        assert tenativeWinner[k] in tenativeWinner;
      }
    }
    var winners := SolveWinner(cand, tenativeWinner, bestRing, secondBestRing);
    FinalistsWilling(cs, votes, bestRing, tenativeWinner, winners);
    BestRingSpec(cs);
    FinalistsAreSteps(cs, bestRing, tenativeWinner, winners);
    winner := TieBreak(cand[..], votes, winners, hash);
    PickByKeySpec(winners, Keys(cs, votes, winners, hash));
    if winners != [] {
      TieBreakLeast(cs, votes, winners, hash);
    }
  }

  /** The finalists `solve_winner` returns are willing, and there are some iff somebody is willing. */
  lemma FinalistsWilling(cs: seq<EarlyCandidate>, votes: seq<Vote>, bestRing: set<nat>,
                         tenativeWinner: seq<nat>, winners: seq<nat>)
    requires Prepared(cs, votes) && bestRing == BestRing(cs, |cs|)
    requires forall k | 0 <= k < |tenativeWinner| :: tenativeWinner[k] in bestRing
    requires tenativeWinner == [] <==> bestRing == {}
    requires |tenativeWinner| != 1 ==> winners == tenativeWinner
    requires |tenativeWinner| == 1 ==> winners == [Runoff(cs, bestRing, tenativeWinner[0], |cs|)]
    ensures forall k | 0 <= k < |winners| ::
      winners[k] < |cs| && cs[winners[k]].idx < |votes| && cs[winners[k]].isWillingCandidate
    ensures winners == [] <==> forall i | 0 <= i < |votes| :: !votes[i].willingCandidate
  {
    BestRingSpec(cs);
    if |tenativeWinner| == 1 {
      RunoffWilling(cs, bestRing, tenativeWinner[0], |cs|);
    }
  }

  /**
   * `compute_winner`: no willing candidate gives `""`; otherwise the winner is the voter id of a
   * willing ballot.
   */
  method ComputeWinner(votes: seq<Vote>, hash: (string, nat) -> seq<bv8>) returns (winner: string)
    ensures (forall i | 0 <= i < |votes| :: !votes[i].willingCandidate) ==> winner == ""
    ensures (exists i | 0 <= i < |votes| :: votes[i].willingCandidate) ==>
      exists i | 0 <= i < |votes| :: votes[i].willingCandidate && winner == votes[i].voterId
    ensures (exists i | 0 <= i < |votes| :: votes[i].willingCandidate) ==>
      exists w | 0 <= w < |votes| :: IsWinner(votes, hash, w) && winner == votes[w].voterId
  {
    var cand := MkCandidates(votes);
    PreparedTable(votes);
    ComputeDelegatedVotes(cand);
    var w := SelectWinner(cand, votes, hash);
    winner := if w.Some? then votes[cand[w.value].idx].voterId else "";
    if w.Some? {
      assert IsWinner(votes, hash, w.value);
    }
  }
}
