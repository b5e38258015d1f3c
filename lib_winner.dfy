/**
 * Choosing the winner once the table is tallied and ranked (`src/lib.rs`, `get_tenative_winners`
 * to `compute_winner`): the best ring, the best of the ring, the patron run-off and the
 * deterministic tie breaker.
 */
module ElectoriumWinner {
  import opened Wrappers
  import opened ElectionTypes
  import opened DelegationPaths
  import opened ElectoriumCandidates
  import opened ElectoriumDelegation
  import opened ElectoriumTally
  import opened ElectoriumRanking
  import opened TieBreaking

  // ---------------------------------------------------------------------------------------
  // get_tenative_winners

  /** The willing candidates (the first `m` entries) whose total is `score`. */
  function TopRing(cs: seq<Candidate>, m: nat, score: nat): set<nat>
    requires m <= |cs|
  {
    set i | 0 <= i < m && cs[i].totalIndirectVotes == score
  }

  /**
   * `ru` is the best ranked of the willing candidates whose total falls below `score`, or `None`
   * when there is no such candidate.
   */
  predicate IsRunnerUp(cs: seq<Candidate>, m: nat, score: nat, ru: Option<nat>)
    requires m <= |cs|
  {
    match ru
    case None => forall i | 0 <= i < m :: cs[i].totalIndirectVotes >= score
    case Some(r) =>
      && r < m && cs[r].totalIndirectVotes < score
      && forall i | 0 <= i < m && cs[i].totalIndirectVotes < score :: i == r || RankedBelow(cs, i, r)
  }

  /**
   * Walking down the ranking from the top, the entries at positions `lo .. m - 1` share the top
   * score and the walk stopped either at the bottom or at the entry just below them.
   */
  lemma {:induction false} RingWalkEnd(cs: seq<Candidate>, order: seq<nat>, m: nat, lo: nat, score: nat, ru: Option<nat>)
    requires IsRanking(cs, order, m) && lo < m
    requires forall j | lo <= j < m :: cs[order[j]].totalIndirectVotes == score
    requires (lo == 0 && ru == None)
          || (lo > 0 && ru == Some(order[lo - 1]) && cs[order[lo - 1]].totalIndirectVotes < score)
    ensures (set j | lo <= j < m :: order[j]) == TopRing(cs, m, score)
    ensures IsRunnerUp(cs, m, score, ru)
  {
    var ring := set j | lo <= j < m :: order[j];
    forall i | 0 <= i < m
      ensures i in ring <==> cs[i].totalIndirectVotes == score
      ensures cs[i].totalIndirectVotes < score ==> ru.Some? && (i == ru.value || RankedBelow(cs, i, ru.value))
    {
      assert i in order;
      var k :| 0 <= k < m && order[k] == i;
      if k < lo - 1 {
        RankedBelowChain(cs, order, m, k, lo - 1);
      }
      if i in ring {
        var j :| lo <= j < m && order[j] == i;
        assert j == k;
      }
    }
  }

  /**
   * `get_tenative_winners`: walks the ranking down from `best` while the totals equal the top
   * score. The walked entries are the best ring, the entry that stops the walk is the runner-up.
   */
  method GetTenativeWinners(cand: array<Candidate>, best: nat, ghost order: seq<nat>, ghost m: nat)
    returns (bestRing: set<nat>, runnerUp: Option<nat>)
    requires RankLinked(cand[..], order, m) && 0 < m && best == order[m - 1]
    ensures bestRing == TopRing(cand[..], m, cand[best].totalIndirectVotes)
    ensures IsRunnerUp(cand[..], m, cand[best].totalIndirectVotes, runnerUp)
  {
    ghost var cs := cand[..];
    bestRing := {};
    var cIdx := best;
    ghost var k := m - 1;
    var score := cand[cIdx].totalIndirectVotes;
    while true
      invariant k < m && cIdx == order[k]
      invariant bestRing == set j | k < j < m :: order[j]
      invariant forall j | k < j < m :: cs[order[j]].totalIndirectVotes == score
      invariant cs[order[k]].totalIndirectVotes <= score
      invariant k > 0 ==> cs[order[k]].nextByTotalIndirectVotes == Some(order[k - 1])
      decreases k
    {
      var c := cand[cIdx];
      assert c == cs[order[k]];
      if c.totalIndirectVotes < score {
        runnerUp := Some(cIdx);
        RingWalkEnd(cs, order, m, k + 1, score, runnerUp);
        return;
      }
      bestRing := bestRing + {cIdx};
      match c.nextByTotalIndirectVotes {
        case Some(next) =>
          assert k > 0 && next == order[k - 1];
          assert RankedBelow(cs, order[k - 1], order[k]);
          cIdx := next;
          k := k - 1;
        case None =>
          runnerUp := None;
          assert bestRing == set j | 0 <= j < m :: order[j];
          RingWalkEnd(cs, order, m, 0, score, runnerUp);
          return;
      }
    }
  }

  // ---------------------------------------------------------------------------------------
  // best_of_ring

  /** Sum of the totals of the entries below `k` that vote for `t` directly and lie outside `ring`. */
  function Support(cs: seq<Candidate>, ring: set<nat>, t: nat, k: nat): nat
    requires k <= |cs|
  {
    if k == 0 then 0
    else
      Support(cs, ring, t, k - 1)
      + (if cs[k - 1].voteFor == Some(t) && k - 1 !in ring then cs[k - 1].totalIndirectVotes else 0)
  }

  /**
   * The score `best_of_ring` gives a ring member: its own votes plus the totals of its direct
   * voters outside the ring, i.e. what it would hold if the ring did not exist.
   */
  function RingScore(cs: seq<Candidate>, ring: set<nat>, t: nat): nat
    requires t < |cs|
  {
    cs[t].vote.numberOfVotes + Support(cs, ring, t, |cs|)
  }

  /** `c` scores at least as much as every member of the ring. */
  predicate IsBestOfRing(cs: seq<Candidate>, ring: set<nat>, c: nat)
    requires c < |cs| && forall d | d in ring :: d < |cs|
  {
    forall d | d in ring :: RingScore(cs, ring, d) <= RingScore(cs, ring, c)
  }

  /** Entries that do not vote for `t` add nothing to its support. */
  lemma {:induction false} SupportFlat(cs: seq<Candidate>, ring: set<nat>, t: nat, a: nat, k: nat)
    requires a <= k <= |cs|
    requires forall j | a <= j < k :: LinksOf(cs)[j] != Some(t)
    ensures Support(cs, ring, t, a) == Support(cs, ring, t, k)
    decreases k
  {
    if a < k {
      assert LinksOf(cs)[k - 1] == cs[k - 1].voteFor;
      SupportFlat(cs, ring, t, a, k - 1);
    }
  }

  /** The scoring walk of `best_of_ring` over the voter list of one ring member `c`. */
  method ScoreOf(cand: array<Candidate>, ring: set<nat>, c: nat) returns (score: nat)
    requires ListsThreaded(cand[..]) && c < cand.Length
    ensures score == RingScore(cand[..], ring, c)
  {
    ghost var cs := cand[..];
    ghost var vf := LinksOf(cs);
    score := cand[c].vote.numberOfVotes;
    var maybeVfm := cand[c].votedForMe;
    ghost var k: nat := cand.Length;
    while maybeVfm.Some?
      invariant k <= |cs|
      invariant maybeVfm == LastVoterBelow(vf, c, k)
      invariant score + Support(cs, ring, c, k) == RingScore(cs, ring, c)
      decreases k
    {
      var vfm := maybeVfm.value;
      LastVoterBelowSpec(vf, c, k);
      SupportFlat(cs, ring, c, vfm + 1, k);
      var cVfm := cand[vfm];
      assert cVfm == cs[vfm] && cVfm.voteFor == vf[vfm];
      if vfm !in ring {
        score := score + cVfm.totalIndirectVotes;
      }
      maybeVfm := cVfm.votingForSame;
      k := vfm;
    }
    LastVoterBelowSpec(vf, c, k);
    SupportFlat(cs, ring, c, 0, k);
  }

  /** A ring member with its score. */
  datatype Scored = Scored(member: nat, score: nat)

  function Members(scores: seq<Scored>): seq<nat> {
    seq(|scores|, i requires 0 <= i < |scores| => scores[i].member)
  }

  /** `scores` lists every member of `ring` once, each with its `RingScore`. */
  predicate ScoresOf(cs: seq<Candidate>, ring: set<nat>, scores: seq<Scored>) {
    && Distinct(Members(scores))
    && (forall i | 0 <= i < |scores| ::
          && scores[i].member in ring && scores[i].member < |cs|
          && scores[i].score == RingScore(cs, ring, scores[i].member))
    && (forall c | c in ring :: c in Members(scores))
  }

  /** The first loop of `best_of_ring`: scores every member of the ring, in any order. */
  method RingScores(cand: array<Candidate>, ring: set<nat>) returns (scores: seq<Scored>)
    requires ListsThreaded(cand[..]) && forall c | c in ring :: c < cand.Length
    ensures ScoresOf(cand[..], ring, scores)
  {
    ghost var cs := cand[..];
    scores := [];
    var remaining := ring;
    while remaining != {}
      invariant remaining <= ring
      invariant Distinct(Members(scores))
      invariant forall i | 0 <= i < |scores| ::
        && scores[i].member in ring - remaining && scores[i].member < |cs|
        && scores[i].score == RingScore(cs, ring, scores[i].member)
      invariant forall c | c in ring - remaining :: c in Members(scores)
      decreases |remaining|
    {
      var c :| c in remaining;
      var score := ScoreOf(cand, ring, c);
      assert Members(scores + [Scored(c, score)]) == Members(scores) + [c];
      scores := scores + [Scored(c, score)];
      remaining := remaining - {c};
    }
  }

  /** The highest score, `0` when there is none (`winning_count` starts at `0`). */
  function MaxScore(scores: seq<Scored>): nat {
    if scores == [] then 0
    else
      var rest := MaxScore(scores[..|scores| - 1]);
      var last := scores[|scores| - 1].score;
      if last > rest then last else rest
  }

  /** The members scoring `w`, in order. */
  function Winners(scores: seq<Scored>, w: nat): seq<nat> {
    if scores == [] then []
    else
      var last := scores[|scores| - 1];
      Winners(scores[..|scores| - 1], w) + (if last.score == w then [last.member] else [])
  }

  lemma {:induction false} MaxScoreSpec(scores: seq<Scored>)
    ensures forall i | 0 <= i < |scores| :: scores[i].score <= MaxScore(scores)
    ensures scores != [] ==> exists i | 0 <= i < |scores| :: scores[i].score == MaxScore(scores)
  {
    if scores != [] {
      var rest := scores[..|scores| - 1];
      MaxScoreSpec(rest);
      if rest != [] && MaxScore(rest) >= scores[|scores| - 1].score {
        var i :| 0 <= i < |rest| && rest[i].score == MaxScore(rest);
        assert scores[i] == rest[i];
      } else {
        assert scores[|scores| - 1].score == MaxScore(scores);
      }
    }
  }

  lemma {:induction false} WinnersSpec(scores: seq<Scored>, w: nat)
    ensures forall c :: c in Winners(scores, w) <==>
      exists i | 0 <= i < |scores| :: scores[i].member == c && scores[i].score == w
  {
    if scores != [] {
      var rest := scores[..|scores| - 1];
      WinnersSpec(rest, w);
      forall c ensures c in Winners(scores, w) <==>
        exists i | 0 <= i < |scores| :: scores[i].member == c && scores[i].score == w
      {
        if c in Winners(rest, w) {
          var i :| 0 <= i < |rest| && rest[i].member == c && rest[i].score == w;
          assert scores[i] == rest[i];
        }
        if exists i | 0 <= i < |scores| :: scores[i].member == c && scores[i].score == w {
          var i :| 0 <= i < |scores| && scores[i].member == c && scores[i].score == w;
          if i < |rest| {
            assert rest[i] == scores[i];
          }
        }
      }
    }
  }

  lemma {:induction false} WinnersDistinct(scores: seq<Scored>, w: nat)
    requires Distinct(Members(scores))
    ensures Distinct(Winners(scores, w))
  {
    if scores != [] {
      var rest := scores[..|scores| - 1];
      var last := scores[|scores| - 1];
      assert Members(rest) == Members(scores)[..|rest|];
      WinnersDistinct(rest, w);
      WinnersSpec(rest, w);
      forall i | 0 <= i < |rest| ensures rest[i].member != last.member {
        assert Members(scores)[i] != Members(scores)[|rest|];
      }
      assert last.member !in Winners(rest, w);
    }
  }

  /** The second loop of `best_of_ring`: keeps the members with the highest score, in order. */
  method PickBest(scores: seq<Scored>) returns (out: seq<nat>)
    ensures out == Winners(scores, MaxScore(scores))
  {
    var winningCount := 0;
    out := [];
    for i := 0 to |scores|
      invariant winningCount == MaxScore(scores[..i])
      invariant out == Winners(scores[..i], winningCount)
    {
      assert scores[..i + 1][..i] == scores[..i];
      var score := scores[i].score;
      if score >= winningCount {
        if score > winningCount {
          WinnersBelowMax(scores[..i], score);
          out := [];
          winningCount := score;
        }
        out := out + [scores[i].member];
      }
    }
    assert scores[..|scores|] == scores;
  }

  /** No member scores above the highest score. */
  lemma {:induction false} WinnersBelowMax(scores: seq<Scored>, w: nat)
    requires MaxScore(scores) < w
    ensures Winners(scores, w) == []
  {
    MaxScoreSpec(scores);
    WinnersSpec(scores, w);
    if Winners(scores, w) != [] {
      assert Winners(scores, w)[0] in Winners(scores, w);
    }
  }

  /** What `PickBest` keeps of a full scoring of the ring is exactly its best members, each once. */
  lemma {:induction false} BestOfScores(cs: seq<Candidate>, ring: set<nat>, scores: seq<Scored>)
    requires ScoresOf(cs, ring, scores)
    ensures var out := Winners(scores, MaxScore(scores));
      && Distinct(out)
      && (forall c | c in out :: c in ring)
      && (forall c | c in ring :: c in out <==> IsBestOfRing(cs, ring, c))
      && (ring != {} <==> out != [])
  {
    var top := MaxScore(scores);
    var out := Winners(scores, top);
    MaxScoreSpec(scores);
    WinnersSpec(scores, top);
    WinnersDistinct(scores, top);
    assert forall c | c in ring :: exists i | 0 <= i < |scores| :: scores[i].member == c by {
      forall c | c in ring ensures exists i | 0 <= i < |scores| :: scores[i].member == c {
        assert c in Members(scores);
        var i :| 0 <= i < |scores| && Members(scores)[i] == c;
      }
    }
    forall c | c in ring ensures c in out <==> IsBestOfRing(cs, ring, c) {
      var i :| 0 <= i < |scores| && scores[i].member == c;
      if c in out {
        forall d | d in ring ensures RingScore(cs, ring, d) <= RingScore(cs, ring, c) {
          var j :| 0 <= j < |scores| && scores[j].member == d;
        }
      }
      if IsBestOfRing(cs, ring, c) && scores != [] {
        var j :| 0 <= j < |scores| && scores[j].score == top;
        assert scores[j].member in ring;
      }
    }
    if ring != {} {
      var c :| c in ring;
      var i :| 0 <= i < |scores| && scores[i].member == c;
      var j :| 0 <= j < |scores| && scores[j].score == top;
      assert scores[j].member in out;
    }
  }

  /**
   * `best_of_ring`: the members of the ring with the highest `RingScore`, each once; there is at
   * least one as soon as the ring is not empty.
   */
  method BestOfRing(cand: array<Candidate>, ring: set<nat>) returns (out: seq<nat>)
    requires ListsThreaded(cand[..]) && forall c | c in ring :: c < cand.Length
    ensures Distinct(out)
    ensures forall c | c in out :: c in ring
    ensures forall c | c in ring :: c in out <==> IsBestOfRing(cand[..], ring, c)
    ensures ring != {} <==> out != []
  {
    var scores := RingScores(cand, ring);
    out := PickBest(scores);
    BestOfScores(cand[..], ring, scores);
  }

  // ---------------------------------------------------------------------------------------
  // get_patron

  /**
   * `v` qualifies as the patron of `tw` against the runner-up `ru`: it votes for `tw`, holds more
   * than half of the total of `tw`, lies outside the ring, is willing, and beats the runner-up,
   * or, when it is the runner-up itself, the entry ranked next below it.
   */
  predicate QualifiesAsPatron(cs: seq<Candidate>, tw: nat, ring: set<nat>, ru: nat, v: nat)
    requires tw < |cs| && ru < |cs| && v < |cs| && NextInRange(cs)
  {
    && cs[v].voteFor == Some(tw)
    && cs[v].totalIndirectVotes > cs[tw].totalIndirectVotes / 2
    && v !in ring
    && cs[v].isWillingCandidate
    && if v == ru then
         match cs[ru].nextByTotalIndirectVotes
         case None => true
         case Some(n) => cs[v].totalIndirectVotes > cs[n].totalIndirectVotes
       else
         cs[v].totalIndirectVotes > cs[ru].totalIndirectVotes
  }

  /** The entries from `k` up that qualify as the patron of `tw`, from the highest index down. */
  function Qualified(cs: seq<Candidate>, tw: nat, ring: set<nat>, ru: nat, k: nat): seq<nat>
    requires tw < |cs| && ru < |cs| && NextInRange(cs) && k <= |cs|
    decreases |cs| - k
  {
    if k == |cs| then []
    else Qualified(cs, tw, ring, ru, k + 1) + (if QualifiesAsPatron(cs, tw, ring, ru, k) then [k] else [])
  }

  /**
   * What `get_patron` yields: the one entry that qualifies, `None` when none does, and a panic
   * (its `assert!(best.is_none())`) when a second one turns up.
   */
  function PatronOf(cs: seq<Candidate>, tw: nat, ring: set<nat>, ru: nat): Result<Option<nat>>
    requires tw < |cs| && ru < |cs| && NextInRange(cs)
  {
    var q := Qualified(cs, tw, ring, ru, 0);
    if |q| >= 2 then Panic("assertion failed: best.is_none()")
    else if q == [] then Ok(None)
    else Ok(Some(q[0]))
  }

  lemma {:induction false} QualifiedSpec(cs: seq<Candidate>, tw: nat, ring: set<nat>, ru: nat, k: nat)
    requires tw < |cs| && ru < |cs| && NextInRange(cs) && k <= |cs|
    ensures forall v :: v in Qualified(cs, tw, ring, ru, k) <==>
      k <= v < |cs| && QualifiesAsPatron(cs, tw, ring, ru, v)
    ensures Distinct(Qualified(cs, tw, ring, ru, k))
    decreases |cs| - k
  {
    if k < |cs| {
      QualifiedSpec(cs, tw, ring, ru, k + 1);
    }
  }

  /** Entries that do not vote for `tw` never qualify. */
  lemma {:induction false} QualifiedFlat(cs: seq<Candidate>, tw: nat, ring: set<nat>, ru: nat, a: nat, k: nat)
    requires tw < |cs| && ru < |cs| && NextInRange(cs) && a <= k <= |cs|
    requires forall j | a <= j < k :: LinksOf(cs)[j] != Some(tw)
    ensures Qualified(cs, tw, ring, ru, a) == Qualified(cs, tw, ring, ru, k)
    decreases k - a
  {
    if a < k {
      assert LinksOf(cs)[a] == cs[a].voteFor;
      QualifiedFlat(cs, tw, ring, ru, a + 1, k);
    }
  }

  lemma {:induction false} QualifiedGrows(cs: seq<Candidate>, tw: nat, ring: set<nat>, ru: nat, a: nat, k: nat)
    requires tw < |cs| && ru < |cs| && NextInRange(cs) && a <= k <= |cs|
    ensures |Qualified(cs, tw, ring, ru, k)| <= |Qualified(cs, tw, ring, ru, a)|
    decreases k - a
  {
    if a < k {
      QualifiedGrows(cs, tw, ring, ru, a + 1, k);
    }
  }

  /**
   * The next voter down the list of `tw` from `k`: the entries qualifying from it on are those
   * qualifying from `k` on, and the voter itself if it qualifies.
   */
  lemma QualifiedNextVoter(cs: seq<Candidate>, tw: nat, ring: set<nat>, ru: nat, k: nat)
    requires tw < |cs| && ru < |cs| && NextInRange(cs) && k <= |cs|
    requires LastVoterBelow(LinksOf(cs), tw, k).Some?
    ensures var v := LastVoterBelow(LinksOf(cs), tw, k).value;
      && v < k && cs[v].voteFor == Some(tw)
      && Qualified(cs, tw, ring, ru, v) ==
         Qualified(cs, tw, ring, ru, k) + (if QualifiesAsPatron(cs, tw, ring, ru, v) then [v] else [])
  {
    var v := LastVoterBelow(LinksOf(cs), tw, k).value;
    LastVoterBelowSpec(LinksOf(cs), tw, k);
    QualifiedFlat(cs, tw, ring, ru, v + 1, k);
  }

  /** Once the list of `tw` is exhausted below `k`, nothing below `k` qualifies. */
  lemma QualifiedListEnd(cs: seq<Candidate>, tw: nat, ring: set<nat>, ru: nat, k: nat)
    requires tw < |cs| && ru < |cs| && NextInRange(cs) && k <= |cs|
    requires LastVoterBelow(LinksOf(cs), tw, k).None?
    ensures Qualified(cs, tw, ring, ru, 0) == Qualified(cs, tw, ring, ru, k)
  {
    LastVoterBelowSpec(LinksOf(cs), tw, k);
    QualifiedFlat(cs, tw, ring, ru, 0, k);
  }

  /** `get_patron`: walks the voter list of `tw` and keeps the one voter that qualifies. */
  method GetPatron(cand: array<Candidate>, tw: nat, ring: set<nat>, ru: nat) returns (r: Result<Option<nat>>)
    requires ListsThreaded(cand[..]) && NextInRange(cand[..]) && tw < cand.Length && ru < cand.Length
    ensures r == PatronOf(cand[..], tw, ring, ru)
  {
    ghost var cs := cand[..];
    ghost var vf := LinksOf(cs);
    var nextVfm := cand[tw].votedForMe;
    var best: Option<nat> := None;
    ghost var k: nat := cand.Length;
    while nextVfm.Some?
      invariant k <= |cs|
      invariant nextVfm == LastVoterBelow(vf, tw, k)
      invariant |Qualified(cs, tw, ring, ru, k)| <= 1
      invariant best == if Qualified(cs, tw, ring, ru, k) == [] then None else Some(Qualified(cs, tw, ring, ru, k)[0])
      decreases k
    {
      var vfmId := nextVfm.value;
      QualifiedNextVoter(cs, tw, ring, ru, k);
      var vfm := cand[vfmId];
      assert vfm == cs[vfmId];
      nextVfm := vfm.votingForSame;
      k := vfmId;
      if vfm.totalIndirectVotes <= cand[tw].totalIndirectVotes / 2 {
        continue;
      }
      if vfmId in ring {
        continue;
      }
      if !vfm.isWillingCandidate {
        continue;
      }
      if ru == vfmId {
        match cand[ru].nextByTotalIndirectVotes {
          case Some(idx) =>
            if vfm.totalIndirectVotes <= cand[idx].totalIndirectVotes {
              continue;
            }
          case None =>
        }
      } else if vfm.totalIndirectVotes <= cand[ru].totalIndirectVotes {
        continue;
      }
      if best.Some? {
        QualifiedGrows(cs, tw, ring, ru, 0, k);
        return Panic("assertion failed: best.is_none()");
      }
      best := Some(vfmId);
    }
    QualifiedListEnd(cs, tw, ring, ru, k);
    r := Ok(best);
  }

  // ---------------------------------------------------------------------------------------
  // solve_winner

  /**
   * The state in which `solve_winner` asks for the patron of `tw`: a tallied, linked table whose
   * first `m` entries are the willing ones, a best ring holding the willing entries with the top
   * score, and `tw` willing and either in the ring or a patron found before, i.e. voting for an
   * entry that cannot reach it back.
   */
  predicate RunoffState(cs: seq<Candidate>, m: nat, ring: set<nat>, score: nat, tw: nat) {
    && Tallied(cs) && NextInRange(cs) && m <= |cs|
    && (forall i | 0 <= i < |cs| :: cs[i].isWillingCandidate <==> i < m)
    && ring == TopRing(cs, m, score)
    && tw < m
    && (tw in ring || (cs[tw].voteFor.Some? && tw !in Path(LinksOf(cs), cs[tw].voteFor.value)))
  }

  /**
   * Two different willing voters of a willing `tw` that `tw` cannot reach bring it their totals
   * along separate paths, so they cannot both hold more than half of its total.
   */
  lemma HalvesExclusive(cs: seq<Candidate>, tw: nat, v1: nat, v2: nat)
    requires Tallied(cs) && tw < |cs| && v1 < |cs| && v2 < |cs|
    requires cs[tw].isWillingCandidate && cs[v1].isWillingCandidate && cs[v2].isWillingCandidate
    requires v1 != v2 && cs[v1].voteFor == Some(tw) && cs[v2].voteFor == Some(tw)
    requires v1 !in Path(LinksOf(cs), tw) && v2 !in Path(LinksOf(cs), tw)
    ensures cs[v1].totalIndirectVotes + cs[v2].totalIndirectVotes <= cs[tw].totalIndirectVotes
    ensures !(cs[v1].totalIndirectVotes > cs[tw].totalIndirectVotes / 2
              && cs[v2].totalIndirectVotes > cs[tw].totalIndirectVotes / 2)
  {
    var vf := LinksOf(cs);
    assert vf[v1] == Some(tw) && vf[v2] == Some(tw);
    VotersShareInflow(vf, WeightsOf(cs), tw, v1, v2, |cs|);
    WillingTotalIsInflow(cs, tw);
    WillingTotalIsInflow(cs, v1);
    WillingTotalIsInflow(cs, v2);
  }

  /**
   * In a run-off state, a qualifying patron lies off the delegation path of `tw`: were `tw` to
   * reach it, both would sit on one ring with equal totals, and the patron would be in the best
   * ring (first step) or would already reach the entry `tw` voted for (later steps).
   */
  lemma QualifiedOffPath(cs: seq<Candidate>, m: nat, ring: set<nat>, score: nat, tw: nat, ru: nat, v: nat)
    requires RunoffState(cs, m, ring, score, tw) && ru < |cs| && v < |cs|
    requires QualifiesAsPatron(cs, tw, ring, ru, v)
    ensures v !in Path(LinksOf(cs), tw)
  {
    var vf := LinksOf(cs);
    assert vf[v] == Some(tw);
    PathIsStoppedWalk(vf, tw);
    if tw in ring {
      PathUnfold(vf, v, tw);
      if v in Path(vf, tw) {
        MutualSameInflow(vf, WeightsOf(cs), v, tw, |cs|);
      }
      WillingTotalIsInflow(cs, v);
      WillingTotalIsInflow(cs, tw);
    } else {
      var u := vf[tw].value;
      PathIsStoppedWalk(vf, u);
      PathUnfold(vf, tw, v);
      if v in Path(vf, u) {
        PathClosed(vf, u, v);
      }
    }
  }

  /** In a run-off state at most one voter qualifies, so `get_patron` never panics there. */
  lemma AtMostOnePatron(cs: seq<Candidate>, m: nat, ring: set<nat>, score: nat, tw: nat, ru: nat)
    requires RunoffState(cs, m, ring, score, tw) && ru < |cs|
    ensures |Qualified(cs, tw, ring, ru, 0)| <= 1
    ensures PatronOf(cs, tw, ring, ru).Ok?
  {
    var q := Qualified(cs, tw, ring, ru, 0);
    QualifiedSpec(cs, tw, ring, ru, 0);
    if |q| >= 2 {
      assert q[0] in q && q[1] in q;
      QualifiedOffPath(cs, m, ring, score, tw, ru, q[0]);
      QualifiedOffPath(cs, m, ring, score, tw, ru, q[1]);
      HalvesExclusive(cs, tw, q[0], q[1]);
    }
  }

  /**
   * The run-off of `solve_winner` from `tw` against runner-up `ru`: while `tw` has a patron that
   * has an entry ranked below it, the patron takes over and that entry becomes the runner-up.
   * `fuel` bounds the number of steps; `RunRunoff` shows that `|cs|` steps always suffice.
   */
  function Runoff(cs: seq<Candidate>, ring: set<nat>, tw: nat, ru: nat, fuel: nat): Result<nat>
    requires tw < |cs| && ru < |cs| && NextInRange(cs)
    decreases fuel
  {
    if fuel == 0 then Ok(tw)
    else
      match PatronOf(cs, tw, ring, ru)
      case Panic(reason) => Panic(reason)
      case Ok(None) => Ok(tw)
      case Ok(Some(p)) =>
        QualifiedSpec(cs, tw, ring, ru, 0);
        assert p in Qualified(cs, tw, ring, ru, 0);
        match cs[p].nextByTotalIndirectVotes
        case None => Ok(p)
        case Some(n) => Runoff(cs, ring, p, n, fuel - 1)
  }

  /** The run-off ends with `tw` itself or a willing patron. */
  lemma {:induction false} RunoffWilling(cs: seq<Candidate>, ring: set<nat>, tw: nat, ru: nat, fuel: nat)
    requires tw < |cs| && ru < |cs| && NextInRange(cs)
    ensures Runoff(cs, ring, tw, ru, fuel).Ok? ==>
      var w := Runoff(cs, ring, tw, ru, fuel).value;
      w < |cs| && (w == tw || cs[w].isWillingCandidate)
    decreases fuel
  {
    if fuel > 0 {
      QualifiedSpec(cs, tw, ring, ru, 0);
      match PatronOf(cs, tw, ring, ru)
      case Panic(_) =>
      case Ok(None) =>
      case Ok(Some(p)) =>
        assert p in Qualified(cs, tw, ring, ru, 0);
        match cs[p].nextByTotalIndirectVotes
        case None =>
        case Some(n) =>
          RunoffWilling(cs, ring, p, n, fuel - 1);
    }
  }

  /** The entries the votes of `x` reach, `x` included. */
  function PathSet(vf: Links, x: nat): set<nat> {
    set z | z in Path(vf, x)
  }

  /** A delegation path holds at least its origin and at most every candidate. */
  lemma PathSetBound(vf: Links, x: nat)
    requires ValidLinks(vf) && x < |vf|
    ensures 1 <= |PathSet(vf, x)| <= |vf|
  {
    PathIsStoppedWalk(vf, x);
    assert x in PathSet(vf, x);
    SubsetCard({x}, PathSet(vf, x));
    SubsetCard(PathSet(vf, x), Below(|vf|));
    BelowCard(|vf|);
  }

  /** A patron off the path of the entry it votes for reaches one more entry than that entry. */
  lemma PathSetGrows(vf: Links, p: nat, t: nat)
    requires ValidLinks(vf) && p < |vf| && vf[p] == Some(t) && p !in Path(vf, t)
    ensures |PathSet(vf, p)| == |PathSet(vf, t)| + 1
  {
    forall a ensures a in PathSet(vf, p) <==> a in PathSet(vf, t) + {p} {
      PathUnfold(vf, p, a);
    }
    assert PathSet(vf, p) == PathSet(vf, t) + {p};
  }

  /** A patron found in a run-off state is willing, in range, and starts a run-off state itself. */
  lemma PatronStep(cs: seq<Candidate>, m: nat, ring: set<nat>, score: nat, tw: nat, ru: nat, p: nat)
    requires RunoffState(cs, m, ring, score, tw) && ru < |cs|
    requires PatronOf(cs, tw, ring, ru) == Ok(Some(p))
    ensures p < |cs| && RunoffState(cs, m, ring, score, p)
    ensures |PathSet(LinksOf(cs), p)| == |PathSet(LinksOf(cs), tw)| + 1
  {
    QualifiedSpec(cs, tw, ring, ru, 0);
    assert p in Qualified(cs, tw, ring, ru, 0);
    QualifiedOffPath(cs, m, ring, score, tw, ru, p);
    assert LinksOf(cs)[p] == Some(tw);
    PathSetGrows(LinksOf(cs), p, tw);
  }

  /**
   * `solve_winner`: with no runner-up or not exactly one tentative winner, the tentative winners
   * stand; otherwise the run-off decides the single winner. In the state `compute_winner` calls it
   * in, the run-off never panics and ends within `|cs|` steps.
   */
  method SolveWinner(cand: array<Candidate>, tenativeWinner: seq<nat>, bestRing: set<nat>, runnerUp: Option<nat>,
                     ghost m: nat, ghost score: nat)
    returns (out: seq<nat>)
    requires Tallied(cand[..]) && NextInRange(cand[..]) && m <= cand.Length
    requires forall i | 0 <= i < cand.Length :: cand[i].isWillingCandidate <==> i < m
    requires bestRing == TopRing(cand[..], m, score)
    requires forall k | 0 <= k < |tenativeWinner| :: tenativeWinner[k] in bestRing
    requires runnerUp.Some? ==> runnerUp.value < cand.Length
    ensures runnerUp.None? || |tenativeWinner| != 1 ==> out == tenativeWinner
    ensures runnerUp.Some? && |tenativeWinner| == 1 ==>
      |out| == 1 && Runoff(cand[..], bestRing, tenativeWinner[0], runnerUp.value, cand.Length) == Ok(out[0])
  {
    if runnerUp.None? {
      return tenativeWinner;
    }
    var ru: nat := runnerUp.value;
    if |tenativeWinner| != 1 {
      return tenativeWinner;
    }
    var w := RunRunoff(cand, tenativeWinner[0], ru, bestRing, m, score);
    out := [w];
  }

  /**
   * The loop of `solve_winner`: patron after patron, each facing the entry ranked next below it,
   * until an entry finds no patron or the patron is the lowest ranked willing entry.
   */
  method RunRunoff(cand: array<Candidate>, tw0: nat, ru0: nat, ring: set<nat>, ghost m: nat, ghost score: nat)
    returns (w: nat)
    requires RunoffState(cand[..], m, ring, score, tw0) && ru0 < cand.Length
    ensures Runoff(cand[..], ring, tw0, ru0, cand.Length) == Ok(w)
  {
    ghost var cs := cand[..];
    ghost var vf := LinksOf(cs);
    var tw: nat, ru: nat := tw0, ru0;
    ghost var fuel: nat := cand.Length;
    PathSetBound(vf, tw);
    while true
      invariant tw < |cs| && ru < |cs|
      invariant RunoffState(cs, m, ring, score, tw)
      invariant fuel + |PathSet(vf, tw)| > |cs|
      invariant Runoff(cs, ring, tw, ru, fuel) == Runoff(cs, ring, tw0, ru0, |cs|)
      decreases fuel
    {
      PathSetBound(vf, tw);
      var r := GetPatron(cand, tw, ring, ru);
      AtMostOnePatron(cs, m, ring, score, tw, ru);
      match r.value
      case None =>
        return tw;
      case Some(p) =>
        PatronStep(cs, m, ring, score, tw, ru, p);
        tw := p;
        match cand[p].nextByTotalIndirectVotes
        case None =>
          return p;
        case Some(ruIdx) =>
          ru := ruIdx;
          fuel := fuel - 1;
    }
  }

  // ---------------------------------------------------------------------------------------
  // tie_breaker

  /** The tie-breaking key of an entry: the hash of its id and its total. */
  function Key(cs: seq<Candidate>, c: nat, hash: (string, nat) -> seq<bv8>): seq<bv8>
    requires c < |cs|
  {
    hash(cs[c].vote.voterId, cs[c].totalIndirectVotes)
  }

  /** The keys of the winners, in their order. */
  function Keys(cs: seq<Candidate>, winners: seq<nat>, hash: (string, nat) -> seq<bv8>): seq<seq<bv8>>
    requires forall k | 0 <= k < |winners| :: winners[k] < |cs|
  {
    seq(|winners|, k requires 0 <= k < |winners| => Key(cs, winners[k], hash))
  }

  /**
   * `tie_breaker`: no winner, the only one, or the first of those whose Blake2b hash of id and
   * total is least (the hash is a parameter of the model).
   */
  function TieBreak(cs: seq<Candidate>, winners: seq<nat>, hash: (string, nat) -> seq<bv8>): Option<nat>
    requires forall k | 0 <= k < |winners| :: winners[k] < |cs|
  {
    PickByKey(winners, Keys(cs, winners, hash))
  }

  // ---------------------------------------------------------------------------------------
  // What the steps choose, as sets

  /** The highest total among the first `m` entries, 0 when there are none. */
  function TopScore(cs: seq<Candidate>, m: nat): nat
    requires m <= |cs|
  {
    if m == 0 then 0
    else
      var t := TopScore(cs, m - 1);
      if cs[m - 1].totalIndirectVotes > t then cs[m - 1].totalIndirectVotes else t
  }

  lemma {:induction false} TopScoreSpec(cs: seq<Candidate>, m: nat)
    requires m <= |cs|
    ensures forall i | 0 <= i < m :: cs[i].totalIndirectVotes <= TopScore(cs, m)
    ensures m > 0 ==> exists i | 0 <= i < m :: cs[i].totalIndirectVotes == TopScore(cs, m)
  {
    if m > 0 {
      TopScoreSpec(cs, m - 1);
    }
  }

  /** The entry a ranking puts on top holds the top score. */
  lemma TopOfRanking(cs: seq<Candidate>, order: seq<nat>, m: nat)
    requires IsRanking(cs, order, m) && m > 0
    ensures cs[order[m - 1]].totalIndirectVotes == TopScore(cs, m)
  {
    TopScoreSpec(cs, m);
    var i :| 0 <= i < m && cs[i].totalIndirectVotes == TopScore(cs, m);
    assert i in order;
    var k :| 0 <= k < m && order[k] == i;
    if k < m - 1 {
      RankedBelowChain(cs, order, m, k, m - 1);
    }
  }

  /** The members of the ring that `best_of_ring` keeps. */
  function BestSet(cs: seq<Candidate>, ring: set<nat>): set<nat>
    requires forall d | d in ring :: d < |cs|
  {
    set c | c in ring && IsBestOfRing(cs, ring, c)
  }

  /**
   * The candidates `solve_winner` hands to `tie_breaker`, as a set: the best of the top ring, or,
   * when a single best member faces a runner-up `ru`, the end of the run-off (none if it panics).
   */
  ghost function Finalists(cs: seq<Candidate>, m: nat, ru: Option<nat>): (r: set<nat>)
    requires m <= |cs| && NextInRange(cs) && (ru.Some? ==> ru.value < |cs|)
    ensures forall f | f in r :: f < |cs|
  {
    var ring := TopRing(cs, m, TopScore(cs, m));
    var best := BestSet(cs, ring);
    if ru.None? || |best| != 1 then best
    else
      var t :| t in best;
      RunoffWilling(cs, ring, t, ru.value, |cs|);
      match Runoff(cs, ring, t, ru.value, |cs|)
      case Ok(w) => {w}
      case Panic(_) => {}
  }

  /** `w` is one of the finalists and no finalist has a smaller key. */
  ghost predicate LeastKeyed(cs: seq<Candidate>, finalists: set<nat>, hash: (string, nat) -> seq<bv8>, w: nat)
    requires forall f | f in finalists :: f < |cs|
  {
    w in finalists && forall f | f in finalists :: !BytesLess(Key(cs, f, hash), Key(cs, w, hash))
  }

  /**
   * `w` is what steps 4 to 7 of `compute_winner` choose on the ranked table `cs` whose first `m`
   * entries are the willing ones: a least-keyed finalist for the runner-up the ranking gives.
   */
  ghost predicate ChosenWinner(cs: seq<Candidate>, m: nat, hash: (string, nat) -> seq<bv8>, w: nat)
    requires m <= |cs| && NextInRange(cs)
  {
    exists ru :: IsRunnerUp(cs, m, TopScore(cs, m), ru) && LeastKeyed(cs, Finalists(cs, m, ru), hash, w)
  }

  /** The finalist list of `solve_winner` holds exactly the finalists. */
  lemma FinalistsAreSteps(cs: seq<Candidate>, m: nat, ring: set<nat>, ru: Option<nat>,
                          tenative: seq<nat>, finalists: seq<nat>)
    requires m <= |cs| && NextInRange(cs) && (ru.Some? ==> ru.value < |cs|)
    requires ring == TopRing(cs, m, TopScore(cs, m))
    requires Distinct(tenative) && forall k | 0 <= k < |tenative| :: tenative[k] in ring
    requires forall c | c in ring :: c in tenative <==> IsBestOfRing(cs, ring, c)
    requires ru.None? || |tenative| != 1 ==> finalists == tenative
    requires ru.Some? && |tenative| == 1 ==>
      |finalists| == 1 && Runoff(cs, ring, tenative[0], ru.value, |cs|) == Ok(finalists[0])
    ensures Elems(finalists) == Finalists(cs, m, ru)
  {
    ElemsCard(tenative);
    var best := BestSet(cs, ring);
    assert Elems(tenative) == best;
    if ru.Some? && |tenative| == 1 {
      assert finalists == [finalists[0]];
    }
  }

  /** The tie breaker picks a least-keyed member of a non-empty list. */
  lemma TieBreakLeast(cs: seq<Candidate>, finalists: seq<nat>, hash: (string, nat) -> seq<bv8>)
    requires finalists != [] && forall k | 0 <= k < |finalists| :: finalists[k] < |cs|
    ensures TieBreak(cs, finalists, hash).Some?
    ensures LeastKeyed(cs, Elems(finalists), hash, TieBreak(cs, finalists, hash).value)
  {
    var keys := Keys(cs, finalists, hash);
    var w := PickByKey(finalists, keys);
    PickByKeySpec(finalists, keys);
    var i :| 0 <= i < |finalists| && finalists[i] == w.value && IsFirstLeast(keys, i);
    assert keys[i] == Key(cs, w.value, hash);
    forall f | f in Elems(finalists) ensures !BytesLess(Key(cs, f, hash), Key(cs, w.value, hash)) {
      var j :| 0 <= j < |finalists| && finalists[j] == f;
      assert keys[j] == Key(cs, f, hash);
      assert !BytesLess(keys[j], keys[i]);
    }
  }

  // ---------------------------------------------------------------------------------------
  // compute_winner

  /** `order_by_total_indirect` changes only the ranking links, which the tally does not read. */
  lemma TalliedIgnoresNext(cs: seq<Candidate>, linked: seq<Candidate>)
    requires |linked| == |cs| && Tallied(cs)
    requires forall i | 0 <= i < |cs| ::
      linked[i] == cs[i].(nextByTotalIndirectVotes := linked[i].nextByTotalIndirectVotes)
    ensures Tallied(linked)
  {
    assert LinksOf(linked) == LinksOf(cs);
    assert WeightsOf(linked) == WeightsOf(cs);
  }

  /**
   * The table `mk_candidates` and `compute_delegated_votes` leave: tallied, the ballots in placed
   * order with the willing ones first, and no ranking links yet.
   */
  lemma TalliedTable(votes: seq<Vote>)
    ensures Untallied(Candidates(votes)) && |Placed(votes)| == |votes|
    ensures var d := Delegated(Candidates(votes));
      && |d| == |votes| && Tallied(d) && CountWilling(votes) <= |votes|
      && (forall i | 0 <= i < |d| ::
            && d[i].vote == Placed(votes)[i]
            && d[i].isWillingCandidate == d[i].vote.willingCandidate
            && (d[i].isWillingCandidate <==> i < CountWilling(votes))
            && d[i].nextByTotalIndirectVotes.None?)
  {
    var cs := Candidates(votes);
    CandidatesUntallied(votes);
    DelegatedIsTallied(cs);
    DelegatedKeepsBallots(cs);
    PlacedWillingFirst(votes);
    PlacedIsPermutation(votes);
    SelectLength(votes);
  }

  /** The table as `order_by_total_indirect` leaves it, the `m` willing candidates first. */
  predicate Ranked(cs: seq<Candidate>, order: seq<nat>, m: nat) {
    && Tallied(cs) && NextInRange(cs) && RankLinked(cs, order, m)
    && (forall i | 0 <= i < |cs| :: cs[i].isWillingCandidate <==> i < m)
  }

  /**
   * The table `compute_winner` ranks: its links are valid and each of its first
   * `CountWilling(votes)` entries is willing.
   */
  lemma DelegatedWillingFirst(votes: seq<Vote>)
    ensures ValidLinks(LinksOf(Candidates(votes)))
    ensures CountWilling(votes) <= |Delegated(Candidates(votes))|
    ensures forall i | 0 <= i < CountWilling(votes) :: Delegated(Candidates(votes))[i].isWillingCandidate
  {
    TalliedTable(votes);
  }

  /** The first three steps of `compute_winner` leave a ranked table of the placed ballots. */
  lemma RankedTable(votes: seq<Vote>)
    ensures Untallied(Candidates(votes)) && |Placed(votes)| == |votes|
    ensures var d := Delegated(Candidates(votes));
      var m := CountWilling(votes);
      m <= |d| &&
      var linked := LinkChain(d, Ranking(d, m));
      && Ranked(linked, Ranking(d, m), m)
      && (forall i | 0 <= i < |linked| ::
            linked[i].vote == Placed(votes)[i] && linked[i].isWillingCandidate == linked[i].vote.willingCandidate)
  {
    TalliedTable(votes);
    var d := Delegated(Candidates(votes));
    var m := CountWilling(votes);
    OrderByTotalIndirectSpec(d, m);
    LinkedIsRankLinked(d, m);
    TalliedIgnoresNext(d, LinkChain(d, Ranking(d, m)));
  }

  /** The table `compute_winner` hands to `get_tenative_winners`: built, tallied and linked by rank. */
  ghost function RankedTableOf(votes: seq<Vote>): (cs: seq<Candidate>)
    ensures |cs| == |votes| && CountWilling(votes) <= |cs| && NextInRange(cs)
    ensures |Placed(votes)| == |votes| && forall i | 0 <= i < |cs| :: cs[i].vote == Placed(votes)[i]
  {
    TalliedTable(votes);
    RankedTable(votes);
    var d := Delegated(Candidates(votes));
    LinkChain(d, Ranking(d, CountWilling(votes)))
  }

  /**
   * `w`, a position of the ranked table, is a winner `compute_winner` may return for `votes`:
   * somebody is willing, and `w` is what the steps choose on that table.
   */
  ghost predicate IsWinner(votes: seq<Vote>, hash: (string, nat) -> seq<bv8>, w: nat) {
    CountWilling(votes) > 0 && ChosenWinner(RankedTableOf(votes), CountWilling(votes), hash, w)
  }

  /**
   * Steps 3 to 6 of `compute_winner` on a ranked table with at least one willing candidate: the
   * best ring, its best members, the run-off and the tie breaker always yield a willing candidate.
   */
  method SelectWinner(cand: array<Candidate>, best: nat, hash: (string, nat) -> seq<bv8>,
                      ghost order: seq<nat>, ghost m: nat)
    returns (winner: Option<nat>)
    requires Ranked(cand[..], order, m) && 0 < m && best == order[m - 1]
    ensures winner.Some? && winner.value < cand.Length && cand[winner.value].isWillingCandidate
    ensures ChosenWinner(cand[..], m, hash, winner.value)
  {
    ghost var cs := cand[..];
    var bestRing, runnerUp := GetTenativeWinners(cand, best, order, m);
    ghost var score := cs[best].totalIndirectVotes;
    TopOfRanking(cs, order, m);
    assert best in bestRing;
    var tenative := BestOfRing(cand, bestRing);
    var finalists := SolveWinner(cand, tenative, bestRing, runnerUp, m, score);
    FinalistsWilling(cs, m, bestRing, score, tenative, runnerUp, finalists);
    FinalistsAreSteps(cs, m, bestRing, runnerUp, tenative, finalists);
    winner := TieBreak(cand[..], finalists, hash);
    TieBreakLeast(cs, finalists, hash);
    PickByKeySpec(finalists, Keys(cs, finalists, hash));
    assert IsRunnerUp(cs, m, TopScore(cs, m), runnerUp);
  }

  /**
   * `compute_winner`: the empty string when nobody is willing to be elected, otherwise the id of
   * a ballot that is willing to be elected, and namely the entry `IsWinner` names: the least keyed
   * of the finalists of the top ring and its run-off.
   */
  method ComputeWinner(votes: seq<Vote>, hash: (string, nat) -> seq<bv8>) returns (winner: string)
    ensures CountWilling(votes) == 0 ==> winner == ""
    ensures CountWilling(votes) > 0 ==>
      exists i | 0 <= i < |votes| :: votes[i].willingCandidate && winner == votes[i].voterId
    ensures CountWilling(votes) > 0 ==>
      exists w | 0 <= w < |votes| :: IsWinner(votes, hash, w) && winner == RankedTableOf(votes)[w].vote.voterId
  {
    var cand, totalWilling := MkCandidates(votes);
    DelegatedWillingFirst(votes);
    ComputeDelegatedVotes(cand);
    var best := OrderByTotalIndirect(cand, totalWilling);
    RankedTable(votes);
    ghost var d := Delegated(Candidates(votes));
    ghost var order := Ranking(d, totalWilling);
    assert Min(totalWilling, cand.Length) == totalWilling;
    if best.None? {
      return "";
    }
    var w := SelectWinner(cand, best.value, hash, order, totalWilling);
    winner := cand[w.value].vote.voterId;
    ghost var j := PlacedFromBallot(votes, w.value);
    assert votes[j].willingCandidate && winner == votes[j].voterId;
    assert cand[..] == RankedTableOf(votes);
    assert IsWinner(votes, hash, w.value);
  }

  /** What `solve_winner` hands the tie breaker is a non-empty list of willing candidates. */
  lemma FinalistsWilling(cs: seq<Candidate>, m: nat, ring: set<nat>, score: nat,
                         tenative: seq<nat>, runnerUp: Option<nat>, finalists: seq<nat>)
    requires NextInRange(cs) && m <= |cs| && ring == TopRing(cs, m, score)
    requires forall i | 0 <= i < |cs| :: cs[i].isWillingCandidate <==> i < m
    requires tenative != [] && forall k | 0 <= k < |tenative| :: tenative[k] in ring
    requires runnerUp.Some? ==> runnerUp.value < |cs|
    requires runnerUp.None? || |tenative| != 1 ==> finalists == tenative
    requires runnerUp.Some? && |tenative| == 1 ==>
      |finalists| == 1 && Runoff(cs, ring, tenative[0], runnerUp.value, |cs|) == Ok(finalists[0])
    ensures finalists != []
    ensures forall k | 0 <= k < |finalists| :: finalists[k] < |cs| && cs[finalists[k]].isWillingCandidate
  {
    if runnerUp.Some? && |tenative| == 1 {
      RunoffWilling(cs, ring, tenative[0], runnerUp.value, |cs|);
    }
  }
}
