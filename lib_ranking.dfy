/**
 * `order_by_total_indirect` of `src/lib.rs`: the first `total_willing_candidates` entries (the
 * willing ones) are sorted by total with the library's stable sort and threaded into a list
 * through `next_by_total_indirect_votes`, each entry pointing at the one ranked just below it.
 */
module ElectoriumRanking {
  import opened Wrappers
  import opened DelegationPaths
  import opened ElectoriumCandidates

  /** `struct Sortable` of `order_by_total_indirect`. */
  datatype Sortable = Sortable(idx: nat, score: nat)

  /** `a` comes before `b` when its score is lower, or equal with an earlier index. */
  predicate LexLess(a: Sortable, b: Sortable) {
    a.score < b.score || (a.score == b.score && a.idx < b.idx)
  }

  /** Each entry comes before the next one. */
  predicate LexSorted(s: seq<Sortable>) {
    forall k | 0 < k < |s| :: LexLess(s[k - 1], s[k])
  }

  predicate IdxAscending(s: seq<Sortable>) {
    forall a, b | 0 <= a < b < |s| :: s[a].idx < s[b].idx
  }

  /** Inserts `x` after every element whose score is not above its own. */
  function InsertByScore(x: Sortable, s: seq<Sortable>): seq<Sortable> {
    if s == [] then [x]
    else if x.score < s[0].score then [x] + s
    else [s[0]] + InsertByScore(x, s[1..])
  }

  /** A stable sort by score (`sort_by_key(|c| c.score)`), written as an insertion sort. */
  function SortByScore(xs: seq<Sortable>): seq<Sortable> {
    if xs == [] then []
    else InsertByScore(xs[|xs| - 1], SortByScore(xs[..|xs| - 1]))
  }

  lemma {:induction false} InsertByScoreKeeps(x: Sortable, s: seq<Sortable>)
    ensures |InsertByScore(x, s)| == |s| + 1
    ensures multiset(InsertByScore(x, s)) == multiset(s) + multiset{x}
  {
    if s != [] && x.score >= s[0].score {
      InsertByScoreKeeps(x, s[1..]);
      assert s == [s[0]] + s[1..];
    }
  }

  lemma {:induction false} InsertByScoreSorted(x: Sortable, s: seq<Sortable>)
    requires LexSorted(s)
    requires forall k | 0 <= k < |s| :: s[k].idx < x.idx
    ensures LexSorted(InsertByScore(x, s))
  {
    if s != [] && x.score >= s[0].score {
      var rest := s[1..];
      InsertByScoreSorted(x, rest);
      var tail := InsertByScore(x, rest);
      assert tail[0] == x || tail[0] == s[1];
      var r := InsertByScore(x, s);
      assert r == [s[0]] + tail;
      forall k | 0 < k < |r| ensures LexLess(r[k - 1], r[k]) {
        if k > 1 {
          assert r[k - 1] == tail[k - 2] && r[k] == tail[k - 1];
        }
      }
    }
  }

  /** In a sorted sequence every entry comes before every later one. */
  lemma {:induction false} LexSortedPairwise(s: seq<Sortable>, a: nat, b: nat)
    requires LexSorted(s) && a < b < |s|
    ensures LexLess(s[a], s[b])
    decreases b - a
  {
    if a + 1 < b {
      LexSortedPairwise(s, a + 1, b);
    }
  }

  /** With ascending indices, every entry but the last has a smaller index than the last. */
  lemma EarlierIdxBelow(xs: seq<Sortable>, y: Sortable)
    requires IdxAscending(xs) && xs != [] && y in xs[..|xs| - 1]
    ensures y.idx < xs[|xs| - 1].idx
  {
    var j :| 0 <= j < |xs| - 1 && xs[..|xs| - 1][j] == y;
    assert xs[j] == y;
  }

  /** The sort loses or adds nothing. */
  lemma {:induction false} SortByScorePerm(xs: seq<Sortable>)
    ensures |SortByScore(xs)| == |xs|
    ensures multiset(SortByScore(xs)) == multiset(xs)
  {
    if xs != [] {
      var init := xs[..|xs| - 1];
      var last := xs[|xs| - 1];
      SortByScorePerm(init);
      InsertByScoreKeeps(last, SortByScore(init));
      assert xs == init + [last];
    }
  }

  /** For indices that start out ascending, the sort orders by (score, index). */
  lemma {:induction false} SortByScoreSorted(xs: seq<Sortable>)
    requires IdxAscending(xs)
    ensures LexSorted(SortByScore(xs))
  {
    if xs != [] {
      var init := xs[..|xs| - 1];
      var last := xs[|xs| - 1];
      assert IdxAscending(init) by {
        forall a, b | 0 <= a < b < |init| ensures init[a].idx < init[b].idx {
          assert init[a] == xs[a] && init[b] == xs[b];
        }
      }
      SortByScoreSorted(init);
      SortByScorePerm(init);
      var s := SortByScore(init);
      forall k | 0 <= k < |s| ensures s[k].idx < last.idx {
        assert s[k] in multiset(init);
        EarlierIdxBelow(xs, s[k]);
      }
      InsertByScoreSorted(last, s);
    }
  }

  /**
   * The sort puts the entries in increasing (score, index) order, which for indices that start
   * out ascending is exactly what a stable sort by score yields, and loses or adds nothing.
   */
  lemma {:induction false} SortByScoreSpec(xs: seq<Sortable>)
    requires IdxAscending(xs)
    ensures |SortByScore(xs)| == |xs|
    ensures multiset(SortByScore(xs)) == multiset(xs)
    ensures LexSorted(SortByScore(xs))
  {
    SortByScorePerm(xs);
    SortByScoreSorted(xs);
  }

  /** The entries `order_by_total_indirect` sorts: the first `m`, with their totals. */
  function Sortables(cs: seq<Candidate>, m: nat): seq<Sortable>
    requires m <= |cs|
  {
    seq(m, i requires 0 <= i < m => Sortable(i, cs[i].totalIndirectVotes))
  }

  /** The indices of the first `m` entries from lowest to highest total, ties by index. */
  function Ranking(cs: seq<Candidate>, m: nat): seq<nat>
    requires m <= |cs|
  {
    var sorted := SortByScore(Sortables(cs, m));
    seq(|sorted|, k requires 0 <= k < |sorted| => sorted[k].idx)
  }

  /** Entry `order[k]` pointing at `order[k - 1]`, for every `k >= 1`. */
  function LinkChain(cs: seq<Candidate>, order: seq<nat>): (r: seq<Candidate>)
    ensures |r| == |cs|
  {
    if |order| <= 1 then cs
    else
      var c := LinkChain(cs, order[..|order| - 1]);
      var i := order[|order| - 1];
      if i < |c| then c[i := c[i].(nextByTotalIndirectVotes := Some(order[|order| - 2]))] else c
  }

  /** The entry just before `i` in `order`, if any. */
  function Before(order: seq<nat>, i: nat): Option<nat> {
    if |order| <= 1 then None
    else if order[|order| - 1] == i then Some(order[|order| - 2])
    else Before(order[..|order| - 1], i)
  }

  /** Linking changes only the `next_by_total_indirect_votes` of entries that have a predecessor. */
  lemma {:induction false} LinkChainAt(cs: seq<Candidate>, order: seq<nat>, i: nat)
    requires forall k | 0 <= k < |order| :: order[k] < |cs|
    requires i < |cs|
    ensures LinkChain(cs, order)[i] ==
      match Before(order, i)
      case None => cs[i]
      case Some(p) => cs[i].(nextByTotalIndirectVotes := Some(p))
  {
    if |order| > 1 {
      LinkChainAt(cs, order[..|order| - 1], i);
    }
  }

  lemma {:induction false} BeforeAt(order: seq<nat>, k: nat)
    requires Distinct(order) && 0 < k < |order|
    ensures Before(order, order[k]) == Some(order[k - 1])
  {
    if k < |order| - 1 {
      BeforeAt(order[..|order| - 1], k);
    }
  }

  lemma {:induction false} BeforeFirst(order: seq<nat>)
    requires Distinct(order) && 0 < |order|
    ensures Before(order, order[0]) == None
  {
    if |order| > 1 {
      BeforeFirst(order[..|order| - 1]);
    }
  }

  lemma {:induction false} BeforeAbsent(order: seq<nat>, i: nat)
    requires i !in order
    ensures Before(order, i) == None
  {
    if |order| > 1 {
      assert forall k | 0 <= k < |order| - 1 :: order[..|order| - 1][k] == order[k];
      BeforeAbsent(order[..|order| - 1], i);
    }
  }

  /** `i` is ranked below `j`: fewer votes, or as many and an earlier index. */
  predicate RankedBelow(cs: seq<Candidate>, i: nat, j: nat)
    requires i < |cs| && j < |cs|
  {
    cs[i].totalIndirectVotes < cs[j].totalIndirectVotes
    || (cs[i].totalIndirectVotes == cs[j].totalIndirectVotes && i < j)
  }

  /** `order` lists each of the indices `0 .. m - 1` once, from the lowest ranked to the highest. */
  predicate IsRanking(cs: seq<Candidate>, order: seq<nat>, m: nat) {
    && m <= |cs| && |order| == m && Distinct(order)
    && (forall k | 0 <= k < m :: order[k] < m)
    && (forall i | 0 <= i < m :: i in order)
    && (forall k | 0 < k < m :: RankedBelow(cs, order[k - 1], order[k]))
  }

  /** The stable sort by total ranks the first `m` entries. */
  lemma {:induction false} RankingIsRanking(cs: seq<Candidate>, m: nat)
    requires m <= |cs|
    ensures IsRanking(cs, Ranking(cs, m), m)
  {
    var xs := Sortables(cs, m);
    var s := SortByScore(xs);
    var order := Ranking(cs, m);
    SortByScoreSpec(xs);
    forall k | 0 <= k < m ensures order[k] < m && s[k] == Sortable(order[k], cs[order[k]].totalIndirectVotes) {
      assert s[k] in multiset(xs);
      var j :| 0 <= j < m && xs[j] == s[k];
    }
    forall i | 0 <= i < m ensures i in order {
      assert xs[i] in multiset(s);
      var k :| 0 <= k < m && s[k] == xs[i];
      assert order[k] == i;
    }
    forall a, b | 0 <= a < b < m ensures order[a] != order[b] {
      LexSortedPairwise(s, a, b);
    }
    forall k | 0 < k < m ensures RankedBelow(cs, order[k - 1], order[k]) {
      assert LexLess(s[k - 1], s[k]);
    }
  }

  /** Following `next_by_total_indirect_votes` `steps` times from `at`. */
  function Follow(cs: seq<Candidate>, at: nat, steps: nat): Option<nat>
    decreases steps
  {
    if steps == 0 then Some(at)
    else if at >= |cs| then None
    else match cs[at].nextByTotalIndirectVotes
      case None => None
      case Some(n) => Follow(cs, n, steps - 1)
  }

  /**
   * In the linked table, the list from the entry ranked `j` steps down through every lower-ranked
   * entry in turn and then ends.
   */
  lemma {:induction false} FollowDownRanking(cs: seq<Candidate>, order: seq<nat>, m: nat, j: nat, steps: nat)
    requires IsRanking(cs, order, m) && j < m
    requires forall i | 0 <= i < m :: cs[i].nextByTotalIndirectVotes.None?
    ensures Follow(LinkChain(cs, order), order[j], steps) == if steps <= j then Some(order[j - steps]) else None
    decreases steps
  {
    var linked := LinkChain(cs, order);
    if steps > 0 {
      LinkChainAt(cs, order, order[j]);
      if j > 0 {
        BeforeAt(order, j);
        FollowDownRanking(cs, order, m, j - 1, steps - 1);
      } else {
        BeforeFirst(order);
      }
    }
  }

  /** The sort keys of one more entry. */
  lemma SortablesSnoc(cs: seq<Candidate>, m: nat)
    requires m < |cs|
    ensures Sortables(cs, m + 1) == Sortables(cs, m) + [Sortable(m, cs[m].totalIndirectVotes)]
  {
  }

  /** The ranking lists `m` indices, each below `m`. */
  lemma RankingBounds(cs: seq<Candidate>, m: nat)
    requires m <= |cs|
    ensures |Ranking(cs, m)| == m && forall k | 0 <= k < m :: Ranking(cs, m)[k] < m
  {
    RankingIsRanking(cs, m);
  }

  /** Linking one more entry `x` points it at the last entry linked before and changes nothing else. */
  lemma LinkChainSnoc(cs: seq<Candidate>, order: seq<nat>, x: nat)
    requires order != [] && x < |cs|
    ensures var c := LinkChain(cs, order);
      LinkChain(cs, order + [x]) == c[x := c[x].(nextByTotalIndirectVotes := Some(order[|order| - 1]))]
  {
    assert (order + [x])[..|order|] == order;
  }

  /** Step `j` of the second loop of `order_by_total_indirect`: the `j`-th ranked entry is linked to the one before it. */
  lemma LinkStep(cs: seq<Candidate>, m: nat, j: nat)
    requires m <= |cs| && 1 <= j < m
    ensures var order, sorted := Ranking(cs, m), SortByScore(Sortables(cs, m));
      && |sorted| == m && sorted[j].idx < |cs|
      && var c, x := LinkChain(cs, order[..j]), sorted[j].idx;
         LinkChain(cs, order[..j + 1]) == c[x := c[x].(nextByTotalIndirectVotes := Some(sorted[j - 1].idx))]
  {
    var order := Ranking(cs, m);
    RankingBounds(cs, m);
    assert order[..j + 1] == order[..j] + [order[j]];
    LinkChainSnoc(cs, order[..j], order[j]);
  }

  /** The shortest of the two lengths, as the `zip` of `order_by_total_indirect` takes it. */
  function Min(a: nat, b: nat): nat {
    if a < b then a else b
  }

  /** The first loop of `order_by_total_indirect`: the index and total of each of the first `m` entries. */
  method CollectSortables(cand: array<Candidate>, m: nat) returns (sortable: seq<Sortable>)
    requires m <= cand.Length
    ensures sortable == Sortables(cand[..], m)
  {
    sortable := [];
    for idx := 0 to m
      invariant sortable == Sortables(cand[..], idx)
    {
      SortablesSnoc(cand[..], idx);
      sortable := sortable + [Sortable(idx, cand[idx].totalIndirectVotes)];
    }
  }

  /**
   * `order_by_total_indirect`: links the first `Min(totalWilling, |cand|)` entries into a list
   * from the highest-ranked down and returns its head. Those entries must be willing (the
   * source asserts it).
   */
  method OrderByTotalIndirect(cand: array<Candidate>, totalWilling: nat) returns (best: Option<nat>)
    requires forall i | 0 <= i < Min(totalWilling, cand.Length) :: cand[i].isWillingCandidate
    modifies cand
    ensures var order := Ranking(old(cand[..]), Min(totalWilling, cand.Length));
      && cand[..] == LinkChain(old(cand[..]), order)
      && best == if order == [] then None else Some(order[|order| - 1])
  {
    ghost var cs := cand[..];
    var m := if totalWilling < cand.Length then totalWilling else cand.Length;
    var sortable := CollectSortables(cand, m);
    var sorted := SortByScore(sortable);
    ghost var order := Ranking(cs, m);
    RankingBounds(cs, m);
    if m == 0 {
      return None;
    }
    assert |sorted| == m && order[..1] == [sorted[0].idx];
    var last := sorted[0];
    for j := 1 to m
      invariant last == sorted[j - 1]
      invariant cand[..] == LinkChain(cs, order[..j])
    {
      var s := sorted[j];
      LinkStep(cs, m, j);
      cand[s.idx] := cand[s.idx].(nextByTotalIndirectVotes := Some(last.idx));
      last := s;
    }
    assert order[..m] == order;
    return Some(last.idx);
  }

  /**
   * What `order_by_total_indirect` leaves behind, for a table whose lists are still empty: its
   * result is `None` exactly when there is nothing to rank; otherwise it is the highest-ranked
   * entry, the list from it visits every ranked entry once in falling rank and then ends, and
   * every field but the list links is as before.
   */
  lemma {:induction false} OrderByTotalIndirectSpec(cs: seq<Candidate>, m: nat)
    requires m <= |cs|
    requires forall i | 0 <= i < m :: cs[i].nextByTotalIndirectVotes.None?
    ensures var order := Ranking(cs, m); var linked := LinkChain(cs, order);
      && IsRanking(cs, order, m)
      && (order == [] <==> m == 0)
      && (m > 0 ==> forall i | 0 <= i < m ::
            && cs[i].totalIndirectVotes <= cs[order[m - 1]].totalIndirectVotes
            && (cs[i].totalIndirectVotes == cs[order[m - 1]].totalIndirectVotes ==> i <= order[m - 1]))
      && (forall k | 0 <= k < m :: Follow(linked, order[m - 1], m - 1 - k) == Some(order[k]))
      && (m > 0 ==> Follow(linked, order[m - 1], m) == None)
      && (forall i | 0 <= i < |cs| ::
            linked[i] == cs[i].(nextByTotalIndirectVotes := linked[i].nextByTotalIndirectVotes))
      && (forall i | m <= i < |cs| :: linked[i] == cs[i])
  {
    RankingIsRanking(cs, m);
    if m > 0 {
      RankingTop(cs, Ranking(cs, m), m);
    }
    RankingFollow(cs, Ranking(cs, m), m);
    LinkChainFrame(cs, Ranking(cs, m), m);
  }

  /** The last entry of a ranking holds the top total, and the highest index among those that do. */
  lemma RankingTop(cs: seq<Candidate>, order: seq<nat>, m: nat)
    requires IsRanking(cs, order, m) && m > 0
    ensures forall i | 0 <= i < m ::
      && cs[i].totalIndirectVotes <= cs[order[m - 1]].totalIndirectVotes
      && (cs[i].totalIndirectVotes == cs[order[m - 1]].totalIndirectVotes ==> i <= order[m - 1])
  {
    forall i | 0 <= i < m
      ensures && cs[i].totalIndirectVotes <= cs[order[m - 1]].totalIndirectVotes
              && (cs[i].totalIndirectVotes == cs[order[m - 1]].totalIndirectVotes ==> i <= order[m - 1])
    {
      assert i in order;
      var k :| 0 <= k < m && order[k] == i;
      if k < m - 1 {
        RankedBelowChain(cs, order, m, k, m - 1);
      }
    }
  }

  /** The list linked along a ranking visits it from the top down and then ends. */
  lemma RankingFollow(cs: seq<Candidate>, order: seq<nat>, m: nat)
    requires IsRanking(cs, order, m)
    requires forall i | 0 <= i < m :: cs[i].nextByTotalIndirectVotes.None?
    ensures forall k | 0 <= k < m :: Follow(LinkChain(cs, order), order[m - 1], m - 1 - k) == Some(order[k])
    ensures m > 0 ==> Follow(LinkChain(cs, order), order[m - 1], m) == None
  {
    if m > 0 {
      FollowDownRanking(cs, order, m, m - 1, m);
    }
    forall k | 0 <= k < m ensures Follow(LinkChain(cs, order), order[m - 1], m - 1 - k) == Some(order[k]) {
      FollowDownRanking(cs, order, m, m - 1, m - 1 - k);
    }
  }

  /** Linking changes only the list links, and only of the ranked entries. */
  lemma LinkChainFrame(cs: seq<Candidate>, order: seq<nat>, m: nat)
    requires IsRanking(cs, order, m)
    ensures forall i | 0 <= i < |cs| ::
      LinkChain(cs, order)[i] == cs[i].(nextByTotalIndirectVotes := LinkChain(cs, order)[i].nextByTotalIndirectVotes)
    ensures forall i | m <= i < |cs| :: LinkChain(cs, order)[i] == cs[i]
  {
    forall i | 0 <= i < |cs| ensures LinkChain(cs, order)[i] ==
      cs[i].(nextByTotalIndirectVotes := LinkChain(cs, order)[i].nextByTotalIndirectVotes)
    {
      LinkChainAt(cs, order, i);
    }
    forall i | m <= i < |cs| ensures LinkChain(cs, order)[i] == cs[i] {
      LinkChainAt(cs, order, i);
      BeforeAbsent(order, i);
    }
  }


  /** Every entry of a ranking is ranked below every later one. */
  lemma {:induction false} RankedBelowChain(cs: seq<Candidate>, order: seq<nat>, m: nat, j: nat, k: nat)
    requires IsRanking(cs, order, m) && j < k < m
    ensures RankedBelow(cs, order[j], order[k])
    decreases k - j
  {
    if j < k - 1 {
      RankedBelowChain(cs, order, m, j + 1, k);
    }
  }

  /**
   * The table once linked: `order` ranks the first `m` entries and each of them, but the lowest,
   * points at the entry ranked just below it.
   */
  predicate RankLinked(cs: seq<Candidate>, order: seq<nat>, m: nat) {
    && IsRanking(cs, order, m)
    && (forall k | 0 < k < m :: cs[order[k]].nextByTotalIndirectVotes == Some(order[k - 1]))
    && (m > 0 ==> cs[order[0]].nextByTotalIndirectVotes.None?)
  }

  /** Every list link of the table names an entry of it. */
  predicate NextInRange(cs: seq<Candidate>) {
    forall i | 0 <= i < |cs| :: cs[i].nextByTotalIndirectVotes.Some? ==> cs[i].nextByTotalIndirectVotes.value < |cs|
  }

  /** `order_by_total_indirect` leaves a ranked, linked table (read by `get_tenative_winners`). */
  lemma {:induction false} LinkedIsRankLinked(cs: seq<Candidate>, m: nat)
    requires m <= |cs|
    requires forall i | 0 <= i < |cs| :: cs[i].nextByTotalIndirectVotes.None?
    ensures RankLinked(LinkChain(cs, Ranking(cs, m)), Ranking(cs, m), m)
    ensures NextInRange(LinkChain(cs, Ranking(cs, m)))
  {
    var order := Ranking(cs, m);
    var linked := LinkChain(cs, order);
    RankingIsRanking(cs, m);
    forall i | 0 <= i < |cs|
      ensures linked[i].totalIndirectVotes == cs[i].totalIndirectVotes
      ensures linked[i].nextByTotalIndirectVotes.Some? ==> linked[i].nextByTotalIndirectVotes.value < m
    {
      LinkChainAt(cs, order, i);
      if linked[i].nextByTotalIndirectVotes.Some? {
        BeforeIn(order, i);
      }
    }
    forall k | 0 < k < m ensures RankedBelow(linked, order[k - 1], order[k]) {
      assert RankedBelow(cs, order[k - 1], order[k]);
    }
    forall k | 0 < k < m ensures linked[order[k]].nextByTotalIndirectVotes == Some(order[k - 1]) {
      LinkChainAt(cs, order, order[k]);
      BeforeAt(order, k);
    }
    if m > 0 {
      LinkChainAt(cs, order, order[0]);
      BeforeFirst(order);
    }
  }

  /** Whatever `Before` returns is an entry of the order. */
  lemma {:induction false} BeforeIn(order: seq<nat>, i: nat)
    requires Before(order, i).Some?
    ensures Before(order, i).value in order
  {
    if order[|order| - 1] != i {
      BeforeIn(order[..|order| - 1], i);
      assert Before(order, i).value in order[..|order| - 1];
    }
  }
}
