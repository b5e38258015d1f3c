/**
 * Delegation paths, shared by both vote-counting variants (`src/lib.rs` and `src/main.rs`).
 *
 * Every candidate `i` holds an optional link `vf[i]`, the index of the one it votes for.
 * `compute_delegated_votes` walks from every origin along these links, pushing each visited
 * index on `delegation_path`, and stops when the next link is missing or already on the path.
 * `Path(vf, o)` is that walk; the votes of `o` reach exactly the members of `Path(vf, o)`
 * other than `o` itself.
 */
module DelegationPaths {
  import opened Wrappers

  type Links = seq<Option<nat>>

  /** Every link names an existing candidate. */
  predicate ValidLinks(vf: Links) {
    forall i | 0 <= i < |vf| :: vf[i].Some? ==> vf[i].value < |vf|
  }

  predicate Distinct(s: seq<nat>) {
    forall i, j | 0 <= i < j < |s| :: s[i] != s[j]
  }

  /** The elements of a sequence. */
  function Elems(s: seq<nat>): (r: set<nat>)
    ensures forall x :: x in r <==> x in s
  {
    if s == [] then {}
    else
      var init := s[..|s| - 1];
      assert s == init + [s[|s| - 1]];
      Elems(init) + {s[|s| - 1]}
  }

  /** A sequence of distinct entries has as many elements as its length. */
  lemma {:induction false} ElemsCard(s: seq<nat>)
    requires Distinct(s)
    ensures |Elems(s)| == |s|
  {
    if s != [] {
      var init, last := s[..|s| - 1], s[|s| - 1];
      assert Distinct(init) by {
        forall i, j | 0 <= i < j < |init| ensures init[i] != init[j] {
          assert init[i] == s[i] && init[j] == s[j];
        }
      }
      ElemsCard(init);
      forall i | 0 <= i < |init| ensures init[i] != last {
        assert init[i] == s[i];
      }
      assert last !in Elems(init);
      assert Elems(s) == Elems(init) + {last};
    }
  }

  /** `p` is a non-empty run of distinct candidates, each linked to the next. */
  predicate IsWalk(vf: Links, p: seq<nat>) {
    && |p| > 0
    && (forall i | 0 <= i < |p| :: p[i] < |vf|)
    && (forall i | 0 <= i < |p| - 1 :: vf[p[i]] == Some(p[i + 1]))
    && Distinct(p)
  }

  /** The walk cannot go on: the last link is missing or leads back onto the walk. */
  predicate Stopped(vf: Links, p: seq<nat>)
    requires IsWalk(vf, p)
  {
    var last := p[|p| - 1];
    vf[last].None? || vf[last].value in p
  }

  /** The indices `0 .. n - 1`. */
  function Below(n: nat): (r: set<nat>)
    ensures forall i: nat :: i in r <==> i < n
  {
    if n == 0 then {}
    else
      var r := Below(n - 1) + {n - 1};
      assert forall i: nat :: i in r <==> i < n by {
        forall i: nat ensures i in r <==> i < n {
          assert i in Below(n - 1) <==> i < n - 1;
        }
      }
      r
  }

  function Unvisited(vf: Links, p: seq<nat>): set<nat> {
    Below(|vf|) - (set x | x in p)
  }

  /**
   * Follows the links from the end of `p` until the walk stops. (Defined for every input so that
   * unfolding it never has to re-establish that `p` is a walk; `ExtendIsStoppedWalk` says what it
   * yields on a walk.)
   */
  function Extend(vf: Links, p: seq<nat>): seq<nat>
    decreases Unvisited(vf, p)
  {
    if p == [] || p[|p| - 1] >= |vf| then p
    else
      match vf[p[|p| - 1]]
      case None => p
      case Some(x) =>
        if x in p || x >= |vf| then p
        else
          assert x in Unvisited(vf, p) && x !in Unvisited(vf, p + [x]);
          assert Unvisited(vf, p + [x]) < Unvisited(vf, p);
          Extend(vf, p + [x])
  }

  /** The delegation path of origin `o`. */
  function Path(vf: Links, o: nat): seq<nat> {
    Extend(vf, [o])
  }

  /** One step of the walk: it follows the link of its last member unless that leads back onto it. */
  lemma ExtendStep(vf: Links, p: seq<nat>, x: nat, q: seq<nat>)
    requires p != [] && p[|p| - 1] < |vf| && vf[p[|p| - 1]] == Some(x) && x < |vf| && q == p + [x]
    ensures x in p ==> Extend(vf, p) == p
    ensures x !in p ==> Extend(vf, p) == Extend(vf, q)
  {
  }

  /** Extending a walk yields a walk that starts with it and cannot go on. */
  lemma {:induction false} ExtendIsStoppedWalk(vf: Links, p: seq<nat>)
    requires ValidLinks(vf) && IsWalk(vf, p)
    ensures IsWalk(vf, Extend(vf, p)) && Stopped(vf, Extend(vf, p))
    ensures p <= Extend(vf, p)
    decreases Unvisited(vf, p)
  {
    var last := p[|p| - 1];
    if vf[last].Some? && vf[last].value !in p {
      var x := vf[last].value;
      assert x in Unvisited(vf, p) && x !in Unvisited(vf, p + [x]);
      ExtendIsStoppedWalk(vf, p + [x]);
    }
  }

  /** A walk whose last link leads to a new candidate goes on to it, and its extension is the same. */
  lemma WalkStep(vf: Links, p: seq<nat>, x: nat)
    requires ValidLinks(vf) && IsWalk(vf, p) && vf[p[|p| - 1]] == Some(x) && x !in p
    ensures IsWalk(vf, p + [x]) && Extend(vf, p + [x]) == Extend(vf, p)
    ensures Unvisited(vf, p + [x]) < Unvisited(vf, p)
  {
    assert x in Unvisited(vf, p) && x !in Unvisited(vf, p + [x]);
  }

  /** The path of `o` is a walk from `o` that cannot go on. */
  lemma PathIsStoppedWalk(vf: Links, o: nat)
    requires ValidLinks(vf) && o < |vf|
    ensures IsWalk(vf, Path(vf, o)) && Stopped(vf, Path(vf, o)) && Path(vf, o)[0] == o
  {
    ExtendIsStoppedWalk(vf, [o]);
  }

  /** A path is closed under the links: every link out of a member leads to a member. */
  lemma PathClosed(vf: Links, o: nat, u: nat)
    requires ValidLinks(vf) && o < |vf|
    requires u < |vf| && u in Path(vf, o) && vf[u].Some?
    ensures vf[u].value in Path(vf, o)
  {
    PathIsStoppedWalk(vf, o);
    var r := Path(vf, o);
    var i :| 0 <= i < |r| && r[i] == u;
    if i < |r| - 1 {
      assert vf[r[i]] == Some(r[i + 1]);
    }
  }

  /** The member at position `l` of a walk lies on the path of any earlier member. */
  lemma {:induction false} WalkSuffixOnPath(vf: Links, p: seq<nat>, m: nat, l: nat)
    requires ValidLinks(vf) && IsWalk(vf, p)
    requires m <= l < |p|
    ensures p[l] in Path(vf, p[m])
    decreases l - m
  {
    PathIsStoppedWalk(vf, p[m]);
    if l == m {
      assert Path(vf, p[m])[0] == p[m];
    } else {
      WalkSuffixOnPath(vf, p, m, l - 1);
      assert vf[p[l - 1]] == Some(p[l]);
      PathClosed(vf, p[m], p[l - 1]);
    }
  }

  /** Reachability is transitive: the path of a member of `Path(o)` lies inside `Path(o)`. */
  lemma PathWithin(vf: Links, o: nat, u: nat)
    requires ValidLinks(vf) && o < |vf| && u < |vf|
    requires u in Path(vf, o)
    ensures forall z | z in Path(vf, u) :: z in Path(vf, o)
  {
    PathIsStoppedWalk(vf, u);
    var q := Path(vf, u);
    forall l | 0 <= l < |q| ensures q[l] in Path(vf, o) {
      PrefixWithin(vf, o, q, l);
    }
  }

  lemma {:induction false} PrefixWithin(vf: Links, o: nat, q: seq<nat>, l: nat)
    requires ValidLinks(vf) && o < |vf| && IsWalk(vf, q)
    requires q[0] in Path(vf, o) && l < |q|
    ensures q[l] in Path(vf, o)
  {
    if l > 0 {
      PrefixWithin(vf, o, q, l - 1);
      assert vf[q[l - 1]] == Some(q[l]);
      PathClosed(vf, o, q[l - 1]);
    }
  }

  /** One step of the walk: the path of `x` is `x` followed by the path of its target. */
  lemma PathUnfold(vf: Links, x: nat, a: nat)
    requires ValidLinks(vf) && x < |vf| && vf[x].Some?
    ensures a in Path(vf, x) <==> a == x || a in Path(vf, vf[x].value)
  {
    var z := vf[x].value;
    var r := Path(vf, x);
    PathIsStoppedWalk(vf, x);
    PathClosed(vf, x, x);
    if a in Path(vf, z) {
      PathWithin(vf, x, z);
    }
    if a in r && a != x {
      var i :| 0 <= i < |r| && r[i] == a;
      assert i >= 1;
      assert r[1] == z;
      WalkSuffixOnPath(vf, r, 1, i);
    }
  }

  /**
   * Two candidates that reach each other (they lie on one ring) are reached by exactly the same
   * origins.
   */
  lemma MutualSameOrigins(vf: Links, x: nat, y: nat, o: nat)
    requires ValidLinks(vf) && x < |vf| && y < |vf| && o < |vf|
    requires x in Path(vf, y) && y in Path(vf, x)
    ensures x in Path(vf, o) <==> y in Path(vf, o)
  {
    if x in Path(vf, o) {
      PathWithin(vf, o, x);
    }
    if y in Path(vf, o) {
      PathWithin(vf, o, y);
    }
  }

  /**
   * Two different voters of `t` that `t` cannot reach share no origin: a path through both would
   * pass through `t` between them, so `t` would reach the later one.
   */
  lemma NoSharedOrigin(vf: Links, t: nat, v1: nat, v2: nat, o: nat)
    requires ValidLinks(vf) && t < |vf| && v1 < |vf| && v2 < |vf| && o < |vf|
    requires v1 != v2 && vf[v1] == Some(t) && vf[v2] == Some(t)
    requires v1 !in Path(vf, t) && v2 !in Path(vf, t)
    ensures !(v1 in Path(vf, o) && v2 in Path(vf, o))
  {
    PathIsStoppedWalk(vf, o);
    var r := Path(vf, o);
    if v1 in r && v2 in r {
      var i :| 0 <= i < |r| && r[i] == v1;
      var j :| 0 <= j < |r| && r[j] == v2;
      if i < j {
        assert r[i + 1] == t;
        WalkSuffixOnPath(vf, r, i + 1, j);
      } else {
        assert r[j + 1] == t;
        WalkSuffixOnPath(vf, r, j + 1, i);
      }
    }
  }

  /** Sum of the votes of every origin `o < k` whose path contains `t` (`t` included). */
  function Inflow(vf: Links, votes: seq<nat>, t: nat, k: nat): nat
    requires ValidLinks(vf) && |votes| == |vf| && k <= |vf|
  {
    if k == 0 then 0
    else Inflow(vf, votes, t, k - 1) + (if t in Path(vf, k - 1) then votes[k - 1] else 0)
  }

  /** Sum of the votes of every OTHER origin `o < k` whose path reaches `t`. */
  function Received(vf: Links, votes: seq<nat>, t: nat, k: nat): nat
    requires ValidLinks(vf) && |votes| == |vf| && k <= |vf|
  {
    if k == 0 then 0
    else Received(vf, votes, t, k - 1) + (if k - 1 != t && t in Path(vf, k - 1) then votes[k - 1] else 0)
  }

  /** A candidate's own votes are the only difference between what flows in and what it receives. */
  lemma {:induction false} InflowIsReceivedPlusOwn(vf: Links, votes: seq<nat>, t: nat, k: nat)
    requires ValidLinks(vf) && |votes| == |vf| && k <= |vf| && t < |vf|
    ensures Inflow(vf, votes, t, k) == Received(vf, votes, t, k) + (if t < k then votes[t] else 0)
  {
    if k > 0 {
      InflowIsReceivedPlusOwn(vf, votes, t, k - 1);
      PathIsStoppedWalk(vf, t);
    }
  }

  /** Candidates on one ring receive the same inflow. */
  lemma {:induction false} MutualSameInflow(vf: Links, votes: seq<nat>, x: nat, y: nat, k: nat)
    requires ValidLinks(vf) && |votes| == |vf| && k <= |vf| && x < |vf| && y < |vf|
    requires x in Path(vf, y) && y in Path(vf, x)
    ensures Inflow(vf, votes, x, k) == Inflow(vf, votes, y, k)
  {
    if k > 0 {
      MutualSameInflow(vf, votes, x, y, k - 1);
      MutualSameOrigins(vf, x, y, k - 1);
    }
  }

  /**
   * Two different voters of `t` that `t` cannot reach bring `t` no more than its whole inflow
   * between them.
   */
  lemma {:induction false} VotersShareInflow(vf: Links, votes: seq<nat>, t: nat, v1: nat, v2: nat, k: nat)
    requires ValidLinks(vf) && |votes| == |vf| && k <= |vf|
    requires t < |vf| && v1 < |vf| && v2 < |vf|
    requires v1 != v2 && vf[v1] == Some(t) && vf[v2] == Some(t)
    requires v1 !in Path(vf, t) && v2 !in Path(vf, t)
    ensures Inflow(vf, votes, v1, k) + Inflow(vf, votes, v2, k) <= Inflow(vf, votes, t, k)
  {
    if k > 0 {
      var o := k - 1;
      VotersShareInflow(vf, votes, t, v1, v2, o);
      NoSharedOrigin(vf, t, v1, v2, o);
      if v1 in Path(vf, o) {
        PathClosed(vf, o, v1);
      }
      if v2 in Path(vf, o) {
        PathClosed(vf, o, v2);
      }
    }
  }

  /** The last (highest-indexed) entry below `k` that votes for `t`. */
  function LastVoterBelow(vf: Links, t: nat, k: nat): Option<nat>
    requires k <= |vf|
  {
    if k == 0 then None
    else if vf[k - 1] == Some(t) then Some(k - 1)
    else LastVoterBelow(vf, t, k - 1)
  }

  /** `LastVoterBelow` finds a voter of `t` below `k`, and none lies between it and `k`. */
  lemma {:induction false} LastVoterBelowSpec(vf: Links, t: nat, k: nat)
    requires k <= |vf|
    ensures var r := LastVoterBelow(vf, t, k);
      && (r.Some? ==> r.value < k && vf[r.value] == Some(t))
      && forall j | (if r.Some? then r.value + 1 else 0) <= j < k :: vf[j] != Some(t)
  {
    if k > 0 && vf[k - 1] != Some(t) {
      LastVoterBelowSpec(vf, t, k - 1);
    }
  }

  /** The voters of `t` below `k`, in decreasing order. */
  function VotersBelow(vf: Links, t: nat, k: nat): seq<nat>
    requires k <= |vf|
  {
    if k == 0 then []
    else if vf[k - 1] == Some(t) then [k - 1] + VotersBelow(vf, t, k - 1)
    else VotersBelow(vf, t, k - 1)
  }

  lemma {:induction false} VotersBelowSpec(vf: Links, t: nat, k: nat)
    requires k <= |vf|
    ensures forall j :: j in VotersBelow(vf, t, k) <==> 0 <= j < k && vf[j] == Some(t)
    ensures forall a, b | 0 <= a < b < |VotersBelow(vf, t, k)| ::
      VotersBelow(vf, t, k)[a] > VotersBelow(vf, t, k)[b]
  {
    if k > 0 {
      VotersBelowSpec(vf, t, k - 1);
      var rest := VotersBelow(vf, t, k - 1);
      if vf[k - 1] == Some(t) {
        var r := VotersBelow(vf, t, k);
        assert r == [k - 1] + rest;
        forall a, b | 0 <= a < b < |r| ensures r[a] > r[b] {
          assert r[b] == rest[b - 1] && rest[b - 1] in rest;
          if a > 0 {
            assert r[a] == rest[a - 1];
          }
        }
      }
    }
  }

  /** A subset is no larger than its superset. */
  lemma {:induction false} SubsetCard(a: set<nat>, b: set<nat>)
    requires a <= b
    ensures |a| <= |b|
    decreases |b|
  {
    if a != {} {
      var x :| x in a;
      SubsetCard(a - {x}, b - {x});
    }
  }

  lemma {:induction false} BelowCard(n: nat)
    ensures |Below(n)| == n
  {
    if n > 0 {
      BelowCard(n - 1);
      var b := Below(n - 1);
      assert n - 1 !in b;
      assert Below(n) == b + {n - 1};
    }
  }
}
