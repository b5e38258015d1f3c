/**
 * The deterministic tie breaker shared by both vote-counting variants: the tied winners are
 * sorted (stably) by a 64-byte Blake2b key and the first one wins.
 */
module TieBreaking {
  import opened Wrappers

  /** The order Rust gives byte arrays: lexicographic, a proper prefix first. */
  predicate BytesLess(a: seq<bv8>, b: seq<bv8>) {
    if a == [] then b != []
    else if b == [] then false
    else a[0] < b[0] || (a[0] == b[0] && BytesLess(a[1..], b[1..]))
  }

  lemma {:induction false} BytesLessIrreflexive(a: seq<bv8>)
    ensures !BytesLess(a, a)
  {
    if a != [] {
      BytesLessIrreflexive(a[1..]);
    }
  }

  lemma {:induction false} BytesLessTransitive(a: seq<bv8>, b: seq<bv8>, c: seq<bv8>)
    requires BytesLess(a, b) && BytesLess(b, c)
    ensures BytesLess(a, c)
  {
    if a != [] && a[0] == b[0] && b[0] == c[0] {
      BytesLessTransitive(a[1..], b[1..], c[1..]);
    }
  }

  lemma {:induction false} BytesLessTotal(a: seq<bv8>, b: seq<bv8>)
    ensures a == b || BytesLess(a, b) || BytesLess(b, a)
  {
    if a != [] && b != [] && a[0] == b[0] {
      BytesLessTotal(a[1..], b[1..]);
      if a[1..] == b[1..] {
        assert a == [a[0]] + a[1..] && b == [b[0]] + b[1..];
      }
    }
  }

  /** The position of the first of the least keys. */
  function FirstLeast(keys: seq<seq<bv8>>): (i: nat)
    requires keys != []
    ensures i < |keys|
  {
    if |keys| == 1 then 0
    else
      var i := FirstLeast(keys[..|keys| - 1]);
      if BytesLess(keys[|keys| - 1], keys[i]) then |keys| - 1 else i
  }

  /**
   * `i` is where a stable sort by key followed by taking the first element lands: no key is less
   * than the key at `i`, and every key before `i` is greater.
   */
  predicate IsFirstLeast(keys: seq<seq<bv8>>, i: nat) {
    && i < |keys|
    && (forall j | 0 <= j < |keys| :: !BytesLess(keys[j], keys[i]))
    && (forall j | 0 <= j < i :: BytesLess(keys[i], keys[j]))
  }

  lemma {:induction false} FirstLeastSpec(keys: seq<seq<bv8>>)
    requires keys != []
    ensures IsFirstLeast(keys, FirstLeast(keys))
  {
    if |keys| == 1 {
      BytesLessIrreflexive(keys[0]);
    } else {
      var rest := keys[..|keys| - 1];
      var last := keys[|keys| - 1];
      FirstLeastSpec(rest);
      var i := FirstLeast(rest);
      assert rest[i] == keys[i];
      if BytesLess(last, keys[i]) {
        BytesLessIrreflexive(last);
        forall j | 0 <= j < |keys| - 1 ensures BytesLess(last, keys[j]) && !BytesLess(keys[j], last) {
          assert rest[j] == keys[j];
          BytesLessTotal(keys[i], keys[j]);
          if BytesLess(keys[i], keys[j]) {
            BytesLessTransitive(last, keys[i], keys[j]);
          }
          if BytesLess(keys[j], last) {
            BytesLessTransitive(keys[j], last, keys[i]);
          }
        }
      } else {
        forall j | 0 <= j < |keys| ensures !BytesLess(keys[j], keys[i]) {
          if j < |keys| - 1 {
            assert rest[j] == keys[j];
          }
        }
        forall j | 0 <= j < i ensures BytesLess(keys[i], keys[j]) {
          assert rest[j] == keys[j];
        }
      }
    }
  }

  /**
   * No winner, the only one, or the first of the winners with the least key (what sorting them
   * by key and taking the first yields).
   */
  function PickByKey(winners: seq<nat>, keys: seq<seq<bv8>>): Option<nat>
    requires |keys| == |winners|
  {
    if |winners| == 0 then None
    else if |winners| == 1 then Some(winners[0])
    else Some(winners[FirstLeast(keys)])
  }

  /** The pick is one of the winners, the first with the least key, and fails only on none. */
  lemma {:induction false} PickByKeySpec(winners: seq<nat>, keys: seq<seq<bv8>>)
    requires |keys| == |winners|
    ensures PickByKey(winners, keys).None? <==> winners == []
    ensures PickByKey(winners, keys).Some? ==>
      exists i | 0 <= i < |winners| :: winners[i] == PickByKey(winners, keys).value && IsFirstLeast(keys, i)
  {
    if winners != [] {
      FirstLeastSpec(keys);
      if |winners| == 1 {
        BytesLessIrreflexive(keys[0]);
        assert IsFirstLeast(keys, 0);
      }
    }
  }
}
