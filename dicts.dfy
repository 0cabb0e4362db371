/**
 A Python dict filled by a loop: for every element of a list, a step decides
 whether to assign `d[key] = value` or to skip the element. The dict is the
 left fold of those assignments, so a later assignment to a key overwrites an
 earlier one.
 */
module Dicts {
  import opened Wrappers

  /** Performs one optional assignment `d[key] = value`. */
  function Assign<K(==), V>(d: map<K, V>, kv: Option<(K, V)>): map<K, V> {
    match kv
    case None => d
    case Some(p) => d[p.0 := p.1]
  }

  /** Starts from `d` and performs the assignment `step` produces for each of `es`, left to right. */
  function AssignAll<E, K(==), V>(d: map<K, V>, es: seq<E>, step: E -> Option<(K, V)>): map<K, V>
    decreases |es|
  {
    if es == [] then d else Assign(AssignAll(d, es[..|es| - 1], step), step(es[|es| - 1]))
  }

  /** Element `i` of `es` assigns to key `k`. */
  predicate AssignsTo<E, K(==), V>(es: seq<E>, step: E -> Option<(K, V)>, i: int, k: K) {
    0 <= i < |es| && step(es[i]).Some? && step(es[i]).value.0 == k
  }

  /** One more element extends the prefix fold by one assignment (the loop step). */
  lemma AssignAllPrefix<E, K, V>(d: map<K, V>, es: seq<E>, step: E -> Option<(K, V)>, i: nat)
    requires i < |es|
    ensures AssignAll(d, es[..i + 1], step) == Assign(AssignAll(d, es[..i], step), step(es[i]))
  {
    assert es[..i + 1][..i] == es[..i];
  }

  /** A key is in the dict iff it was there at the start or some element assigned to it. */
  lemma {:induction false} AssignAllKeys<E, K, V>(d: map<K, V>, es: seq<E>, step: E -> Option<(K, V)>, k: K)
    ensures k in AssignAll(d, es, step) <==> k in d || exists i :: AssignsTo(es, step, i, k)
    decreases |es|
  {
    if es != [] {
      var n := |es| - 1;
      var front := es[..n];
      AssignAllKeys(d, front, step, k);
      forall i | 0 <= i < n ensures AssignsTo(front, step, i, k) <==> AssignsTo(es, step, i, k) {
        assert front[i] == es[i];
      }
      if AssignsTo(es, step, n, k) {
      } else if exists i :: AssignsTo(es, step, i, k) {
        var i :| AssignsTo(es, step, i, k);
        assert AssignsTo(front, step, i, k);
      }
    }
  }

  /** The value under a key is the one assigned by the last element that assigns to it. */
  lemma {:induction false} AssignAllLastWins<E, K, V>(d: map<K, V>, es: seq<E>, step: E -> Option<(K, V)>, i: int, k: K)
    requires AssignsTo(es, step, i, k)
    requires forall j :: i < j < |es| ==> !AssignsTo(es, step, j, k)
    ensures k in AssignAll(d, es, step) && AssignAll(d, es, step)[k] == step(es[i]).value.1
    decreases |es|
  {
    var n := |es| - 1;
    var front := es[..n];
    if i < n {
      assert !AssignsTo(es, step, n, k);
      forall j | i < j < |front| ensures !AssignsTo(front, step, j, k) {
        assert front[j] == es[j];
        assert !AssignsTo(es, step, j, k);
      }
      assert front[i] == es[i];
      AssignAllLastWins(d, front, step, i, k);
    }
  }

  /** A key no element assigns to keeps the value it started with. */
  lemma {:induction false} AssignAllUntouched<E, K, V>(d: map<K, V>, es: seq<E>, step: E -> Option<(K, V)>, k: K)
    requires forall i :: !AssignsTo(es, step, i, k)
    ensures k in AssignAll(d, es, step) <==> k in d
    ensures k in d ==> AssignAll(d, es, step)[k] == d[k]
    decreases |es|
  {
    if es != [] {
      var n := |es| - 1;
      var front := es[..n];
      assert !AssignsTo(es, step, n, k);
      forall i ensures !AssignsTo(front, step, i, k) {
        if 0 <= i < n {
          assert front[i] == es[i];
          assert !AssignsTo(es, step, i, k);
        }
      }
      AssignAllUntouched(d, front, step, k);
    }
  }

  /** Each element adds at most one key. */
  lemma {:induction false} AssignAllSize<E, K, V>(d: map<K, V>, es: seq<E>, step: E -> Option<(K, V)>)
    ensures |AssignAll(d, es, step)| <= |d| + |es|
    decreases |es|
  {
    if es != [] {
      var n := |es| - 1;
      var front := AssignAll(d, es[..n], step);
      AssignAllSize(d, es[..n], step);
      match step(es[n])
      case None =>
      case Some(p) =>
        if p.0 in front {
          assert front[p.0 := p.1].Keys == front.Keys;
        } else {
          assert front[p.0 := p.1].Keys == front.Keys + {p.0};
        }
    }
  }
}
