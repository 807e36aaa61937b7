/**
 * Positions picked out of a sequence, used to state that a function keeps
 * exactly the elements that pass a test, each once and in their order.
 */
module Selection {

  /** `idx` holds positions below `n`, strictly increasing. */
  predicate Increasing(idx: seq<int>, n: int)
  {
    && (forall k :: 0 <= k < |idx| ==> 0 <= idx[k] < n)
    && (forall k, l :: 0 <= k < l < |idx| ==> idx[k] < idx[l])
  }

  /**
   * `r` is `s` read at the increasing positions `idx`, each element mapped
   * by `f`, and `idx` holds exactly the positions whose element passes `keep`.
   */
  predicate Picks<T, U(==)>(r: seq<U>, s: seq<T>, keep: T -> bool, f: T -> U, idx: seq<int>)
  {
    && Increasing(idx, |s|) && |idx| == |r|
    && (forall k :: 0 <= k < |r| ==> keep(s[idx[k]]) && r[k] == f(s[idx[k]]))
    && (forall i :: 0 <= i < |s| && keep(s[i]) ==> i in idx)
  }

  /** The positions moved one place right, as when an element is put in front. */
  function Shift(idx: seq<int>): (r: seq<int>)
    ensures |r| == |idx|
    ensures forall k :: 0 <= k < |idx| ==> r[k] == idx[k] + 1
  {
    seq(|idx|, k requires 0 <= k < |idx| => idx[k] + 1)
  }

  /** The shifted positions of the passing elements of `s` are those of `[x] + s` after 0. */
  lemma ShiftCovers<T, U>(x: T, s: seq<T>, rest: seq<U>, keep: T -> bool, f: T -> U, idx: seq<int>)
    requires Picks(rest, s, keep, f, idx)
    ensures forall i :: 0 < i < |[x] + s| && keep(([x] + s)[i]) ==> i in Shift(idx)
  {
    var xs, sh := [x] + s, Shift(idx);
    forall i | 0 < i < |xs| && keep(xs[i]) ensures i in sh {
      assert xs[i] == s[i - 1];
      var k :| 0 <= k < |idx| && idx[k] == i - 1;
      assert sh[k] == i;
    }
  }

  /** Putting a passing `x` in front puts its image in front and position 0 before the shifted positions. */
  lemma PicksConsKept<T, U>(x: T, s: seq<T>, rest: seq<U>, keep: T -> bool, f: T -> U, idx: seq<int>)
    requires Picks(rest, s, keep, f, idx)
    requires keep(x)
    ensures Picks([f(x)] + rest, [x] + s, keep, f, [0] + Shift(idx))
  {
    var xs, sh := [x] + s, Shift(idx);
    var r, t := [f(x)] + rest, [0] + sh;
    ShiftCovers(x, s, rest, keep, f, idx);
    forall k | 0 <= k < |t| ensures 0 <= t[k] < |xs| {
      if k > 0 {
        assert t[k] == sh[k - 1];
      }
    }
    forall k, l | 0 <= k < l < |t| ensures t[k] < t[l] {
      assert t[l] == sh[l - 1];
      if k > 0 {
        assert t[k] == sh[k - 1];
      }
    }
    forall k | 0 < k < |r| ensures keep(xs[t[k]]) && r[k] == f(xs[t[k]]) {
      assert r[k] == rest[k - 1] && t[k] == idx[k - 1] + 1;
    }
    forall i | 0 <= i < |xs| && keep(xs[i]) ensures i in t {
      if i > 0 {
        assert i in sh;
      }
    }
  }

  /** Putting a failing `x` in front leaves the result as it is and shifts the positions. */
  lemma PicksConsSkipped<T, U>(x: T, s: seq<T>, rest: seq<U>, keep: T -> bool, f: T -> U, idx: seq<int>)
    requires Picks(rest, s, keep, f, idx)
    requires !keep(x)
    ensures Picks(rest, [x] + s, keep, f, Shift(idx))
  {
    var xs, sh := [x] + s, Shift(idx);
    ShiftCovers(x, s, rest, keep, f, idx);
    forall k | 0 <= k < |rest| ensures keep(xs[sh[k]]) && rest[k] == f(xs[sh[k]]) {
      assert xs[sh[k]] == s[idx[k]];
    }
  }
}
