/** Order-preserving "keep some elements, transform each kept one" over a
    sequence — the shape shared by the transcript loop and by the device-list
    loop — together with the positions it keeps, so that "exactly the selected
    inputs, in input order" can be stated and proved once.
 */
module Selection {

  /** The positions of the elements of `s` that `keep` accepts, in increasing order. */
  function Select<T>(s: seq<T>, keep: T -> bool): (idx: seq<nat>)
    ensures forall k :: 0 <= k < |idx| ==> idx[k] < |s| && keep(s[idx[k]])
    ensures forall k, l :: 0 <= k < l < |idx| ==> idx[k] < idx[l]
    ensures forall i :: 0 <= i < |s| && keep(s[i]) ==> i in idx
  {
    if s == [] then []
    else
      var n := |s| - 1;
      var prev := Select(s[..n], keep);
      assert forall k :: 0 <= k < |prev| ==> s[..n][prev[k]] == s[prev[k]];
      assert forall i :: 0 <= i < n ==> s[..n][i] == s[i];
      prev + (if keep(s[n]) then [n] else [])
  }

  /** `[f(x) for x in s if keep(x)]`, built from the left as a loop appending to a list would. */
  function FilterMap<T, U>(s: seq<T>, keep: T -> bool, f: T -> U): seq<U>
  {
    if s == [] then []
    else
      var n := |s| - 1;
      FilterMap(s[..n], keep, f) + (if keep(s[n]) then [f(s[n])] else [])
  }

  /** The result has one entry per accepted element, in input order: entry `k` is
      `f` of the `k`-th accepted element, whose position `Select` gives. */
  lemma {:induction false} FilterMapIsSelection<T, U>(s: seq<T>, keep: T -> bool, f: T -> U)
    ensures var idx := Select(s, keep);
      && |FilterMap(s, keep, f)| == |idx|
      && forall k :: 0 <= k < |idx| ==> FilterMap(s, keep, f)[k] == f(s[idx[k]])
  {
    if s != [] {
      var n := |s| - 1;
      FilterMapIsSelection(s[..n], keep, f);
      var prev := Select(s[..n], keep);
      var idx := Select(s, keep);
      var r := FilterMap(s, keep, f);
      assert idx == prev + (if keep(s[n]) then [n] else []);
      assert r == FilterMap(s[..n], keep, f) + (if keep(s[n]) then [f(s[n])] else []);
      forall k | 0 <= k < |idx| ensures r[k] == f(s[idx[k]]) {
        if k < |prev| {
          assert s[..n][prev[k]] == s[prev[k]];
        }
      }
    }
  }

  /** Nothing is produced exactly when no element is accepted. */
  lemma FilterMapEmptyIff<T, U>(s: seq<T>, keep: T -> bool, f: T -> U)
    ensures FilterMap(s, keep, f) == [] <==> forall i :: 0 <= i < |s| ==> !keep(s[i])
  {
    FilterMapIsSelection(s, keep, f);
    var idx := Select(s, keep);
    if exists i :: 0 <= i < |s| && keep(s[i]) {
      var i :| 0 <= i < |s| && keep(s[i]);
      assert i in idx;
    }
  }

  /** The positions kept from a prefix of `s` are the accepted positions of `s`
      below the prefix's length. */
  lemma SelectOfPrefix<T>(s: seq<T>, keep: T -> bool, n: nat)
    requires n <= |s|
    ensures var idx := Select(s[..n], keep);
      && (forall k :: 0 <= k < |idx| ==> idx[k] < n && keep(s[idx[k]]))
      && (forall i :: 0 <= i < n && keep(s[i]) ==> i in idx)
  {
    var idx := Select(s[..n], keep);
    forall k | 0 <= k < |idx| ensures idx[k] < n && keep(s[idx[k]]) {
      assert s[..n][idx[k]] == s[idx[k]];
    }
    forall i | 0 <= i < n && keep(s[i]) ensures i in idx {
      assert s[..n][i] == s[i];
    }
  }

  /** One loop step: the result for the first `i + 1` elements extends the result
      for the first `i` by the outcome of element `i`. */
  lemma FilterMapStep<T, U>(s: seq<T>, keep: T -> bool, f: T -> U, i: nat)
    requires i < |s|
    ensures FilterMap(s[..i + 1], keep, f) ==
            FilterMap(s[..i], keep, f) + (if keep(s[i]) then [f(s[i])] else [])
  {
    assert s[..i + 1][..i] == s[..i];
  }
}
