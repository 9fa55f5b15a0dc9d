/** Generic sequence operations shared by the rule list and the file batch. */
module Seqs {

  /** `Array.prototype.filter`: keeps, in order, the elements `keep` accepts. */
  function Filter<T>(s: seq<T>, keep: T -> bool): (r: seq<T>)
    ensures |r| <= |s|
    ensures forall i :: 0 <= i < |r| ==> keep(r[i])
  {
    if s == [] then []
    else
      var rest := Filter(s[1..], keep);
      if keep(s[0]) then [s[0]] + rest else rest
  }

  /** The filter keeps every accepted element as often as it occurs, and nothing else. */
  lemma {:induction false} FilterCounts<T>(s: seq<T>, keep: T -> bool, x: T)
    ensures multiset(Filter(s, keep))[x] == if keep(x) then multiset(s)[x] else 0
  {
    if s != [] {
      FilterCounts(s[1..], keep, x);
      assert s == [s[0]] + s[1..];
    }
  }

  lemma FilterSingleton<T>(x: T, keep: T -> bool)
    ensures Filter([x], keep) == if keep(x) then [x] else []
  {
    assert [x][1..] == [];
  }

  /** Filtering distributes over concatenation, so it keeps the relative order of the survivors. */
  lemma {:induction false} FilterConcat<T>(a: seq<T>, b: seq<T>, keep: T -> bool)
    ensures Filter(a + b, keep) == Filter(a, keep) + Filter(b, keep)
  {
    if a == [] {
      assert a + b == b;
    } else {
      assert (a + b)[1..] == a[1..] + b;
      FilterConcat(a[1..], b, keep);
    }
  }

  /** A filter that accepts every element returns the sequence itself. */
  lemma {:induction false} FilterKeepsAll<T>(s: seq<T>, keep: T -> bool)
    requires forall i :: 0 <= i < |s| ==> keep(s[i])
    ensures Filter(s, keep) == s
  {
    if s != [] {
      FilterKeepsAll(s[1..], keep);
    }
  }

  /** A filter that rejects every element returns the empty sequence. */
  lemma {:induction false} FilterDropsAll<T>(s: seq<T>, keep: T -> bool)
    requires forall i :: 0 <= i < |s| ==> !keep(s[i])
    ensures Filter(s, keep) == []
  {
    if s != [] {
      FilterDropsAll(s[1..], keep);
    }
  }

  /** A filter that rejects exactly the element at `k` removes that element and keeps the rest in order. */
  lemma {:induction false} FilterRemovesOne<T>(s: seq<T>, k: nat, keep: T -> bool)
    requires k < |s| && !keep(s[k])
    requires forall i :: 0 <= i < |s| && i != k ==> keep(s[i])
    ensures Filter(s, keep) == s[..k] + s[k + 1..]
  {
    var tail := s[1..];
    if k == 0 {
      assert forall i :: 0 <= i < |tail| ==> tail[i] == s[i + 1];
      FilterKeepsAll(tail, keep);
    } else {
      assert keep(s[0]);
      assert forall i :: 0 <= i < |tail| && i != k - 1 ==> tail[i] == s[i + 1];
      FilterRemovesOne(tail, k - 1, keep);
      assert Filter(s, keep) == [s[0]] + Filter(tail, keep);
      assert [s[0]] + (tail[..k - 1] + tail[k..]) == s[..k] + s[k + 1..];
    }
  }

  /** `Array.prototype.map` with the index passed to the callback. */
  function MapIndexed<T, U>(s: seq<T>, f: (T, nat) -> U): (r: seq<U>)
    ensures |r| == |s| && forall i :: 0 <= i < |s| ==> r[i] == f(s[i], i)
  {
    seq(|s|, i requires 0 <= i < |s| => f(s[i], i))
  }

  /** Mapping one more element appends its image to the mapped prefix. */
  lemma MapIndexedSnoc<T, U>(s: seq<T>, k: nat, f: (T, nat) -> U)
    requires k < |s|
    ensures MapIndexed(s[..k + 1], f) == MapIndexed(s[..k], f) + [f(s[k], k)]
  {
    var longer, shorter := MapIndexed(s[..k + 1], f), MapIndexed(s[..k], f);
    assert |longer| == |shorter| + 1;
    forall i | 0 <= i < |longer| ensures longer[i] == (shorter + [f(s[k], k)])[i] {
      if i < k {
        assert s[..k + 1][i] == s[..k][i];
      }
    }
  }

  /** `s` with the elements at `i` and `j` exchanged. */
  function Swap<T>(s: seq<T>, i: nat, j: nat): (r: seq<T>)
    requires i < |s| && j < |s|
    ensures |r| == |s| && r[i] == s[j] && r[j] == s[i]
    ensures forall k :: 0 <= k < |s| && k != i && k != j ==> r[k] == s[k]
    ensures multiset(r) == multiset(s)
  {
    s[i := s[j]][j := s[i]]
  }

  /** Swapping the same two positions twice restores the sequence. */
  lemma SwapTwice<T>(s: seq<T>, i: nat, j: nat)
    requires i < |s| && j < |s|
    ensures Swap(Swap(s, i, j), i, j) == s
  {
  }
}
