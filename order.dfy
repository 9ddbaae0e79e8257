/**
 * The ordering `github_releases` and `gitee_releases` of `src/lib.rs` give a
 * decoded release list: `sort_by_key` on the id, then `reverse`, both in
 * place, so that the newest release (the largest id) comes first. The older
 * `src/api.rs` path only reverses.
 */
module ReleaseOrder {
  import opened Model

  /** Ascending by id, as `sort_by_key(|r| r.id)` leaves the list. */
  predicate SortedById(s: seq<Release>)
  {
    forall i, j :: 0 <= i < j < |s| ==> s[i].id <= s[j].id
  }

  /** Descending by id: newest first. */
  predicate NewestFirst(s: seq<Release>)
  {
    forall i, j :: 0 <= i < j < |s| ==> s[i].id >= s[j].id
  }

  /** No id occurs twice, as holds of the releases of one registry. */
  predicate UniqueIds(s: seq<Release>)
  {
    forall i, j :: 0 <= i < j < |s| ==> s[i].id != s[j].id
  }

  function Reversed<T>(s: seq<T>): seq<T>
  {
    if s == [] then [] else Reversed(s[1..]) + [s[0]]
  }

  lemma {:induction false} ReversedAt<T>(s: seq<T>, k: nat)
    requires k < |s|
    ensures |Reversed(s)| == |s| && Reversed(s)[k] == s[|s| - 1 - k]
  {
    ReversedLength(s[1..]);
    if k < |s| - 1 {
      ReversedAt(s[1..], k);
    }
  }

  lemma {:induction false} ReversedLength<T>(s: seq<T>)
    ensures |Reversed(s)| == |s|
  {
    if s != [] {
      ReversedLength(s[1..]);
    }
  }

  /** Reversing keeps every element and its multiplicity. */
  lemma {:induction false} ReversedPermutes<T>(s: seq<T>)
    ensures multiset(Reversed(s)) == multiset(s)
  {
    if s != [] {
      ReversedPermutes(s[1..]);
      assert s == [s[0]] + s[1..];
    }
  }

  /** Reversing an ascending list puts the newest release first. */
  lemma ReversedSortedIsNewestFirst(s: seq<Release>)
    requires SortedById(s)
    ensures NewestFirst(Reversed(s))
  {
    ReversedLength(s);
    forall i, j | 0 <= i < j < |s|
      ensures Reversed(s)[i].id >= Reversed(s)[j].id
    {
      ReversedAt(s, i);
      ReversedAt(s, j);
    }
  }

  /**
   * Walking a newest-first list backwards visits the releases oldest first,
   * strictly so when ids are distinct.
   */
  lemma ReversedNewestFirstIsOldestFirst(s: seq<Release>)
    requires NewestFirst(s)
    ensures SortedById(Reversed(s))
    ensures UniqueIds(s) ==> forall i, j :: 0 <= i < j < |Reversed(s)| ==> Reversed(s)[i].id < Reversed(s)[j].id
  {
    ReversedLength(s);
    forall i, j | 0 <= i < j < |s|
      ensures Reversed(s)[i].id <= Reversed(s)[j].id
      ensures UniqueIds(s) ==> Reversed(s)[i].id < Reversed(s)[j].id
    {
      ReversedAt(s, i);
      ReversedAt(s, j);
    }
  }

  /** With distinct ids the newest-first order is strict. */
  lemma NewestFirstStrict(s: seq<Release>, i: nat, j: nat)
    requires NewestFirst(s) && UniqueIds(s)
    requires i < j < |s|
    ensures s[i].id > s[j].id
  {
  }

  lemma ConsMultiset<T>(s: seq<T>)
    requires s != []
    ensures multiset(s[1..]) == multiset(s) - multiset{s[0]}
  {
    assert s == [s[0]] + s[1..];
  }

  /** Two newest-first permutations of a list with distinct ids start alike. */
  lemma SameNewest(a: seq<Release>, b: seq<Release>)
    requires NewestFirst(a) && NewestFirst(b) && UniqueIds(a)
    requires multiset(a) == multiset(b) && a != []
    ensures b != [] && a[0] == b[0]
  {
    assert a[0] in multiset(b);
    var k :| 0 <= k < |b| && b[k] == a[0];
    assert b[0] in multiset(a);
    var l :| 0 <= l < |a| && a[l] == b[0];
    assert b[0].id >= a[0].id;
    assert a[0].id >= b[0].id;
    assert l == 0;
  }

  /**
   * With distinct ids the newest-first order of a list is unique: any two
   * newest-first permutations of it are equal.
   */
  lemma {:induction false} NewestFirstUnique(a: seq<Release>, b: seq<Release>)
    requires NewestFirst(a) && NewestFirst(b) && UniqueIds(a)
    requires multiset(a) == multiset(b)
    ensures a == b
    decreases |a|
  {
    assert |a| == |multiset(a)| == |b|;
    if a != [] {
      SameNewest(a, b);
      ConsMultiset(a);
      ConsMultiset(b);
      NewestFirstUnique(a[1..], b[1..]);
      assert a == [a[0]] + a[1..] && b == [b[0]] + b[1..];
    }
  }

  /** Ascending by `key`. */
  predicate SortedBy<T>(s: seq<T>, key: T -> nat)
  {
    forall i, j :: 0 <= i < j < |s| ==> key(s[i]) <= key(s[j])
  }

  function Id(r: Release): nat
  {
    r.id
  }

  /** Exchanges the elements at `i` and `j`. */
  method Swap<T>(a: array<T>, i: nat, j: nat)
    requires i < a.Length && j < a.Length
    modifies a
    ensures a[i] == old(a[j]) && a[j] == old(a[i])
    ensures forall k :: 0 <= k < a.Length && k != i && k != j ==> a[k] == old(a[k])
    ensures multiset(a[..]) == multiset(old(a[..]))
  {
    a[i], a[j] := a[j], a[i];
    assert a[..] == old(a[..])[i := old(a[j])][j := old(a[i])];
  }

  /** Moves `a[i]` left past the larger keys before it, so that `a[..i + 1]` is sorted. */
  method InsertLeft<T>(a: array<T>, i: nat, key: T -> nat)
    requires i < a.Length
    requires forall p, q :: 0 <= p < q < i ==> key(a[p]) <= key(a[q])
    modifies a
    ensures forall p, q :: 0 <= p < q <= i ==> key(a[p]) <= key(a[q])
    ensures forall k :: i < k < a.Length ==> a[k] == old(a[k])
    ensures multiset(a[..]) == multiset(old(a[..]))
  {
    var j := i;
    while 0 < j && key(a[j - 1]) > key(a[j])
      invariant 0 <= j <= i
      invariant forall p, q :: 0 <= p < q <= i && p != j && q != j ==> key(a[p]) <= key(a[q])
      invariant forall q :: j < q <= i ==> key(a[j]) < key(a[q])
      invariant forall k :: i < k < a.Length ==> a[k] == old(a[k])
      invariant multiset(a[..]) == multiset(old(a[..]))
    {
      Swap(a, j - 1, j);
      j := j - 1;
    }
  }

  /** `sort_by_key`: an insertion sort that moves each element left past larger keys. */
  method SortByKey<T>(a: array<T>, key: T -> nat)
    modifies a
    ensures SortedBy(a[..], key)
    ensures multiset(a[..]) == multiset(old(a[..]))
  {
    var i := 0;
    while i < a.Length
      invariant 0 <= i <= a.Length
      invariant forall p, q :: 0 <= p < q < i ==> key(a[p]) <= key(a[q])
      invariant multiset(a[..]) == multiset(old(a[..]))
    {
      InsertLeft(a, i, key);
      i := i + 1;
    }
  }

  /** `reverse`, in place. */
  method ReverseInPlace<T>(a: array<T>)
    modifies a
    ensures a[..] == Reversed(old(a[..]))
  {
    ghost var was := a[..];
    var n := a.Length;
    var lo, hi := 0, a.Length - 1;
    while lo < hi
      invariant 0 <= lo <= hi + 1 <= n && lo + hi == n - 1 && |was| == n
      invariant forall k :: 0 <= k < lo ==> a[k] == was[n - 1 - k]
      invariant forall k :: hi < k < n ==> a[k] == was[n - 1 - k]
      invariant forall k :: lo <= k <= hi ==> a[k] == was[k]
    {
      a[lo], a[hi] := a[hi], a[lo];
      lo, hi := lo + 1, hi - 1;
    }
    ReversedLength(was);
    forall k | 0 <= k < n
      ensures a[k] == Reversed(was)[k]
    {
      ReversedAt(was, k);
    }
    assert a[..] == Reversed(was);
  }

  /** Sort by id, then reverse: the list is a newest-first permutation of what was decoded. */
  method NewestFirstInPlace(a: array<Release>)
    modifies a
    ensures NewestFirst(a[..])
    ensures multiset(a[..]) == multiset(old(a[..]))
  {
    SortByKey(a, Id);
    ghost var sorted := a[..];
    assert SortedById(sorted) by {
      assert SortedBy(sorted, Id);
    }
    ReverseInPlace(a);
    ReversedSortedIsNewestFirst(sorted);
    ReversedPermutes(sorted);
  }
}
