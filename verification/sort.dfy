/**
 * `sort.SliceStable(times, func(i, j int) bool { return times[i].Unix() < times[j].Unix() })`:
 * a stable sort of a slice of instants by whole Unix seconds, done in place
 * by insertion, which swaps two neighbours only when they are strictly out of
 * order and so never reorders equal keys.
 */
module UnixSort {
  import opened Calendar

  /** Non-decreasing by `Unix()`, the order the comparator asks for. */
  ghost predicate SortedByUnix(s: seq<Instant>) {
    forall i, j :: 0 <= i < j < |s| ==> UnixSeconds(s[i]) <= UnixSeconds(s[j])
  }

  /** Cells 0..hi of `s`, leaving out cell `j`, are in Unix order, and cell `j` is below every cell after it up to `hi`. */
  ghost predicate Inserting(s: seq<Instant>, hi: int, j: int)
    requires 0 <= j <= hi < |s|
  {
    && (forall p, q :: 0 <= p < q <= hi && p != j && q != j ==> UnixSeconds(s[p]) <= UnixSeconds(s[q]))
    && (forall q :: j < q <= hi ==> UnixSeconds(s[j]) < UnixSeconds(s[q]))
  }

  lemma InsertingStart(s: seq<Instant>, i: int)
    requires 0 <= i < |s| && SortedByUnix(s[..i])
    ensures Inserting(s, i, i)
  {
    forall p, q | 0 <= p < q < i ensures UnixSeconds(s[p]) <= UnixSeconds(s[q]) {
      assert s[..i][p] == s[p] && s[..i][q] == s[q];
    }
  }

  lemma InsertingSwap(s: seq<Instant>, i: int, j: int)
    requires 0 < j <= i < |s| && Inserting(s, i, j)
    requires UnixSeconds(s[j - 1]) > UnixSeconds(s[j])
    ensures Inserting(s[j - 1 := s[j]][j := s[j - 1]], i, j - 1)
    ensures multiset(s[j - 1 := s[j]][j := s[j - 1]]) == multiset(s)
  {
  }

  lemma InsertingDone(s: seq<Instant>, i: int, j: int)
    requires 0 <= j <= i < |s| && Inserting(s, i, j)
    requires j == 0 || UnixSeconds(s[j - 1]) <= UnixSeconds(s[j])
    ensures SortedByUnix(s[..i + 1])
  {
  }

  lemma PrefixPermutes(s: seq<Instant>, t: seq<Instant>, n: int)
    requires 0 <= n <= |s| == |t|
    requires multiset(s) == multiset(t)
    requires forall k :: n <= k < |s| ==> s[k] == t[k]
    ensures multiset(s[..n]) == multiset(t[..n]) && s[n..] == t[n..]
  {
    assert s[n..] == t[n..];
    assert s == s[..n] + s[n..];
    assert t == t[..n] + t[n..];
    assert multiset(s[..n]) == multiset(s) - multiset(s[n..]);
    assert multiset(t[..n]) == multiset(t) - multiset(t[n..]);
  }

  /** One pass of insertion: sinks cell `i` into the sorted cells before it. */
  method InsertLast(a: array<Instant>, i: nat)
    requires i < a.Length
    requires SortedByUnix(a[..i])
    modifies a
    ensures SortedByUnix(a[..i + 1])
    ensures multiset(a[..]) == multiset(old(a[..]))
    ensures forall k :: i < k < a.Length ==> a[k] == old(a[k])
  {
    var j := i;
    InsertingStart(a[..], i);
    assert a[..][..i] == a[..i];
    while j > 0 && UnixSeconds(a[j - 1]) > UnixSeconds(a[j])
      invariant 0 <= j <= i
      invariant Inserting(a[..], i, j)
      invariant multiset(a[..]) == multiset(old(a[..]))
      invariant forall k :: i < k < a.Length ==> a[k] == old(a[k])
    {
      ghost var before := a[..];
      a[j - 1], a[j] := a[j], a[j - 1];
      assert a[..] == before[j - 1 := before[j]][j := before[j - 1]];
      InsertingSwap(before, i, j);
      j := j - 1;
    }
    InsertingDone(a[..], i, j);
    assert a[..][..i + 1] == a[..i + 1];
  }

  /** Sorts the first `n` cells (the slice's length) and leaves the rest of the backing array alone. */
  method SortByUnix(a: array<Instant>, n: nat)
    requires n <= a.Length
    modifies a
    ensures SortedByUnix(a[..n])
    ensures multiset(a[..n]) == multiset(old(a[..n]))
    ensures a[n..] == old(a[n..])
  {
    ghost var original := a[..];
    var i := 0;
    while i < n
      invariant 0 <= i <= n
      invariant SortedByUnix(a[..i])
      invariant multiset(a[..]) == multiset(original)
      invariant forall k :: n <= k < a.Length ==> a[k] == original[k]
    {
      InsertLast(a, i);
      i := i + 1;
    }
    PrefixPermutes(a[..], original, n);
    assert a[..][..n] == a[..n] && a[..][n..] == a[n..];
    assert old(a[..n]) == original[..n];
  }
}
