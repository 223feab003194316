/** The pure side of the selection's membership vector: where the rotating
    erase cursor stops, and what the swap-and-pop leaves behind. The class
    in module Selection runs the loop; these functions say what it computes. */
module Membership {

  /** The first index j >= c with s[j] == t, or |s| when there is none. */
  function FirstFrom<T(==)>(s: seq<T>, c: nat, t: T): (j: nat)
    requires c <= |s|
    ensures c <= j <= |s|
    ensures j < |s| ==> s[j] == t
    ensures forall i :: c <= i < j ==> s[i] != t
    decreases |s| - c
  {
    if c == |s| then c
    else if s[c] == t then c
    else FirstFrom(s, c + 1, t)
  }

  /** The slot at which a scan that starts at cursor c, and wraps to the
      front once it reaches the end, first meets t. */
  function ScanIndex<T(==)>(s: seq<T>, c: nat, t: T): (k: nat)
    requires c <= |s| && t in s
    ensures k < |s| && s[k] == t
    ensures c <= k ==> forall i :: c <= i < k ==> s[i] != t
    ensures k < c ==> (forall i :: c <= i < |s| ==> s[i] != t) &&
                      (forall i :: 0 <= i < k ==> s[i] != t)
  {
    var j := FirstFrom(s, c, t);
    if j < |s| then j else FirstFrom(s, 0, t)
  }

  /** Swap-and-pop at slot k: the last element moves into slot k and the
      sequence shrinks by one. */
  function RemovedAt<T>(s: seq<T>, k: nat): (r: seq<T>)
    requires k < |s|
    ensures |r| == |s| - 1
    ensures forall i :: 0 <= i < |r| && i != k ==> r[i] == s[i]
    ensures k < |r| ==> r[k] == s[|s| - 1]
  {
    s[k := s[|s| - 1]][..|s| - 1]
  }

  /** Swap-and-pop removes exactly one occurrence of the element at slot k
      and keeps every other element. */
  lemma {:induction false} RemovedAtMultiset<T>(s: seq<T>, k: nat)
    requires k < |s|
    ensures multiset(RemovedAt(s, k)) + multiset{s[k]} == multiset(s)
  {
    var n := |s|;
    if k == n - 1 {
      PopMultiset(s);
    } else {
      SwapPopMultiset(s, k);
    }
  }

  /** Popping the last element. */
  lemma PopMultiset<T>(s: seq<T>)
    requires |s| > 0
    ensures multiset(RemovedAt(s, |s| - 1)) + multiset{s[|s| - 1]} == multiset(s)
  {
    var n := |s|;
    assert RemovedAt(s, n - 1) == s[..n - 1];
    assert s == s[..n - 1] + [s[n - 1]];
  }

  /** Moving the last element into an earlier slot k and popping. */
  lemma SwapPopMultiset<T>(s: seq<T>, k: nat)
    requires k < |s| - 1
    ensures multiset(RemovedAt(s, k)) + multiset{s[k]} == multiset(s)
  {
    var n := |s|;
    var before, after := multiset(s[..k]), multiset(s[k + 1..n - 1]);
    RemovedAtParts(s, k);
    SourceParts(s, k);
    Swapped(before, after, s[n - 1], s[k]);
  }

  lemma RemovedAtParts<T>(s: seq<T>, k: nat)
    requires k < |s| - 1
    ensures multiset(RemovedAt(s, k)) == multiset(s[..k]) + multiset{s[|s| - 1]} + multiset(s[k + 1..|s| - 1])
  {
    var r := RemovedAt(s, k);
    SplitMultiset(r, k);
    assert r[..k] == s[..k];
    assert r[k + 1..] == s[k + 1..|s| - 1];
  }

  lemma SourceParts<T>(s: seq<T>, k: nat)
    requires k < |s| - 1
    ensures multiset(s) == multiset(s[..k]) + multiset{s[k]} + multiset(s[k + 1..|s| - 1]) + multiset{s[|s| - 1]}
  {
    var n := |s|;
    assert s == s[..n - 1] + [s[n - 1]];
    SplitMultiset(s[..n - 1], k);
    assert s[..n - 1][..k] == s[..k];
    assert s[..n - 1][k + 1..] == s[k + 1..n - 1];
  }

  lemma Swapped<T>(a: multiset<T>, b: multiset<T>, x: T, y: T)
    ensures a + multiset{x} + b + multiset{y} == a + multiset{y} + b + multiset{x}
  {
  }

  /** A sequence is what lies before slot k, the element at k, and what
      lies after it. */
  lemma SplitMultiset<T>(s: seq<T>, k: nat)
    requires k < |s|
    ensures multiset(s) == multiset(s[..k]) + multiset{s[k]} + multiset(s[k + 1..])
  {
    assert s == s[..k] + [s[k]] + s[k + 1..];
  }

  /** Where the cursor is left after swap-and-pop at slot k: back at the
      front when the slot held the same value as the last element, at the
      same index otherwise. */
  function CursorAfter<T(==)>(s: seq<T>, k: nat): (c: nat)
    requires k < |s|
    ensures c <= |RemovedAt(s, k)|
    ensures c == 0 || c == k
  {
    if s[k] == s[|s| - 1] then 0 else k
  }

  /** Appending t (which leaves the cursor at 0) and then removing t gives
      back the multiset the vector held before. */
  lemma AddThenRemoveRestores<T>(s: seq<T>, t: T)
    ensures t in s + [t]
    ensures multiset(RemovedAt(s + [t], ScanIndex(s + [t], 0, t))) == multiset(s)
  {
    var u := s + [t];
    assert u[|s|] == t;
    var k := ScanIndex(u, 0, t);
    RemovedAtMultiset(u, k);
    assert multiset(u) == multiset(s) + multiset{t};
  }
}
