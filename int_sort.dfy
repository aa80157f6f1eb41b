/** Ascending sort of integer sequences, the behaviour `Array.prototype.sort` has on the day numbers 0 to 6. */
module IntSort {
  import opened SeqUtil

  predicate Sorted(s: seq<int>) {
    forall i, j | 0 <= i < j < |s| :: s[i] <= s[j]
  }

  function Insert(x: int, s: seq<int>): (r: seq<int>)
    requires Sorted(s)
    ensures Sorted(r)
    ensures multiset(r) == multiset(s) + multiset{x}
    ensures forall k | 0 <= k < |r| :: r[k] == x || r[k] in s
  {
    if s == [] then [x]
    else if x <= s[0] then [x] + s
    else
      assert s == [s[0]] + s[1..];
      var tail := Insert(x, s[1..]);
      assert forall k | 0 <= k < |tail| :: s[0] <= tail[k];
      [s[0]] + tail
  }

  function Sort(s: seq<int>): (r: seq<int>)
    ensures Sorted(r)
    ensures multiset(r) == multiset(s)
  {
    if s == [] then []
    else
      assert s == [s[0]] + s[1..];
      Insert(s[0], Sort(s[1..]))
  }

  lemma HeadIsLeast(a: seq<int>, y: int)
    requires Sorted(a) && y in multiset(a)
    ensures a != [] && a[0] <= y
  {
    var k :| 0 <= k < |a| && a[k] == y;
  }

  lemma MultisetTail(a: seq<int>)
    requires a != []
    ensures multiset(a[1..]) == multiset(a) - multiset{a[0]}
  {
    assert a == [a[0]] + a[1..];
  }

  lemma HeadsEqual(a: seq<int>, b: seq<int>)
    requires Sorted(a) && Sorted(b) && a != []
    requires multiset(a) == multiset(b)
    ensures b != [] && a[0] == b[0]
  {
    assert a[0] in multiset(a);
    HeadIsLeast(b, a[0]);
    assert b[0] in multiset(b);
    HeadIsLeast(a, b[0]);
  }

  /** A sorted arrangement of a multiset is unique. */
  lemma {:induction false} SortedUnique(a: seq<int>, b: seq<int>)
    requires Sorted(a) && Sorted(b)
    requires multiset(a) == multiset(b)
    ensures a == b
  {
    if a == [] {
      assert |b| == |multiset(b)| == 0;
    } else {
      HeadsEqual(a, b);
      MultisetTail(a);
      MultisetTail(b);
      SortedUnique(a[1..], b[1..]);
      assert a == [a[0]] + a[1..] && b == [b[0]] + b[1..];
    }
  }

  /** Removing every copy of a value keeps a sorted sequence sorted. */
  lemma {:induction false} WithoutKeepsSorted(s: seq<int>, x: int)
    requires Sorted(s)
    ensures Sorted(Without(s, x))
  {
    if s != [] {
      var tail := s[1..];
      assert Sorted(tail);
      WithoutKeepsSorted(tail, x);
      var rest := Without(tail, x);
      if s[0] != x {
        assert Without(s, x) == [s[0]] + rest;
        forall k | 0 <= k < |rest| ensures s[0] <= rest[k] {
          assert rest[k] in tail;
        }
        ConsSorted(s[0], rest);
      } else {
        assert Without(s, x) == rest;
      }
    }
  }

  lemma ConsSorted(y: int, s: seq<int>)
    requires Sorted(s) && forall k | 0 <= k < |s| :: y <= s[k]
    ensures Sorted([y] + s)
  {
    var t := [y] + s;
    forall i, j | 0 <= i < j < |t| ensures t[i] <= t[j] {
      assert t[j] == s[j - 1];
      if i > 0 {
        assert t[i] == s[i - 1];
      }
    }
  }
}
