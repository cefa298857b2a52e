/**
 * Operations on the string lists that the team controller uses as sets: member lists and
 * team lists. The source keeps them duplicate-free by checking before every insertion.
 */
module Lists {

  /** The elements of a list, as a set. */
  function Elements(s: seq<string>): set<string> {
    set x | x in s
  }

  /** The elements of a non-empty list are its head and the elements of its tail. */
  lemma ElementsCons(s: seq<string>)
    requires s != []
    ensures Elements(s) == {s[0]} + Elements(s[1..])
  {
    assert forall x :: x in s <==> x == s[0] || x in s[1..];
  }

  /** No element occurs twice. */
  predicate NoDuplicates(s: seq<string>) {
    forall i, j :: 0 <= i < j < |s| ==> s[i] != s[j]
  }

  /** The position of the first occurrence of `x` in `s`. */
  function FirstIndex(s: seq<string>, x: string): (i: nat)
    requires x in s
    ensures i < |s| && s[i] == x
    ensures forall j :: 0 <= j < i ==> s[j] != x
  {
    if s[0] == x then 0 else 1 + FirstIndex(s[1..], x)
  }

  /**
   * Removal by "swap with last, then truncate": the last element is copied into position `i`
   * and the list is cut one shorter.
   */
  function SwapRemove(s: seq<string>, i: nat): (r: seq<string>)
    requires i < |s|
    ensures |r| == |s| - 1
    ensures forall j :: 0 <= j < |r| ==> r[j] == if j == i then s[|s| - 1] else s[j]
  {
    s[i := s[|s| - 1]][..|s| - 1]
  }

  /** The elements of `s` other than `x`, in their original order. */
  function Without(s: seq<string>, x: string): (r: seq<string>)
    ensures forall y :: y in r <==> y in s && y != x
    ensures |r| <= |s|
  {
    if s == [] then []
    else (if s[0] == x then [] else [s[0]]) + Without(s[1..], x)
  }

  /** Swap-removal takes exactly one occurrence of the removed element out, and nothing else. */
  lemma SwapRemoveMultiset(s: seq<string>, i: nat)
    requires i < |s|
    ensures multiset(SwapRemove(s, i)) == multiset(s) - multiset{s[i]}
  {
    var n, last := |s|, s[|s| - 1];
    var t := s[..n - 1];
    assert s == t + [last];
    assert multiset(s) == multiset(t) + multiset{last};
    if i < n - 1 {
      var front, back := t[..i], t[i + 1..];
      assert t == front + [s[i]] + back;
      assert SwapRemove(s, i) == front + [last] + back;
      assert multiset(t) == multiset(front) + multiset{s[i]} + multiset(back);
      assert multiset(SwapRemove(s, i)) == multiset(front) + multiset{last} + multiset(back);
    } else {
      assert SwapRemove(s, i) == t;
    }
  }

  /**
   * On a duplicate-free list, swap-removal keeps the list duplicate-free and removes exactly
   * the element at `i`: every other element stays.
   */
  lemma SwapRemoveMembers(s: seq<string>, i: nat)
    requires i < |s| && NoDuplicates(s)
    ensures NoDuplicates(SwapRemove(s, i))
    ensures forall x :: x in SwapRemove(s, i) <==> x in s && x != s[i]
  {
    var n, r := |s|, SwapRemove(s, i);
    // position in `s` that position `j` of `r` was taken from
    assert forall j :: 0 <= j < n - 1 ==> r[j] == s[if j == i then n - 1 else j];
    forall x | x in s && x != s[i]
      ensures x in r
    {
      var k :| 0 <= k < n && s[k] == x;
      if k == n - 1 {
        assert r[i] == x;
      } else {
        assert r[k] == x;
      }
    }
  }

  /** A duplicate-free list stays duplicate-free when any element is filtered out. */
  lemma {:induction false} WithoutUnique(s: seq<string>, x: string)
    requires NoDuplicates(s)
    ensures NoDuplicates(Without(s, x))
  {
    if s != [] {
      var t := s[1..];
      assert NoDuplicates(t) by {
        forall i, j | 0 <= i < j < |t|
          ensures t[i] != t[j]
        {
          assert t[i] == s[i + 1] && t[j] == s[j + 1];
        }
      }
      WithoutUnique(t, x);
      assert s[0] !in t by {
        forall k | 0 <= k < |t|
          ensures t[k] != s[0]
        {
          assert t[k] == s[k + 1];
        }
      }
      AppendUnique(if s[0] == x then [] else [s[0]], Without(t, x));
    }
  }

  /** Joining two duplicate-free lists with no common element gives a duplicate-free list. */
  lemma AppendUnique(a: seq<string>, b: seq<string>)
    requires NoDuplicates(a) && NoDuplicates(b)
    requires forall x :: x in a ==> x !in b
    ensures NoDuplicates(a + b)
  {
    var c := a + b;
    forall i, j | 0 <= i < j < |c|
      ensures c[i] != c[j]
    {
      if j < |a| {
        assert c[i] == a[i] && c[j] == a[j];
      } else if i >= |a| {
        assert c[i] == b[i - |a|] && c[j] == b[j - |a|];
      } else {
        assert c[i] == a[i] && c[j] == b[j - |a|] && a[i] in a;
      }
    }
  }
}
