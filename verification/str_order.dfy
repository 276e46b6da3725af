/**
 Byte-wise string order, as `strcmp` defines it, and sorting by it.

 A `char` stands for one byte of a C string. `strcmp` returns an int whose
 SIGN is its whole meaning to the callers modelled here, so `StrCmp` returns
 that sign. `list_sort` (a qsort underneath) is not modelled step by step:
 `Sort` is an insertion sort whose contract is "a sorted permutation", and
 `SortedPermutationUnique` shows that every correct sort returns the same list.
 */
module StrOrder {

  /** The sign of `strcmp(a, b)`: bytes compared left to right, a proper prefix first. */
  function StrCmp(a: string, b: string): (c: int)
    ensures -1 <= c <= 1
    ensures c == 0 <==> a == b
  {
    if |a| == 0 && |b| == 0 then 0
    else if |a| == 0 then -1
    else if |b| == 0 then 1
    else if a[0] < b[0] then -1
    else if a[0] > b[0] then 1
    else
      assert a == [a[0]] + a[1..] && b == [b[0]] + b[1..];
      StrCmp(a[1..], b[1..])
  }

  /**
   Lexicographic precedence stated without recursion: `a` is a proper prefix
   of `b`, or the two first differ at a position where `a` has the smaller byte.
   */
  ghost predicate Precedes(a: string, b: string) {
    || (|a| < |b| && a == b[..|a|])
    || exists k :: 0 <= k < |a| && k < |b| && a[..k] == b[..k] && a[k] < b[k]
  }

  /** `StrCmp` is negative exactly when `a` lexicographically precedes `b`. */
  lemma {:induction false} StrCmpIsLexicographic(a: string, b: string)
    ensures StrCmp(a, b) < 0 <==> Precedes(a, b)
    decreases |a|
  {
    if |a| == 0 {
      assert |b| > 0 ==> a == b[..0];
    } else if |b| == 0 {
    } else if a[0] < b[0] {
      assert a[..0] == b[..0];
    } else if a[0] > b[0] {
    } else {
      StrCmpIsLexicographic(a[1..], b[1..]);
      PrecedesTail(a, b);
    }
  }

  /** Equal first bytes: precedence is decided by the rest. */
  lemma PrecedesTail(a: string, b: string)
    requires |a| > 0 && |b| > 0 && a[0] == b[0]
    ensures Precedes(a, b) <==> Precedes(a[1..], b[1..])
  {
    var a', b' := a[1..], b[1..];
    if Precedes(a', b') {
      if |a'| < |b'| && a' == b'[..|a'|] {
        assert a == [a[0]] + a' && b[..|a|] == [b[0]] + b'[..|a'|];
      } else {
        var k :| 0 <= k < |a'| && k < |b'| && a'[..k] == b'[..k] && a'[k] < b'[k];
        assert a[..k + 1] == [a[0]] + a'[..k] && b[..k + 1] == [b[0]] + b'[..k];
      }
    }
    if Precedes(a, b) {
      if |a| < |b| && a == b[..|a|] {
        assert b'[..|a'|] == b[..|a|][1..];
      } else {
        var k :| 0 <= k < |a| && k < |b| && a[..k] == b[..k] && a[k] < b[k];
        assert k > 0;
        assert a'[..k - 1] == a[..k][1..] && b'[..k - 1] == b[..k][1..];
      }
    }
  }

  lemma {:induction false} StrCmpAntisymmetric(a: string, b: string)
    ensures StrCmp(a, b) == -StrCmp(b, a)
    decreases |a|
  {
    if |a| > 0 && |b| > 0 && a[0] == b[0] {
      StrCmpAntisymmetric(a[1..], b[1..]);
    }
  }

  lemma {:induction false} StrCmpTransitive(a: string, b: string, c: string)
    requires StrCmp(a, b) <= 0 && StrCmp(b, c) <= 0
    ensures StrCmp(a, c) <= 0
    decreases |a|
  {
    if |a| > 0 && |b| > 0 && |c| > 0 && a[0] == b[0] && b[0] == c[0] {
      StrCmpTransitive(a[1..], b[1..], c[1..]);
    }
  }

  /** Strictly before then weakly before is strictly before. */
  lemma StrCmpStrictTransitive(a: string, b: string, c: string)
    requires StrCmp(a, b) < 0 && StrCmp(b, c) <= 0
    ensures StrCmp(a, c) < 0
  {
    StrCmpTransitive(a, b, c);
    if a == c {
      StrCmpAntisymmetric(a, b);
    }
  }

  /** Ascending in `strcmp` order, as `list_sort(l, list_string_cmp)` leaves a list. */
  ghost predicate Sorted(s: seq<string>) {
    forall i, j :: 0 <= i < j < |s| ==> StrCmp(s[i], s[j]) <= 0
  }

  /** Putting an element no greater than every member in front keeps a list sorted. */
  lemma PrependSorted(x: string, s: seq<string>)
    requires Sorted(s)
    requires forall j :: 0 <= j < |s| ==> StrCmp(x, s[j]) <= 0
    ensures Sorted([x] + s)
  {
  }

  function Insert(x: string, s: seq<string>): (r: seq<string>)
    requires Sorted(s)
    ensures Sorted(r)
    ensures multiset(r) == multiset(s) + multiset{x}
  {
    if s == [] then [x]
    else if StrCmp(x, s[0]) <= 0 then
      InsertFrontBound(x, s);
      PrependSorted(x, s);
      [x] + s
    else
      assert s == [s[0]] + s[1..];
      var rest := Insert(x, s[1..]);
      InsertTailBound(x, s, rest);
      PrependSorted(s[0], rest);
      [s[0]] + rest
  }

  lemma InsertFrontBound(x: string, s: seq<string>)
    requires Sorted(s) && |s| > 0
    requires StrCmp(x, s[0]) <= 0
    ensures forall j :: 0 <= j < |s| ==> StrCmp(x, s[j]) <= 0
  {
    forall j | 0 < j < |s|
      ensures StrCmp(x, s[j]) <= 0
    {
      StrCmpTransitive(x, s[0], s[j]);
    }
  }

  lemma InsertTailBound(x: string, s: seq<string>, rest: seq<string>)
    requires Sorted(s) && |s| > 0
    requires StrCmp(x, s[0]) > 0
    requires multiset(rest) == multiset(s[1..]) + multiset{x}
    ensures forall j :: 0 <= j < |rest| ==> StrCmp(s[0], rest[j]) <= 0
  {
    forall j | 0 <= j < |rest|
      ensures StrCmp(s[0], rest[j]) <= 0
    {
      var y := rest[j];
      assert y in multiset(rest);
      if y == x {
        StrCmpAntisymmetric(x, s[0]);
      } else {
        assert y in multiset(s[1..]);
        assert y in s[1..];
        var k :| 0 <= k < |s[1..]| && s[1..][k] == y;
        assert s[k + 1] == y;
      }
    }
  }

  /** A model of `list_sort` with `list_string_cmp`: a sorted permutation. */
  function Sort(s: seq<string>): (r: seq<string>)
    ensures Sorted(r)
    ensures multiset(r) == multiset(s)
  {
    if s == [] then []
    else
      assert s == [s[0]] + s[1..];
      Insert(s[0], Sort(s[1..]))
  }

  lemma DropHead<T>(s: seq<T>)
    requires |s| > 0
    ensures multiset(s[1..]) == multiset(s) - multiset{s[0]}
  {
    assert s == [s[0]] + s[1..];
  }

  /** The head of a sorted list is no greater than any of its members. */
  lemma HeadIsLeast(s: seq<string>, y: string)
    requires Sorted(s) && y in s
    ensures StrCmp(s[0], y) <= 0
  {
    var k :| 0 <= k < |s| && s[k] == y;
    if k > 0 {
      assert StrCmp(s[0], s[k]) <= 0;
    }
  }

  /** Two sorted lists with the same elements are equal, so the sort algorithm is immaterial. */
  lemma {:induction false} SortedPermutationUnique(a: seq<string>, b: seq<string>)
    requires Sorted(a) && Sorted(b)
    requires multiset(a) == multiset(b)
    ensures a == b
    decreases |a|
  {
    assert |a| == |multiset(a)| == |multiset(b)| == |b|;
    if |a| > 0 {
      assert a[0] in multiset(b) && b[0] in multiset(a);
      HeadIsLeast(b, a[0]);
      HeadIsLeast(a, b[0]);
      StrCmpAntisymmetric(a[0], b[0]);
      assert a[0] == b[0];
      DropHead(a);
      DropHead(b);
      SortedPermutationUnique(a[1..], b[1..]);
    }
  }

  /** Nothing in a sorted list is below its head, so anything strictly below the head is absent. */
  lemma BelowHeadAbsent(x: string, s: seq<string>)
    requires Sorted(s) && |s| > 0
    requires StrCmp(x, s[0]) < 0
    ensures x !in s
    ensures multiset(s)[x] == 0
  {
    forall j | 0 <= j < |s|
      ensures s[j] != x
    {
      if j > 0 { StrCmpStrictTransitive(x, s[0], s[j]); }
    }
  }
}
