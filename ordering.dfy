/** Lexicographic order on strings and sorting by it: the order in which the
    build puts the Markdown fragments of one lesson before handing them to
    the renderer. */
module Ordering {

  /** `a` comes no later than `b`: compare code point by code point, and a
      proper prefix comes first. On strings of Unicode scalar values this is
      the byte order of their UTF-8 encodings. */
  predicate LessEq(a: string, b: string)
    decreases |a|
  {
    |a| == 0 || (|b| > 0 && (a[0] < b[0] || (a[0] == b[0] && LessEq(a[1..], b[1..]))))
  }

  lemma {:induction false} LessEqReflexive(a: string)
    ensures LessEq(a, a)
    decreases |a|
  {
    if |a| > 0 {
      LessEqReflexive(a[1..]);
    }
  }

  lemma {:induction false} LessEqAntisymmetric(a: string, b: string)
    requires LessEq(a, b) && LessEq(b, a)
    ensures a == b
    decreases |a|
  {
    if |a| > 0 {
      LessEqAntisymmetric(a[1..], b[1..]);
      assert a == [a[0]] + a[1..] && b == [b[0]] + b[1..];
    }
  }

  lemma {:induction false} LessEqTransitive(a: string, b: string, c: string)
    requires LessEq(a, b) && LessEq(b, c)
    ensures LessEq(a, c)
    decreases |a|
  {
    if |a| > 0 && a[0] == b[0] && b[0] == c[0] {
      LessEqTransitive(a[1..], b[1..], c[1..]);
    }
  }

  lemma {:induction false} LessEqTotal(a: string, b: string)
    ensures LessEq(a, b) || LessEq(b, a)
    decreases |a|
  {
    if |a| > 0 && |b| > 0 && a[0] == b[0] {
      LessEqTotal(a[1..], b[1..]);
    }
  }

  /** Strings that share a prefix compare as their remainders do, so paths
      in one directory sort as their file names do. */
  lemma {:induction false} LessEqCommonPrefix(p: string, a: string, b: string)
    ensures LessEq(p + a, p + b) <==> LessEq(a, b)
    decreases |p|
  {
    if |p| > 0 {
      assert (p + a)[1..] == p[1..] + a && (p + b)[1..] == p[1..] + b;
      LessEqCommonPrefix(p[1..], a, b);
    } else {
      assert p + a == a && p + b == b;
    }
  }

  predicate Sorted(s: seq<string>)
  {
    forall i, j :: 0 <= i < j < |s| ==> LessEq(s[i], s[j])
  }

  /** Puts `x` before the first element of `s` it does not come after. */
  function Insert(x: string, s: seq<string>): seq<string>
  {
    if s == [] || LessEq(x, s[0]) then [x] + s
    else [s[0]] + Insert(x, s[1..])
  }

  /** The reference sort: insertion sort on values. */
  function Sort(s: seq<string>): seq<string>
  {
    if s == [] then [] else Insert(s[0], Sort(s[1..]))
  }

  lemma {:induction false} InsertPermutes(x: string, s: seq<string>)
    ensures multiset(Insert(x, s)) == multiset(s) + multiset{x}
    decreases |s|
  {
    if s != [] && !LessEq(x, s[0]) {
      InsertPermutes(x, s[1..]);
      assert s == [s[0]] + s[1..];
    }
  }

  /** Sorting neither adds nor loses anything. */
  lemma {:induction false} SortPermutes(s: seq<string>)
    ensures multiset(Sort(s)) == multiset(s)
    ensures |Sort(s)| == |s|
    decreases |s|
  {
    if s != [] {
      SortPermutes(s[1..]);
      InsertPermutes(s[0], Sort(s[1..]));
      assert s == [s[0]] + s[1..];
    }
    assert |Sort(s)| == |multiset(Sort(s))|;
  }

  /** `h` comes no later than any element of `s`. */
  predicate LowerBound(h: string, s: seq<string>)
  {
    forall j :: 0 <= j < |s| ==> LessEq(h, s[j])
  }

  lemma SortedCons(h: string, t: seq<string>)
    requires Sorted(t) && LowerBound(h, t)
    ensures Sorted([h] + t)
  {
    var r := [h] + t;
    forall i, j | 0 <= i < j < |r|
      ensures LessEq(r[i], r[j])
    {
      if i > 0 {
        assert r[i] == t[i - 1] && r[j] == t[j - 1];
      }
    }
  }

  lemma SortedTail(s: seq<string>)
    requires Sorted(s) && |s| > 0
    ensures Sorted(s[1..]) && LowerBound(s[0], s[1..])
  {
    forall i, j | 0 <= i < j < |s| - 1
      ensures LessEq(s[1..][i], s[1..][j])
    {
      assert s[1..][i] == s[i + 1] && s[1..][j] == s[j + 1];
    }
    forall j | 0 <= j < |s| - 1
      ensures LessEq(s[0], s[1..][j])
    {
      assert s[1..][j] == s[j + 1];
    }
  }

  /** Removing the first element from a sequence removes one occurrence of
      it from its multiset. */
  lemma MultisetTail<T>(s: seq<T>)
    requires |s| > 0
    ensures multiset(s[1..]) == multiset(s) - multiset{s[0]}
  {
    assert s == [s[0]] + s[1..];
  }

  /** The same for an element at any position. */
  lemma MultisetRemoveAt<T>(s: seq<T>, j: nat)
    requires j < |s|
    ensures s == s[..j] + [s[j]] + s[j + 1..]
    ensures multiset(s[..j] + s[j + 1..]) == multiset(s) - multiset{s[j]}
  {
    assert s == s[..j] + [s[j]] + s[j + 1..];
  }

  lemma {:induction false} LowerBoundInsert(h: string, x: string, s: seq<string>)
    requires LowerBound(h, s) && LessEq(h, x)
    ensures LowerBound(h, Insert(x, s))
    decreases |s|
  {
    if s != [] && !LessEq(x, s[0]) {
      LowerBoundInsert(h, x, s[1..]);
      var t := Insert(x, s[1..]);
      forall j | 0 <= j < |t| + 1
        ensures LessEq(h, ([s[0]] + t)[j])
      {
        if j > 0 {
          assert ([s[0]] + t)[j] == t[j - 1];
        }
      }
    }
  }

  lemma {:induction false} InsertSorted(x: string, s: seq<string>)
    requires Sorted(s)
    ensures Sorted(Insert(x, s))
    decreases |s|
  {
    if s == [] {
    } else if LessEq(x, s[0]) {
      forall j | 0 <= j < |s|
        ensures LessEq(x, s[j])
      {
        if j > 0 {
          LessEqTransitive(x, s[0], s[j]);
        }
      }
      SortedCons(x, s);
    } else {
      LessEqTotal(x, s[0]);
      SortedTail(s);
      InsertSorted(x, s[1..]);
      LowerBoundInsert(s[0], x, s[1..]);
      SortedCons(s[0], Insert(x, s[1..]));
    }
  }

  lemma {:induction false} SortSorted(s: seq<string>)
    ensures Sorted(Sort(s))
    decreases |s|
  {
    if s != [] {
      SortSorted(s[1..]);
      InsertSorted(s[0], Sort(s[1..]));
    }
  }

  /** A sorted permutation is unique: the order depends only on which
      strings there are, never on the order they came in. */
  lemma {:induction false} SortedUnique(a: seq<string>, b: seq<string>)
    requires Sorted(a) && Sorted(b) && multiset(a) == multiset(b)
    ensures a == b
    decreases |a|
  {
    assert |a| == |multiset(a)| == |multiset(b)| == |b|;
    if |a| > 0 {
      assert a[0] == b[0] by {
        assert a[0] in multiset(b) && b[0] in multiset(a);
        var j :| 0 <= j < |b| && b[j] == a[0];
        var i :| 0 <= i < |a| && a[i] == b[0];
        if 0 < i && 0 < j {
          LessEqAntisymmetric(a[0], b[0]);
        }
      }
      SortedTail(a);
      SortedTail(b);
      MultisetTail(a);
      MultisetTail(b);
      SortedUnique(a[1..], b[1..]);
      assert a == [a[0]] + a[1..] && b == [b[0]] + b[1..];
    }
  }

  /** Sorting is idempotent, and sorting a sorted sequence changes nothing. */
  lemma SortIdempotent(s: seq<string>)
    ensures Sorted(s) ==> Sort(s) == s
    ensures Sort(Sort(s)) == Sort(s)
  {
    SortSorted(s);
    SortSorted(Sort(s));
    SortPermutes(s);
    SortPermutes(Sort(s));
    if Sorted(s) {
      SortedUnique(Sort(s), s);
    }
    SortedUnique(Sort(Sort(s)), Sort(s));
  }

  /** Exchanges two neighbouring elements, leaving the rest in place. */
  method SwapAdjacent(a: array<string>, j: nat)
    requires 0 < j < a.Length
    modifies a
    ensures a[j - 1] == old(a[j]) && a[j] == old(a[j - 1])
    ensures forall k :: 0 <= k < a.Length && k != j - 1 && k != j ==> a[k] == old(a[k])
    ensures multiset(a[..]) == multiset(old(a[..]))
  {
    a[j - 1], a[j] := a[j], a[j - 1];
  }

  /** One step of insertion sort: moves `a[i]` left, by adjacent swaps,
      past the elements of the sorted prefix `a[..i]` that come after it. */
  method InsertionStep(a: array<string>, i: nat)
    requires i < a.Length
    requires forall k, l :: 0 <= k < l < i ==> LessEq(a[k], a[l])
    modifies a
    ensures forall k, l :: 0 <= k < l <= i ==> LessEq(a[k], a[l])
    ensures multiset(a[..]) == multiset(old(a[..]))
    ensures forall k :: i < k < a.Length ==> a[k] == old(a[k])
  {
    var j := i;
    while 0 < j && !LessEq(a[j - 1], a[j])
      invariant 0 <= j <= i
      invariant forall k, l :: 0 <= k < l <= i && k != j && l != j ==> LessEq(a[k], a[l])
      invariant forall l :: j < l <= i ==> LessEq(a[j], a[l])
      invariant multiset(a[..]) == multiset(old(a[..]))
      invariant forall k :: i < k < a.Length ==> a[k] == old(a[k])
    {
      LessEqTotal(a[j - 1], a[j]);
      SwapAdjacent(a, j);
      j := j - 1;
    }
    forall k, l | 0 <= k < l <= i
      ensures LessEq(a[k], a[l])
    {
      if l == j && k < j - 1 {
        LessEqTransitive(a[k], a[j - 1], a[j]);
      }
    }
  }

  /** Sorts `a` in place by insertion sort; the result is the reference
      sort of the old contents. */
  method SortInPlace(a: array<string>)
    modifies a
    ensures a[..] == Sort(old(a[..]))
  {
    ghost var before := a[..];
    for i := 0 to a.Length
      invariant forall k, l :: 0 <= k < l < i ==> LessEq(a[k], a[l])
      invariant multiset(a[..]) == multiset(before)
    {
      InsertionStep(a, i);
    }
    SortSorted(before);
    SortPermutes(before);
    SortedUnique(a[..], Sort(before));
  }
}
