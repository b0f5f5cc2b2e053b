/** The order in which Swift's `Array<String>.sort()` puts the schedule: lexicographic
    comparison of the characters, and a sort function that models the library call by what
    it promises (sorted, and a permutation of its input). */
module TextOrder {

  /** `a` comes before or equals `b` in character-by-character lexicographic order;
      a proper prefix comes first. */
  predicate TextLeq(a: string, b: string)
    ensures a <= b ==> TextLeq(a, b)
  {
    |a| == 0 || (|b| > 0 && (a[0] < b[0] || (a[0] == b[0] && TextLeq(a[1..], b[1..]))))
  }

  lemma {:induction false} TextLeqTotal(a: string, b: string)
    ensures TextLeq(a, b) || TextLeq(b, a)
  {
    if |a| > 0 && |b| > 0 && a[0] == b[0] {
      TextLeqTotal(a[1..], b[1..]);
    }
  }

  lemma {:induction false} TextLeqReflexive(a: string)
    ensures TextLeq(a, a)
  {
    if |a| > 0 {
      TextLeqReflexive(a[1..]);
    }
  }

  lemma {:induction false} TextLeqTransitive(a: string, b: string, c: string)
    requires TextLeq(a, b) && TextLeq(b, c)
    ensures TextLeq(a, c)
  {
    if |a| > 0 && a[0] == b[0] && b[0] == c[0] {
      TextLeqTransitive(a[1..], b[1..], c[1..]);
    }
  }

  lemma {:induction false} TextLeqAntisymmetric(a: string, b: string)
    requires TextLeq(a, b) && TextLeq(b, a)
    ensures a == b
  {
    if |a| > 0 {
      TextLeqAntisymmetric(a[1..], b[1..]);
      assert a == [a[0]] + a[1..] && b == [b[0]] + b[1..];
    }
  }

  /** Every pair of positions is in order. */
  ghost predicate Sorted(s: seq<string>)
  {
    forall i, j :: 0 <= i < j < |s| ==> TextLeq(s[i], s[j])
  }

  /** Inserts `x` into `s` before the first element that is not smaller than it. */
  function Insert(s: seq<string>, x: string): (r: seq<string>)
    ensures |r| == |s| + 1
    ensures multiset(r) == multiset(s) + multiset{x}
  {
    if |s| == 0 then [x]
    else if TextLeq(x, s[0]) then [x] + s
    else
      assert s == [s[0]] + s[1..];
      [s[0]] + Insert(s[1..], x)
  }

  /** The model of `sort()` on an array of strings: insertion sort. */
  function Sort(s: seq<string>): (r: seq<string>)
    ensures |r| == |s|
    ensures multiset(r) == multiset(s)
  {
    if |s| == 0 then []
    else
      assert s == [s[0]] + s[1..];
      Insert(Sort(s[1..]), s[0])
  }

  /** No element of `s` comes before `lo`. */
  ghost predicate AllAtLeast(lo: string, s: seq<string>)
  {
    forall k :: 0 <= k < |s| ==> TextLeq(lo, s[k])
  }

  lemma {:induction false} InsertAtLeast(lo: string, s: seq<string>, x: string)
    requires AllAtLeast(lo, s) && TextLeq(lo, x)
    ensures AllAtLeast(lo, Insert(s, x))
  {
    if |s| > 0 && !TextLeq(x, s[0]) {
      InsertAtLeast(lo, s[1..], x);
      var r := Insert(s, x);
      forall k | 0 <= k < |r| ensures TextLeq(lo, r[k]) {
        if k > 0 { assert r[k] == Insert(s[1..], x)[k - 1]; }
      }
    }
  }

  lemma InsertSortedFront(s: seq<string>, x: string)
    requires Sorted(s) && |s| > 0 && TextLeq(x, s[0])
    ensures Sorted([x] + s)
  {
    var r := [x] + s;
    forall i, j | 0 <= i < j < |r| ensures TextLeq(r[i], r[j]) {
      if i == 0 && j > 1 {
        TextLeqTransitive(x, s[0], s[j - 1]);
      }
    }
  }

  lemma SortedCons(head: string, tail: seq<string>)
    requires Sorted(tail) && AllAtLeast(head, tail)
    ensures Sorted([head] + tail)
  {
    var r := [head] + tail;
    forall i, j | 0 <= i < j < |r| ensures TextLeq(r[i], r[j]) {
      if i == 0 {
        assert r[j] == tail[j - 1];
      } else {
        assert r[i] == tail[i - 1] && r[j] == tail[j - 1];
      }
    }
  }

  lemma {:induction false} InsertSorted(s: seq<string>, x: string)
    requires Sorted(s)
    ensures Sorted(Insert(s, x))
  {
    if |s| == 0 {
    } else if TextLeq(x, s[0]) {
      InsertSortedFront(s, x);
    } else {
      TextLeqTotal(x, s[0]);
      assert Sorted(s[1..]) && AllAtLeast(s[0], s[1..]);
      InsertSorted(s[1..], x);
      InsertAtLeast(s[0], s[1..], x);
      SortedCons(s[0], Insert(s[1..], x));
    }
  }

  /** What `sort()` promises: the result is in order and holds the same strings, each
      as many times as the input does. */
  lemma {:induction false} SortCorrect(s: seq<string>)
    ensures Sorted(Sort(s))
    ensures multiset(Sort(s)) == multiset(s) && |Sort(s)| == |s|
  {
    if |s| > 0 {
      SortCorrect(s[1..]);
      InsertSorted(Sort(s[1..]), s[0]);
    }
  }

  /** Two sorted lists with the same elements start with the same element. */
  lemma SortedPermutationsShareHead(a: seq<string>, b: seq<string>)
    requires Sorted(a) && Sorted(b) && multiset(a) == multiset(b) && |a| > 0
    ensures |b| > 0 && a[0] == b[0]
  {
    assert a[0] in multiset(b);
    var i :| 0 <= i < |b| && b[i] == a[0];
    assert b[0] in multiset(a);
    var j :| 0 <= j < |a| && a[j] == b[0];
    TextLeqReflexive(a[0]);
    assert TextLeq(b[0], a[0]) by { if i > 0 { assert TextLeq(b[0], b[i]); } }
    assert TextLeq(a[0], b[0]) by { if j > 0 { assert TextLeq(a[0], a[j]); } }
    TextLeqAntisymmetric(a[0], b[0]);
  }

  lemma TailMultiset(a: seq<string>)
    requires |a| > 0
    ensures multiset(a[1..]) == multiset(a) - multiset{a[0]}
  {
    assert a == [a[0]] + a[1..];
  }

  /** A sorted permutation is unique, so any correct sort (stable or not) yields `Sort(s)`:
      the choice of insertion sort does not matter. */
  lemma {:induction false} SortedPermutationUnique(a: seq<string>, b: seq<string>)
    requires Sorted(a) && Sorted(b) && multiset(a) == multiset(b)
    ensures a == b
  {
    if |a| == 0 {
      assert |b| == |multiset(b)| == 0;
    } else {
      SortedPermutationsShareHead(a, b);
      TailMultiset(a);
      TailMultiset(b);
      SortedPermutationUnique(a[1..], b[1..]);
      assert a == [a[0]] + a[1..] && b == [b[0]] + b[1..];
    }
  }

  /** Sorting a list that is already sorted after appending one string is the same as
      inserting that string in its place. */
  lemma SortAppendIsInsert(s: seq<string>, x: string)
    requires Sorted(s)
    ensures Sort(s + [x]) == Insert(s, x)
  {
    SortCorrect(s + [x]);
    InsertSorted(s, x);
    SortedPermutationUnique(Sort(s + [x]), Insert(s, x));
  }
}
