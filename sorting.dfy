/** Array.prototype.sort with a comparator: a stable sort. It is modelled as insertion sort,
    parameterised by the comparator's "goes strictly before" relation `lt`. */
module Sorting {

  /** What the comparators of the source satisfy: irreflexive and transitive. */
  ghost predicate StrictOrder<T(!new)>(lt: (T, T) -> bool)
  {
    && (forall a :: !lt(a, a))
    && (forall a, b, c :: lt(a, b) && lt(b, c) ==> lt(a, c))
  }

  /** No element goes strictly before an element to its left. */
  predicate Sorted<T>(s: seq<T>, lt: (T, T) -> bool)
  {
    forall i, j :: 0 <= i < j < |s| ==> !lt(s[j], s[i])
  }

  /** Every two different elements of s are ordered one way or the other by lt. */
  ghost predicate Connected<T>(s: seq<T>, lt: (T, T) -> bool)
  {
    forall i, j :: 0 <= i < |s| && 0 <= j < |s| && s[i] != s[j] ==> lt(s[i], s[j]) || lt(s[j], s[i])
  }

  /** Puts x after every element that does not go strictly after it (this keeps the sort stable). */
  function Insert<T>(x: T, s: seq<T>, lt: (T, T) -> bool): (r: seq<T>)
    ensures multiset(r) == multiset(s) + multiset{x}
  {
    if s == [] then [x]
    else if lt(x, s[0]) then [x] + s
    else
      assert s == [s[0]] + s[1..];
      [s[0]] + Insert(x, s[1..], lt)
  }

  function Sort<T>(s: seq<T>, lt: (T, T) -> bool): (r: seq<T>)
    ensures multiset(r) == multiset(s)
  {
    if s == [] then []
    else
      assert s == s[..|s| - 1] + [s[|s| - 1]];
      Insert(s[|s| - 1], Sort(s[..|s| - 1], lt), lt)
  }

  lemma {:induction false} InsertSorted<T(!new)>(x: T, s: seq<T>, lt: (T, T) -> bool)
    requires StrictOrder(lt) && Sorted(s, lt)
    ensures Sorted(Insert(x, s, lt), lt)
  {
    if s == [] {
    } else if lt(x, s[0]) {
      var r := [x] + s;
      forall i, j | 0 <= i < j < |r| ensures !lt(r[j], r[i]) {
        if i == 0 {
          assert r[j] == s[j - 1];
        }
      }
    } else {
      var tail := Insert(x, s[1..], lt);
      SortedTail(s, lt);
      InsertSorted(x, s[1..], lt);
      var r := [s[0]] + tail;
      forall i, j | 0 <= i < j < |r| ensures !lt(r[j], r[i]) {
        if i == 0 {
          assert r[j] in multiset(tail);
          assert r[j] == x || r[j] in multiset(s[1..]);
          if r[j] != x {
            var k :| 0 <= k < |s[1..]| && s[1..][k] == r[j];
            assert s[k + 1] == r[j];
          }
        }
      }
    }
  }

  lemma {:induction false} SortSorted<T(!new)>(s: seq<T>, lt: (T, T) -> bool)
    requires StrictOrder(lt)
    ensures Sorted(Sort(s, lt), lt)
  {
    if s != [] {
      SortSorted(s[..|s| - 1], lt);
      InsertSorted(s[|s| - 1], Sort(s[..|s| - 1], lt), lt);
    }
  }

  /** Two sorted arrangements of the same elements are the same sequence, provided lt orders any
      two different elements. */
  lemma {:induction false} SortedUnique<T(!new)>(s: seq<T>, t: seq<T>, lt: (T, T) -> bool)
    requires StrictOrder(lt) && Sorted(s, lt) && Sorted(t, lt)
    requires multiset(s) == multiset(t) && Connected(s, lt)
    ensures s == t
    decreases |s|
  {
    if s == [] {
      assert |t| == |multiset(t)| == 0;
    } else {
      SameHead(s, t, lt);
      TailMultiset(s);
      TailMultiset(t);
      SortedTail(s, lt);
      SortedTail(t, lt);
      ConnectedTail(s, lt);
      SortedUnique(s[1..], t[1..], lt);
    }
  }

  /** Two sorted arrangements of the same non-empty elements start alike. */
  lemma SameHead<T(!new)>(s: seq<T>, t: seq<T>, lt: (T, T) -> bool)
    requires StrictOrder(lt) && Sorted(s, lt) && Sorted(t, lt)
    requires multiset(s) == multiset(t) && Connected(s, lt) && s != []
    ensures t != [] && s[0] == t[0]
  {
    assert |t| == |multiset(t)| == |multiset(s)| == |s|;
    assert t[0] in multiset(s);
    var i :| 0 <= i < |s| && s[i] == t[0];
    assert s[0] in multiset(t);
    var j :| 0 <= j < |t| && t[j] == s[0];
    assert !lt(t[0], s[0]) by {
      if i != 0 {
        assert !lt(s[i], s[0]);
      }
    }
    assert !lt(s[0], t[0]) by {
      if j != 0 {
        assert !lt(t[j], t[0]);
      }
    }
  }

  lemma TailMultiset<T>(s: seq<T>)
    requires s != []
    ensures multiset(s[1..]) == multiset(s) - multiset{s[0]}
  {
    assert s == [s[0]] + s[1..];
  }

  lemma SortedTail<T>(s: seq<T>, lt: (T, T) -> bool)
    requires Sorted(s, lt) && s != []
    ensures Sorted(s[1..], lt)
  {
    forall a, b | 0 <= a < b < |s[1..]| ensures !lt(s[1..][b], s[1..][a]) {
      assert s[1..][b] == s[b + 1] && s[1..][a] == s[a + 1];
    }
  }

  lemma ConnectedTail<T>(s: seq<T>, lt: (T, T) -> bool)
    requires Connected(s, lt) && s != []
    ensures Connected(s[1..], lt)
  {
    forall a, b | 0 <= a < |s[1..]| && 0 <= b < |s[1..]| && s[1..][a] != s[1..][b]
      ensures lt(s[1..][a], s[1..][b]) || lt(s[1..][b], s[1..][a])
    {
      assert s[1..][a] == s[a + 1] && s[1..][b] == s[b + 1];
    }
  }

  /** Sorting forgets the original order: permutations of elements that lt orders pairwise sort
      to the same sequence. */
  lemma SortForgetsOrder<T(!new)>(s: seq<T>, t: seq<T>, lt: (T, T) -> bool)
    requires StrictOrder(lt) && multiset(s) == multiset(t) && Connected(s, lt)
    ensures Sort(s, lt) == Sort(t, lt)
  {
    var a, b := Sort(s, lt), Sort(t, lt);
    SortSorted(s, lt);
    SortSorted(t, lt);
    assert Connected(a, lt) by {
      forall i, j | 0 <= i < |a| && 0 <= j < |a| && a[i] != a[j] ensures lt(a[i], a[j]) || lt(a[j], a[i]) {
        assert a[i] in multiset(s) && a[j] in multiset(s);
        var i' :| 0 <= i' < |s| && s[i'] == a[i];
        var j' :| 0 <= j' < |s| && s[j'] == a[j];
      }
    }
    SortedUnique(a, b, lt);
  }
}
