/** Array.prototype.map over sequences (a total callback, and a callback that may throw) and
    Array.prototype.filter. */
module Seqs {
  import opened Wrappers

  function MapSeq<A, B>(f: A -> B, s: seq<A>): (r: seq<B>)
    ensures |r| == |s|
    ensures forall i :: 0 <= i < |s| ==> r[i] == f(s[i])
  {
    if s == [] then [] else [f(s[0])] + MapSeq(f, s[1..])
  }

  lemma MapConcat<A, B>(f: A -> B, a: seq<A>, b: seq<A>)
    ensures MapSeq(f, a + b) == MapSeq(f, a) + MapSeq(f, b)
  {
  }

  /** Mapping a permutation yields a permutation. */
  lemma {:induction false} MapPermutation<A, B>(f: A -> B, s: seq<A>, t: seq<A>)
    requires multiset(s) == multiset(t)
    ensures multiset(MapSeq(f, s)) == multiset(MapSeq(f, t))
    decreases |s|
  {
    if s == [] {
      assert |t| == |multiset(t)| == 0;
    } else {
      var x := s[0];
      assert x in multiset(t);
      var j :| 0 <= j < |t| && t[j] == x;
      var rest := t[..j] + t[j + 1..];
      assert t == t[..j] + [x] + t[j + 1..];
      assert s == [x] + s[1..];
      assert multiset(t) == multiset(t[..j]) + multiset{x} + multiset(t[j + 1..]);
      assert multiset(s) == multiset{x} + multiset(s[1..]);
      assert multiset(rest) == multiset(t[..j]) + multiset(t[j + 1..]);
      assert multiset(s[1..]) == multiset(s) - multiset{x};
      assert multiset(rest) == multiset(t) - multiset{x};
      MapPermutation(f, s[1..], rest);
      MapConcat(f, t[..j] + [x], t[j + 1..]);
      MapConcat(f, t[..j], [x]);
      MapConcat(f, t[..j], t[j + 1..]);
      MapConcat(f, [x], s[1..]);
    }
  }

  /** `s.map(f)` where f may throw: None as soon as one element throws. */
  function MapAll<A, B>(f: A -> Option<B>, s: seq<A>): (r: Option<seq<B>>)
    ensures r.Some? <==> forall i :: 0 <= i < |s| ==> f(s[i]).Some?
    ensures r.Some? ==> |r.value| == |s| && forall i :: 0 <= i < |s| ==> f(s[i]) == Some(r.value[i])
  {
    if s == [] then Some([])
    else match (f(s[0]), MapAll(f, s[1..]))
      case (Some(y), Some(ys)) => Some([y] + ys)
      case _ => None
  }

  /** MapAll of a permutation throws exactly when the original does, and otherwise yields a
      permutation of its result. */
  lemma MapAllPermutation<A, B>(f: A -> Option<B>, s: seq<A>, t: seq<A>)
    requires multiset(s) == multiset(t)
    ensures MapAll(f, s).Some? <==> MapAll(f, t).Some?
    ensures MapAll(f, s).Some? ==> multiset(MapAll(f, s).value) == multiset(MapAll(f, t).value)
  {
    forall i | 0 <= i < |s| ensures s[i] in multiset(t) { assert s[i] in multiset(s); }
    forall i | 0 <= i < |t| ensures t[i] in multiset(s) { assert t[i] in multiset(t); }
    if s == [] {
      assert |t| == |multiset(t)| == 0;
    } else if MapAll(f, s).Some? {
      var y0 := MapAll(f, s).value[0];
      var g := (x: A) => if f(x).Some? then f(x).value else y0;
      forall x | x in multiset(t) ensures f(x).Some? {
        var i :| 0 <= i < |s| && s[i] == x;
      }
      assert MapAll(f, s).value == MapSeq(g, s);
      assert MapAll(f, t).value == MapSeq(g, t);
      MapPermutation(g, s, t);
    }
  }

  /** MapAll only sees what f makes of each element. */
  lemma {:induction false} MapAllPointwise<A, B>(f: A -> Option<B>, s: seq<A>, t: seq<A>)
    requires |s| == |t| && forall i :: 0 <= i < |s| ==> f(s[i]) == f(t[i])
    ensures MapAll(f, s) == MapAll(f, t)
  {
    if s != [] {
      MapAllPointwise(f, s[1..], t[1..]);
    }
  }

  /** `s.filter(keep)`: the elements that pass, in their order. */
  function Filter<T>(keep: T -> bool, s: seq<T>): (r: seq<T>)
    ensures |r| <= |s|
    ensures forall i :: 0 <= i < |r| ==> keep(r[i])
  {
    if s == [] then [] else (if keep(s[0]) then [s[0]] else []) + Filter(keep, s[1..])
  }

  lemma {:induction false} FilterMember<T>(keep: T -> bool, s: seq<T>, x: T)
    ensures x in Filter(keep, s) <==> x in s && keep(x)
  {
    if s != [] {
      FilterMember(keep, s[1..], x);
      assert x in s <==> x == s[0] || x in s[1..] by {
        assert s == [s[0]] + s[1..];
      }
    }
  }

  lemma {:induction false} FilterConcat<T>(keep: T -> bool, a: seq<T>, b: seq<T>)
    ensures Filter(keep, a + b) == Filter(keep, a) + Filter(keep, b)
  {
    if a == [] {
      assert a + b == b;
    } else {
      assert (a + b)[0] == a[0];
      assert (a + b)[1..] == a[1..] + b;
      FilterConcat(keep, a[1..], b);
    }
  }

  lemma {:induction false} FilterEmpty<T>(keep: T -> bool, s: seq<T>)
    ensures Filter(keep, s) == [] <==> forall i :: 0 <= i < |s| ==> !keep(s[i])
  {
    if s != [] {
      FilterEmpty(keep, s[1..]);
      assert forall i :: 1 <= i < |s| ==> s[i] == s[1..][i - 1];
    }
  }
}
