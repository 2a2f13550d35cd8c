/**
 * Generic facts about Python lists used as sequences: order-preserving
 * selection (`Subseq`), `list.remove`, and lists without repeated items.
 */
module Lists {
  import opened Text

  /** `a` is `b` with some items left out, the rest in their order. */
  predicate Subseq<T(==)>(a: seq<T>, b: seq<T>)
    decreases |b|
  {
    if a == [] then true
    else if b == [] then false
    else if a[|a| - 1] == b[|b| - 1] then Subseq(a[..|a| - 1], b[..|b| - 1])
    else Subseq(a, b[..|b| - 1])
  }

  /** A non-empty sequence is its front followed by its last item. */
  lemma FrontLast<T>(s: seq<T>)
    requires s != []
    ensures s == s[..|s| - 1] + [s[|s| - 1]]
    ensures multiset(s) == multiset(s[..|s| - 1]) + multiset{s[|s| - 1]}
  {
    assert s == s[..|s| - 1] + [s[|s| - 1]];
  }

  /** A sequence is its first `n` items followed by the rest. */
  lemma TakeDrop<T>(s: seq<T>, n: nat)
    requires n <= |s|
    ensures s[..n] + s[n..] == s
  {
  }

  lemma {:induction false} SubseqRefl<T>(b: seq<T>)
    ensures Subseq(b, b)
    decreases |b|
  {
    if b != [] {
      SubseqRefl(b[..|b| - 1]);
    }
  }

  lemma SubseqAppend<T>(a: seq<T>, b: seq<T>, x: T)
    requires Subseq(a, b)
    ensures Subseq(a + [x], b + [x])
  {
    assert (a + [x])[..|a|] == a && (b + [x])[..|b|] == b;
  }

  lemma {:induction false} SubseqDropLast<T>(a: seq<T>, b: seq<T>)
    requires a != [] && Subseq(a, b)
    ensures Subseq(a[..|a| - 1], b)
    decreases |b|, 0
  {
    var a' := a[..|a| - 1];
    var b' := b[..|b| - 1];
    if a[|a| - 1] == b[|b| - 1] {
      if a' != [] {
        SubseqDropLast(a', b');
        if a'[|a'| - 1] != b[|b| - 1] {
        } else {
          assert a'[..|a'| - 1] == a[..|a| - 2];
        }
        SubseqExtend(a', b', b[|b| - 1]);
        assert b' + [b[|b| - 1]] == b;
      }
    } else {
      SubseqDropLast(a, b');
      SubseqExtend(a', b', b[|b| - 1]);
      assert b' + [b[|b| - 1]] == b;
    }
  }

  lemma {:induction false} SubseqExtend<T>(a: seq<T>, b: seq<T>, x: T)
    requires Subseq(a, b)
    ensures Subseq(a, b + [x])
    decreases |b|, 1
  {
    assert (b + [x])[..|b|] == b;
    if a != [] && a[|a| - 1] == x {
      SubseqDropLast(a, b);
    }
  }

  /** Items in front of the larger sequence keep the selection valid. */
  lemma {:induction false} SubseqPrepend<T>(a: seq<T>, b: seq<T>, c: seq<T>)
    requires Subseq(a, b)
    ensures Subseq(a, c + b)
    decreases |b|
  {
    if a != [] {
      var b' := b[..|b| - 1];
      assert (c + b)[..|c + b| - 1] == c + b';
      if a[|a| - 1] == b[|b| - 1] {
        SubseqPrepend(a[..|a| - 1], b', c);
      } else {
        SubseqPrepend(a, b', c);
      }
    }
  }

  /** The same item in front of both sides keeps the selection valid. */
  lemma {:induction false} SubseqCons<T>(a: seq<T>, b: seq<T>, x: T)
    requires Subseq(a, b)
    ensures Subseq([x] + a, [x] + b)
    decreases |b|
  {
    if b != [] {
      var b' := b[..|b| - 1];
      assert ([x] + b)[..|b|] == [x] + b';
      if a == [] {
        SubseqCons(a, b', x);
      } else if a[|a| - 1] == b[|b| - 1] {
        SubseqCons(a[..|a| - 1], b', x);
        assert ([x] + a)[..|a|] == [x] + a[..|a| - 1];
      } else {
        SubseqCons(a, b', x);
      }
    }
  }

  lemma {:induction false} SubseqTrans<T>(a: seq<T>, b: seq<T>, c: seq<T>)
    requires Subseq(a, b) && Subseq(b, c)
    ensures Subseq(a, c)
    decreases |c|
  {
    if a != [] {
      var c' := c[..|c| - 1];
      if b != [] && b[|b| - 1] == c[|c| - 1] {
        var b' := b[..|b| - 1];
        if a[|a| - 1] == b[|b| - 1] {
          SubseqTrans(a[..|a| - 1], b', c');
        } else {
          SubseqTrans(a, b', c');
          SubseqExtend(a, c', c[|c| - 1]);
          assert c' + [c[|c| - 1]] == c;
        }
      } else {
        SubseqTrans(a, b, c');
        SubseqExtend(a, c', c[|c| - 1]);
        assert c' + [c[|c| - 1]] == c;
      }
    }
  }

  /** `[f(x) for x in s]`. */
  function Map<A, B>(s: seq<A>, f: A -> B): (r: seq<B>)
    ensures |r| == |s|
    ensures forall i :: 0 <= i < |s| ==> r[i] == f(s[i])
  {
    seq(|s|, i requires 0 <= i < |s| => f(s[i]))
  }

  lemma MapSnoc<A, B>(s: seq<A>, x: A, f: A -> B)
    ensures Map(s + [x], f) == Map(s, f) + [f(x)]
  {
    assert forall i :: 0 <= i < |s| ==> Map(s + [x], f)[i] == Map(s, f)[i];
  }

  lemma MapLast<A, B>(s: seq<A>, f: A -> B)
    requires s != []
    ensures Map(s, f) == Map(s[..|s| - 1], f) + [f(s[|s| - 1])]
  {
    FrontLast(s);
    MapSnoc(s[..|s| - 1], s[|s| - 1], f);
  }

  /** Mapping keeps the selection of a subsequence. */
  lemma {:induction false} MapSubseq<A, B>(a: seq<A>, b: seq<A>, f: A -> B)
    requires Subseq(a, b)
    ensures Subseq(Map(a, f), Map(b, f))
    decreases |b|
  {
    if a != [] {
      var a' := a[..|a| - 1];
      var b' := b[..|b| - 1];
      assert Map(a', f) == Map(a, f)[..|a| - 1] && Map(b', f) == Map(b, f)[..|b| - 1];
      if a[|a| - 1] == b[|b| - 1] {
        MapSubseq(a', b', f);
      } else {
        MapSubseq(a, b', f);
        if f(a[|a| - 1]) == f(b[|b| - 1]) {
          SubseqDropLast(Map(a, f), Map(b', f));
        }
      }
    }
  }

  /** `[x for x in s if keep(x)]`. */
  function Filter<T>(s: seq<T>, keep: T -> bool): (r: seq<T>)
    ensures |r| <= |s|
    decreases |s|
  {
    if s == [] then []
    else if keep(s[|s| - 1]) then Filter(s[..|s| - 1], keep) + [s[|s| - 1]]
    else Filter(s[..|s| - 1], keep)
  }

  /** One more item: kept, or passed over. */
  lemma FilterStep<T>(s: seq<T>, i: nat, keep: T -> bool)
    requires i < |s|
    ensures Filter(s[..i + 1], keep) == if keep(s[i]) then Filter(s[..i], keep) + [s[i]] else Filter(s[..i], keep)
  {
    assert s[..i + 1][..i] == s[..i];
  }

  /** One more item adds one to the count exactly when it passes. */
  lemma CountStep<T>(s: seq<T>, i: nat, keep: T -> bool)
    requires i < |s|
    ensures |Filter(s[..i + 1], keep)| == |Filter(s[..i], keep)| + if keep(s[i]) then 1 else 0
  {
    FilterStep(s, i, keep);
  }

  /** The kept items are those of `s` that pass, in order. */
  lemma {:induction false} FilterSubseq<T>(s: seq<T>, keep: T -> bool)
    ensures Subseq(Filter(s, keep), s)
    ensures forall x :: x in Filter(s, keep) ==> x in s && keep(x)
    decreases |s|
  {
    if s != [] {
      var init := s[..|s| - 1];
      FilterSubseq(init, keep);
      FrontLast(s);
      if keep(s[|s| - 1]) {
        SubseqAppend(Filter(init, keep), init, s[|s| - 1]);
      } else {
        SubseqExtend(Filter(init, keep), init, s[|s| - 1]);
      }
    }
  }

  /** Every item that passes is kept. */
  lemma {:induction false} FilterComplete<T>(s: seq<T>, keep: T -> bool)
    ensures forall i :: 0 <= i < |s| && keep(s[i]) ==> s[i] in Filter(s, keep)
    decreases |s|
  {
    if s != [] {
      var init := s[..|s| - 1];
      FilterComplete(init, keep);
      assert forall i :: 0 <= i < |init| ==> init[i] == s[i];
    }
  }

  /** Every item is kept by `keep` or by its negation, never both. */
  lemma {:induction false} FilterPartition<T>(s: seq<T>, keep: T -> bool, drop: T -> bool)
    requires forall x :: drop(x) == !keep(x)
    ensures |Filter(s, keep)| + |Filter(s, drop)| == |s|
    decreases |s|
  {
    if s != [] {
      FilterPartition(s[..|s| - 1], keep, drop);
    }
  }

  /** A stricter test keeps a subsequence of what a looser one keeps. */
  lemma {:induction false} FilterMonotone<T>(s: seq<T>, strict: T -> bool, loose: T -> bool)
    requires forall x :: strict(x) ==> loose(x)
    ensures Subseq(Filter(s, strict), Filter(s, loose))
    decreases |s|
  {
    if s == [] {
    } else {
      var init := s[..|s| - 1];
      var x := s[|s| - 1];
      FilterMonotone(init, strict, loose);
      if strict(x) {
        SubseqAppend(Filter(init, strict), Filter(init, loose), x);
      } else if loose(x) {
        SubseqExtend(Filter(init, strict), Filter(init, loose), x);
      }
    }
  }

  /** `sum(xs)`. */
  function Sum(xs: seq<nat>): nat
    decreases |xs|
  {
    if xs == [] then 0 else Sum(xs[..|xs| - 1]) + xs[|xs| - 1]
  }

  lemma SumSnoc(xs: seq<nat>, x: nat)
    ensures Sum(xs + [x]) == Sum(xs) + x
  {
    assert (xs + [x])[..|xs|] == xs;
  }

  /** Changing one item changes the sum by the difference. */
  lemma {:induction false} SumUpdate(xs: seq<nat>, i: nat, x: nat)
    requires i < |xs|
    ensures Sum(xs[i := x]) + xs[i] == Sum(xs) + x
    decreases |xs|
  {
    var n := |xs| - 1;
    if i < n {
      SumUpdate(xs[..n], i, x);
      assert xs[i := x][..n] == xs[..n][i := x];
    } else {
      assert xs[i := x][..n] == xs[..n];
    }
  }

  /** The sum of a column that is the sum of two columns. */
  lemma {:induction false} SumMapAdd<T>(s: seq<T>, f: T -> nat, g: T -> nat, h: T -> nat)
    requires forall x :: h(x) == f(x) + g(x)
    ensures Sum(Map(s, h)) == Sum(Map(s, f)) + Sum(Map(s, g))
    decreases |s|
  {
    if s != [] {
      var init := s[..|s| - 1];
      SumMapAdd(init, f, g, h);
      MapLast(s, f);
      MapLast(s, g);
      MapLast(s, h);
      SumSnoc(Map(init, f), f(s[|s| - 1]));
      SumSnoc(Map(init, g), g(s[|s| - 1]));
      SumSnoc(Map(init, h), h(s[|s| - 1]));
    }
  }

  /** `s` without the item at position `i`. */
  function RemoveAt<T>(s: seq<T>, i: nat): (r: seq<T>)
    requires i < |s|
    ensures |r| == |s| - 1
  {
    s[..i] + s[i + 1..]
  }

  lemma RemoveAtMultiset<T>(s: seq<T>, i: nat)
    requires i < |s|
    ensures multiset(RemoveAt(s, i)) + multiset{s[i]} == multiset(s)
  {
    assert s == s[..i] + [s[i]] + s[i + 1..];
  }

  lemma {:induction false} RemoveAtSubseq<T>(s: seq<T>, i: nat)
    requires i < |s|
    ensures Subseq(RemoveAt(s, i), s)
    decreases |s|
  {
    var s' := s[..|s| - 1];
    if i == |s| - 1 {
      assert RemoveAt(s, i) == s';
      SubseqRefl(s');
      SubseqExtend(s', s', s[|s| - 1]);
      assert s' + [s[|s| - 1]] == s;
    } else {
      RemoveAtSubseq(s', i);
      assert RemoveAt(s, i) == RemoveAt(s', i) + [s[|s| - 1]];
      SubseqAppend(RemoveAt(s', i), s', s[|s| - 1]);
      assert s' + [s[|s| - 1]] == s;
    }
  }

  /** `list.remove(x)`: the first item equal to `x` is removed; `None` when there is none (`ValueError`). */
  function RemoveFirst<T(==)>(s: seq<T>, x: T): (r: Option<seq<T>>)
    ensures r.Some? <==> x in s
  {
    if s == [] then None
    else if s[0] == x then Some(s[1..])
    else match RemoveFirst(s[1..], x)
      case None => None
      case Some(t) => Some([s[0]] + t)
  }

  /** Removing the first copy of `s[i]` removes position `i` when no copy comes before it. */
  lemma {:induction false} RemoveFirstAt<T>(s: seq<T>, i: nat)
    requires i < |s| && forall k :: 0 <= k < i ==> s[k] != s[i]
    ensures RemoveFirst(s, s[i]) == Some(RemoveAt(s, i))
    decreases i
  {
    if i > 0 {
      assert s[1..][i - 1] == s[i] && s[0] != s[i];
      RemoveFirstAt(s[1..], i - 1);
      assert [s[0]] + RemoveAt(s[1..], i - 1) == RemoveAt(s, i);
    } else {
      assert RemoveAt(s, 0) == s[1..];
    }
  }

  /** No item occurs twice. */
  predicate Distinct<T(==)>(s: seq<T>) {
    forall i, j :: 0 <= i < j < |s| ==> s[i] != s[j]
  }

  lemma {:induction false} DistinctCount<T>(s: seq<T>, x: T)
    requires Distinct(s)
    ensures multiset(s)[x] <= 1
    decreases |s|
  {
    if s != [] {
      var s' := s[..|s| - 1];
      assert s == s' + [s[|s| - 1]];
      DistinctCount(s', x);
      if s[|s| - 1] == x {
        assert x !in s';
      }
    }
  }

  /** Rearranging, or taking from, a list without repeats gives a list without repeats. */
  lemma DistinctSub<T>(a: seq<T>, b: seq<T>)
    requires multiset(a) <= multiset(b) && Distinct(b)
    ensures Distinct(a)
  {
    forall i, j | 0 <= i < j < |a| ensures a[i] != a[j] {
      if a[i] == a[j] {
        assert a == a[..j] + [a[j]] + a[j + 1..];
        assert a[i] in a[..j];
        assert multiset(a)[a[i]] >= 2;
        DistinctCount(b, a[i]);
        assert false;
      }
    }
  }
}
