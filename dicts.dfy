/**
 * Python dictionaries with string keys, as their insertion-ordered list of
 * entries: assigning to a new key appends an entry, assigning to an
 * existing key replaces its value where it stands.
 */
module Dicts {
  import opened Text
  import opened Lists

  datatype Entry<V> = Entry(key: string, value: V)

  function Keys<V>(d: seq<Entry<V>>): (ks: seq<string>)
    ensures |ks| == |d|
    ensures forall i :: 0 <= i < |d| ==> ks[i] == d[i].key
  {
    seq(|d|, i requires 0 <= i < |d| => d[i].key)
  }

  /** No key occurs twice, as in every Python dict. */
  predicate Valid<V>(d: seq<Entry<V>>) {
    Distinct(Keys(d))
  }

  /** Position of the entry for `k`, or `|d|` when there is none. */
  function IndexOf<V>(d: seq<Entry<V>>, k: string): (i: nat)
    ensures i <= |d|
    ensures i < |d| ==> d[i].key == k
    ensures forall j :: 0 <= j < i ==> d[j].key != k
    decreases |d|
  {
    if d == [] then 0 else if d[0].key == k then 0 else 1 + IndexOf(d[1..], k)
  }

  /** `d.get(k)`. */
  function Get<V>(d: seq<Entry<V>>, k: string): Option<V> {
    var i := IndexOf(d, k);
    if i < |d| then Some(d[i].value) else None
  }

  /** `d.get(k, default)`. */
  function GetOr<V>(d: seq<Entry<V>>, k: string, default: V): V {
    var i := IndexOf(d, k);
    if i < |d| then d[i].value else default
  }

  /** `d[k] = v`. */
  function Put<V>(d: seq<Entry<V>>, k: string, v: V): (r: seq<Entry<V>>)
    ensures |r| == if IndexOf(d, k) < |d| then |d| else |d| + 1
  {
    var i := IndexOf(d, k);
    if i < |d| then d[i := Entry(k, v)] else d + [Entry(k, v)]
  }

  lemma KeyFound<V>(d: seq<Entry<V>>, k: string)
    ensures IndexOf(d, k) < |d| <==> k in Keys(d)
  {
    if k in Keys(d) {
      var j :| 0 <= j < |d| && Keys(d)[j] == k;
      assert d[j].key == k;
    }
  }

  /** Assignment adds `k` to the keys, keeps the other keys where they were, and keeps them distinct. */
  lemma PutKeys<V>(d: seq<Entry<V>>, k: string, v: V)
    requires Valid(d)
    ensures Valid(Put(d, k, v))
    ensures k in Keys(d) ==> Keys(Put(d, k, v)) == Keys(d)
    ensures k !in Keys(d) ==> Keys(Put(d, k, v)) == Keys(d) + [k]
  {
    KeyFound(d, k);
    var r := Put(d, k, v);
    if k in Keys(d) {
      assert Keys(r) == Keys(d);
    } else {
      assert Keys(r) == Keys(d) + [k];
    }
  }

  /** The three properties of `IndexOf` pin it down. */
  lemma {:induction false} IndexOfUnique<V>(d: seq<Entry<V>>, k: string, i: nat)
    requires i <= |d| && (i < |d| ==> d[i].key == k)
    requires forall j :: 0 <= j < i ==> d[j].key != k
    ensures IndexOf(d, k) == i
    decreases |d|
  {
    if d != [] && i > 0 {
      IndexOfUnique(d[1..], k, i - 1);
    }
  }

  /** Reading back an assignment. */
  lemma PutGet<V>(d: seq<Entry<V>>, k: string, v: V, k': string)
    ensures Get(Put(d, k, v), k') == if k' == k then Some(v) else Get(d, k')
  {
    var i := IndexOf(d, k);
    var r := Put(d, k, v);
    var j := IndexOf(d, k');
    assert forall m :: 0 <= m < |d| ==> r[m].key == d[m].key;
    if k' != k {
      if j < |d| {
        IndexOfUnique(r, k', j);
      } else {
        IndexOfUnique(r, k', |r|);
      }
    } else {
      IndexOfUnique(r, k, i);
    }
  }
  /** `for x in xs: d[key(x)] = val(x)`, starting from an empty dict. */
  function PutEach<T, V>(xs: seq<T>, key: T -> string, val: T -> V): seq<Entry<V>>
    decreases |xs|
  {
    if xs == [] then []
    else Put(PutEach(xs[..|xs| - 1], key, val), key(xs[|xs| - 1]), val(xs[|xs| - 1]))
  }

  /** The keys are the distinct keys of the items, each once. */
  lemma {:induction false} PutEachKeys<T, V>(xs: seq<T>, key: T -> string, val: T -> V)
    ensures Valid(PutEach(xs, key, val))
    ensures forall k :: k in Keys(PutEach(xs, key, val)) <==> k in Map(xs, key)
    decreases |xs|
  {
    if xs != [] {
      var n := |xs| - 1;
      PutEachKeys(xs[..n], key, val);
      PutKeys(PutEach(xs[..n], key, val), key(xs[n]), val(xs[n]));
      MapLast(xs, key);
    }
  }

  /** An item whose key no later item repeats keeps its value: the last assignment wins. */
  lemma {:induction false} PutEachLast<T, V>(xs: seq<T>, key: T -> string, val: T -> V, i: nat)
    requires i < |xs| && forall j :: i < j < |xs| ==> key(xs[j]) != key(xs[i])
    ensures Get(PutEach(xs, key, val), key(xs[i])) == Some(val(xs[i]))
    decreases |xs|
  {
    var n := |xs| - 1;
    var init := xs[..n];
    var d := PutEach(init, key, val);
    assert PutEach(xs, key, val) == Put(d, key(xs[n]), val(xs[n]));
    PutGet(d, key(xs[n]), val(xs[n]), key(xs[i]));
    if i < n {
      assert init[i] == xs[i] && key(xs[i]) != key(xs[n]);
      forall j | i < j < n ensures key(init[j]) != key(init[i]) {
        assert init[j] == xs[j];
      }
      PutEachLast(init, key, val, i);
    }
  }
}
