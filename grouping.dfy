/**
 * Bucketing a list by a string key into a JavaScript plain object, the way
 * src/daily-digest.js groups articles by source and src/classifier.js groups
 * them by category: `if (!groups[k]) groups[k] = []; groups[k].push(x)`.
 *
 * A plain object whose keys are not integer-like enumerates its keys in
 * insertion order; `Dict` makes that order explicit.
 */
module Grouping {
  import opened Seqs

  /** A plain object used as a dictionary: its keys in insertion order and the value of each. */
  datatype Dict<V> = Dict(keys: seq<string>, values: map<string, V>)

  predicate Distinct(ks: seq<string>)
  {
    forall i, j :: 0 <= i < j < |ks| ==> ks[i] != ks[j]
  }

  /** Every key is listed once, and the listed keys are exactly the keys of the map. */
  ghost predicate Valid<V>(d: Dict<V>)
  {
    Distinct(d.keys) && forall k :: k in d.values <==> k in d.keys
  }

  /** `{}` */
  function EmptyDict<V>(): (d: Dict<V>)
    ensures Valid(d) && d.keys == []
  {
    Dict([], map[])
  }

  /** `obj[k] = v`: a new key goes to the end of the key order, an existing key keeps its place. */
  function Put<V>(d: Dict<V>, k: string, v: V): (r: Dict<V>)
    requires Valid(d)
    ensures Valid(r)
  {
    if k in d.values then Dict(d.keys, d.values[k := v]) else Dict(d.keys + [k], d.values[k := v])
  }

  /** The distinct keys of `s` in order of first occurrence. */
  function KeyOrder<T>(s: seq<T>, key: T -> string): (ks: seq<string>)
    ensures Distinct(ks)
    ensures forall k :: k in ks <==> exists x :: x in s && key(x) == k
  {
    if s == [] then []
    else
      var p := KeyOrder(s[..|s| - 1], key);
      var k := key(s[|s| - 1]);
      if k in p then p else p + [k]
  }

  /**
   * Groups `s` by `key`: one bucket per distinct key, keys in order of first
   * occurrence, each bucket holding its elements in input order.
   */
  method GroupBy<T>(s: seq<T>, key: T -> string) returns (d: Dict<seq<T>>)
    ensures Valid(d)
    ensures d.keys == KeyOrder(s, key)
    ensures forall k :: k in d.values ==> d.values[k] == Select(s, key, k)
  {
    d := EmptyDict();
    var i := 0;
    while i < |s|
      invariant 0 <= i <= |s|
      invariant Valid(d)
      invariant d.keys == KeyOrder(s[..i], key)
      invariant forall k :: k in d.values ==> d.values[k] == Select(s[..i], key, k)
    {
      PushStep(s, i, key, d);
      d := Push(d, key(s[i]), s[i]);
      i := i + 1;
    }
    assert s[..i] == s;
  }

  /** `if (!obj[k]) obj[k] = []; obj[k].push(x)` */
  function Push<T>(d: Dict<seq<T>>, k: string, x: T): (r: Dict<seq<T>>)
    requires Valid(d)
    ensures Valid(r)
  {
    var d1 := if k in d.values then d else Put(d, k, []);
    Put(d1, k, d1.values[k] + [x])
  }

  /** One `push` keeps the dictionary equal to the grouping of the elements seen so far. */
  lemma PushStep<T>(s: seq<T>, i: nat, key: T -> string, d: Dict<seq<T>>)
    requires i < |s| && Valid(d) && d.keys == KeyOrder(s[..i], key)
    requires forall k :: k in d.values ==> d.values[k] == Select(s[..i], key, k)
    ensures Push(d, key(s[i]), s[i]).keys == KeyOrder(s[..i + 1], key)
    ensures forall k :: k in Push(d, key(s[i]), s[i]).values ==> Push(d, key(s[i]), s[i]).values[k] == Select(s[..i + 1], key, k)
  {
    var p, x := s[..i], s[i];
    assert s[..i + 1][..i] == p;
    if key(x) !in d.values {
      NoneSelected(p, key, key(x));
    }
  }

  /** A key that does not occur selects nothing. */
  lemma NoneSelected<T>(s: seq<T>, key: T -> string, k: string)
    requires forall x :: x in s ==> key(x) != k
    ensures Select(s, key, k) == []
  {
    var r := Select(s, key, k);
    if r != [] {
      SelectMembers(s, key, k, r[0]);
    }
  }

  /** No bucket is empty. */
  lemma GroupNonEmpty<T>(s: seq<T>, key: T -> string, k: string)
    requires k in KeyOrder(s, key)
    ensures |Select(s, key, k)| > 0
  {
    var x :| x in s && key(x) == k;
    SelectCount(s, key, k, x);
  }

  /** The total size of the buckets named by `ks`. */
  function GroupSizes<T>(s: seq<T>, key: T -> string, ks: seq<string>): nat
  {
    if ks == [] then 0 else GroupSizes(s, key, ks[..|ks| - 1]) + |Select(s, key, ks[|ks| - 1])|
  }

  lemma {:induction false} GroupSizesAppend<T>(p: seq<T>, x: T, key: T -> string, ks: seq<string>)
    requires Distinct(ks)
    ensures GroupSizes(p + [x], key, ks) == GroupSizes(p, key, ks) + (if key(x) in ks then 1 else 0)
  {
    if ks != [] {
      var ks', k := ks[..|ks| - 1], ks[|ks| - 1];
      assert ks == ks' + [k];
      assert Distinct(ks');
      GroupSizesAppend(p, x, key, ks');
      assert (p + [x])[..|p|] == p;
    }
  }

  /** The bucket sizes add up to the length of the input: nothing is lost or duplicated. */
  lemma {:induction false} GroupSizesSum<T>(s: seq<T>, key: T -> string)
    ensures GroupSizes(s, key, KeyOrder(s, key)) == |s|
  {
    if s != [] {
      var p, x := s[..|s| - 1], s[|s| - 1];
      assert s == p + [x];
      GroupSizesSum(p, key);
      var kp := KeyOrder(p, key);
      GroupSizesAppend(p, x, key, kp);
      if key(x) !in kp {
        NoneSelected(p, key, key(x));
        assert (kp + [key(x)])[..|kp|] == kp;
      }
    }
  }

  /** The position of the first element of `s` whose key is `k`. */
  function FirstIndex<T>(s: seq<T>, key: T -> string, k: string): (i: nat)
    requires exists x :: x in s && key(x) == k
    ensures i < |s| && key(s[i]) == k
    ensures forall j :: 0 <= j < i ==> key(s[j]) != k
  {
    if key(s[0]) == k then 0
    else
      assert exists x :: x in s[1..] && key(x) == k by {
        var x :| x in s && key(x) == k;
        assert x != s[0];
      }
      1 + FirstIndex(s[1..], key, k)
  }

  /** The keys are listed in the order in which they first occur in the input. */
  lemma {:induction false} KeyOrderIsFirstOccurrenceOrder<T>(s: seq<T>, key: T -> string, i: nat, j: nat)
    requires i < j < |KeyOrder(s, key)|
    ensures var ks := KeyOrder(s, key);
      ks[i] in ks && ks[j] in ks && FirstIndex(s, key, ks[i]) < FirstIndex(s, key, ks[j])
  {
    var p, x := s[..|s| - 1], s[|s| - 1];
    var kp := KeyOrder(p, key);
    var ks := KeyOrder(s, key);
    assert s == p + [x];
    var ki, kj := ks[i], ks[j];
    assert ki in kp by {
      if key(x) !in kp { assert ks == kp + [key(x)]; }
    }
    FirstIndexExtend(p, x, key, ki);
    if j < |kp| {
      assert ks[..|kp|] == kp;
      KeyOrderIsFirstOccurrenceOrder(p, key, i, j);
      FirstIndexExtend(p, x, key, kj);
    } else {
      assert kj == key(x) && kj !in kp;
    }
  }

  /** Appending an element moves no first occurrence of an old key. */
  lemma FirstIndexExtend<T>(p: seq<T>, x: T, key: T -> string, k: string)
    requires exists y :: y in p && key(y) == k
    ensures FirstIndex(p + [x], key, k) == FirstIndex(p, key, k)
  {
    var s := p + [x];
    assert exists y :: y in s && key(y) == k;
    var a, b := FirstIndex(s, key, k), FirstIndex(p, key, k);
    assert s[b] == p[b];
  }
}
