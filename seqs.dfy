/** Option, for the fields a parsed feed may lack and for matchers that may fail. */
module Wrappers {
  datatype Option<+T> = None | Some(value: T)
}

/**
 * Sequence helpers shared by the whole model: selection by key value, and the
 * stable descending sort that every `sort((a, b) => key(b) - key(a))` call of
 * the program performs.
 */
module Seqs {

  /** Non-increasing by `key`: the order a comparator `(a, b) => key(b) - key(a)` sorts into. */
  predicate SortedDesc<T>(s: seq<T>, key: T -> int)
  {
    forall i, j :: 0 <= i < j < |s| ==> key(s[i]) >= key(s[j])
  }

  /** The elements of `s` whose key is `k`, in their order in `s`. */
  function Select<T, K(==)>(s: seq<T>, key: T -> K, k: K): (r: seq<T>)
    ensures |r| <= |s|
  {
    if s == [] then []
    else Select(s[..|s| - 1], key, k) + (if key(s[|s| - 1]) == k then [s[|s| - 1]] else [])
  }

  /** Only elements of `s` with key `k` are selected. */
  lemma {:induction false} SelectMembers<T, K>(s: seq<T>, key: T -> K, k: K, x: T)
    requires x in Select(s, key, k)
    ensures x in s && key(x) == k
  {
    if s != [] {
      if x !in Select(s[..|s| - 1], key, k) {
        assert x == s[|s| - 1];
      } else {
        SelectMembers(s[..|s| - 1], key, k, x);
      }
    }
  }

  /** Selection distributes over concatenation: it keeps the input order. */
  lemma {:induction false} SelectConcat<T, K>(a: seq<T>, b: seq<T>, key: T -> K, k: K)
    ensures Select(a + b, key, k) == Select(a, key, k) + Select(b, key, k)
  {
    if b == [] {
      assert a + b == a;
    } else {
      assert (a + b)[..|a + b| - 1] == a + b[..|b| - 1];
      SelectConcat(a, b[..|b| - 1], key, k);
    }
  }

  /** Selecting from a one-element sequence. */
  lemma SelectSingleton<T, K>(x: T, key: T -> K, k: K)
    ensures Select([x], key, k) == if key(x) == k then [x] else []
  {
    assert [x][..0] == [];
  }

  /** Each element occurs in the selection exactly as often as in the input when its key is `k`, else never. */
  lemma {:induction false} SelectCount<T, K>(s: seq<T>, key: T -> K, k: K, x: T)
    ensures multiset(Select(s, key, k))[x] == if key(x) == k then multiset(s)[x] else 0
  {
    if s != [] {
      var p, y := s[..|s| - 1], s[|s| - 1];
      assert s == p + [y];
      SelectCount(p, key, k, x);
    }
  }

  /** Insert `x` into a non-increasing `s` after every element whose key is at least `key(x)`. */
  function Insert<T>(x: T, s: seq<T>, key: T -> int): (r: seq<T>)
    ensures |r| == |s| + 1
  {
    if s == [] || key(x) > key(s[0]) then [x] + s else [s[0]] + Insert(x, s[1..], key)
  }

  /**
   * The stable sort of `s`, newest (largest key) first. Insertion sort from the
   * left: each element goes after the earlier ones with an equal key, so ties
   * keep their input order.
   */
  function StableSortDesc<T>(s: seq<T>, key: T -> int): (r: seq<T>)
    ensures |r| == |s|
  {
    if s == [] then [] else Insert(s[|s| - 1], StableSortDesc(s[..|s| - 1], key), key)
  }

  lemma {:induction false} InsertMultiset<T>(x: T, s: seq<T>, key: T -> int)
    ensures multiset(Insert(x, s, key)) == multiset(s) + multiset{x}
  {
    if s != [] && key(x) <= key(s[0]) {
      InsertMultiset(x, s[1..], key);
      assert s == [s[0]] + s[1..];
    }
  }

  lemma {:induction false} InsertSorted<T>(x: T, s: seq<T>, key: T -> int)
    requires SortedDesc(s, key)
    ensures SortedDesc(Insert(x, s, key), key)
  {
    if s != [] && key(x) <= key(s[0]) {
      var t := Insert(x, s[1..], key);
      InsertSorted(x, s[1..], key);
      InsertMultiset(x, s[1..], key);
      forall j | 0 <= j < |t| ensures key(s[0]) >= key(t[j]) {
        assert t[j] in multiset(s[1..]) + multiset{x};
      }
    }
  }

  /** The sort is a permutation of its input. */
  lemma {:induction false} SortPermutes<T>(s: seq<T>, key: T -> int)
    ensures multiset(StableSortDesc(s, key)) == multiset(s)
  {
    if s != [] {
      var p := s[..|s| - 1];
      SortPermutes(p, key);
      InsertMultiset(s[|s| - 1], StableSortDesc(p, key), key);
      assert s == p + [s[|s| - 1]];
    }
  }

  /** The sort's result is non-increasing by key. */
  lemma {:induction false} SortSorted<T>(s: seq<T>, key: T -> int)
    ensures SortedDesc(StableSortDesc(s, key), key)
  {
    if s != [] {
      SortSorted(s[..|s| - 1], key);
      InsertSorted(s[|s| - 1], StableSortDesc(s[..|s| - 1], key), key);
    }
  }

  /** Nothing of key `k` can be found in a non-increasing sequence whose head is below `k`. */
  lemma SelectBelowHead<T>(s: seq<T>, key: T -> int, k: int)
    requires SortedDesc(s, key) && s != [] && key(s[0]) < k
    ensures Select(s, key, k) == []
  {
    var r := Select(s, key, k);
    if r != [] {
      SelectMembers(s, key, k, r[0]);
    }
  }

  lemma {:induction false} InsertSelect<T>(x: T, s: seq<T>, key: T -> int, k: int)
    requires SortedDesc(s, key)
    ensures Select(Insert(x, s, key), key, k) == Select(s, key, k) + (if key(x) == k then [x] else [])
  {
    if s == [] {
      assert Insert(x, s, key) == [x];
      SelectSingleton(x, key, k);
    } else if key(x) > key(s[0]) {
      InsertSelectFront(x, s, key, k);
    } else {
      SortedTail(s, key);
      InsertSelect(x, s[1..], key, k);
      InsertSelectBehind(x, s, key, k);
    }
  }

  lemma SortedTail<T>(s: seq<T>, key: T -> int)
    requires SortedDesc(s, key) && s != []
    ensures SortedDesc(s[1..], key)
  {
  }

  /** An element that goes in front of everything is selected after nothing of its own key. */
  lemma InsertSelectFront<T>(x: T, s: seq<T>, key: T -> int, k: int)
    requires SortedDesc(s, key) && s != [] && key(x) > key(s[0])
    ensures Select(Insert(x, s, key), key, k) == Select(s, key, k) + (if key(x) == k then [x] else [])
  {
    assert Insert(x, s, key) == [x] + s;
    SelectConcat([x], s, key, k);
    SelectSingleton(x, key, k);
    if key(x) == k {
      SelectBelowHead(s, key, k);
    }
  }

  /** An element inserted behind the head: the head's selection comes first. */
  lemma InsertSelectBehind<T>(x: T, s: seq<T>, key: T -> int, k: int)
    requires s != [] && key(x) <= key(s[0])
    requires Select(Insert(x, s[1..], key), key, k) == Select(s[1..], key, k) + (if key(x) == k then [x] else [])
    ensures Select(Insert(x, s, key), key, k) == Select(s, key, k) + (if key(x) == k then [x] else [])
  {
    var t := Insert(x, s[1..], key);
    assert Insert(x, s, key) == [s[0]] + t;
    SelectConcat([s[0]], t, key, k);
    SelectConcat([s[0]], s[1..], key, k);
    assert s == [s[0]] + s[1..];
  }

  /** Stability: for every key value, the elements with that key keep their input order. */
  lemma {:induction false} SortStable<T>(s: seq<T>, key: T -> int, k: int)
    ensures Select(StableSortDesc(s, key), key, k) == Select(s, key, k)
  {
    if s != [] {
      var p := s[..|s| - 1];
      SortStable(p, key, k);
      SortSorted(p, key);
      InsertSelect(s[|s| - 1], StableSortDesc(p, key), key, k);
    }
  }

  /** The last element of a non-empty selection is the last element of `s` with that key. */
  lemma LastSelected<T>(s: seq<T>, key: T -> int)
    requires s != []
    ensures Select(s, key, key(s[|s| - 1])) == Select(s[..|s| - 1], key, key(s[|s| - 1])) + [s[|s| - 1]]
  {
  }

  /** In a non-increasing sequence the last element has the least key. */
  lemma SortedLastIsLeast<T>(s: seq<T>, key: T -> int, y: T)
    requires SortedDesc(s, key) && y in s
    ensures key(s[|s| - 1]) <= key(y)
  {
    var i :| 0 <= i < |s| && s[i] == y;
  }

  /** Two sequences with equal selections end in the same element. */
  lemma {:induction false} SameSelectionsSameLast<T>(r: seq<T>, t: seq<T>, r': seq<T>, t': seq<T>, key: T -> int)
    requires SortedDesc(r, key) && SortedDesc(t, key) && r != [] && t != []
    requires r' == r[..|r| - 1] && t' == t[..|t| - 1]
    requires forall k :: Select(r, key, k) == Select(t, key, k)
    ensures r[|r| - 1] == t[|t| - 1]
    ensures forall k :: Select(r', key, k) == Select(t', key, k)
  {
    var a, b := r[|r| - 1], t[|t| - 1];
    LastSelected(r, key);
    LastSelected(t, key);
    assert b in Select(r, key, key(b));
    SelectMembers(r, key, key(b), b);
    SortedLastIsLeast(r, key, b);
    assert a in Select(t, key, key(a));
    SelectMembers(t, key, key(a), a);
    SortedLastIsLeast(t, key, a);
    var m := key(a);
    var sr, st := Select(r', key, m), Select(t', key, m);
    assert sr + [a] == st + [b];
    assert a == (sr + [a])[|sr|];
    forall k ensures Select(r', key, k) == Select(t', key, k) {
      if k == m {
        assert sr == (sr + [a])[..|sr|];
        assert st == (st + [b])[..|st|];
      } else {
        assert Select(r, key, k) == Select(r', key, k);
        assert Select(t, key, k) == Select(t', key, k);
      }
    }
  }

  /**
   * A non-increasing sequence is determined by its selections: two sorted
   * sequences with the same elements of each key, in the same order, are equal.
   */
  lemma {:induction false} SortedSelectionsDetermine<T>(r: seq<T>, t: seq<T>, key: T -> int)
    requires SortedDesc(r, key) && SortedDesc(t, key)
    requires forall k :: Select(r, key, k) == Select(t, key, k)
    ensures r == t
    decreases |r| + |t|
  {
    if r != [] && t == [] {
      LastSelected(r, key);
    } else if r == [] && t != [] {
      LastSelected(t, key);
    } else if r != [] {
      var r', t' := r[..|r| - 1], t[..|t| - 1];
      SameSelectionsSameLast(r, t, r', t', key);
      assert SortedDesc(r', key);
      assert SortedDesc(t', key);
      SortedSelectionsDetermine(r', t', key);
      assert r == r' + [r[|r| - 1]];
      assert t == t' + [t[|t| - 1]];
    }
  }

  /**
   * What the language promises of a stable sort (sorted by the comparator,
   * equal elements in input order) pins its result down to `StableSortDesc`.
   */
  lemma SortedAndStableDetermine<T>(r: seq<T>, s: seq<T>, key: T -> int)
    requires SortedDesc(r, key)
    requires forall k :: Select(r, key, k) == Select(s, key, k)
    ensures r == StableSortDesc(s, key)
  {
    SortSorted(s, key);
    forall k ensures Select(r, key, k) == Select(StableSortDesc(s, key), key, k) {
      SortStable(s, key, k);
    }
    SortedSelectionsDetermine(r, StableSortDesc(s, key), key);
  }

  /**
   * The head of the sort is the first element of maximum key: no element is
   * larger, and every element before it is strictly smaller.
   */
  lemma {:induction false} SortHeadIsFirstMax<T>(s: seq<T>, key: T -> int) returns (i: nat)
    requires s != []
    ensures i < |s| && StableSortDesc(s, key)[0] == s[i]
    ensures forall j :: 0 <= j < |s| ==> key(s[j]) <= key(s[i])
    ensures forall j :: 0 <= j < i ==> key(s[j]) < key(s[i])
  {
    var p, x := s[..|s| - 1], s[|s| - 1];
    var sp := StableSortDesc(p, key);
    assert StableSortDesc(s, key) == Insert(x, sp, key);
    if p == [] {
      i := 0;
    } else {
      var h := SortHeadIsFirstMax(p, key);
      assert sp[0] == s[h];
      assert forall j :: 0 <= j < |p| ==> s[j] == p[j];
      if key(x) > key(sp[0]) {
        assert Insert(x, sp, key)[0] == x;
        i := |s| - 1;
      } else {
        assert Insert(x, sp, key)[0] == sp[0];
        i := h;
      }
    }
  }
}
