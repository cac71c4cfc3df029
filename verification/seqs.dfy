// Generic sequence operations behind the editor and the persistence layer:
// JavaScript's `splice` used to move one element, and the stable
// `Array.prototype.sort` with a numeric key.

module Seqs {

  function Min(a: nat, b: nat): (m: nat)
    ensures m <= a && m <= b && (m == a || m == b)
  {
    if a <= b then a else b
  }

  /** `s.splice(i, 1)` for an index inside the sequence: the remaining elements. */
  function RemoveAt<T>(s: seq<T>, i: nat): (r: seq<T>)
    requires i < |s|
    ensures |r| == |s| - 1
    ensures forall k :: 0 <= k < i ==> r[k] == s[k]
    ensures forall k :: i <= k < |r| ==> r[k] == s[k + 1]
  {
    s[..i] + s[i + 1..]
  }

  /** `s.splice(i, 0, x)`: an index past the end inserts at the end. */
  function InsertAt<T>(s: seq<T>, i: nat, x: T): (r: seq<T>)
    ensures |r| == |s| + 1
    ensures r[Min(i, |s|)] == x
    ensures forall k :: 0 <= k < Min(i, |s|) ==> r[k] == s[k]
    ensures forall k :: Min(i, |s|) < k < |r| ==> r[k] == s[k - 1]
  {
    var j := Min(i, |s|);
    s[..j] + [x] + s[j..]
  }

  lemma InsertAtMultiset<T>(s: seq<T>, i: nat, x: T)
    ensures multiset(InsertAt(s, i, x)) == multiset(s) + multiset{x}
  {
    var j := Min(i, |s|);
    assert InsertAt(s, i, x) == s[..j] + [x] + s[j..];
    assert s == s[..j] + s[j..];
  }

  /** Removing what was inserted gives the sequence back. */
  lemma RemoveInserted<T>(s: seq<T>, i: nat, x: T)
    ensures RemoveAt(InsertAt(s, i, x), Min(i, |s|)) == s
  {
  }

  /** Inserting the removed element where it was gives the sequence back. */
  lemma InsertRemoved<T>(s: seq<T>, i: nat)
    requires i < |s|
    ensures InsertAt(RemoveAt(s, i), i, s[i]) == s
  {
  }

  /**
   * The two-splice reorder: take the element at `from` out, then insert it
   * at `to` in what is left.
   */
  function Reorder<T>(s: seq<T>, from: nat, to: nat): (r: seq<T>)
    requires from < |s|
    ensures |r| == |s|
    ensures multiset(r) == multiset(s)
    ensures r[Min(to, |s| - 1)] == s[from]
    ensures RemoveAt(r, Min(to, |s| - 1)) == RemoveAt(s, from)
  {
    var rest := RemoveAt(s, from);
    InsertRemoved(s, from);
    InsertAtMultiset(rest, from, s[from]);
    InsertAtMultiset(rest, to, s[from]);
    RemoveInserted(rest, to, s[from]);
    InsertAt(rest, to, s[from])
  }

  /** Moving an element onto its own index changes nothing. */
  lemma ReorderInPlace<T>(s: seq<T>, i: nat)
    requires i < |s|
    ensures Reorder(s, i, i) == s
  {
    InsertRemoved(s, i);
  }

  /** The sequence with the elements at `i` and `j` exchanged. */
  function Swap<T>(s: seq<T>, i: nat, j: nat): (r: seq<T>)
    requires i < |s| && j < |s|
    ensures |r| == |s| && r[i] == s[j] && r[j] == s[i]
    ensures forall k :: 0 <= k < |s| && k != i && k != j ==> r[k] == s[k]
  {
    s[i := s[j]][j := s[i]]
  }

  /** Moving an element to a neighbouring index exchanges the two. */
  lemma ReorderNeighbour<T>(s: seq<T>, i: nat)
    requires i + 1 < |s|
    ensures Reorder(s, i, i + 1) == Swap(s, i, i + 1)
    ensures Reorder(s, i + 1, i) == Swap(s, i, i + 1)
  {
    var down := Reorder(s, i, i + 1);
    var up := Reorder(s, i + 1, i);
    assert forall k :: 0 <= k < |s| ==> down[k] == Swap(s, i, i + 1)[k];
    assert forall k :: 0 <= k < |s| ==> up[k] == Swap(s, i, i + 1)[k];
  }

  /** A sequence whose first element is `x` and whose rest agrees with `tail` is `[x] + tail`. */
  lemma ConsPointwise<T>(a: seq<T>, x: T, tail: seq<T>)
    requires |a| == |tail| + 1 && a[0] == x
    requires forall k :: 0 <= k < |tail| ==> a[k + 1] == tail[k]
    ensures a == [x] + tail
  {
    assert forall k :: 0 <= k < |a| ==> a[k] == ([x] + tail)[k];
  }

  // ---------------------------------------------------------------------
  // Stable sorting by an integer key

  predicate SortedBy<T>(s: seq<T>, key: T -> int) {
    forall i, j :: 0 <= i < j < |s| ==> key(s[i]) <= key(s[j])
  }

  /** The elements whose key is `k`, in their order in `s`. */
  function WithKey<T>(s: seq<T>, key: T -> int, k: int): seq<T>
    decreases |s|
  {
    if s == [] then []
    else WithKey(s[..|s| - 1], key, k) + (if key(s[|s| - 1]) == k then [s[|s| - 1]] else [])
  }

  lemma {:induction false} WithKeyConcat<T>(a: seq<T>, b: seq<T>, key: T -> int, k: int)
    ensures WithKey(a + b, key, k) == WithKey(a, key, k) + WithKey(b, key, k)
    decreases |b|
  {
    if b == [] {
      assert a + b == a;
    } else {
      var b' := b[..|b| - 1];
      assert (a + b)[..|a + b| - 1] == a + b';
      WithKeyConcat(a, b', key, k);
    }
  }

  lemma {:induction false} WithKeyNone<T>(s: seq<T>, key: T -> int, k: int)
    requires forall i :: 0 <= i < |s| ==> key(s[i]) != k
    ensures WithKey(s, key, k) == []
    decreases |s|
  {
    if s != [] {
      WithKeyNone(s[..|s| - 1], key, k);
    }
  }

  /**
   * Where a stable insertion puts `x`: after every element whose key is at
   * most `key(x)`, counted from the end.
   */
  function InsertPos<T>(s: seq<T>, x: T, key: T -> int): (j: nat)
    ensures j <= |s|
    ensures forall i :: j <= i < |s| ==> key(s[i]) > key(x)
    ensures j > 0 ==> key(s[j - 1]) <= key(x)
    decreases |s|
  {
    if s == [] then 0
    else if key(s[|s| - 1]) <= key(x) then |s|
    else InsertPos(s[..|s| - 1], x, key)
  }

  /** Insertion into an already sorted sequence keeps it sorted. */
  lemma InsertKeepsSorted<T>(s: seq<T>, x: T, key: T -> int)
    requires SortedBy(s, key)
    ensures SortedBy(InsertAt(s, InsertPos(s, x, key), x), key)
  {
    var j := InsertPos(s, x, key);
    var r := InsertAt(s, j, x);
    assert Min(j, |s|) == j;
    forall a, b | 0 <= a < b < |r|
      ensures key(r[a]) <= key(r[b])
    {
      if b < j {
        assert r[a] == s[a] && r[b] == s[b];
      } else if b == j {
        assert r[a] == s[a] && r[b] == x;
        assert key(s[a]) <= key(s[j - 1]);
      } else if a < j {
        assert r[a] == s[a] && r[b] == s[b - 1];
        assert key(s[a]) <= key(s[b - 1]);
      } else if a == j {
        assert r[a] == x && r[b] == s[b - 1];
        assert key(x) < key(s[b - 1]);
      } else {
        assert r[a] == s[a - 1] && r[b] == s[b - 1];
        assert key(s[a - 1]) <= key(s[b - 1]);
      }
    }
  }

  /** The elements of key `k` around an insertion at `j`. */
  lemma WithKeyInsertAt<T>(s: seq<T>, j: nat, x: T, key: T -> int, k: int)
    requires j <= |s|
    ensures WithKey(InsertAt(s, j, x), key, k)
         == WithKey(s[..j], key, k) + (if key(x) == k then [x] else []) + WithKey(s[j..], key, k)
    ensures WithKey(s, key, k) == WithKey(s[..j], key, k) + WithKey(s[j..], key, k)
  {
    var front, back := s[..j], s[j..];
    var ext := front + [x];
    assert InsertAt(s, j, x) == ext + back;
    assert s == front + back;
    WithKeyConcat(ext, back, key, k);
    WithKeyConcat(front, back, key, k);
    assert ext[..|ext| - 1] == front;
  }

  /** Inserting `x` adds it to the elements of its own key, at their end. */
  lemma InsertWithKey<T>(s: seq<T>, x: T, key: T -> int, k: int)
    ensures WithKey(InsertAt(s, InsertPos(s, x, key), x), key, k)
         == WithKey(s, key, k) + (if key(x) == k then [x] else [])
  {
    var j := InsertPos(s, x, key);
    WithKeyInsertAt(s, j, x, key, k);
    if key(x) == k {
      WithKeyAfterPos(s, x, key);
    }
  }

  /** Nothing after the insertion point shares the inserted element's key. */
  lemma WithKeyAfterPos<T>(s: seq<T>, x: T, key: T -> int)
    ensures WithKey(s[InsertPos(s, x, key)..], key, key(x)) == []
  {
    var j := InsertPos(s, x, key);
    var back := s[j..];
    forall i | 0 <= i < |back| ensures key(back[i]) != key(x) {
      assert back[i] == s[j + i];
    }
    WithKeyNone(back, key, key(x));
  }

  /**
   * The model of a stable sort: insert the elements one by one, each after
   * every element already placed whose key is not larger.
   */
  function SortByKey<T>(s: seq<T>, key: T -> int): (r: seq<T>)
    ensures |r| == |s|
    decreases |s|
  {
    if s == [] then []
    else
      var done := SortByKey(s[..|s| - 1], key);
      InsertAt(done, InsertPos(done, s[|s| - 1], key), s[|s| - 1])
  }

  lemma {:induction false} SortByKeySorted<T>(s: seq<T>, key: T -> int)
    ensures SortedBy(SortByKey(s, key), key)
    decreases |s|
  {
    if s != [] {
      SortByKeySorted(s[..|s| - 1], key);
      InsertKeepsSorted(SortByKey(s[..|s| - 1], key), s[|s| - 1], key);
    }
  }

  lemma {:induction false} SortByKeyPermutes<T>(s: seq<T>, key: T -> int)
    ensures multiset(SortByKey(s, key)) == multiset(s)
    decreases |s|
  {
    if s != [] {
      var init := s[..|s| - 1];
      var last := s[|s| - 1];
      assert s == init + [last];
      var done := SortByKey(init, key);
      var j := InsertPos(done, last, key);
      assert SortByKey(s, key) == InsertAt(done, j, last);
      SortByKeyPermutes(init, key);
      InsertAtMultiset(done, j, last);
      assert multiset(s) == multiset(init) + multiset{last};
    }
  }

  /** Sorting neither adds nor drops an element. */
  lemma SortByKeyHas<T>(s: seq<T>, key: T -> int, x: T)
    ensures x in SortByKey(s, key) <==> x in s
  {
    SortByKeyPermutes(s, key);
    assert x in SortByKey(s, key) <==> x in multiset(SortByKey(s, key));
    assert x in s <==> x in multiset(s);
  }

  /** Stability: among equal keys the input order survives. */
  lemma {:induction false} SortByKeyStable<T>(s: seq<T>, key: T -> int, k: int)
    ensures WithKey(SortByKey(s, key), key, k) == WithKey(s, key, k)
    decreases |s|
  {
    if s != [] {
      var init := s[..|s| - 1];
      SortByKeyStable(init, key, k);
      InsertWithKey(SortByKey(init, key), s[|s| - 1], key, k);
    }
  }

  /** A sequence already in key order comes back unchanged. */
  lemma {:induction false} SortByKeyOfSorted<T>(s: seq<T>, key: T -> int)
    requires SortedBy(s, key)
    ensures SortByKey(s, key) == s
    decreases |s|
  {
    if s != [] {
      var init, last := s[..|s| - 1], s[|s| - 1];
      SortedPrefix(s, key);
      SortByKeyOfSorted(init, key);
      InsertPosAtEnd(init, last, key);
      InsertAtEnd(init, last);
      assert init + [last] == s;
    }
  }

  lemma SortedPrefix<T>(s: seq<T>, key: T -> int)
    requires SortedBy(s, key) && s != []
    ensures SortedBy(s[..|s| - 1], key)
    ensures |s| > 1 ==> key(s[|s| - 2]) <= key(s[|s| - 1])
  {
  }

  lemma InsertPosAtEnd<T>(s: seq<T>, x: T, key: T -> int)
    requires s != [] ==> key(s[|s| - 1]) <= key(x)
    ensures InsertPos(s, x, key) == |s|
  {
  }

  lemma InsertAtEnd<T>(s: seq<T>, x: T)
    ensures InsertAt(s, |s|, x) == s + [x]
  {
    assert s[..|s|] == s && s[|s|..] == [];
  }

}
