/** A stable sort by a byte-string key, and what two sorted lists being equal means.
    The source sorts with the standard library's stable sort; the insertion sort here
    is one such sort, and `SortedUnique` shows that every stable sort gives its result. */
module StableSort {
  import opened Bytes

  /** Lexicographic order on byte strings. */
  predicate LexLeq(a: bytes, b: bytes) {
    a == [] || (b != [] && (a[0] < b[0] || (a[0] == b[0] && LexLeq(a[1..], b[1..]))))
  }

  lemma {:induction false} LexTotal(a: bytes, b: bytes)
    ensures LexLeq(a, b) || LexLeq(b, a)
  {
    if a == [] || b == [] || a[0] != b[0] {
    } else {
      LexTotal(a[1..], b[1..]);
    }
  }

  lemma {:induction false} LexAntisymmetric(a: bytes, b: bytes)
    requires LexLeq(a, b) && LexLeq(b, a)
    ensures a == b
  {
    if a == [] {
    } else {
      LexAntisymmetric(a[1..], b[1..]);
      assert a == [a[0]] + a[1..] && b == [b[0]] + b[1..];
    }
  }

  lemma {:induction false} LexTransitive(a: bytes, b: bytes, c: bytes)
    requires LexLeq(a, b) && LexLeq(b, c)
    ensures LexLeq(a, c)
  {
    if a == [] || a[0] < b[0] || b[0] < c[0] {
    } else {
      LexTransitive(a[1..], b[1..], c[1..]);
    }
  }

  /** Puts `x` in front of the first entry whose key is not smaller. */
  function Insert<T>(x: T, xs: seq<T>, key: T -> bytes): seq<T> {
    if xs == [] || LexLeq(key(x), key(xs[0])) then [x] + xs
    else [xs[0]] + Insert(x, xs[1..], key)
  }

  function Sort<T>(xs: seq<T>, key: T -> bytes): seq<T> {
    if xs == [] then [] else Insert(xs[0], Sort(xs[1..], key), key)
  }

  /** The entries with key `k`, in order. */
  function Group<T>(xs: seq<T>, key: T -> bytes, k: bytes): (g: seq<T>)
    ensures |g| <= |xs|
  {
    if xs == [] then []
    else if key(xs[0]) == k then [xs[0]] + Group(xs[1..], key, k)
    else Group(xs[1..], key, k)
  }

  ghost predicate Sorted<T>(xs: seq<T>, key: T -> bytes) {
    forall i, j :: 0 <= i < j < |xs| ==> LexLeq(key(xs[i]), key(xs[j]))
  }

  /** Two lists in which every key has the same entries in the same order. */
  ghost predicate SameGroups<T>(xs: seq<T>, ys: seq<T>, key: T -> bytes) {
    forall k :: Group(xs, key, k) == Group(ys, key, k)
  }

  lemma {:induction false} GroupConcat<T>(xs: seq<T>, ys: seq<T>, key: T -> bytes, k: bytes)
    ensures Group(xs + ys, key, k) == Group(xs, key, k) + Group(ys, key, k)
  {
    if xs == [] {
      assert xs + ys == ys;
    } else {
      assert (xs + ys)[1..] == xs[1..] + ys;
      GroupConcat(xs[1..], ys, key, k);
    }
  }

  /** Membership in a group is membership in the list with that key. */
  lemma {:induction false} GroupMembers<T(!new)>(xs: seq<T>, key: T -> bytes, k: bytes)
    ensures forall x :: x in Group(xs, key, k) <==> x in xs && key(x) == k
    ensures Group(xs, key, k) == [] || exists x :: x in xs && key(x) == k
  {
    if xs == [] {
    } else {
      GroupMembers(xs[1..], key, k);
      assert forall x :: x in xs <==> x == xs[0] || x in xs[1..];
    }
  }

  lemma {:induction false} InsertKeepsGroups<T>(x: T, xs: seq<T>, key: T -> bytes, k: bytes)
    ensures Group(Insert(x, xs, key), key, k) == Group([x] + xs, key, k)
  {
    assert ([x] + xs)[1..] == xs;
    if xs == [] || LexLeq(key(x), key(xs[0])) {
    } else {
      LexTotal(key(x), key(x));
      InsertKeepsGroups(x, xs[1..], key, k);
      assert ([x] + xs[1..])[1..] == xs[1..];
      assert Insert(x, xs, key)[1..] == Insert(x, xs[1..], key);
    }
  }

  lemma {:induction false} InsertKeepsEntries<T>(x: T, xs: seq<T>, key: T -> bytes)
    ensures multiset(Insert(x, xs, key)) == multiset{x} + multiset(xs)
  {
    if xs == [] || LexLeq(key(x), key(xs[0])) {
    } else {
      InsertKeepsEntries(x, xs[1..], key);
      assert xs == [xs[0]] + xs[1..];
    }
  }

  lemma {:induction false} InsertSorts<T>(x: T, xs: seq<T>, key: T -> bytes)
    requires Sorted(xs, key)
    ensures Sorted(Insert(x, xs, key), key)
  {
    if xs == [] {
    } else if LexLeq(key(x), key(xs[0])) {
      forall j | 0 <= j < |xs| ensures LexLeq(key(x), key(xs[j])) {
        if j > 0 { LexTransitive(key(x), key(xs[0]), key(xs[j])); }
      }
    } else {
      LexTotal(key(x), key(xs[0]));
      InsertSorts(x, xs[1..], key);
      var rest := Insert(x, xs[1..], key);
      InsertKeepsEntries(x, xs[1..], key);
      forall j | 0 <= j < |rest| ensures LexLeq(key(xs[0]), key(rest[j])) {
        assert rest[j] in multiset(rest);
        if rest[j] != x {
          assert rest[j] in xs[1..];
        }
      }
    }
  }

  /** The sort orders by key, keeps every entry, and keeps the order within each key. */
  lemma {:induction false} SortProperties<T(!new)>(xs: seq<T>, key: T -> bytes)
    ensures Sorted(Sort(xs, key), key)
    ensures SameGroups(Sort(xs, key), xs, key)
    ensures multiset(Sort(xs, key)) == multiset(xs)
  {
    if xs == [] {
    } else {
      var rest := Sort(xs[1..], key);
      SortProperties(xs[1..], key);
      assert xs == [xs[0]] + xs[1..];
      InsertSorts(xs[0], rest, key);
      InsertKeepsEntries(xs[0], rest, key);
      forall k ensures Group(Sort(xs, key), key, k) == Group(xs, key, k) {
        InsertKeepsGroups(xs[0], rest, key, k);
        assert ([xs[0]] + rest)[1..] == rest;
        assert Group(rest, key, k) == Group(xs[1..], key, k);
      }
    }
  }

  /** A sorted list is determined by its groups. */
  lemma {:induction false} SortedUnique<T(!new)>(xs: seq<T>, ys: seq<T>, key: T -> bytes)
    requires Sorted(xs, key) && Sorted(ys, key)
    requires SameGroups(xs, ys, key)
    ensures xs == ys
  {
    var k0 := if ys == [] then [] else key(ys[0]);
    assert Group(xs, key, k0) == Group(ys, key, k0);
    if xs == [] {
    } else {
      var kx := key(xs[0]);
      assert Group(xs, key, kx) == Group(ys, key, kx);
      GroupMembers(ys, key, kx);
      assert xs[0] in Group(ys, key, kx);
      var ky := key(ys[0]);
      assert Group(xs, key, ky) == Group(ys, key, ky);
      GroupMembers(xs, key, ky);
      assert ys[0] in Group(xs, key, ky);
      assert kx == ky by { HeadsAgree(xs, ys, key); }
      assert xs[0] == Group(xs, key, kx)[0] == Group(ys, key, kx)[0] == ys[0];
      forall k ensures Group(xs[1..], key, k) == Group(ys[1..], key, k) {
        assert Group(xs, key, k) == Group(ys, key, k);
        if k == kx {
          assert Group(xs[1..], key, k) == Group(xs, key, k)[1..];
          assert Group(ys[1..], key, k) == Group(ys, key, k)[1..];
        }
      }
      SortedUnique(xs[1..], ys[1..], key);
      assert xs == [xs[0]] + xs[1..] && ys == [ys[0]] + ys[1..];
    }
  }

  lemma HeadsAgree<T>(xs: seq<T>, ys: seq<T>, key: T -> bytes)
    requires Sorted(xs, key) && Sorted(ys, key)
    requires xs != [] && ys != [] && xs[0] in ys && ys[0] in xs
    ensures key(xs[0]) == key(ys[0])
  {
    var i :| 0 <= i < |ys| && ys[i] == xs[0];
    var j :| 0 <= j < |xs| && xs[j] == ys[0];
    LexTotal(key(xs[0]), key(xs[0]));
    LexTotal(key(ys[0]), key(ys[0]));
    assert LexLeq(key(ys[0]), key(xs[0]));
    assert LexLeq(key(xs[0]), key(ys[0]));
    LexAntisymmetric(key(xs[0]), key(ys[0]));
  }

  /** Two lists sort to the same list exactly when every key has the same entries in
      the same order in both. */
  lemma SortCharacterised<T(!new)>(xs: seq<T>, ys: seq<T>, key: T -> bytes)
    ensures Sort(xs, key) == Sort(ys, key) <==> SameGroups(xs, ys, key)
  {
    SortProperties(xs, key);
    SortProperties(ys, key);
    if Sort(xs, key) == Sort(ys, key) {
      forall k ensures Group(xs, key, k) == Group(ys, key, k) {
        assert Group(Sort(xs, key), key, k) == Group(xs, key, k);
        assert Group(Sort(ys, key), key, k) == Group(ys, key, k);
      }
    }
    if SameGroups(xs, ys, key) {
      forall k ensures Group(Sort(xs, key), key, k) == Group(Sort(ys, key), key, k) {
        assert Group(Sort(xs, key), key, k) == Group(xs, key, k);
        assert Group(Sort(ys, key), key, k) == Group(ys, key, k);
      }
      SortedUnique(Sort(xs, key), Sort(ys, key), key);
    }
  }

  /** Entries that share a key are equal; in particular this holds when keys are unique. */
  ghost predicate KeysDetermine<T>(xs: seq<T>, key: T -> bytes) {
    forall x, y :: x in xs && y in xs && key(x) == key(y) ==> x == y
  }

  /** Sorting forgets the input order exactly when entries that share a key are equal. */
  lemma SortOrderBlind<T(!new)>(xs: seq<T>, key: T -> bytes)
    ensures (forall ys :: multiset(ys) == multiset(xs) ==> Sort(ys, key) == Sort(xs, key))
            <==> KeysDetermine(xs, key)
  {
    if KeysDetermine(xs, key) {
      forall ys | multiset(ys) == multiset(xs) ensures Sort(ys, key) == Sort(xs, key) {
        forall k ensures Group(xs, key, k) == Group(ys, key, k) {
          SameMultisetSameGroup(xs, ys, key, k);
        }
        SortCharacterised(ys, xs, key);
      }
    } else {
      var x, y :| x in xs && y in xs && key(x) == key(y) && x != y;
      var i :| 0 <= i < |xs| && xs[i] == x;
      var j :| 0 <= j < |xs| && xs[j] == y;
      var lo, hi := if i < j then i else j, if i < j then j else i;
      var ys := SwapChangesSort(xs, lo, hi, key);
    }
  }

  lemma {:induction false} GroupCounts<T(!new)>(xs: seq<T>, key: T -> bytes, k: bytes, x: T)
    requires key(x) == k
    ensures multiset(Group(xs, key, k))[x] == multiset(xs)[x]
  {
    if xs == [] {
    } else {
      assert xs == [xs[0]] + xs[1..];
      GroupCounts(xs[1..], key, k, x);
    }
  }

  lemma {:induction false} ConstantMultiset<T>(g: seq<T>, x: T)
    requires forall i :: 0 <= i < |g| ==> g[i] == x
    ensures multiset(g)[x] == |g|
  {
    if g == [] {
    } else {
      assert g == [g[0]] + g[1..];
      ConstantMultiset(g[1..], x);
    }
  }

  /** When entries that share a key are equal, a group repeats one entry. */
  lemma GroupRepeats<T(!new)>(xs: seq<T>, key: T -> bytes, x: T)
    requires forall y :: y in xs && key(y) == key(x) ==> y == x
    ensures var g := Group(xs, key, key(x));
            multiset(xs)[x] == |g| && forall i :: 0 <= i < |g| ==> g[i] == x
  {
    var g := Group(xs, key, key(x));
    GroupMembers(xs, key, key(x));
    forall i | 0 <= i < |g| ensures g[i] == x {
      assert g[i] in g;
    }
    ConstantMultiset(g, x);
    GroupCounts(xs, key, key(x), x);
  }

  lemma SameMultisetSameGroup<T(!new)>(xs: seq<T>, ys: seq<T>, key: T -> bytes, k: bytes)
    requires multiset(ys) == multiset(xs) && KeysDetermine(xs, key)
    ensures Group(xs, key, k) == Group(ys, key, k)
  {
    SameEntries(xs, ys);
    GroupMembers(xs, key, k);
    GroupMembers(ys, key, k);
    if x :| x in xs && key(x) == k {
      GroupRepeats(xs, key, x);
      GroupRepeats(ys, key, x);
    }
  }

  lemma SameEntries<T(!new)>(xs: seq<T>, ys: seq<T>)
    requires multiset(ys) == multiset(xs)
    ensures forall x :: x in xs <==> x in ys
  {
    forall x ensures x in xs <==> x in ys {
      assert x in multiset(xs) <==> x in multiset(ys);
    }
  }

  /** Swapping two different entries with one key gives a list that sorts differently. */
  lemma SwapChangesSort<T(!new)>(xs: seq<T>, i: nat, j: nat, key: T -> bytes) returns (ys: seq<T>)
    requires i < j < |xs| && key(xs[i]) == key(xs[j]) && xs[i] != xs[j]
    ensures multiset(ys) == multiset(xs) && Sort(ys, key) != Sort(xs, key)
  {
    var k := key(xs[i]);
    ys := xs[i := xs[j]][j := xs[i]];
    assert ys[..i] == xs[..i];
    assert xs == xs[..i] + ([xs[i]] + xs[i + 1..]);
    assert ys == xs[..i] + ([xs[j]] + ys[i + 1..]);
    GroupConcat(xs[..i], [xs[i]] + xs[i + 1..], key, k);
    GroupConcat(xs[..i], [xs[j]] + ys[i + 1..], key, k);
    var n := |Group(xs[..i], key, k)|;
    assert Group(xs, key, k)[n] == xs[i];
    assert Group(ys, key, k)[n] == xs[j];
    SortCharacterised(xs, ys, key);
  }
}
