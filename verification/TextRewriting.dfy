/** The standard library's text search and replacement, on sequences of any element
    type, with the laws that the template renderer and the policy passes rest on. */
module TextRewriting {
  import opened Bytes

  predicate OccursAt<T(==)>(s: seq<T>, n: seq<T>, i: nat) {
    i + |n| <= |s| && s[i..i + |n|] == n
  }

  predicate Contains<T(==)>(s: seq<T>, n: seq<T>) {
    exists i :: 0 <= i <= |s| && OccursAt(s, n, i)
  }

  predicate EndsWith<T(==)>(s: seq<T>, n: seq<T>) {
    |n| <= |s| && s[|s| - |n|..] == n
  }

  /** `str::find`: the first occurrence. */
  function Find<T(==)>(s: seq<T>, n: seq<T>): (p: Option<nat>)
    ensures p.Some? ==> OccursAt(s, n, p.value)
  {
    if n <= s then Some(0)
    else if s == [] then None
    else
      var rest := Find(s[1..], n);
      if rest.None? then None
      else
        assert s[1..][rest.value..rest.value + |n|] == s[rest.value + 1..rest.value + 1 + |n|];
        Some(rest.value + 1)
  }

  /** `str::replace`: leftmost occurrences that do not overlap. */
  function Replace<T(==)>(s: seq<T>, n: seq<T>, r: seq<T>): seq<T>
    requires n != []
  {
    if s == [] then []
    else if n <= s then r + Replace(s[|n|..], n, r)
    else [s[0]] + Replace(s[1..], n, r)
  }

  /** A sequence in which no proper non-empty prefix is also a suffix. */
  ghost predicate BorderFree<T>(n: seq<T>) {
    forall k :: 0 < k < |n| ==> n[..k] != n[|n| - k..]
  }

  // ------------------------------------------------------------------- searching

  lemma {:induction false} FindIsFirst<T>(s: seq<T>, n: seq<T>)
    ensures Find(s, n).Some? ==> forall i | 0 <= i < Find(s, n).value :: !OccursAt(s, n, i)
    ensures Find(s, n).None? ==> !Contains(s, n)
  {
    if n <= s {
    } else if s == [] {
    } else {
      FindIsFirst(s[1..], n);
      assert !OccursAt(s, n, 0);
      forall i | 0 < i <= |s| ensures OccursAt(s, n, i) <==> OccursAt(s[1..], n, i - 1) {
        if i + |n| <= |s| {
          assert s[1..][i - 1..i - 1 + |n|] == s[i..i + |n|];
        }
      }
    }
  }

  /** The first occurrence is the only index with an occurrence and none before it. */
  lemma FindUnique<T>(s: seq<T>, n: seq<T>, p: nat)
    requires OccursAt(s, n, p) && forall i | 0 <= i < p :: !OccursAt(s, n, i)
    ensures Find(s, n) == Some(p)
  {
    FindIsFirst(s, n);
    assert Contains(s, n);
  }

  /** An occurrence in a part is an occurrence in the whole. */
  lemma ContainsInside<T>(a: seq<T>, b: seq<T>, c: seq<T>, n: seq<T>)
    requires Contains(b, n)
    ensures Contains(a + b + c, n)
  {
    var i :| 0 <= i <= |b| && OccursAt(b, n, i);
    assert (a + b + c)[|a| + i..|a| + i + |n|] == b[i..i + |n|];
    assert OccursAt(a + b + c, n, |a| + i);
  }

  lemma OccurrenceElements<T>(s: seq<T>, n: seq<T>, i: nat)
    requires OccursAt(s, n, i)
    ensures forall j :: i <= j < i + |n| ==> s[j] in n
  {
    forall j | i <= j < i + |n| ensures s[j] in n {
      assert s[i..i + |n|][j - i] == s[j];
    }
  }

  lemma OccursElement<T>(s: seq<T>, n: seq<T>, i: nat, j: nat)
    requires OccursAt(s, n, i) && j < |n|
    ensures s[i + j] == n[j]
  {
    assert s[i..i + |n|][j] == s[i + j];
  }

  lemma OccursPrefix<T>(s: seq<T>, u: seq<T>, v: seq<T>, i: nat)
    requires OccursAt(s, u + v, i)
    ensures OccursAt(s, u, i)
  {
    assert s[i..i + |u|] == s[i..i + |u + v|][..|u|];
  }

  lemma PrefixElement<T>(s: seq<T>, n: seq<T>)
    requires s != [] && n != [] && s[0] !in n
    ensures !(n <= s)
  {
    assert n[0] in n;
  }

  lemma PrefixOfPrefix<T>(n: seq<T>, a: seq<T>, s: seq<T>)
    requires a <= s
    ensures n <= a ==> n <= s
  {
  }

  /** An occurrence cannot cross an element that the needle does not have. */
  lemma OccursBeside<T>(a: seq<T>, c: T, b: seq<T>, n: seq<T>, i: nat)
    requires c !in n && OccursAt(a + [c] + b, n, i) && n != []
    ensures i + |n| <= |a| ==> OccursAt(a, n, i)
    ensures i + |n| <= |a| || i > |a|
    ensures i > |a| ==> OccursAt(b, n, i - |a| - 1)
  {
    var s := a + [c] + b;
    OccurrenceElements(s, n, i);
    assert s[|a|] == c;
    if i + |n| <= |a| {
      assert s[i..i + |n|] == a[i..i + |n|];
    } else if i > |a| {
      assert s[i..i + |n|] == b[i - |a| - 1..i - |a| - 1 + |n|];
    }
  }

  lemma ContainsBeside<T>(a: seq<T>, c: T, b: seq<T>, n: seq<T>)
    requires c !in n && n != []
    ensures Contains(a + [c] + b, n) <==> Contains(a, n) || Contains(b, n)
  {
    var s := a + [c] + b;
    if Contains(s, n) {
      var i :| 0 <= i <= |s| && OccursAt(s, n, i);
      OccursBeside(a, c, b, n, i);
    }
    if Contains(a, n) {
      ContainsInside([], a, [c] + b, n);
      assert [] + a + ([c] + b) == s;
    }
    if Contains(b, n) {
      ContainsInside(a + [c], b, [], n);
      assert a + [c] + b + [] == s;
    }
  }

  // ------------------------------------------------------------------- replacing

  lemma {:induction false} ReplaceAbsent<T>(s: seq<T>, n: seq<T>, r: seq<T>)
    requires n != [] && !Contains(s, n)
    ensures Replace(s, n, r) == s
  {
    if s == [] {
    } else {
      assert !OccursAt(s, n, 0);
      assert [s[0]] + s[1..] + [] == s;
      if Contains(s[1..], n) {
        ContainsInside([s[0]], s[1..], [], n);
      }
      ReplaceAbsent(s[1..], n, r);
    }
  }

  lemma TailOfTail<T>(s: seq<T>, k: nat)
    requires k + 1 <= |s|
    ensures s[1..][k..] == s[k + 1..]
  {
  }

  lemma PrefixOfTail<T>(s: seq<T>, p: nat)
    requires 0 < p <= |s|
    ensures s[..p] == [s[0]] + s[1..][..p - 1]
  {
  }

  lemma Regroup<T>(a: seq<T>, b: seq<T>, c: seq<T>, d: seq<T>)
    ensures a + (b + c + d) == (a + b) + c + d
  {
  }

  lemma ReplaceFirstStep<T>(s: seq<T>, p: nat, n: seq<T>, r: seq<T>)
    requires n != [] && !(n <= s) && 0 < p && p + |n| <= |s|
    requires var tail := s[1..];
             Replace(tail, n, r) == tail[..p - 1] + r + Replace(tail[p - 1 + |n|..], n, r)
    ensures Replace(s, n, r) == s[..p] + r + Replace(s[p + |n|..], n, r)
  {
    TailOfTail(s, p - 1 + |n|);
    PrefixOfTail(s, p);
    Regroup([s[0]], s[1..][..p - 1], r, Replace(s[p + |n|..], n, r));
  }

  lemma {:induction false} ReplaceFirstAt<T>(s: seq<T>, n: seq<T>, r: seq<T>, p: nat)
    requires n != [] && Find(s, n) == Some(p)
    ensures Replace(s, n, r) == s[..p] + r + Replace(s[p + |n|..], n, r)
  {
    if n <= s {
      ReplaceAtFront(s, n, r, p);
    } else {
      FindInTail(s, n, p);
      ReplaceFirstAt(s[1..], n, r, p - 1);
      ReplaceFirstStep(s, p, n, r);
    }
  }

  /** Replacement up to and including the first occurrence. */
  lemma ReplaceFirst<T>(s: seq<T>, n: seq<T>, r: seq<T>)
    requires n != [] && Find(s, n).Some?
    ensures var p := Find(s, n).value;
            Replace(s, n, r) == s[..p] + r + Replace(s[p + |n|..], n, r)
  {
    ReplaceFirstAt(s, n, r, Find(s, n).value);
  }

  lemma ReplaceAtFront<T>(s: seq<T>, n: seq<T>, r: seq<T>, p: nat)
    requires n != [] && n <= s && p == 0
    ensures Replace(s, n, r) == s[..p] + r + Replace(s[p + |n|..], n, r)
  {
    assert p + |n| == |n|;
    assert Replace(s, n, r) == r + Replace(s[p + |n|..], n, r);
    NothingBefore(s, r, p);
  }

  lemma NothingBefore<T>(s: seq<T>, r: seq<T>, p: nat)
    requires p == 0
    ensures s[..p] + r == r
  {
    assert s[..p] == [];
  }

  lemma FindInTail<T>(s: seq<T>, n: seq<T>, p: nat)
    requires !(n <= s) && Find(s, n) == Some(p)
    ensures s != [] && p > 0 && p + |n| <= |s| && Find(s[1..], n) == Some(p - 1)
  {
  }

  /** Replacement works separately on both sides of an element that the needle lacks. */
  lemma {:induction false} ReplaceBeside<T>(a: seq<T>, c: T, b: seq<T>, n: seq<T>, r: seq<T>)
    requires n != [] && c !in n
    ensures Replace(a + [c] + b, n, r) == Replace(a, n, r) + [c] + Replace(b, n, r)
  {
    var s := a + [c] + b;
    if a == [] {
      assert s == [c] + b;
      assert s[1..] == b;
      PrefixElement(s, n);
    } else if n <= s {
      OccursBeside(a, c, b, n, 0);
      assert n <= a;
      assert s[|n|..] == a[|n|..] + [c] + b;
      ReplaceBeside(a[|n|..], c, b, n, r);
      Regroup(r, Replace(a[|n|..], n, r), [c], Replace(b, n, r));
    } else {
      PrefixOfPrefix(n, a, s);
      assert s[1..] == a[1..] + [c] + b;
      ReplaceBeside(a[1..], c, b, n, r);
      Regroup([a[0]], Replace(a[1..], n, r), [c], Replace(b, n, r));
    }
  }

  /** A text that starts with `r`, just before an inserted `r`, overlaps it. */
  lemma OverlapIsBorder<T>(before: seq<T>, r: seq<T>, after: seq<T>)
    ensures r <= before + r + after && |r| <= |before| ==> r <= before
    ensures r <= before + r + after && |before| < |r| ==> r[|before|..] == r[..|r| - |before|]
  {
    var s := before + r + after;
    if r <= s && |before| < |r| {
      forall j | 0 <= j < |r| - |before| ensures r[|before| + j] == r[j] {
        assert s[|before| + j] == r[j];
      }
    }
  }

  /** When the replacement is border-free and the text does not contain it, its
      occurrences in the result are exactly the inserted ones: none starts earlier. */
  lemma InsertedComesFirst<T>(s: seq<T>, n: seq<T>, r: seq<T>)
    requires n != [] && r != [] && BorderFree(r) && !Contains(s, r)
    requires s != [] && !(n <= s)
    ensures !(r <= Replace(s, n, r))
  {
    FindIsFirst(s, n);
    assert !OccursAt(s, r, 0);
    if Find(s, n).None? {
      ReplaceAbsent(s, n, r);
    } else {
      var p := Find(s, n).value;
      ReplaceFirst(s, n, r);
      assert p > 0;
      PrefixOfPrefix(r, s[..p], s);
      OverlapIsBorder(s[..p], r, Replace(s[p + |n|..], n, r));
      var k := |r| - p;
      assert 0 < k < |r| ==> r[..k] != r[|r| - k..];
    }
  }

  /** Replacing back restores the text, for a border-free replacement that the text
      does not contain. */
  lemma {:induction false} ReplaceBack<T>(s: seq<T>, n: seq<T>, r: seq<T>)
    requires n != [] && r != [] && BorderFree(r) && !Contains(s, r)
    ensures Replace(Replace(s, n, r), r, n) == s
  {
    if s == [] {
    } else if n <= s {
      var rest := s[|n|..];
      assert s == s[..|n|] + rest + [];
      if Contains(rest, r) {
        ContainsInside(s[..|n|], rest, [], r);
      }
      ReplaceBack(rest, n, r);
      assert (r + Replace(rest, n, r))[|r|..] == Replace(rest, n, r);
      assert s == n + rest;
    } else {
      var rest := s[1..];
      assert s == [s[0]] + rest + [];
      if Contains(rest, r) {
        ContainsInside([s[0]], rest, [], r);
      }
      ReplaceBack(rest, n, r);
      InsertedComesFirst(s, n, r);
      assert ([s[0]] + Replace(rest, n, r))[1..] == Replace(rest, n, r);
    }
  }

  // -------------------------------------------------------- splitting at an element

  /** The pieces between occurrences of `c`; there is always at least one. */
  function Split<T(==)>(s: seq<T>, c: T): (parts: seq<seq<T>>)
    ensures |parts| > 0
  {
    if s == [] then [[]]
    else
      var rest := Split(s[1..], c);
      if s[0] == c then [[]] + rest else [[s[0]] + rest[0]] + rest[1..]
  }

  function Join<T>(parts: seq<seq<T>>, c: T): seq<T> {
    if parts == [] then []
    else if |parts| == 1 then parts[0]
    else parts[0] + [c] + Join(parts[1..], c)
  }

  lemma JoinFirstLonger<T>(x: T, parts: seq<seq<T>>, c: T)
    requires parts != []
    ensures Join([[x] + parts[0]] + parts[1..], c) == [x] + Join(parts, c)
  {
    var longer := [[x] + parts[0]] + parts[1..];
    assert longer[1..] == parts[1..];
    if |parts| > 1 {
      assert [x] + (parts[0] + [c] + Join(parts[1..], c)) == [x] + parts[0] + [c] + Join(parts[1..], c);
    }
  }

  lemma {:induction false} JoinSplit<T>(s: seq<T>, c: T)
    ensures Join(Split(s, c), c) == s
    ensures forall i :: 0 <= i < |Split(s, c)| ==> c !in Split(s, c)[i]
  {
    if s == [] {
    } else {
      var rest := Split(s[1..], c);
      JoinSplit(s[1..], c);
      assert s == [s[0]] + s[1..];
      if s[0] == c {
        assert ([[]] + rest)[1..] == rest;
        assert Join(Split(s, c), c) == [] + [c] + Join(rest, c);
      } else {
        JoinFirstLonger(s[0], rest, c);
      }
    }
  }

  lemma {:induction false} SplitPrepend<T>(a: seq<T>, c: T, b: seq<T>)
    requires c !in a
    ensures Split(a + [c] + b, c) == [a] + Split(b, c)
    ensures Split(a, c) == [a]
  {
    var s := a + [c] + b;
    if a == [] {
      assert s == [c] + b;
    } else {
      SplitPrepend(a[1..], c, b);
      assert s[1..] == a[1..] + [c] + b;
      assert a == [a[0]] + a[1..];
      assert s[0] == a[0] && a[0] in a;
    }
  }

  lemma {:induction false} SplitJoin<T>(parts: seq<seq<T>>, c: T)
    requires |parts| > 0 && forall i :: 0 <= i < |parts| ==> c !in parts[i]
    ensures Split(Join(parts, c), c) == parts
  {
    if |parts| == 1 {
      SplitPrepend(parts[0], c, []);
      assert parts == [parts[0]];
    } else {
      SplitJoin(parts[1..], c);
      SplitPrepend(parts[0], c, Join(parts[1..], c));
      assert parts == [parts[0]] + parts[1..];
    }
  }

  /** Replacement acts on each piece on its own when the needle lacks the separator. */
  lemma {:induction false} ReplaceJoin<T>(parts: seq<seq<T>>, c: T, n: seq<T>, r: seq<T>)
    requires n != [] && c !in n
    ensures Replace(Join(parts, c), n, r)
            == Join(seq(|parts|, i requires 0 <= i < |parts| => Replace(parts[i], n, r)), c)
  {
    var replaced := seq(|parts|, i requires 0 <= i < |parts| => Replace(parts[i], n, r));
    if |parts| <= 1 {
    } else {
      var tail := parts[1..];
      ReplaceJoin(tail, c, n, r);
      ReplaceBeside(parts[0], c, Join(tail, c), n, r);
      assert replaced[1..] == seq(|tail|, i requires 0 <= i < |tail| => Replace(tail[i], n, r));
    }
  }

  lemma {:induction false} ContainsJoin<T>(parts: seq<seq<T>>, c: T, n: seq<T>)
    requires n != [] && c !in n
    ensures Contains(Join(parts, c), n) <==> exists i :: 0 <= i < |parts| && Contains(parts[i], n)
  {
    if parts == [] {
    } else if |parts| == 1 {
      if Contains(parts[0], n) { assert Contains(parts[0], n); }
    } else {
      ContainsJoin(parts[1..], c, n);
      ContainsBeside(parts[0], c, Join(parts[1..], c), n);
      assert forall i :: 0 < i < |parts| ==> parts[i] == parts[1..][i - 1];
      if Contains(Join(parts[1..], c), n) {
        var i :| 0 <= i < |parts[1..]| && Contains(parts[1..][i], n);
        assert Contains(parts[i + 1], n);
      }
      if i :| 0 <= i < |parts| && Contains(parts[i], n) {
        if i > 0 { assert Contains(parts[1..][i - 1], n); }
      }
    }
  }
}
