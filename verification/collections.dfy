/** Filtering and sorting of sequences, with Go's string order as the sort
    key order. Stands in for the `append`-in-a-loop filters, `sort.Slice`
    and `sort.Strings` of the user-interface code. */
module Collections {
  import opened Strings

  /** Keep exactly the elements satisfying `p`, with their original
      multiplicity. */
  function Filter<T(!new)>(s: seq<T>, p: T -> bool): (r: seq<T>)
    ensures forall x :: x in r <==> x in s && p(x)
    ensures forall x :: multiset(r)[x] == if p(x) then multiset(s)[x] else 0
    ensures |r| <= |s|
  {
    if |s| == 0 then []
    else
      var rest := Filter(s[1..], p);
      assert s == [s[0]] + s[1..];
      if p(s[0]) then [s[0]] + rest else rest
  }

  /** Keys never decrease along `s`. */
  predicate SortedBy<T>(s: seq<T>, key: T -> string) {
    forall i, j :: 0 <= i < j < |s| ==> !Less(key(s[j]), key(s[i]))
  }

  /** "Not less than" is transitive in Go's string order. */
  lemma NotLessTransitive(a: string, b: string, c: string)
    requires !Less(b, a) && !Less(c, b)
    ensures !Less(c, a)
  {
  }

  /** Insert `x` into a sorted sequence, before the first element whose key
      is not less than `x`'s. */
  function Insert<T>(x: T, s: seq<T>, key: T -> string): (r: seq<T>)
    requires SortedBy(s, key)
    ensures SortedBy(r, key)
    ensures multiset(r) == multiset(s) + multiset{x}
    decreases |s|
  {
    if |s| == 0 then [x]
    else if !Less(key(s[0]), key(x)) then
      var r := [x] + s;
      forall j | 1 <= j < |r|
        ensures !Less(key(r[j]), key(x))
      {
        assert r[j] == s[j - 1];
        if j > 1 {
          NotLessTransitive(key(x), key(s[0]), key(r[j]));
        }
      }
      r
    else
      var rest := Insert(x, s[1..], key);
      var r := [s[0]] + rest;
      assert s == [s[0]] + s[1..];
      forall j | 0 <= j < |rest|
        ensures !Less(key(rest[j]), key(s[0]))
      {
        assert rest[j] in multiset(rest);
        if rest[j] == x {
          LessAsymmetric(key(s[0]), key(x));
        } else {
          assert rest[j] in multiset(s[1..]);
          var k :| 0 <= k < |s[1..]| && s[1..][k] == rest[j];
          assert s[k + 1] == rest[j];
        }
      }
      r
  }

  /** Insertion sort: a permutation of `s` whose keys never decrease. */
  function SortBy<T>(s: seq<T>, key: T -> string): (r: seq<T>)
    ensures SortedBy(r, key)
    ensures multiset(r) == multiset(s)
    decreases |s|
  {
    if |s| == 0 then []
    else
      assert s == [s[0]] + s[1..];
      Insert(s[0], SortBy(s[1..], key), key)
  }

  /** No two elements of `s` share a key. */
  predicate DistinctKeys<T>(s: seq<T>, key: T -> string) {
    forall i, j :: 0 <= i < j < |s| ==> key(s[i]) != key(s[j])
  }

  /** With distinct keys there is only one sorted order: any two sorted
      permutations of the same elements are equal. So an unstable sort such
      as `sort.Slice` and the insertion sort here agree on directory
      listings, whose names are distinct. */
  lemma {:induction false} SortedPermutationUnique<T>(a: seq<T>, b: seq<T>, key: T -> string)
    requires SortedBy(a, key) && SortedBy(b, key)
    requires multiset(a) == multiset(b)
    requires DistinctKeys(a, key)
    ensures a == b
    decreases |a|
  {
    assert |a| == |multiset(a)| == |multiset(b)| == |b|;
    if |a| > 0 {
      SortedHeadsAgree(a, b, key);
      TailsPermutation(a, b);
      assert SortedBy(a[1..], key) && SortedBy(b[1..], key);
      assert DistinctKeys(a[1..], key) by {
        forall i, j | 0 <= i < j < |a| - 1
          ensures key(a[1..][i]) != key(a[1..][j])
        {
          assert a[1..][i] == a[i + 1] && a[1..][j] == a[j + 1];
        }
      }
      SortedPermutationUnique(a[1..], b[1..], key);
      assert a == [a[0]] + a[1..] && b == [b[0]] + b[1..];
    }
  }

  /** Two sorted permutations with distinct keys start alike: each head is
      the element with the least key. */
  lemma SortedHeadsAgree<T>(a: seq<T>, b: seq<T>, key: T -> string)
    requires SortedBy(a, key) && SortedBy(b, key)
    requires multiset(a) == multiset(b)
    requires DistinctKeys(a, key)
    requires |a| > 0 && |b| > 0
    ensures a[0] == b[0]
  {
    assert a[0] in multiset(b) && b[0] in multiset(a);
    var k :| 0 <= k < |b| && b[k] == a[0];
    var m :| 0 <= m < |a| && a[m] == b[0];
    LessIrreflexive(key(a[0]));
    LessIrreflexive(key(b[0]));
    assert !Less(key(a[0]), key(b[0])) by {
      if k > 0 {
        assert !Less(key(b[k]), key(b[0]));
      }
    }
    assert !Less(key(b[0]), key(a[0])) by {
      if m > 0 {
        assert !Less(key(a[m]), key(a[0]));
      }
    }
    LessTotal(key(a[0]), key(b[0]));
    assert key(a[m]) == key(a[0]);
    assert m == 0;
  }

  lemma TailsPermutation<T>(a: seq<T>, b: seq<T>)
    requires |a| > 0 && |b| > 0 && a[0] == b[0]
    requires multiset(a) == multiset(b)
    ensures multiset(a[1..]) == multiset(b[1..])
  {
    assert a == [a[0]] + a[1..] && b == [b[0]] + b[1..];
    assert multiset(a) == multiset{a[0]} + multiset(a[1..]);
    assert multiset(b) == multiset{a[0]} + multiset(b[1..]);
    assert multiset(a[1..]) == multiset(a) - multiset{a[0]};
    assert multiset(b[1..]) == multiset(b) - multiset{a[0]};
  }

  /** `m` is the least element of `ks`. */
  predicate IsLeast(m: string, ks: set<string>) {
    m in ks && forall x :: x in ks ==> !Less(x, m)
  }

  lemma {:induction false} LeastExists(ks: set<string>)
    requires ks != {}
    ensures exists m :: IsLeast(m, ks)
    decreases |ks|
  {
    var x :| x in ks;
    var rest := ks - {x};
    if rest == {} {
      assert ks == {x};
      LessIrreflexive(x);
      assert IsLeast(x, ks);
    } else {
      LeastExists(rest);
      var m :| IsLeast(m, rest);
      if Less(x, m) {
        forall y | y in ks
          ensures !Less(y, x)
        {
          if y != x && Less(y, x) {
            LessTransitive(y, x, m);
          }
          LessIrreflexive(x);
        }
        assert IsLeast(x, ks);
      } else {
        assert IsLeast(m, ks);
      }
    }
  }

  lemma LeastUnique(ks: set<string>)
    ensures forall a, b :: IsLeast(a, ks) && IsLeast(b, ks) ==> a == b
  {
    forall a, b | IsLeast(a, ks) && IsLeast(b, ks)
      ensures a == b
    {
      LessTotal(a, b);
    }
  }

  /** `sort.Strings` applied to the keys of a map: every key exactly once,
      in strictly ascending order. */
  function SortedKeys(ks: set<string>): (r: seq<string>)
    ensures |r| == |ks|
    ensures forall k :: k in r <==> k in ks
    ensures forall i, j :: 0 <= i < j < |r| ==> Less(r[i], r[j])
    decreases |ks|
  {
    if ks == {} then []
    else
      LeastExists(ks);
      LeastUnique(ks);
      var m :| IsLeast(m, ks);
      var rest := SortedKeys(ks - {m});
      var r := [m] + rest;
      assert forall j :: 0 <= j < |rest| ==> rest[j] in ks - {m};
      forall j | 0 <= j < |rest|
        ensures Less(m, rest[j])
      {
        LessTotal(m, rest[j]);
      }
      r
  }
}
