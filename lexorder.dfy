/**
  Python's ordering of `str` values (lexicographic on code points) and the
  `sorted` builtin over lists of names, written as an insertion sort.
 */
module LexOrder {

  /** `a <= b` on Python strings. */
  predicate Le(a: string, b: string)
    decreases |a|
  {
    a == [] || (b != [] && (a[0] < b[0] || (a[0] == b[0] && Le(a[1..], b[1..]))))
  }

  lemma {:induction false} LeReflexive(a: string)
    ensures Le(a, a)
    decreases |a|
  {
    if a != [] {
      LeReflexive(a[1..]);
    }
  }

  lemma {:induction false} LeTotal(a: string, b: string)
    ensures Le(a, b) || Le(b, a)
    decreases |a|
  {
    if a != [] && b != [] && a[0] == b[0] {
      LeTotal(a[1..], b[1..]);
    }
  }

  lemma {:induction false} LeTransitive(a: string, b: string, c: string)
    requires Le(a, b) && Le(b, c)
    ensures Le(a, c)
    decreases |a|
  {
    if a != [] && a[0] == b[0] && b[0] == c[0] {
      LeTransitive(a[1..], b[1..], c[1..]);
    }
  }

  lemma {:induction false} LeAntisymmetric(a: string, b: string)
    requires Le(a, b) && Le(b, a)
    ensures a == b
    decreases |a|
  {
    if a != [] {
      LeAntisymmetric(a[1..], b[1..]);
      assert a == [a[0]] + a[1..];
      assert b == [b[0]] + b[1..];
    }
  }

  /** A common prefix, such as the library directory, does not change the order. */
  lemma {:induction false} LeCommonPrefix(p: string, a: string, b: string)
    ensures Le(p + a, p + b) <==> Le(a, b)
    decreases |p|
  {
    if p != [] {
      assert (p + a)[1..] == p[1..] + a;
      assert (p + b)[1..] == p[1..] + b;
      LeCommonPrefix(p[1..], a, b);
    } else {
      assert p + a == a && p + b == b;
    }
  }

  predicate Sorted(s: seq<string>) {
    forall i, j :: 0 <= i < j < |s| ==> Le(s[i], s[j])
  }

  lemma HeadIsLeast(s: seq<string>, y: string)
    requires Sorted(s) && y in s
    ensures Le(s[0], y)
  {
    var k :| 0 <= k < |s| && s[k] == y;
    if k == 0 {
      LeReflexive(y);
    }
  }

  /** Puts `x` before the first element it is not above. */
  function Insert(x: string, s: seq<string>): (r: seq<string>)
    ensures multiset(r) == multiset(s) + multiset{x}
  {
    if s == [] then [x]
    else if Le(x, s[0]) then [x] + s
    else
      assert s == [s[0]] + s[1..];
      [s[0]] + Insert(x, s[1..])
  }

  /** An element below every element of a sorted list can go in front of it. */
  lemma SortedCons(x: string, s: seq<string>)
    requires Sorted(s) && forall y | y in s :: Le(x, y)
    ensures Sorted([x] + s)
  {
    var r := [x] + s;
    forall i, j | 0 <= i < j < |r| ensures Le(r[i], r[j]) {
      assert r[j] == s[j - 1];
      if i == 0 {
        assert r[j] in s;
      } else {
        assert r[i] == s[i - 1];
      }
    }
  }

  lemma {:induction false} InsertSorted(x: string, s: seq<string>)
    requires Sorted(s)
    ensures Sorted(Insert(x, s))
  {
    if s == [] {
    } else if Le(x, s[0]) {
      forall y | y in s ensures Le(x, y) {
        HeadIsLeast(s, y);
        LeTransitive(x, s[0], y);
      }
      SortedCons(x, s);
    } else {
      LeTotal(x, s[0]);
      SortedTail(s);
      InsertSorted(x, s[1..]);
      var rest := Insert(x, s[1..]);
      forall y | y in rest ensures Le(s[0], y) {
        assert y in multiset(rest);
        if y != x {
          assert y in multiset(s[1..]);
          assert y in s[1..];
          HeadIsLeast(s, y);
        }
      }
      SortedCons(s[0], rest);
    }
  }

  /** `sorted(s)`: ascending, and a permutation of `s`. */
  function Sort(s: seq<string>): (r: seq<string>)
    ensures Sorted(r)
    ensures multiset(r) == multiset(s)
  {
    if s == [] then []
    else
      assert s == [s[0]] + s[1..];
      InsertSorted(s[0], Sort(s[1..]));
      Insert(s[0], Sort(s[1..]))
  }

  /** Dropping the head of an ascending list leaves it ascending. */
  lemma SortedTail(s: seq<string>)
    requires Sorted(s) && s != []
    ensures Sorted(s[1..])
  {
  }

  lemma MultisetTail(s: seq<string>)
    requires s != []
    ensures multiset(s[1..]) == multiset(s) - multiset{s[0]}
  {
    assert s == [s[0]] + s[1..];
  }

  /** Two sorted lists with the same elements start with the same element. */
  lemma SameHead(a: seq<string>, b: seq<string>)
    requires Sorted(a) && Sorted(b) && a != []
    requires multiset(a) == multiset(b)
    ensures b != [] && a[0] == b[0]
  {
    assert a[0] in multiset(b);
    assert b != [];
    assert b[0] in multiset(a);
    HeadIsLeast(a, b[0]);
    HeadIsLeast(b, a[0]);
    LeAntisymmetric(a[0], b[0]);
  }

  /** Two ascending arrangements of the same names are the same list. */
  lemma {:induction false} SortedUnique(a: seq<string>, b: seq<string>)
    requires Sorted(a) && Sorted(b)
    requires multiset(a) == multiset(b)
    ensures a == b
    decreases |a|
  {
    if a != [] {
      SameHead(a, b);
      SortedTail(a);
      SortedTail(b);
      MultisetTail(a);
      MultisetTail(b);
      SortedUnique(a[1..], b[1..]);
      assert a == [a[0]] + a[1..];
      assert b == [b[0]] + b[1..];
    } else {
      assert |b| == |multiset(b)| == 0;
    }
  }

  /** The names satisfying `p`, in their original order. */
  function Keep(p: string -> bool, s: seq<string>): (r: seq<string>)
    ensures |r| <= |s|
  {
    if s == [] then [] else (if p(s[0]) then [s[0]] else []) + Keep(p, s[1..])
  }

  lemma {:induction false} KeepMembers(p: string -> bool, s: seq<string>)
    ensures forall y :: y in Keep(p, s) <==> y in s && p(y)
  {
    if s != [] {
      KeepMembers(p, s[1..]);
    }
  }

  lemma {:induction false} KeepAppend(p: string -> bool, a: seq<string>, b: seq<string>)
    ensures Keep(p, a + b) == Keep(p, a) + Keep(p, b)
  {
    if a == [] {
      assert a + b == b;
    } else {
      var head := if p(a[0]) then [a[0]] else [];
      assert (a + b)[0] == a[0];
      assert (a + b)[1..] == a[1..] + b;
      assert Keep(p, a + b) == head + Keep(p, a[1..] + b);
      KeepAppend(p, a[1..], b);
      assert head + (Keep(p, a[1..]) + Keep(p, b)) == (head + Keep(p, a[1..])) + Keep(p, b);
    }
  }

  /** Filtering a list extended by one element. */
  lemma KeepSnoc(p: string -> bool, s: seq<string>, x: string)
    ensures Keep(p, s + [x]) == Keep(p, s) + (if p(x) then [x] else [])
  {
    KeepAppend(p, s, [x]);
    assert Keep(p, [x]) == (if p(x) then [x] else []) + Keep(p, []);
  }

  lemma {:induction false} KeepMultiset(p: string -> bool, s: seq<string>, y: string)
    ensures multiset(Keep(p, s))[y] == if p(y) then multiset(s)[y] else 0
  {
    if s != [] {
      assert s == [s[0]] + s[1..];
      KeepMultiset(p, s[1..], y);
    }
  }

  lemma KeepSorted(p: string -> bool, s: seq<string>)
    requires Sorted(s)
    ensures Sorted(Keep(p, s))
  {
    var ks := Keep(p, s);
    if s != [] {
      KeepSorted(p, s[1..]);
      forall i, j | 0 <= i < j < |ks| ensures Le(ks[i], ks[j]) {
        if p(s[0]) {
          assert ks == [s[0]] + Keep(p, s[1..]);
          if i == 0 {
            KeepMembers(p, s[1..]);
            assert ks[j] == Keep(p, s[1..])[j - 1];
            assert ks[j] in s[1..];
            assert ks[j] in s;
            HeadIsLeast(s, ks[j]);
          } else {
            assert ks[i] == Keep(p, s[1..])[i - 1] && ks[j] == Keep(p, s[1..])[j - 1];
          }
        }
      }
    }
  }

  lemma KeepInsertFront(p: string -> bool, x: string, s: seq<string>)
    requires Sorted(s) && s != [] && Le(x, s[0])
    ensures Sorted(Keep(p, s))
    ensures Keep(p, Insert(x, s)) == if p(x) then Insert(x, Keep(p, s)) else Keep(p, s)
  {
    KeepSorted(p, s);
    var ks := Keep(p, s);
    assert Insert(x, s) == [x] + s;
    assert ([x] + s)[1..] == s;
    assert Keep(p, [x] + s) == (if p(x) then [x] else []) + ks;
    if p(x) && ks != [] {
      KeepMembers(p, s);
      assert ks[0] in s;
      HeadIsLeast(s, ks[0]);
      LeTransitive(x, s[0], ks[0]);
      assert Insert(x, ks) == [x] + ks;
    }
  }

  lemma {:induction false} KeepInsert(p: string -> bool, x: string, s: seq<string>)
    requires Sorted(s)
    ensures Sorted(Keep(p, s))
    ensures Keep(p, Insert(x, s)) == if p(x) then Insert(x, Keep(p, s)) else Keep(p, s)
    decreases |s|
  {
    KeepSorted(p, s);
    if s == [] {
      assert Insert(x, s) == [x];
      assert Keep(p, [x]) == (if p(x) then [x] else []) + Keep(p, []);
    } else if Le(x, s[0]) {
      KeepInsertFront(p, x, s);
    } else {
      KeepInsert(p, x, s[1..]);
      KeepInsertBehind(p, x, s);
    }
  }

  lemma KeepInsertBehind(p: string -> bool, x: string, s: seq<string>)
    requires Sorted(s) && s != [] && !Le(x, s[0])
    requires Sorted(Keep(p, s[1..]))
    requires Keep(p, Insert(x, s[1..])) == if p(x) then Insert(x, Keep(p, s[1..])) else Keep(p, s[1..])
    ensures Keep(p, Insert(x, s)) == if p(x) then Insert(x, Keep(p, s)) else Keep(p, s)
  {
    var rest := Insert(x, s[1..]);
    var ks := Keep(p, s);
    assert Insert(x, s) == [s[0]] + rest;
    assert ([s[0]] + rest)[1..] == rest;
    assert Keep(p, [s[0]] + rest) == (if p(s[0]) then [s[0]] else []) + Keep(p, rest);
    if p(s[0]) {
      assert ks == [s[0]] + Keep(p, s[1..]);
      if p(x) {
        assert ks[1..] == Keep(p, s[1..]);
        assert Insert(x, ks) == [s[0]] + Insert(x, Keep(p, s[1..]));
      }
    } else {
      assert ks == Keep(p, s[1..]);
    }
  }

  /** `p + x` for every `x` of `s`, in order: the paths `os.path.join` builds from names. */
  function Prefixed(p: string, s: seq<string>): (r: seq<string>)
    ensures |r| == |s|
    ensures forall i :: 0 <= i < |s| ==> r[i] == p + s[i]
  {
    if s == [] then [] else [p + s[0]] + Prefixed(p, s[1..])
  }

  /** Inserting commutes with a common prefix. */
  lemma {:induction false} PrefixedInsert(p: string, x: string, t: seq<string>)
    ensures Prefixed(p, Insert(x, t)) == Insert(p + x, Prefixed(p, t))
  {
    var pt := Prefixed(p, t);
    if t == [] {
    } else {
      LeCommonPrefix(p, x, t[0]);
      assert pt[0] == p + t[0];
      if Le(x, t[0]) {
        assert Insert(x, t) == [x] + t;
        assert ([x] + t)[1..] == t;
        assert Insert(p + x, pt) == [p + x] + pt;
      } else {
        PrefixedInsert(p, x, t[1..]);
        assert pt[1..] == Prefixed(p, t[1..]);
        var rest := Insert(x, t[1..]);
        assert Insert(x, t) == [t[0]] + rest;
        assert ([t[0]] + rest)[1..] == rest;
        assert Insert(p + x, pt) == [p + t[0]] + Insert(p + x, Prefixed(p, t[1..]));
      }
    }
  }

  /** Sorting paths under one directory is sorting the names, then joining. */
  lemma {:induction false} SortPrefixed(p: string, s: seq<string>)
    ensures Sort(Prefixed(p, s)) == Prefixed(p, Sort(s))
  {
    if s != [] {
      var ps := Prefixed(p, s);
      assert ps[0] == p + s[0];
      assert ps[1..] == Prefixed(p, s[1..]);
      SortPrefixed(p, s[1..]);
      PrefixedInsert(p, s[0], Sort(s[1..]));
    }
  }

  /** Filtering then sorting gives what sorting then filtering gives. */
  lemma {:induction false} KeepSort(p: string -> bool, s: seq<string>)
    ensures Keep(p, Sort(s)) == Sort(Keep(p, s))
  {
    if s != [] {
      var tail := Sort(s[1..]);
      assert Sort(s) == Insert(s[0], tail);
      KeepSort(p, s[1..]);
      KeepInsert(p, s[0], tail);
      var ks := Keep(p, s);
      if p(s[0]) {
        assert ks == [s[0]] + Keep(p, s[1..]);
        assert ks[0] == s[0] && ks[1..] == Keep(p, s[1..]);
        assert Sort(ks) == Insert(s[0], Sort(Keep(p, s[1..])));
      } else {
        assert ks == Keep(p, s[1..]);
      }
    }
  }
}
