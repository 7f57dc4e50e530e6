/**
 * Repetition-freedom of a list, and its link to `new Set(list).size`.
 */
module Unique {
  predicate Distinct<T(==)>(s: seq<T>) {
    forall i, j :: 0 <= i < j < |s| ==> s[i] != s[j]
  }

  /** The elements of s as a set. */
  function Elements<T(==)>(s: seq<T>): set<T> {
    set x | x in s
  }

  /** A list never has fewer elements than its set, and has exactly as many iff it repeats nothing. */
  lemma {:induction false} SetSize<T>(s: seq<T>)
    ensures |Elements(s)| <= |s|
    ensures |Elements(s)| == |s| <==> Distinct(s)
  {
    if s != [] {
      var p := s[..|s| - 1];
      var x := s[|s| - 1];
      SetSize(p);
      assert Elements(s) == Elements(p) + {x};
      if x in p {
        var k :| 0 <= k < |p| && p[k] == x;
        assert s[k] == s[|s| - 1];
        assert Elements(s) == Elements(p);
      } else {
        forall i, j | 0 <= i < j < |s| && Distinct(p)
          ensures s[i] != s[j]
        {
          if j == |s| - 1 {
            assert s[i] == p[i];
          } else {
            assert s[i] == p[i] && s[j] == p[j];
          }
        }
        assert Distinct(s) ==> Distinct(p) by {
          if Distinct(s) {
            forall i, j | 0 <= i < j < |p|
              ensures p[i] != p[j]
            {
              assert p[i] == s[i] && p[j] == s[j];
            }
          }
        }
      }
    }
  }

  /** `list.filter(e => e !== x)`: the list without any occurrence of x, order kept. */
  function Without<T(==,!new)>(keys: seq<T>, x: T): (r: seq<T>)
    ensures forall k :: k in r <==> k in keys && k != x
    ensures |r| <= |keys|
  {
    if keys == [] then []
    else Without(keys[..|keys| - 1], x) + (if keys[|keys| - 1] == x then [] else [keys[|keys| - 1]])
  }

  lemma {:induction false} WithoutDistinct<T(!new)>(keys: seq<T>, x: T)
    requires Distinct(keys)
    ensures Distinct(Without(keys, x))
  {
    if keys != [] {
      var p := keys[..|keys| - 1];
      var last := keys[|keys| - 1];
      assert Distinct(p) by {
        forall i, j | 0 <= i < j < |p|
          ensures p[i] != p[j]
        {
          assert p[i] == keys[i] && p[j] == keys[j];
        }
      }
      WithoutDistinct(p, x);
      if last != x {
        assert last !in p by {
          forall i | 0 <= i < |p|
            ensures p[i] != last
          {
            assert keys[i] != keys[|keys| - 1];
          }
        }
        assert last !in Without(p, x);
      }
    }
  }

  /** Filtering distributes over concatenation, so the kept elements stay in their order. */
  lemma {:induction false} WithoutAppend<T(!new)>(a: seq<T>, b: seq<T>, x: T)
    ensures Without(a + b, x) == Without(a, x) + Without(b, x)
    decreases |b|
  {
    if b == [] {
      assert a + b == a;
    } else {
      var p := b[..|b| - 1];
      assert (a + b)[..|a + b| - 1] == a + p;
      WithoutAppend(a, p, x);
    }
  }

  /** Every occurrence of x goes and every other element keeps its count. */
  lemma {:induction false} WithoutMultiset<T(!new)>(s: seq<T>, x: T)
    ensures multiset(Without(s, x)) == multiset(s)[x := 0]
  {
    if s != [] {
      var p := s[..|s| - 1];
      WithoutMultiset(p, x);
      assert s == p + [s[|s| - 1]];
    }
  }

  /** `keys.filter(k => !removed.includes(k))`: the keys not in `removed`, order kept. */
  function Outside<T(==,!new)>(keys: seq<T>, removed: seq<T>): (r: seq<T>)
    ensures forall k :: k in r <==> k in keys && k !in removed
  {
    if keys == [] then []
    else Outside(keys[..|keys| - 1], removed) + (if keys[|keys| - 1] in removed then [] else [keys[|keys| - 1]])
  }

  /** Removing nothing keeps the list. */
  lemma {:induction false} OutsideNothing<T(!new)>(keys: seq<T>)
    ensures Outside(keys, []) == keys
  {
    if keys != [] {
      var p := keys[..|keys| - 1];
      OutsideNothing(p);
      assert keys == p + [keys[|keys| - 1]];
    }
  }

  /** Removing the keys of `removed` one at a time, then x, is removing `removed + [x]`. */
  lemma {:induction false} WithoutOutside<T(!new)>(keys: seq<T>, removed: seq<T>, x: T)
    ensures Without(Outside(keys, removed), x) == Outside(keys, removed + [x])
  {
    if keys != [] {
      var p := keys[..|keys| - 1];
      var last := keys[|keys| - 1];
      var tail := if last in removed then [] else [last];
      WithoutOutside(p, removed, x);
      WithoutAppend(Outside(p, removed), tail, x);
      assert last in removed + [x] <==> last in removed || last == x;
      if tail != [] {
        assert tail[..|tail| - 1] == [];
      }
    }
  }

  /** A list without x is left as it is by filtering x again. */
  lemma {:induction false} WithoutAbsent<T(!new)>(s: seq<T>, x: T)
    requires x !in s
    ensures Without(s, x) == s
  {
    if s != [] {
      var p := s[..|s| - 1];
      WithoutAbsent(p, x);
      assert s == p + [s[|s| - 1]];
    }
  }
}
