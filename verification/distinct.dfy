/** First-wins de-duplication by a key, the behaviour of pandas
    `drop_duplicates(keep='first')` on a subset of columns. */
module Distinct {

  /** Some element of `s` has key `k`. */
  predicate HasKey<T, K(==)>(s: seq<T>, key: T -> K, k: K)
  {
    exists i :: 0 <= i < |s| && key(s[i]) == k
  }

  /** No two elements of `s` share a key. */
  predicate KeysDistinct<T, K(==)>(s: seq<T>, key: T -> K)
  {
    forall i, j :: 0 <= i < j < |s| ==> key(s[i]) != key(s[j])
  }

  /** Element `i` of `s` is the first with its key. */
  predicate FirstOfKey<T, K(==)>(s: seq<T>, key: T -> K, i: int)
    requires 0 <= i < |s|
  {
    forall m :: 0 <= m < i ==> key(s[m]) != key(s[i])
  }

  /** Keep each element whose key has not been seen before, in order. */
  function FirstByKey<T, K(==)>(s: seq<T>, key: T -> K): (r: seq<T>)
    ensures |r| <= |s|
    decreases |s|
  {
    if |s| == 0 then []
    else
      var init := s[..|s| - 1];
      if HasKey(init, key, key(s[|s| - 1])) then FirstByKey(init, key)
      else FirstByKey(init, key) + [s[|s| - 1]]
  }

  /** The kept elements have pairwise different keys, and every key of the
      input is kept: the key sets agree. */
  lemma {:induction false} FirstByKeyDistinct<T, K>(s: seq<T>, key: T -> K)
    ensures KeysDistinct(FirstByKey(s, key), key)
    ensures forall k :: HasKey(FirstByKey(s, key), key, k) <==> HasKey(s, key, k)
    decreases |s|
  {
    if |s| > 0 {
      var init := s[..|s| - 1];
      var x := s[|s| - 1];
      var r0 := FirstByKey(init, key);
      FirstByKeyDistinct(init, key);
      forall k ensures HasKey(s, key, k) <==> HasKey(init, key, k) || k == key(x) {
        if HasKey(s, key, k) {
          var i :| 0 <= i < |s| && key(s[i]) == k;
          if i < |init| { assert key(init[i]) == k; }
        }
        if HasKey(init, key, k) {
          var i :| 0 <= i < |init| && key(init[i]) == k;
          assert key(s[i]) == k;
        }
      }
      if !HasKey(init, key, key(x)) {
        var r := r0 + [x];
        forall k ensures HasKey(r, key, k) <==> HasKey(r0, key, k) || k == key(x) {
          if HasKey(r, key, k) {
            var i :| 0 <= i < |r| && key(r[i]) == k;
            if i < |r0| { assert key(r0[i]) == k; }
          }
          if HasKey(r0, key, k) {
            var i :| 0 <= i < |r0| && key(r0[i]) == k;
            assert key(r[i]) == k;
          }
          assert key(r[|r0|]) == key(x);
        }
        forall i, j | 0 <= i < j < |r| ensures key(r[i]) != key(r[j]) {
          if j == |r0| {
            assert HasKey(r0, key, key(r0[i]));
          } else {
            assert r[i] == r0[i] && r[j] == r0[j];
          }
        }
      }
    }
  }

  /** Every kept element is the first element of the input with its key. */
  lemma {:induction false} FirstByKeyFirst<T, K>(s: seq<T>, key: T -> K)
    ensures forall j :: 0 <= j < |FirstByKey(s, key)| ==>
      exists i :: 0 <= i < |s| && s[i] == FirstByKey(s, key)[j] && FirstOfKey(s, key, i)
    decreases |s|
  {
    if |s| > 0 {
      var init := s[..|s| - 1];
      var x := s[|s| - 1];
      var r0 := FirstByKey(init, key);
      var r := FirstByKey(s, key);
      FirstByKeyFirst(init, key);
      forall j | 0 <= j < |r|
        ensures exists i :: 0 <= i < |s| && s[i] == r[j] && FirstOfKey(s, key, i)
      {
        if j < |r0| {
          assert r[j] == r0[j];
          var i :| 0 <= i < |init| && init[i] == r0[j] && FirstOfKey(init, key, i);
          assert s[i] == init[i];
          assert FirstOfKey(s, key, i) by {
            forall m | 0 <= m < i ensures key(s[m]) != key(s[i]) {
              assert s[m] == init[m];
            }
          }
        } else {
          assert r[j] == x && !HasKey(init, key, key(x));
          assert FirstOfKey(s, key, |s| - 1) by {
            forall m | 0 <= m < |s| - 1 ensures key(s[m]) != key(x) {
              assert key(init[m]) == key(s[m]);
            }
          }
          assert s[|s| - 1] == r[j];
        }
      }
      assert forall j :: 0 <= j < |FirstByKey(s, key)| ==>
        exists i :: 0 <= i < |s| && s[i] == FirstByKey(s, key)[j] && FirstOfKey(s, key, i);
    } else {
      assert FirstByKey(s, key) == [];
    }
  }

  /** Being first with its key does not depend on what follows. */
  lemma FirstOfKeyPrefix<T, K>(s: seq<T>, key: T -> K, n: nat, i: nat)
    requires i < n <= |s| && FirstOfKey(s[..n], key, i)
    ensures FirstOfKey(s, key, i)
  {
    forall m | 0 <= m < i ensures key(s[m]) != key(s[i]) {
      assert s[m] == s[..n][m] && s[i] == s[..n][i];
    }
  }

  /** `a` and `b` are first occurrences of their keys in `s`, `a` before `b`. */
  ghost predicate FirstsInOrder<T, K>(s: seq<T>, key: T -> K, a: T, b: T)
  {
    exists i1, i2 :: 0 <= i1 < i2 < |s| && s[i1] == a && s[i2] == b && FirstOfKey(s, key, i1) && FirstOfKey(s, key, i2)
  }

  lemma FirstsInOrderExtend<T, K>(s: seq<T>, key: T -> K, a: T, b: T)
    requires |s| > 0 && FirstsInOrder(s[..|s| - 1], key, a, b)
    ensures FirstsInOrder(s, key, a, b)
  {
    var init := s[..|s| - 1];
    var i1, i2 :| 0 <= i1 < i2 < |init| && init[i1] == a && init[i2] == b
      && FirstOfKey(init, key, i1) && FirstOfKey(init, key, i2);
    FirstOfKeyPrefix(s, key, |s| - 1, i1);
    FirstOfKeyPrefix(s, key, |s| - 1, i2);
    assert s[i1] == a && s[i2] == b;
  }

  /** A first occurrence in all but the last element, followed by a last
      element whose key is new, are in order. */
  lemma FirstsInOrderLast<T, K>(s: seq<T>, init: seq<T>, key: T -> K, a: T)
    requires |s| > 0 && init == s[..|s| - 1] && !HasKey(init, key, key(s[|s| - 1]))
    requires exists i :: 0 <= i < |init| && init[i] == a && FirstOfKey(init, key, i)
    ensures FirstsInOrder(s, key, a, s[|s| - 1])
  {
    var x := s[|s| - 1];
    var i1 :| 0 <= i1 < |init| && init[i1] == a && FirstOfKey(init, key, i1);
    FirstOfKeyPrefix(s, key, |s| - 1, i1);
    assert FirstOfKey(s, key, |s| - 1) by {
      forall m | 0 <= m < |s| - 1 ensures key(s[m]) != key(x) {
        assert key(init[m]) == key(s[m]);
      }
    }
    assert s[i1] == a;
  }

  /** The kept elements keep their input order: of two kept elements, the
      earlier one comes from an earlier first occurrence. */
  lemma {:induction false} FirstByKeyInOrder<T, K>(s: seq<T>, key: T -> K, j1: nat, j2: nat)
    requires j1 < j2 < |FirstByKey(s, key)|
    ensures FirstsInOrder(s, key, FirstByKey(s, key)[j1], FirstByKey(s, key)[j2])
    decreases |s|
  {
    var init := s[..|s| - 1];
    var x := s[|s| - 1];
    var r0 := FirstByKey(init, key);
    var r := FirstByKey(s, key);
    if HasKey(init, key, key(x)) {
      assert r == r0;
      FirstByKeyInOrder(init, key, j1, j2);
      FirstsInOrderExtend(s, key, r[j1], r[j2]);
    } else {
      assert r == r0 + [x];
      assert r[j1] == r0[j1];
      if j2 < |r0| {
        assert r[j2] == r0[j2];
        FirstByKeyInOrder(init, key, j1, j2);
        FirstsInOrderExtend(s, key, r[j1], r[j2]);
      } else {
        FirstByKeyFirst(init, key);
        FirstsInOrderLast(s, init, key, r[j1]);
      }
    }
  }

  /** Every element that is the first with its key is kept. */
  lemma {:induction false} FirstByKeyKeepsFirsts<T, K>(s: seq<T>, key: T -> K, i: nat)
    requires i < |s| && FirstOfKey(s, key, i)
    ensures s[i] in FirstByKey(s, key)
    decreases |s|
  {
    var init := s[..|s| - 1];
    if i < |s| - 1 {
      assert FirstOfKey(init, key, i) by {
        forall m | 0 <= m < i ensures key(init[m]) != key(init[i]) {
          assert init[m] == s[m] && init[i] == s[i];
        }
      }
      FirstByKeyKeepsFirsts(init, key, i);
      assert init[i] == s[i];
    } else {
      assert !HasKey(init, key, key(s[i])) by {
        forall m | 0 <= m < |init| ensures key(init[m]) != key(s[i]) {
          assert init[m] == s[m];
        }
      }
      assert FirstByKey(s, key) == FirstByKey(init, key) + [s[i]];
    }
  }
}
