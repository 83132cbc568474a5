/**
 * The column operations of pandas and Python that the pipeline uses:
 * `drop_duplicates` (keep the first row of each key), `unique`,
 * applying a function to every row, and `dict(zip(keys, values))`.
 */
module Tables {

  /** Some row of `s` has key `k`. */
  predicate HasKey<T, K(==)>(s: seq<T>, key: T -> K, k: K)
  {
    exists j :: 0 <= j < |s| && key(s[j]) == k
  }

  /** Row `k` of `s` is the first row carrying its key. */
  predicate IsFirstOfKey<T, K(==)>(s: seq<T>, key: T -> K, k: int)
  {
    0 <= k < |s| && forall j :: 0 <= j < k ==> key(s[j]) != key(s[k])
  }

  /**
   * pandas' `drop_duplicates(subset=...)` with its default `keep='first'`:
   * the rows of `s`, in order, without every row whose key an earlier row has.
   */
  function DropDuplicates<T, K(==)>(s: seq<T>, key: T -> K): seq<T>
    decreases |s|
  {
    if |s| == 0 then []
    else if HasKey(s[..|s| - 1], key, key(s[|s| - 1])) then DropDuplicates(s[..|s| - 1], key)
    else DropDuplicates(s[..|s| - 1], key) + [s[|s| - 1]]
  }

  /** Every kept row is a row of the input. */
  lemma {:induction false} DropDuplicatesSubset<T, K>(s: seq<T>, key: T -> K)
    ensures forall i :: 0 <= i < |DropDuplicates(s, key)| ==>
              exists k :: 0 <= k < |s| && s[k] == DropDuplicates(s, key)[i]
  {
    if |s| > 0 {
      var init, last := s[..|s| - 1], s[|s| - 1];
      DropDuplicatesSubset(init, key);
      var rest, r := DropDuplicates(init, key), DropDuplicates(s, key);
      assert r == if HasKey(init, key, key(last)) then rest else rest + [last];
      forall i | 0 <= i < |r| ensures exists k :: 0 <= k < |s| && s[k] == r[i] {
        if i < |rest| {
          var k :| 0 <= k < |init| && init[k] == rest[i];
          assert s[k] == init[k] && r[i] == rest[i];
        } else {
          assert r[i] == s[|s| - 1];
        }
      }
    } else {
      assert DropDuplicates(s, key) == [];
    }
  }

  /** `x` is the first row of `s` carrying its key. */
  ghost predicate FirstOfItsKey<T, K>(s: seq<T>, key: T -> K, x: T)
  {
    exists k :: 0 <= k < |s| && IsFirstOfKey(s, key, k) && s[k] == x
  }

  /** Every kept row is the first row of the input carrying its key. */
  lemma {:induction false} DropDuplicatesKeepsFirst<T, K>(s: seq<T>, key: T -> K)
    ensures forall i :: 0 <= i < |DropDuplicates(s, key)| ==>
              FirstOfItsKey(s, key, DropDuplicates(s, key)[i])
  {
    if |s| > 0 {
      var init, last := s[..|s| - 1], s[|s| - 1];
      DropDuplicatesKeepsFirst(init, key);
      var rest, r := DropDuplicates(init, key), DropDuplicates(s, key);
      assert r == if HasKey(init, key, key(last)) then rest else rest + [last];
      forall i | 0 <= i < |r| ensures FirstOfItsKey(s, key, r[i]) {
        if i < |rest| {
          assert FirstOfItsKey(init, key, rest[i]);
          var k :| 0 <= k < |init| && IsFirstOfKey(init, key, k) && init[k] == rest[i];
          assert s[k] == init[k] && r[i] == rest[i];
          assert IsFirstOfKey(s, key, k);
        } else {
          assert r[i] == s[|s| - 1];
          assert IsFirstOfKey(s, key, |s| - 1);
        }
      }
    } else {
      assert DropDuplicates(s, key) == [];
    }
  }

  /** No two kept rows share a key. */
  lemma {:induction false} DropDuplicatesDistinct<T, K>(s: seq<T>, key: T -> K)
    ensures forall i, j :: 0 <= i < j < |DropDuplicates(s, key)| ==>
              key(DropDuplicates(s, key)[i]) != key(DropDuplicates(s, key)[j])
  {
    if |s| > 0 {
      var init, last := s[..|s| - 1], s[|s| - 1];
      DropDuplicatesDistinct(init, key);
      DropDuplicatesSubset(init, key);
      var rest, r := DropDuplicates(init, key), DropDuplicates(s, key);
      if !HasKey(init, key, key(last)) {
        assert r == rest + [last];
        forall i | 0 <= i < |rest| ensures key(rest[i]) != key(last) {
          var k :| 0 <= k < |init| && init[k] == rest[i];
        }
        forall i, j | 0 <= i < j < |r| ensures key(r[i]) != key(r[j]) {
          if j < |rest| {
            assert r[i] == rest[i] && r[j] == rest[j];
          } else {
            assert r[i] == rest[i] && r[j] == last;
          }
        }
      } else {
        assert r == rest;
      }
    } else {
      assert DropDuplicates(s, key) == [];
    }
  }

  /** Every key of the input is the key of some kept row. */
  lemma {:induction false} DropDuplicatesCovers<T, K>(s: seq<T>, key: T -> K)
    ensures forall k :: 0 <= k < |s| ==> HasKey(DropDuplicates(s, key), key, key(s[k]))
  {
    if |s| > 0 {
      var init, last := s[..|s| - 1], s[|s| - 1];
      DropDuplicatesCovers(init, key);
      var rest, r := DropDuplicates(init, key), DropDuplicates(s, key);
      assert r == if HasKey(init, key, key(last)) then rest else rest + [last];
      forall k | 0 <= k < |s| ensures HasKey(r, key, key(s[k])) {
        if k < |s| - 1 {
          assert s[k] == init[k];
          assert HasKey(rest, key, key(init[k]));
          var i :| 0 <= i < |rest| && key(rest[i]) == key(init[k]);
          assert r[i] == rest[i];
        } else if HasKey(init, key, key(last)) {
          var j :| 0 <= j < |init| && key(init[j]) == key(last);
          assert HasKey(rest, key, key(init[j]));
        } else {
          assert r[|r| - 1] == last;
        }
      }
    }
  }

  /** `drop_duplicates` keeps the relative order of the rows it keeps. */
  lemma {:induction false} DropDuplicatesPreservesOrder<T, K>(s: seq<T>, key: T -> K, le: (T, T) -> bool)
    requires forall i, j :: 0 <= i < j < |s| ==> le(s[i], s[j])
    ensures forall i, j :: 0 <= i < j < |DropDuplicates(s, key)| ==>
              le(DropDuplicates(s, key)[i], DropDuplicates(s, key)[j])
  {
    if |s| > 0 {
      var init, last := s[..|s| - 1], s[|s| - 1];
      DropDuplicatesPreservesOrder(init, key, le);
      DropDuplicatesSubset(init, key);
      var rest, r := DropDuplicates(init, key), DropDuplicates(s, key);
      if !HasKey(init, key, key(last)) {
        assert r == rest + [last];
        forall i | 0 <= i < |rest| ensures le(rest[i], last) {
          var k :| 0 <= k < |init| && init[k] == rest[i];
          assert s[k] == init[k];
        }
        forall i, j | 0 <= i < j < |r| ensures le(r[i], r[j]) {
          if j < |rest| {
            assert r[i] == rest[i] && r[j] == rest[j];
          } else {
            assert r[i] == rest[i] && r[j] == last;
          }
        }
      } else {
        assert r == rest;
      }
    } else {
      assert DropDuplicates(s, key) == [];
    }
  }

  /** pandas' `Series.unique()`: the distinct values in order of first appearance. */
  function Unique<T(==)>(s: seq<T>): (r: seq<T>)
    ensures forall i :: 0 <= i < |r| ==> r[i] in s
    ensures forall x :: x in s ==> x in r
    ensures forall i, j :: 0 <= i < j < |r| ==> r[i] != r[j]
  {
    var r := DropDuplicates(s, Identity);
    DropDuplicatesSubset(s, Identity);
    DropDuplicatesCovers(s, Identity);
    DropDuplicatesDistinct(s, Identity);
    assert forall x :: x in s ==> HasKey(r, Identity, x);
    r
  }

  /** The key of a whole-row comparison. */
  function Identity<T>(x: T): T
  {
    x
  }

  /** Applying `f` to every row (a pandas column expression). */
  function MapSeq<T, U>(s: seq<T>, f: T -> U): (r: seq<U>)
    ensures |r| == |s| && forall i :: 0 <= i < |s| ==> r[i] == f(s[i])
  {
    seq(|s|, i requires 0 <= i < |s| => f(s[i]))
  }

  /**
   * Projecting and then dropping exact duplicates gives the projection of the
   * rows that dropping duplicates by projected value keeps.
   */
  lemma {:induction false} DropDuplicatesAfterMap<T, U>(s: seq<T>, f: T -> U)
    ensures MapSeq(DropDuplicates(s, f), f) == DropDuplicates(MapSeq(s, f), Identity)
  {
    if |s| > 0 {
      var init, last := s[..|s| - 1], s[|s| - 1];
      var m := MapSeq(s, f);
      assert m[..|m| - 1] == MapSeq(init, f);
      DropDuplicatesAfterMap(init, f);
      assert HasKey(init, f, f(last)) <==> HasKey(MapSeq(init, f), Identity, f(last)) by {
        if HasKey(MapSeq(init, f), Identity, f(last)) {
          var j :| 0 <= j < |init| && MapSeq(init, f)[j] == f(last);
          assert f(init[j]) == f(last);
        }
        if HasKey(init, f, f(last)) {
          var j :| 0 <= j < |init| && f(init[j]) == f(last);
          assert MapSeq(init, f)[j] == f(last);
        }
      }
      var rest := DropDuplicates(init, f);
      assert MapSeq(rest + [last], f) == MapSeq(rest, f) + [f(last)];
    }
  }

  function Min(a: int, b: int): int { if a < b then a else b }

  /**
   * Python's `dict(zip(keys, vals))`: pairs up to the shorter length, a later
   * pair overwriting an earlier one with the same key.
   */
  function ZipToMap<K(==), V>(keys: seq<K>, vals: seq<V>): map<K, V>
    decreases |keys|
  {
    var n := Min(|keys|, |vals|);
    if n == 0 then map[]
    else ZipToMap(keys[..n - 1], vals[..n - 1])[keys[n - 1] := vals[n - 1]]
  }

  /**
   * The keys of the dictionary are the paired keys, and each key maps to the
   * value paired with its last occurrence.
   */
  lemma {:induction false} ZipToMapEntries<K, V>(keys: seq<K>, vals: seq<V>)
    ensures var m, n := ZipToMap(keys, vals), Min(|keys|, |vals|);
      && (forall k :: k in m ==> exists i :: 0 <= i < n && keys[i] == k)
      && (forall i :: 0 <= i < n ==> keys[i] in m)
      && (forall i :: 0 <= i < n && (forall j :: i < j < n ==> keys[j] != keys[i]) ==> m[keys[i]] == vals[i])
  {
    var n := Min(|keys|, |vals|);
    if n > 0 {
      var ks, vs := keys[..n - 1], vals[..n - 1];
      ZipToMapEntries(ks, vs);
      assert Min(|ks|, |vs|) == n - 1;
      var m := ZipToMap(keys, vals);
      forall k | k in m ensures exists i :: 0 <= i < n && keys[i] == k {
        if k != keys[n - 1] {
          var i :| 0 <= i < n - 1 && ks[i] == k;
          assert keys[i] == k;
        }
      }
      forall i | 0 <= i < n && (forall j :: i < j < n ==> keys[j] != keys[i]) ensures m[keys[i]] == vals[i] {
        if i < n - 1 {
          assert ks[i] == keys[i] && vs[i] == vals[i];
          assert forall j :: i < j < n - 1 ==> ks[j] != ks[i];
        }
      }
    }
  }

  /** With pairwise distinct keys nothing is overwritten: one entry per pair. */
  lemma {:induction false} ZipToMapSize<K, V>(keys: seq<K>, vals: seq<V>)
    requires |keys| == |vals|
    requires forall i, j :: 0 <= i < j < |keys| ==> keys[i] != keys[j]
    ensures |ZipToMap(keys, vals)| == |keys|
    ensures forall i :: 0 <= i < |keys| ==> keys[i] in ZipToMap(keys, vals) && ZipToMap(keys, vals)[keys[i]] == vals[i]
  {
    ZipToMapEntries(keys, vals);
    var n := |keys|;
    if n > 0 {
      var ks, vs := keys[..n - 1], vals[..n - 1];
      ZipToMapSize(ks, vs);
      ZipToMapEntries(ks, vs);
      assert forall i :: 0 <= i < n - 1 ==> ks[i] != keys[n - 1] by {
        forall i | 0 <= i < n - 1 ensures ks[i] != keys[n - 1] {
          assert ks[i] == keys[i];
        }
      }
      assert keys[n - 1] !in ZipToMap(ks, vs);
    }
  }
}
