/**
 * The shapes of the ORM queries the handlers issue against a table, which is
 * modelled as a sequence of rows in primary-key order: `filter(...)` keeps the
 * matching rows, `filter(...).first()` / `get(...)` finds the first matching
 * row, and a unique constraint says no two rows share a key.
 */
module Query {
  import opened Wrappers

  /** The rows of `s` that satisfy `keep`, in their original order. */
  function Filter<T(!new)>(s: seq<T>, keep: T -> bool): (r: seq<T>)
    ensures |r| <= |s|
    ensures forall x :: x in r <==> x in s && keep(x)
  {
    if s == [] then []
    else (if keep(s[0]) then [s[0]] else []) + Filter(s[1..], keep)
  }

  /** The position of the first row of `s` that satisfies `p`, if any. */
  function IndexWhere<T(!new)>(s: seq<T>, p: T -> bool): (r: Option<nat>)
    ensures r.Some? ==> r.value < |s| && p(s[r.value])
    ensures r.Some? ==> forall j :: 0 <= j < r.value ==> !p(s[j])
    ensures r.None? <==> forall j :: 0 <= j < |s| ==> !p(s[j])
    ensures r.None? <==> forall x :: x in s ==> !p(x)
  {
    if s == [] then None
    else if p(s[0]) then Some(0)
    else match IndexWhere(s[1..], p)
      case None => None
      case Some(k) => Some(k + 1)
  }

  /** A unique constraint on the column `key`: distinct rows have distinct keys. */
  ghost predicate UniqueBy<T, K>(s: seq<T>, key: T -> K) {
    forall i, j :: 0 <= i < |s| && 0 <= j < |s| && i != j ==> key(s[i]) != key(s[j])
  }

  /** Dropping the first row keeps a unique constraint. */
  lemma UniqueTail<T, K>(s: seq<T>, key: T -> K)
    requires s != [] && UniqueBy(s, key)
    ensures UniqueBy(s[1..], key)
  {
    var rest := s[1..];
    forall i, j | 0 <= i < |rest| && 0 <= j < |rest| && i != j
      ensures key(rest[i]) != key(rest[j])
    {
      assert rest[i] == s[i + 1] && rest[j] == s[j + 1];
    }
  }

  /** The first row's key appears in no later row. */
  lemma UniqueHead<T, K>(s: seq<T>, key: T -> K, x: T)
    requires s != [] && UniqueBy(s, key) && x in s[1..]
    ensures key(x) != key(s[0])
  {
    var m :| 0 <= m < |s[1..]| && s[1..][m] == x;
    assert s[m + 1] == x;
  }

  /** A row whose key is new may be put in front of a table with a unique constraint. */
  lemma UniqueCons<T, K>(h: T, tail: seq<T>, key: T -> K)
    requires UniqueBy(tail, key)
    requires forall x :: x in tail ==> key(x) != key(h)
    ensures UniqueBy([h] + tail, key)
  {
    var r := [h] + tail;
    forall i, j | 0 <= i < |r| && 0 <= j < |r| && i != j
      ensures key(r[i]) != key(r[j])
    {
      if i == 0 {
        assert r[j] == tail[j - 1];
      } else if j == 0 {
        assert r[i] == tail[i - 1];
      } else {
        assert r[i] == tail[i - 1] && r[j] == tail[j - 1];
      }
    }
  }

  /** Deleting rows never breaks a unique constraint. */
  lemma {:induction false} FilterUnique<T(!new), K>(s: seq<T>, keep: T -> bool, key: T -> K)
    requires UniqueBy(s, key)
    ensures UniqueBy(Filter(s, keep), key)
  {
    if s != [] {
      UniqueTail(s, key);
      FilterUnique(s[1..], keep, key);
      var tail := Filter(s[1..], keep);
      if keep(s[0]) {
        forall x | x in tail
          ensures key(x) != key(s[0])
        {
          UniqueHead(s, key, x);
        }
        UniqueCons(s[0], tail, key);
        assert Filter(s, keep) == [s[0]] + tail;
      } else {
        assert Filter(s, keep) == tail;
      }
    }
  }

  /** Every row whose key is `k` replaced by `row`: an UPDATE ... WHERE key = k. */
  function ReplaceWhere<T, K(==)>(s: seq<T>, key: T -> K, k: K, row: T): (r: seq<T>)
    ensures |r| == |s|
    ensures forall i :: 0 <= i < |s| ==> r[i] == (if key(s[i]) == k then row else s[i])
  {
    seq(|s|, i requires 0 <= i < |s| => if key(s[i]) == k then row else s[i])
  }

  /**
   * Replacing the rows with key `k` keeps a unique constraint on `other` when
   * no row with a different key has `row`'s value in that column, and the
   * constraint on `key` when `row` keeps `k`.
   */
  lemma ReplaceWhereUnique<T, K, C>(s: seq<T>, key: T -> K, k: K, row: T, other: T -> C)
    requires UniqueBy(s, key) && UniqueBy(s, other)
    requires key(row) == k
    requires forall i :: 0 <= i < |s| && key(s[i]) != k ==> other(s[i]) != other(row)
    ensures UniqueBy(ReplaceWhere(s, key, k, row), key)
    ensures UniqueBy(ReplaceWhere(s, key, k, row), other)
  {
    var r := ReplaceWhere(s, key, k, row);
    forall i, j | 0 <= i < |r| && 0 <= j < |r| && i != j
      ensures key(r[i]) != key(r[j]) && other(r[i]) != other(r[j])
    {
      if key(s[i]) == k && key(s[j]) == k {
        assert false;
      }
    }
  }

  /** Under a unique key, updating the rows with row `i`'s key updates row `i` alone. */
  lemma ReplaceWhereAt<T, K>(s: seq<T>, key: T -> K, i: nat, row: T)
    requires UniqueBy(s, key) && i < |s|
    ensures ReplaceWhere(s, key, key(s[i]), row) == s[i := row]
  {
    forall j | 0 <= j < |s| && j != i ensures key(s[j]) != key(s[i]) { }
  }

  /** Rewriting one row without touching its key keeps a unique constraint. */
  lemma UpdateUnique<T, K>(s: seq<T>, i: nat, x: T, key: T -> K)
    requires i < |s| && UniqueBy(s, key) && key(x) == key(s[i])
    ensures UniqueBy(s[i := x], key)
  {
    var r := s[i := x];
    forall a, b | 0 <= a < |r| && 0 <= b < |r| && a != b
      ensures key(r[a]) != key(r[b])
    {
      assert key(r[a]) == key(s[a]) && key(r[b]) == key(s[b]);
    }
  }

  /** Inserting a row whose key no row holds keeps a unique constraint. */
  lemma AppendUnique<T, K>(s: seq<T>, x: T, key: T -> K)
    requires UniqueBy(s, key)
    requires forall j :: 0 <= j < |s| ==> key(s[j]) != key(x)
    ensures UniqueBy(s + [x], key)
  {
    var r := s + [x];
    forall a, b | 0 <= a < |r| && 0 <= b < |r| && a != b
      ensures key(r[a]) != key(r[b])
    {
      if a < |s| && b < |s| {
        assert r[a] == s[a] && r[b] == s[b];
      }
    }
  }
}
