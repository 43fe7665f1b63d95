/** Record tables as sequences, and the query primitives that the
    persistence library offers the repositories: filtering, first match,
    sorting by a column, key-wise replacement and bulk replacement. */
module Tables {
  import opened Wrappers

  /** The records of `xs` that satisfy `p`, in table order. */
  function Select<T(!new)>(xs: seq<T>, p: T -> bool): (r: seq<T>)
    ensures |r| <= |xs|
    ensures forall x :: x in r <==> x in xs && p(x)
    ensures forall x :: multiset(r)[x] == if p(x) then multiset(xs)[x] else 0
  {
    if |xs| == 0 then []
    else
      assert xs == [xs[0]] + xs[1..];
      if p(xs[0]) then [xs[0]] + Select(xs[1..], p) else Select(xs[1..], p)
  }

  /** Selecting with a predicate every record satisfies changes nothing. */
  lemma {:induction false} SelectAllIsIdentity<T(!new)>(xs: seq<T>, p: T -> bool)
    requires forall x :: x in xs ==> p(x)
    ensures Select(xs, p) == xs
  {
    if |xs| > 0 {
      SelectAllIsIdentity(xs[1..], p);
      assert xs == [xs[0]] + xs[1..];
    }
  }

  /** The first record of `xs` satisfying `p`, if any. */
  function First<T(==,!new)>(xs: seq<T>, p: T -> bool): (r: Option<T>)
    ensures r.None? <==> forall x :: x in xs ==> !p(x)
    ensures r.Some? ==> exists i :: 0 <= i < |xs| && xs[i] == r.value && p(xs[i])
                                    && forall j :: 0 <= j < i ==> !p(xs[j])
  {
    if |xs| == 0 then None
    else if p(xs[0]) then Some(xs[0])
    else
      var r := First(xs[1..], p);
      if r.Some? then
        var i :| 0 <= i < |xs[1..]| && xs[1..][i] == r.value && p(xs[1..][i])
                 && forall j :: 0 <= j < i ==> !p(xs[1..][j]);
        assert xs[i + 1] == r.value;
        r
      else r
  }

  /** No two records of `xs` share a key. */
  ghost predicate UniqueKeys<T, K>(xs: seq<T>, key: T -> K) {
    forall i, j :: 0 <= i < j < |xs| ==> key(xs[i]) != key(xs[j])
  }

  /** Under unique keys, the first record with a key is the only one. */
  lemma FirstByUniqueKey<T(!new), K>(xs: seq<T>, key: T -> K, p: T -> bool, x: T)
    requires UniqueKeys(xs, key)
    requires forall y :: p(y) <==> key(y) == key(x)
    requires x in xs
    ensures First(xs, p) == Some(x)
  {
    var r := First(xs, p);
    var i :| 0 <= i < |xs| && xs[i] == r.value && p(xs[i]);
    var k :| 0 <= k < |xs| && xs[k] == x;
    assert forall j :: 0 <= j < |xs| && j != k ==> key(xs[j]) != key(xs[k]);
  }

  /** Selecting from a table with unique keys keeps the keys unique. */
  lemma {:induction false} SelectKeepsUniqueKeys<T(!new), K>(xs: seq<T>, p: T -> bool, key: T -> K)
    ensures UniqueKeys(xs, key) ==> UniqueKeys(Select(xs, p), key)
  {
    if |xs| > 0 && UniqueKeys(xs, key) {
      SelectKeepsUniqueKeys(xs[1..], p, key);
      var rest := Select(xs[1..], p);
      if p(xs[0]) {
        forall k | 0 <= k < |rest| ensures key(xs[0]) != key(rest[k]) {
          assert rest[k] in rest;
          var m :| 0 <= m < |xs[1..]| && xs[1..][m] == rest[k];
          assert key(xs[0]) != key(xs[m + 1]);
        }
        ConsUniqueKeys(xs[0], rest, key);
      }
    }
  }

  /** A record whose key no record of a table with unique keys has can lead it. */
  lemma ConsUniqueKeys<T, K>(h: T, xs: seq<T>, key: T -> K)
    requires UniqueKeys(xs, key)
    requires forall k :: 0 <= k < |xs| ==> key(h) != key(xs[k])
    ensures UniqueKeys([h] + xs, key)
  {
    var r := [h] + xs;
    forall i, j | 0 <= i < j < |r| ensures key(r[i]) != key(r[j]) {
      if i > 0 {
        assert r[i] == xs[i - 1] && r[j] == xs[j - 1];
      } else {
        assert r[j] == xs[j - 1];
      }
    }
  }

  /** Two different records of a table with unique keys have different keys. */
  lemma DistinctRecordsDistinctKeys<T, K>(xs: seq<T>, key: T -> K, x: T, y: T)
    requires UniqueKeys(xs, key)
    requires x in xs && y in xs && key(x) == key(y)
    ensures x == y
  {
    var i :| 0 <= i < |xs| && xs[i] == x;
    var j :| 0 <= j < |xs| && xs[j] == y;
    assert forall k :: 0 <= k < |xs| && k != i ==> key(xs[k]) != key(xs[i]);
  }

  /** Appending a record with a new key keeps the keys unique. */
  lemma AppendKeepsUniqueKeys<T, K>(xs: seq<T>, key: T -> K, x: T)
    requires UniqueKeys(xs, key)
    requires forall y :: y in xs ==> key(y) != key(x)
    ensures UniqueKeys(xs + [x], key)
  {
    var r := xs + [x];
    forall i, j | 0 <= i < j < |r| ensures key(r[i]) != key(r[j]) {
      if j == |xs| {
        assert r[i] in xs;
      } else {
        assert r[i] == xs[i] && r[j] == xs[j];
      }
    }
  }

  /** Rewriting records without changing their keys keeps the keys unique. */
  lemma SameKeysKeepUniqueKeys<T, K>(xs: seq<T>, ys: seq<T>, key: T -> K)
    requires UniqueKeys(xs, key)
    requires |ys| == |xs| && forall i :: 0 <= i < |xs| ==> key(ys[i]) == key(xs[i])
    ensures UniqueKeys(ys, key)
  {
    forall i, j | 0 <= i < j < |ys| ensures key(ys[i]) != key(ys[j]) {
      assert key(xs[i]) != key(xs[j]);
    }
  }

  /** A table with unique keys drawn from `ks` has at most `|ks|` records. */
  lemma {:induction false} UniqueKeysBoundedBySet<T(!new), K>(xs: seq<T>, key: T -> K, ks: set<K>)
    requires UniqueKeys(xs, key)
    requires forall x :: x in xs ==> key(x) in ks
    ensures |xs| <= |ks|
  {
    if |xs| > 0 {
      var rest := xs[1..];
      var ks' := ks - {key(xs[0])};
      forall x | x in rest ensures key(x) in ks' {
        var k :| 0 <= k < |rest| && rest[k] == x;
        assert key(xs[0]) != key(xs[k + 1]);
      }
      UniqueKeysBoundedBySet(rest, key, ks');
    }
  }

  /** The distinct elements of a sequence are no more than its length. */
  lemma {:induction false} DistinctBound<K>(ks: seq<K>)
    ensures |set k | k in ks| <= |ks|
  {
    if |ks| > 0 {
      DistinctBound(ks[1..]);
      assert (set k | k in ks) == (set k | k in ks[1..]) + {ks[0]};
    }
  }

  /** `xs` is in ascending order of `key`. */
  ghost predicate SortedBy<T>(xs: seq<T>, key: T -> int) {
    forall i, j :: 0 <= i < j < |xs| ==> key(xs[i]) <= key(xs[j])
  }

  /** A record no larger than every record of a sorted sequence can lead it. */
  lemma ConsSorted<T>(h: T, xs: seq<T>, key: T -> int)
    requires SortedBy(xs, key)
    requires forall k :: 0 <= k < |xs| ==> key(h) <= key(xs[k])
    ensures SortedBy([h] + xs, key)
  {
    var r := [h] + xs;
    forall i, j | 0 <= i < j < |r| ensures key(r[i]) <= key(r[j]) {
      if i > 0 {
        assert r[i] == xs[i - 1] && r[j] == xs[j - 1];
      } else {
        assert r[j] == xs[j - 1];
      }
    }
  }

  /** Inserts `x` before the first record whose key is not smaller. */
  function Insert<T(!new)>(x: T, xs: seq<T>, key: T -> int): (r: seq<T>)
    requires SortedBy(xs, key)
    ensures SortedBy(r, key)
    ensures forall y :: y in r <==> y == x || y in xs
    ensures multiset(r) == multiset(xs) + multiset{x}
  {
    if |xs| == 0 then [x]
    else if key(x) <= key(xs[0]) then
      ConsSorted(x, xs, key);
      [x] + xs
    else
      assert xs == [xs[0]] + xs[1..];
      var rest := Insert(x, xs[1..], key);
      forall k | 0 <= k < |rest| ensures key(xs[0]) <= key(rest[k]) {
        assert rest[k] in rest;
        if rest[k] != x {
          var m :| 0 <= m < |xs[1..]| && xs[1..][m] == rest[k];
          assert xs[m + 1] == rest[k];
        }
      }
      ConsSorted(xs[0], rest, key);
      [xs[0]] + rest
  }

  /** `xs` reordered ascending by `key`, keeping every record. */
  function SortBy<T(!new)>(xs: seq<T>, key: T -> int): (r: seq<T>)
    ensures SortedBy(r, key)
    ensures multiset(r) == multiset(xs)
  {
    if |xs| == 0 then []
    else
      assert xs == [xs[0]] + xs[1..];
      Insert(xs[0], SortBy(xs[1..], key), key)
  }

  /** The persistence library's `update(id, record)`: every record stored
      under key `id` is replaced by `rec`. */
  function Replace<T>(xs: seq<T>, key: T -> string, id: string, rec: T): (r: seq<T>)
    ensures |r| == |xs|
    ensures forall i :: 0 <= i < |xs| ==> r[i] == if key(xs[i]) == id then rec else xs[i]
  {
    seq(|xs|, i requires 0 <= i < |xs| => if key(xs[i]) == id then rec else xs[i])
  }

  /** The last record of `batch` whose key is `id`, if any. */
  function LastWithKey<T(!new)>(batch: seq<T>, key: T -> string, id: string): (r: Option<T>)
    ensures r.None? <==> forall b :: b in batch ==> key(b) != id
    ensures r.Some? ==> r.value in batch && key(r.value) == id
  {
    if |batch| == 0 then None
    else
      var later := LastWithKey(batch[1..], key, id);
      if later.Some? then later
      else if key(batch[0]) == id then Some(batch[0])
      else None
  }

  /** The record `LastWithKey` finds is the one at the last position with
      that key: a later update of the same key overrides an earlier one. */
  lemma {:induction false} LastWithKeyIsLast<T(!new)>(batch: seq<T>, key: T -> string, k: nat)
    requires k < |batch|
    requires forall j :: k < j < |batch| ==> key(batch[j]) != key(batch[k])
    ensures LastWithKey(batch, key, key(batch[k])) == Some(batch[k])
  {
    var id := key(batch[k]);
    if k == 0 {
      forall b | b in batch[1..] ensures key(b) != id {
        var j :| 0 <= j < |batch[1..]| && batch[1..][j] == b;
        assert batch[j + 1] == b;
      }
    } else {
      assert batch[1..][k - 1] == batch[k];
      LastWithKeyIsLast(batch[1..], key, k - 1);
    }
  }

  /** One `update` per record of `batch`, in order: a record of `xs` ends up
      as the last batch record carrying its key, or unchanged if none does. */
  function ReplaceAll<T(!new)>(xs: seq<T>, key: T -> string, batch: seq<T>): (r: seq<T>)
    ensures |r| == |xs|
    ensures forall i :: 0 <= i < |xs| ==>
              r[i] == match LastWithKey(batch, key, key(xs[i]))
                      case Some(b) => b
                      case None => xs[i]
    decreases |batch|
  {
    if |batch| == 0 then xs
    else ReplaceAll(Replace(xs, key, key(batch[0]), batch[0]), key, batch[1..])
  }

  /** Length of the longest key in `xs`. */
  function LongestKey<T(!new)>(xs: seq<T>, key: T -> string): (m: nat)
    ensures forall x :: x in xs ==> |key(x)| <= m
  {
    if |xs| == 0 then 0
    else
      var m := LongestKey(xs[1..], key);
      if |key(xs[0])| > m then |key(xs[0])| else m
  }
}
