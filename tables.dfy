/** Generic operations on a table held as a sequence of rows in storage order:
    the SQL aggregates, filters, first-row lookups, key deletes, ORDER BY and
    LIMIT/OFFSET that every query module of the store is built from. */
module Tables {
  import opened Common

  // ---------------------------------------------------------------------------
  // COUNT and WHERE

  /** SQL `count()` of the rows that satisfy `p`. */
  function Count<T>(s: seq<T>, p: T -> bool): (n: nat)
    ensures n <= |s|
  {
    if |s| == 0 then 0 else Count(s[..|s| - 1], p) + (if p(s[|s| - 1]) then 1 else 0)
  }

  /** The rows that satisfy `p`, in storage order. */
  function Filter<T>(s: seq<T>, p: T -> bool): (r: seq<T>)
    ensures |r| == Count(s, p)
    ensures forall i :: 0 <= i < |r| ==> r[i] in s && p(r[i])
    ensures forall i :: 0 <= i < |s| && p(s[i]) ==> s[i] in r
  {
    if |s| == 0 then []
    else
      assert s == s[..|s| - 1] + [s[|s| - 1]];
      Filter(s[..|s| - 1], p) + (if p(s[|s| - 1]) then [s[|s| - 1]] else [])
  }

  /** The first row that satisfies `p` (`const [row] = await db.select()...`). */
  function Find<T>(s: seq<T>, p: T -> bool): (r: Option<T>)
    ensures r.Some? <==> exists i :: 0 <= i < |s| && p(s[i])
    ensures r.Some? ==> r.value in s && p(r.value)
  {
    if |s| == 0 then None
    else if p(s[0]) then Some(s[0])
    else
      assert forall i :: 1 <= i < |s| ==> s[i] == s[1..][i - 1];
      Find(s[1..], p)
  }

  /** No two rows share a key: a primary key or a UNIQUE constraint. */
  ghost predicate UniqueKeys<T, K>(s: seq<T>, key: T -> K)
  {
    forall i, j :: 0 <= i < |s| && 0 <= j < |s| && key(s[i]) == key(s[j]) ==> i == j
  }

  /** `DELETE ... WHERE key = k`: drops every row whose key is `k`. */
  function DeleteKey<T, K(==)>(s: seq<T>, key: T -> K, k: K): (r: seq<T>)
    ensures |r| <= |s|
  {
    if |s| == 0 then []
    else
      assert s == s[..|s| - 1] + [s[|s| - 1]];
      DeleteKey(s[..|s| - 1], key, k) + (if key(s[|s| - 1]) == k then [] else [s[|s| - 1]])
  }

  /** `UPDATE ... SET ... WHERE key = k`: rewrites every row whose key is `k` by `f`. */
  function UpdateKey<T, K(==)>(s: seq<T>, key: T -> K, k: K, f: T -> T): (r: seq<T>)
    ensures |r| == |s|
    ensures forall i :: 0 <= i < |s| && key(s[i]) != k ==> r[i] == s[i]
    ensures forall i :: 0 <= i < |s| && key(s[i]) == k ==> r[i] == f(s[i])
  {
    seq(|s|, i requires 0 <= i < |s| => if key(s[i]) == k then f(s[i]) else s[i])
  }

  /** Every key of the table is below `n`: the next id the store hands out is fresh. */
  ghost predicate KeysBelow<T>(s: seq<T>, key: T -> nat, n: nat)
  {
    forall i :: 0 <= i < |s| ==> key(s[i]) < n
  }

  // ---------------------------------------------------------------------------
  // Lemmas about COUNT

  lemma {:induction false} CountAppend<T>(a: seq<T>, b: seq<T>, p: T -> bool)
    ensures Count(a + b, p) == Count(a, p) + Count(b, p)
    decreases |b|
  {
    if |b| == 0 {
      assert a + b == a;
    } else {
      assert (a + b)[..|a + b| - 1] == a + b[..|b| - 1];
      CountAppend(a, b[..|b| - 1], p);
    }
  }

  lemma {:induction false} CountSingle<T>(x: T, p: T -> bool)
    ensures Count([x], p) == if p(x) then 1 else 0
  {
    assert [x][..0] == [];
  }

  /** Some row satisfies `p` exactly when the count is positive. */
  lemma {:induction false} CountPositive<T>(s: seq<T>, p: T -> bool)
    ensures Count(s, p) > 0 <==> exists i :: 0 <= i < |s| && p(s[i])
  {
    if |s| > 0 {
      var s' := s[..|s| - 1];
      CountPositive(s', p);
      if Count(s', p) > 0 {
        var i :| 0 <= i < |s'| && p(s'[i]);
        assert s[i] == s'[i];
      }
      if exists i :: 0 <= i < |s| && p(s[i]) {
        var i :| 0 <= i < |s| && p(s[i]);
        if i < |s| - 1 {
          assert s'[i] == s[i];
        }
      }
    }
  }

  /** Two distinct rows satisfying `p` make the count at least two. */
  lemma {:induction false} CountTwo<T>(s: seq<T>, p: T -> bool, i: nat, j: nat)
    requires i < |s| && j < |s| && i != j && p(s[i]) && p(s[j])
    ensures Count(s, p) >= 2
  {
    var n := |s| - 1;
    var s' := s[..n];
    if i == n || j == n {
      var k := if i == n then j else i;
      assert s'[k] == s[k];
      CountPositive(s', p);
    } else {
      assert s'[i] == s[i] && s'[j] == s[j];
      CountTwo(s', p, i, j);
    }
  }

  /** Replacing one row changes the count by that row's contribution only. */
  lemma {:induction false} CountUpdate<T>(s: seq<T>, i: nat, y: T, p: T -> bool)
    requires i < |s|
    ensures Count(s[i := y], p) == Count(s, p) - (if p(s[i]) then 1 else 0) + (if p(y) then 1 else 0)
  {
    assert s == s[..i] + [s[i]] + s[i + 1..];
    assert s[i := y] == s[..i] + [y] + s[i + 1..];
    CountAppend(s[..i] + [s[i]], s[i + 1..], p);
    CountAppend(s[..i], [s[i]], p);
    CountAppend(s[..i] + [y], s[i + 1..], p);
    CountAppend(s[..i], [y], p);
    CountSingle(s[i], p);
    CountSingle(y, p);
  }

  /** Removing one row changes the count by that row's contribution only. */
  lemma {:induction false} CountRemove<T>(s: seq<T>, i: nat, p: T -> bool)
    requires i < |s|
    ensures Count(s[..i] + s[i + 1..], p) == Count(s, p) - (if p(s[i]) then 1 else 0)
  {
    assert s == s[..i] + [s[i]] + s[i + 1..];
    CountAppend(s[..i] + [s[i]], s[i + 1..], p);
    CountAppend(s[..i], [s[i]], p);
    CountAppend(s[..i], s[i + 1..], p);
    CountSingle(s[i], p);
  }

  /** Two tables of equal length whose rows agree on `p` have equal counts. */
  lemma {:induction false} CountPointwise<T>(s: seq<T>, t: seq<T>, p: T -> bool)
    requires |s| == |t|
    requires forall i :: 0 <= i < |s| ==> p(s[i]) == p(t[i])
    ensures Count(s, p) == Count(t, p)
  {
    if |s| > 0 {
      var n := |s| - 1;
      assert forall i :: 0 <= i < n ==> s[..n][i] == s[i] && t[..n][i] == t[i];
      CountPointwise(s[..n], t[..n], p);
    }
  }

  /** Deleting by key never increases a count. */
  lemma {:induction false} DeleteKeyCountLe<T, K>(s: seq<T>, key: T -> K, k: K, p: T -> bool)
    ensures Count(DeleteKey(s, key, k), p) <= Count(s, p)
  {
    if |s| > 0 {
      DeleteKeyCountLe(s[..|s| - 1], key, k, p);
      DeleteKeyCountStep(s, key, k, p);
    }
  }

  /** One step of the recursion of `DeleteKey`, counted. */
  lemma {:induction false} DeleteKeyCountStep<T, K>(s: seq<T>, key: T -> K, k: K, p: T -> bool)
    requires |s| > 0
    ensures Count(DeleteKey(s, key, k), p)
      == Count(DeleteKey(s[..|s| - 1], key, k), p) + (if key(s[|s| - 1]) != k && p(s[|s| - 1]) then 1 else 0)
  {
    var n := |s| - 1;
    var tail := if key(s[n]) == k then [] else [s[n]];
    DeleteKeyLast(s, key, k);
    CountAppend(DeleteKey(s[..n], key, k), tail, p);
    if tail != [] {
      CountSingle(s[n], p);
    }
  }

  /** Deleting by key keeps the count when no deleted row satisfies `p`. */
  lemma {:induction false} DeleteKeyCountKeep<T, K>(s: seq<T>, key: T -> K, k: K, p: T -> bool)
    requires forall i :: 0 <= i < |s| && key(s[i]) == k ==> !p(s[i])
    ensures Count(DeleteKey(s, key, k), p) == Count(s, p)
  {
    if |s| > 0 {
      var s' := s[..|s| - 1];
      forall i | 0 <= i < |s'| && key(s'[i]) == k
        ensures !p(s'[i])
      {
        assert s'[i] == s[i];
      }
      DeleteKeyCountKeep(s', key, k, p);
      DeleteKeyCountStep(s, key, k, p);
    }
  }

  /** A prefix of a table with unique keys has unique keys. */
  lemma UniqueKeysPrefix<T, K>(s: seq<T>, key: T -> K, n: nat)
    requires n <= |s| && UniqueKeys(s, key)
    ensures UniqueKeys(s[..n], key)
  {
    forall i, j | 0 <= i < n && 0 <= j < n && key(s[..n][i]) == key(s[..n][j])
      ensures i == j
    {
      assert s[..n][i] == s[i] && s[..n][j] == s[j];
    }
  }

  /** With unique keys, deleting the key of row `i` removes exactly that row. */
  lemma {:induction false} DeleteKeyUnique<T, K>(s: seq<T>, key: T -> K, i: nat)
    requires i < |s| && UniqueKeys(s, key)
    ensures DeleteKey(s, key, key(s[i])) == s[..i] + s[i + 1..]
  {
    DeleteKeyOnly(s, key, i);
  }

  /** Deleting the key of row `i`, which no other row has, removes exactly that row. */
  lemma {:induction false} DeleteKeyOnly<T, K>(s: seq<T>, key: T -> K, i: nat)
    requires i < |s| && forall a :: 0 <= a < |s| && key(s[a]) == key(s[i]) ==> a == i
    ensures DeleteKey(s, key, key(s[i])) == s[..i] + s[i + 1..]
  {
    var n := |s| - 1;
    if i == n {
      DeleteKeyDropLast(s, key);
    } else {
      var s' := s[..n];
      assert s'[i] == s[i];
      forall a | 0 <= a < |s'| && key(s'[a]) == key(s'[i])
        ensures a == i
      {
        assert s'[a] == s[a];
      }
      DeleteKeyOnly(s', key, i);
      DeleteKeyLast(s, key, key(s[i]));
      assert key(s[n]) != key(s[i]);
      SpliceLast(s, i);
    }
  }

  /** Deleting the key of the last row, which no other row has, drops that row. */
  lemma {:induction false} DeleteKeyDropLast<T, K>(s: seq<T>, key: T -> K)
    requires |s| > 0 && forall a :: 0 <= a < |s| - 1 ==> key(s[a]) != key(s[|s| - 1])
    ensures DeleteKey(s, key, key(s[|s| - 1])) == s[..|s| - 1]
  {
    var n := |s| - 1;
    var s' := s[..n];
    forall a | 0 <= a < |s'|
      ensures key(s'[a]) != key(s[n])
    {
      assert s'[a] == s[a];
    }
    DeleteKeyAbsent(s', key, key(s[n]));
    DeleteKeyLast(s, key, key(s[n]));
  }

  /** Cutting row `i` out of all but the last row, then putting the last row
      back, cuts row `i` out of the whole table. */
  lemma SpliceLast<T>(s: seq<T>, i: nat)
    requires i + 1 < |s|
    ensures s[..|s| - 1][..i] + s[..|s| - 1][i + 1..] + [s[|s| - 1]] == s[..i] + s[i + 1..]
  {
    var n := |s| - 1;
    assert s[..n][..i] == s[..i];
    assert s[..n][i + 1..] + [s[n]] == s[i + 1..];
  }

  /** `DeleteKey` keeps exactly the rows without the key: every row left
      was in the table and lacks the key, and every row without it is left. */
  lemma {:induction false} DeleteKeyRows<T, K>(s: seq<T>, key: T -> K, k: K)
    ensures var r := DeleteKey(s, key, k);
      && (forall i :: 0 <= i < |r| ==> r[i] in s && key(r[i]) != k)
      && (forall i :: 0 <= i < |s| && key(s[i]) != k ==> s[i] in r)
  {
    if |s| > 0 {
      var n := |s| - 1;
      var s' := s[..n];
      DeleteKeyRows(s', key, k);
      DeleteKeyLast(s, key, k);
      var d := DeleteKey(s', key, k);
      var r := DeleteKey(s, key, k);
      forall i | 0 <= i < |r|
        ensures r[i] in s && key(r[i]) != k
      {
        if i < |d| {
          assert r[i] == d[i];
          var j :| 0 <= j < |s'| && s'[j] == d[i];
          assert s[j] == s'[j];
        } else {
          assert r[i] == s[n];
        }
      }
      forall i | 0 <= i < |s| && key(s[i]) != k
        ensures s[i] in r
      {
        if i < n {
          assert s'[i] == s[i];
          var j :| 0 <= j < |d| && d[j] == s[i];
          assert r[j] == d[j];
        } else {
          assert r[|r| - 1] == s[n];
        }
      }
    }
  }

  /** One step of `DeleteKey`: the last row stays unless it has the key. */
  lemma DeleteKeyLast<T, K>(s: seq<T>, key: T -> K, k: K)
    requires |s| > 0
    ensures DeleteKey(s, key, k) == DeleteKey(s[..|s| - 1], key, k) + (if key(s[|s| - 1]) == k then [] else [s[|s| - 1]])
  {
  }

  /** Deleting a key no row has changes nothing. */
  lemma {:induction false} DeleteKeyAbsent<T, K>(s: seq<T>, key: T -> K, k: K)
    requires forall i :: 0 <= i < |s| ==> key(s[i]) != k
    ensures DeleteKey(s, key, k) == s
  {
    if |s| > 0 {
      var n := |s| - 1;
      assert forall a :: 0 <= a < n ==> s[..n][a] == s[a];
      DeleteKeyAbsent(s[..n], key, k);
      DeleteKeyLast(s, key, k);
      assert s[..n] + [s[n]] == s;
    }
  }

  // ---------------------------------------------------------------------------
  // ORDER BY and LIMIT/OFFSET

  /** Every row's key is at most the key of every later row. */
  ghost predicate SortedBy<T>(s: seq<T>, key: T -> Key)
  {
    forall i, j :: 0 <= i < j < |s| ==> KeyLe(key(s[i]), key(s[j]))
  }

  /** Puts `x` in front of the first row whose key is not below it. */
  function Insert<T>(x: T, s: seq<T>, key: T -> Key): (r: seq<T>)
    requires SortedBy(s, key)
    ensures SortedBy(r, key)
    ensures multiset(r) == multiset(s) + multiset{x}
  {
    if |s| == 0 then [x]
    else if KeyLe(key(x), key(s[0])) then
      SortedCons(x, s, key);
      [x] + s
    else
      assert s == [s[0]] + s[1..];
      var rest := Insert(x, s[1..], key);
      InsertBound(x, s, rest, key);
      SortedCons(s[0], rest, key);
      [s[0]] + rest
  }

  /** A row no greater than any row of a sorted table can go in front of it. */
  lemma SortedCons<T>(y: T, s: seq<T>, key: T -> Key)
    requires SortedBy(s, key)
    requires |s| > 0 ==> KeyLe(key(y), key(s[0]))
    ensures SortedBy([y] + s, key)
  {
    var r := [y] + s;
    forall i, j | 0 <= i < j < |r|
      ensures KeyLe(key(r[i]), key(r[j]))
    {
      if i == 0 {
        assert r[j] == s[j - 1];
        if j > 1 {
          assert KeyLe(key(s[0]), key(s[j - 1]));
        }
      } else {
        assert r[i] == s[i - 1] && r[j] == s[j - 1];
      }
    }
  }

  /** What `Insert` puts after the head of the table is no smaller than it. */
  lemma InsertBound<T>(x: T, s: seq<T>, rest: seq<T>, key: T -> Key)
    requires SortedBy(s, key) && |s| > 0 && !KeyLe(key(x), key(s[0]))
    requires multiset(rest) == multiset(s[1..]) + multiset{x}
    ensures |rest| > 0 ==> KeyLe(key(s[0]), key(rest[0]))
  {
    if |rest| > 0 {
      var e := rest[0];
      assert e in multiset(rest);
      if e != x {
        assert e in multiset(s[1..]);
        var m :| 0 <= m < |s[1..]| && s[1..][m] == e;
        assert s[m + 1] == e;
      }
    }
  }

  /** ORDER BY `key`: an ascending permutation of the rows. */
  function SortBy<T>(s: seq<T>, key: T -> Key): (r: seq<T>)
    ensures SortedBy(r, key)
    ensures multiset(r) == multiset(s)
    ensures |r| == |s|
  {
    if |s| == 0 then []
    else
      assert s == [s[0]] + s[1..];
      Insert(s[0], SortBy(s[1..], key), key)
  }

  /** `SELECT ... WHERE p ORDER BY key` before any LIMIT: the matching rows, sorted. */
  function Listing<T>(s: seq<T>, p: T -> bool, key: T -> Key): (r: seq<T>)
    ensures |r| == Count(s, p)
    ensures SortedBy(r, key)
    ensures forall i :: 0 <= i < |r| ==> r[i] in s && p(r[i])
    ensures forall i :: 0 <= i < |s| && p(s[i]) ==> s[i] in r
  {
    var f := Filter(s, p);
    var r := SortBy(f, key);
    SameElements(f, r);
    r
  }

  /** Two tables holding the same rows, counted with multiplicity, hold the same rows. */
  lemma SameElements<T>(a: seq<T>, b: seq<T>)
    requires multiset(a) == multiset(b)
    ensures forall i :: 0 <= i < |a| ==> a[i] in b
    ensures forall i :: 0 <= i < |b| ==> b[i] in a
  {
    forall i | 0 <= i < |a|
      ensures a[i] in b
    {
      assert a[i] in multiset(a);
    }
    forall i | 0 <= i < |b|
      ensures b[i] in a
    {
      assert b[i] in multiset(b);
    }
  }

  /** `w` is what `LIMIT limit OFFSET offset` leaves of the listing `s`: the
      rows of `s` from position `offset` on, at most `limit` of them. */
  ghost predicate IsWindow<T>(w: seq<T>, s: seq<T>, limit: int, offset: int)
  {
    0 <= offset && |w| == Max(0, Min(limit, |s| - offset))
    && forall k :: 0 <= k < |w| ==> w[k] == s[offset + k]
  }

  /** `LIMIT limit OFFSET offset`; the store rejects a negative limit or offset. */
  function Page<T>(s: seq<T>, limit: int, offset: int): (r: Option<seq<T>>)
    ensures r.None? <==> limit < 0 || offset < 0
    ensures r.Some? ==> IsWindow(r.value, s, limit, offset)
  {
    if limit < 0 || offset < 0 then None
    else if offset >= |s| then Some([])
    else Some(s[offset..Min(offset + limit, |s|)])
  }

  /** A window of a sorted listing is sorted. */
  lemma {:induction false} PageKeepsOrder<T>(s: seq<T>, key: T -> Key, limit: int, offset: int)
    requires SortedBy(s, key) && Page(s, limit, offset).Some?
    ensures SortedBy(Page(s, limit, offset).value, key)
  {
    var r := Page(s, limit, offset).value;
    forall i, j | 0 <= i < j < |r|
      ensures KeyLe(key(r[i]), key(r[j]))
    {
      assert r[i] == s[offset + i] && r[j] == s[offset + j];
    }
  }

  /** Paging never skips a row: with a positive page size, row `i` of the
      listing is row `i % size` of page `i / size + 1`. */
  lemma {:induction false} PagesCover<T>(s: seq<T>, size: int, i: nat)
    requires size > 0 && i < |s|
    ensures Page(s, size, PageOffset(i / size + 1, size)).Some?
    ensures i % size < |Page(s, size, PageOffset(i / size + 1, size)).value|
    ensures Page(s, size, PageOffset(i / size + 1, size)).value[i % size] == s[i]
  {
    var o := PageOffset(i / size + 1, size);
    assert o == (i / size) * size;
    assert i == o + i % size;
  }

  /** Two windows of the same listing at the same position are the same rows. */
  lemma {:induction false} WindowUnique<T>(a: seq<T>, b: seq<T>, s: seq<T>, limit: int, offset: int)
    requires IsWindow(a, s, limit, offset) && IsWindow(b, s, limit, offset)
    ensures a == b
  {
    assert forall k :: 0 <= k < |a| ==> a[k] == b[k];
  }

  /** Every row of a listing appears on one of its pages, numbered from 1
      with `offset = (page - 1) * size`. */
  lemma {:induction false} PageHolding<T>(l: seq<T>, x: T, size: int)
    requires size > 0 && x in l
    ensures exists page :: page >= 1 && Page(l, size, PageOffset(page, size)).Some?
                           && x in Page(l, size, PageOffset(page, size)).value
  {
    var j :| 0 <= j < |l| && l[j] == x;
    PagesCover(l, size, j);
    var page := j / size + 1;
    assert Page(l, size, PageOffset(page, size)).value[j % size] == x;
  }

  /** In particular every row a listing selects appears on one of its pages. */
  lemma {:induction false} ListingPagesCover<T>(s: seq<T>, p: T -> bool, key: T -> Key, i: nat, size: int)
    requires size > 0 && i < |s| && p(s[i])
    ensures exists page :: page >= 1 && Page(Listing(s, p, key), size, PageOffset(page, size)).Some?
                           && s[i] in Page(Listing(s, p, key), size, PageOffset(page, size)).value
  {
    PageHolding(Listing(s, p, key), s[i], size);
  }

  /** Appending a row no smaller than every row keeps a listing sorted. */
  lemma {:induction false} SortedAppend<T>(s: seq<T>, x: T, key: T -> Key)
    requires SortedBy(s, key)
    requires forall i :: 0 <= i < |s| ==> KeyLe(key(s[i]), key(x))
    ensures SortedBy(s + [x], key)
  {
    var t := s + [x];
    forall i, j | 0 <= i < j < |t|
      ensures KeyLe(key(t[i]), key(t[j]))
    {
      assert t[i] == s[i];
      if j < |s| {
        assert t[j] == s[j];
      }
    }
  }

  /** Dropping rows from a sorted listing keeps it sorted. */
  lemma {:induction false} FilterKeepsOrder<T>(s: seq<T>, p: T -> bool, key: T -> Key)
    requires SortedBy(s, key)
    ensures SortedBy(Filter(s, p), key)
  {
    if |s| > 0 {
      var n := |s| - 1;
      var s' := s[..n];
      assert SortedBy(s', key) by {
        assert forall i :: 0 <= i < n ==> s'[i] == s[i];
      }
      FilterKeepsOrder(s', p, key);
      var f := Filter(s', p);
      if p(s[n]) {
        assert Filter(s, p) == f + [s[n]];
        forall i | 0 <= i < |f|
          ensures KeyLe(key(f[i]), key(s[n]))
        {
          var j :| 0 <= j < n && s'[j] == f[i];
          assert s[j] == f[i];
        }
        SortedAppend(f, s[n], key);
      } else {
        assert Filter(s, p) == f;
      }
    }
  }

  // ---------------------------------------------------------------------------
  // Lemmas about keys

  /** With unique keys, updating the key of row `i` rewrites exactly that row. */
  lemma {:induction false} UpdateKeyUnique<T, K>(s: seq<T>, key: T -> K, i: nat, f: T -> T)
    requires i < |s| && UniqueKeys(s, key)
    ensures UpdateKey(s, key, key(s[i]), f) == s[i := f(s[i])]
  {
  }

  /** Rewriting one row without changing its key keeps the keys unique. */
  lemma {:induction false} UpdateAtUnique<T, K>(s: seq<T>, key: T -> K, i: nat, y: T)
    requires i < |s| && UniqueKeys(s, key) && key(y) == key(s[i])
    ensures UniqueKeys(s[i := y], key)
  {
    var t := s[i := y];
    forall a, b | 0 <= a < |t| && 0 <= b < |t| && key(t[a]) == key(t[b])
      ensures a == b
    {
      assert key(t[a]) == key(s[a]) && key(t[b]) == key(s[b]);
    }
  }

  /** Updating a key no row has changes nothing. */
  lemma {:induction false} UpdateKeyAbsent<T, K>(s: seq<T>, key: T -> K, k: K, f: T -> T)
    requires forall i :: 0 <= i < |s| ==> key(s[i]) != k
    ensures UpdateKey(s, key, k, f) == s
  {
  }

  /** Appending a row whose key is new keeps the keys unique. */
  lemma {:induction false} AppendUnique<T, K>(s: seq<T>, key: T -> K, x: T)
    requires UniqueKeys(s, key)
    requires forall i :: 0 <= i < |s| ==> key(s[i]) != key(x)
    ensures UniqueKeys(s + [x], key)
  {
  }

  /** Deleting rows keeps every remaining key below the bound. */
  lemma {:induction false} DeleteKeyKeepsBelow<T, K>(s: seq<T>, key: T -> K, k: K, id: T -> nat, n: nat)
    requires KeysBelow(s, id, n)
    ensures KeysBelow(DeleteKey(s, key, k), id, n)
  {
    var r := DeleteKey(s, key, k);
    DeleteKeyRows(s, key, k);
    forall i | 0 <= i < |r|
      ensures id(r[i]) < n
    {
      var j :| 0 <= j < |s| && s[j] == r[i];
    }
  }

  /** Deleting rows keeps any column unique that was unique before. */
  lemma {:induction false} DeleteKeyKeepsUnique<T, K, K2>(s: seq<T>, key: T -> K, k: K, key2: T -> K2)
    requires UniqueKeys(s, key2)
    ensures UniqueKeys(DeleteKey(s, key, k), key2)
  {
    if |s| > 0 {
      var n := |s| - 1;
      var s' := s[..n];
      assert forall a :: 0 <= a < n ==> s'[a] == s[a];
      DeleteKeyKeepsUnique(s', key, k, key2);
      var d := DeleteKey(s', key, k);
      DeleteKeyRows(s', key, k);
      if key(s[n]) != k {
        forall a | 0 <= a < |d|
          ensures key2(d[a]) != key2(s[n])
        {
          assert d[a] in s';
          var j :| 0 <= j < n && s'[j] == d[a];
        }
        AppendUnique(d, key2, s[n]);
      }
    }
  }

  /** An update that leaves a column alone keeps that column unique. */
  lemma {:induction false} UpdateKeyKeepsUnique<T, K, K2>(s: seq<T>, key: T -> K, k: K, f: T -> T, key2: T -> K2)
    requires UniqueKeys(s, key2)
    requires forall i :: 0 <= i < |s| ==> key2(f(s[i])) == key2(s[i])
    ensures UniqueKeys(UpdateKey(s, key, k, f), key2)
  {
    var r := UpdateKey(s, key, k, f);
    assert forall i :: 0 <= i < |s| ==> key2(r[i]) == key2(s[i]);
  }
}
