/** Helpers for modelling SQL tables as maps from primary key to row: rows in
    key order, `WHERE` filters, `COUNT(*)`, `ORDER BY` and `OFFSET`/`LIMIT`. */
module Tables {

  /** The smallest key of a non-empty key set. */
  function Least(s: set<int>): (m: int)
    requires s != {}
    ensures m in s
    ensures forall k | k in s :: m <= k
  {
    LeastExists(s);
    var m :| m in s && forall k | k in s :: m <= k; m
  }

  lemma {:induction false} LeastExists(s: set<int>)
    requires s != {}
    ensures exists m :: m in s && forall k | k in s :: m <= k
    decreases |s|
  {
    if forall y :: y !in s { assert false; }
    var x :| x in s;
    if s != {x} {
      var rest := s - {x};
      LeastExists(rest);
      var m :| m in rest && forall k | k in rest :: m <= k;
      var least := if x < m then x else m;
      forall k | k in s ensures least <= k {
        if k != x { assert k in rest; }
      }
      assert least in s;
    } else {
      assert forall k | k in s :: x <= k;
    }
  }

  /** The keys of `s` in ascending order: the order rows come back in when a
      query has no `ORDER BY`, and the tie-break for one that has. */
  function Ascending(s: set<int>): (r: seq<int>)
    ensures |r| == |s|
    ensures forall k :: k in r <==> k in s
    ensures forall i, j :: 0 <= i < j < |r| ==> r[i] < r[j]
    decreases |s|
  {
    if s == {} then []
    else
      var m := Least(s);
      [m] + Ascending(s - {m})
  }

  /** `SELECT COUNT(*) ... WHERE p`. */
  function Count<T>(m: map<int, T>, p: T -> bool): nat
  {
    |set k | k in m && p(m[k])|
  }

  /** Result rows carry their key; keys come out strictly ascending. */
  predicate KeysAscending<T>(r: seq<(int, T)>)
  {
    forall i, j :: 0 <= i < j < |r| ==> r[i].0 < r[j].0
  }

  /** Counting a condition that splits into two exclusive ones. */
  lemma CountSplit<T>(m: map<int, T>, p: T -> bool, q: T -> bool, r: T -> bool)
    requires forall k | k in m :: p(m[k]) <==> q(m[k]) || r(m[k])
    requires forall k | k in m :: !(q(m[k]) && r(m[k]))
    ensures Count(m, p) == Count(m, q) + Count(m, r)
  {
    var a := set k | k in m && q(m[k]);
    var b := set k | k in m && r(m[k]);
    var all := set k | k in m && p(m[k]);
    forall k ensures k in all <==> k in a + b {
      if k in m {
        assert p(m[k]) <==> q(m[k]) || r(m[k]);
      }
    }
    assert all == a + b;
    forall k | k in a ensures k !in b {
      assert !(q(m[k]) && r(m[k]));
    }
    assert a * b == {};
  }

  /** A weaker condition counts at least as many rows. */
  lemma CountMono<T>(m: map<int, T>, p: T -> bool, q: T -> bool)
    requires forall k | k in m :: p(m[k]) ==> q(m[k])
    ensures Count(m, p) <= Count(m, q)
  {
    var a := set k | k in m && p(m[k]);
    var b := set k | k in m && q(m[k]);
    forall k | k in a ensures k in b {
      assert p(m[k]);
    }
    assert b == a + (b - a);
    assert a * (b - a) == {};
  }

  /** Some row satisfies `p` exactly when the count is positive. */
  lemma CountPositive<T>(m: map<int, T>, p: T -> bool)
    ensures Count(m, p) > 0 <==> exists k | k in m :: p(m[k])
  {
    var hits := set j | j in m && p(m[j]);
    assert Count(m, p) == |hits|;
    if exists k | k in m :: p(m[k]) {
      var k :| k in m && p(m[k]);
      assert k in hits;
      assert |hits| > 0;
    } else {
      assert hits == {};
    }
  }

  /** The rows stored under the keys `ks` that satisfy `p`, with their keys, in
      the order of `ks`. */
  function Pick<T>(m: map<int, T>, ks: seq<int>, p: T -> bool): seq<(int, T)>
    requires forall i | 0 <= i < |ks| :: ks[i] in m
  {
    if ks == [] then []
    else (if p(m[ks[0]]) then [(ks[0], m[ks[0]])] else []) + Pick(m, ks[1..], p)
  }

  lemma {:induction false} PickSound<T>(m: map<int, T>, ks: seq<int>, p: T -> bool)
    requires forall i | 0 <= i < |ks| :: ks[i] in m
    ensures forall x :: x in Pick(m, ks, p) ==> x.0 in ks && x.0 in m && x.1 == m[x.0] && p(x.1)
  {
    if ks != [] {
      PickSound(m, ks[1..], p);
    }
  }

  lemma {:induction false} PickComplete<T>(m: map<int, T>, ks: seq<int>, p: T -> bool)
    requires forall i | 0 <= i < |ks| :: ks[i] in m
    ensures forall k :: k in ks && p(m[k]) ==> (k, m[k]) in Pick(m, ks, p)
  {
    if ks != [] {
      PickComplete(m, ks[1..], p);
      forall k | k in ks && p(m[k]) ensures (k, m[k]) in Pick(m, ks, p) {
        if k != ks[0] {
          assert k in ks[1..];
        }
      }
    }
  }

  lemma {:induction false} PickCount<T>(m: map<int, T>, ks: seq<int>, p: T -> bool)
    requires forall i | 0 <= i < |ks| :: ks[i] in m
    requires forall i, j :: 0 <= i < j < |ks| ==> ks[i] < ks[j]
    ensures |Pick(m, ks, p)| == |set k | k in ks && p(m[k])|
  {
    if ks != [] {
      PickCount(m, ks[1..], p);
      var tail := set k | k in ks[1..] && p(m[k]);
      var all := set k | k in ks && p(m[k]);
      assert ks[0] !in ks[1..];
      if p(m[ks[0]]) {
        assert all == {ks[0]} + tail;
      } else {
        assert all == tail;
      }
    }
  }

  lemma {:induction false} PickAscending<T>(m: map<int, T>, ks: seq<int>, p: T -> bool)
    requires forall i | 0 <= i < |ks| :: ks[i] in m
    requires forall i, j :: 0 <= i < j < |ks| ==> ks[i] < ks[j]
    ensures KeysAscending(Pick(m, ks, p))
  {
    if ks != [] {
      PickAscending(m, ks[1..], p);
      PickSound(m, ks[1..], p);
      var rest := Pick(m, ks[1..], p);
      if p(m[ks[0]]) {
        var r := [(ks[0], m[ks[0]])] + rest;
        forall i, j | 0 <= i < j < |r| ensures r[i].0 < r[j].0 {
          if i == 0 {
            assert r[j] == rest[j - 1];
            assert r[j] in rest;
          } else {
            assert r[i] == rest[i - 1] && r[j] == rest[j - 1];
          }
        }
      }
    }
  }

  /** `SELECT * ... WHERE p`: every stored row satisfying `p`, once each, with
      its key, in key order. */
  function Where<T>(m: map<int, T>, p: T -> bool): (r: seq<(int, T)>)
    ensures forall x :: x in r ==> x.0 in m && x.1 == m[x.0] && p(x.1)
    ensures forall k :: k in m && p(m[k]) ==> (k, m[k]) in r
    ensures |r| == Count(m, p)
    ensures KeysAscending(r)
  {
    WhereSpec(m, p);
    Pick(m, Ascending(m.Keys), p)
  }

  lemma WhereSpec<T>(m: map<int, T>, p: T -> bool)
    ensures forall i | 0 <= i < |Ascending(m.Keys)| :: Ascending(m.Keys)[i] in m
    ensures forall x :: x in Pick(m, Ascending(m.Keys), p) ==> x.0 in m && x.1 == m[x.0] && p(x.1)
    ensures forall k :: k in m && p(m[k]) ==> (k, m[k]) in Pick(m, Ascending(m.Keys), p)
    ensures |Pick(m, Ascending(m.Keys), p)| == Count(m, p)
    ensures KeysAscending(Pick(m, Ascending(m.Keys), p))
  {
    var ks := Ascending(m.Keys);
    PickSound(m, ks, p);
    PickComplete(m, ks, p);
    PickCount(m, ks, p);
    PickAscending(m, ks, p);
    SameKeys(m, p);
  }

  lemma SameKeys<T>(m: map<int, T>, p: T -> bool)
    ensures (set k | k in Ascending(m.Keys) && p(m[k])) == (set k | k in m && p(m[k]))
  {
  }

  /** `SELECT * ... WHERE p ORDER BY key`: the rows of `Where`, sorted, each
      key once. */
  function OrderBy<T>(m: map<int, T>, p: T -> bool, key: ((int, T)) -> real): (r: seq<(int, T)>)
    ensures forall x | x in r :: x.0 in m && x.1 == m[x.0] && p(x.1)
    ensures forall k | k in m && p(m[k]) :: (k, m[k]) in r
    ensures |r| == Count(m, p)
    ensures SortedBy(r, key)
    ensures KeysDistinct(r)
  {
    var w := Where(m, p);
    assert NoDuplicates(w) by {
      forall i, j | 0 <= i < j < |w| ensures w[i] != w[j] {
        assert w[i].0 < w[j].0;
      }
    }
    SortNoDuplicates(w, key);
    var r := SortBy(w, key);
    forall i, j | 0 <= i < j < |r| ensures r[i].0 != r[j].0 {
      assert r[i] in r && r[j] in r;
      assert r[i] != r[j];
    }
    r
  }

  predicate KeysDistinct<T>(s: seq<(int, T)>)
  {
    forall i, j :: 0 <= i < j < |s| ==> s[i].0 != s[j].0
  }

  ghost predicate NoDuplicates<T>(s: seq<T>)
  {
    forall i, j :: 0 <= i < j < |s| ==> s[i] != s[j]
  }

  predicate SortedBy<T>(s: seq<T>, key: T -> real)
  {
    forall i, j :: 0 <= i < j < |s| ==> key(s[i]) <= key(s[j])
  }

  predicate AtLeast<T>(s: seq<T>, key: T -> real, b: real)
  {
    forall i :: 0 <= i < |s| ==> b <= key(s[i])
  }

  function Insert<T>(x: T, s: seq<T>, key: T -> real): (r: seq<T>)
    requires SortedBy(s, key)
    ensures SortedBy(r, key)
    ensures multiset(r) == multiset(s) + multiset{x}
    decreases |s|, 0
  {
    if s == [] then [x]
    else if key(x) <= key(s[0]) then [x] + s
    else
      assert s == [s[0]] + s[1..];
      assert SortedBy(s[1..], key);
      assert AtLeast(s[1..], key, key(s[0]));
      InsertAtLeast(x, s[1..], key, key(s[0]));
      [s[0]] + Insert(x, s[1..], key)
  }

  lemma {:induction false} InsertAtLeast<T>(x: T, s: seq<T>, key: T -> real, b: real)
    requires SortedBy(s, key) && AtLeast(s, key, b) && b <= key(x)
    ensures AtLeast(Insert(x, s, key), key, b)
    decreases |s|, 1
  {
    if s != [] && key(s[0]) < key(x) {
      assert SortedBy(s[1..], key);
      InsertAtLeast(x, s[1..], key, b);
    }
  }

  /** `ORDER BY key ASC`, stable, so rows with equal keys stay in the order
      they had. */
  function SortBy<T>(s: seq<T>, key: T -> real): (r: seq<T>)
    ensures SortedBy(r, key)
    ensures multiset(r) == multiset(s)
    ensures |r| == |s|
    ensures forall x | x in r :: x in s
    ensures forall x | x in s :: x in r
  {
    if s == [] then []
    else
      assert s == [s[0]] + s[1..];
      var r := Insert(s[0], SortBy(s[1..], key), key);
      SameMembers(r, s);
      SameMembers(s, r);
      r
  }

  /** Inserting an element not yet present keeps a sequence free of
      duplicates. */
  lemma {:induction false} InsertNoDuplicates<T>(x: T, s: seq<T>, key: T -> real)
    requires SortedBy(s, key) && NoDuplicates(s) && x !in s
    ensures NoDuplicates(Insert(x, s, key))
    decreases |s|
  {
    if s == [] {
    } else if key(x) <= key(s[0]) {
      var r := [x] + s;
      assert Insert(x, s, key) == r;
      forall i, j | 0 <= i < j < |r| ensures r[i] != r[j] {
        assert r[j] == s[j - 1];
        if i > 0 {
          assert r[i] == s[i - 1];
        }
      }
    } else {
      assert SortedBy(s[1..], key);
      InsertNoDuplicates(x, s[1..], key);
      var t := Insert(x, s[1..], key);
      assert s[0] !in t by {
        assert s[0] != x;
        assert s[0] !in s[1..];
        assert multiset(t) == multiset(s[1..]) + multiset{x};
        assert s[0] !in multiset(t);
      }
      var r := [s[0]] + t;
      assert Insert(x, s, key) == r;
      forall i, j | 0 <= i < j < |r| ensures r[i] != r[j] {
        assert r[j] == t[j - 1];
        if i > 0 {
          assert r[i] == t[i - 1];
        } else {
          assert r[j] in t;
        }
      }
    }
  }

  /** Sorting keeps a sequence free of duplicates. */
  lemma {:induction false} SortNoDuplicates<T>(s: seq<T>, key: T -> real)
    requires NoDuplicates(s)
    ensures NoDuplicates(SortBy(s, key))
  {
    if s != [] {
      assert NoDuplicates(s[1..]);
      SortNoDuplicates(s[1..], key);
      assert s[0] !in s[1..];
      assert s == [s[0]] + s[1..];
      InsertNoDuplicates(s[0], SortBy(s[1..], key), key);
    }
  }

  lemma SameMembers<T>(a: seq<T>, b: seq<T>)
    requires multiset(a) == multiset(b)
    ensures forall x | x in a :: x in b
  {
    forall x | x in a ensures x in b {
      assert x in multiset(a);
    }
  }

  /** A float percentage `part / whole * 100`, kept as the two integers it is
      computed from, or the literal 0 a query returns instead of dividing. */
  datatype Percentage = Zero | Percent(part: int, whole: int)

  /** `OFFSET skip LIMIT limit`. */
  function Page<T>(s: seq<T>, skip: nat, limit: nat): (r: seq<T>)
    ensures |r| == if skip >= |s| then 0 else if |s| - skip < limit then |s| - skip else limit
    ensures forall i | 0 <= i < |r| :: r[i] == s[skip + i]
  {
    if skip >= |s| then []
    else if |s| - skip < limit then s[skip..]
    else s[skip..skip + limit]
  }

  /** A page of rows of `m` satisfying `p` holds only such rows. */
  lemma PageKeeps<T>(s: seq<(int, T)>, skip: nat, limit: nat, m: map<int, T>, p: T -> bool)
    requires forall x | x in s :: x.0 in m && x.1 == m[x.0] && p(x.1)
    ensures forall x | x in Page(s, skip, limit) :: x.0 in m && x.1 == m[x.0] && p(x.1)
  {
    var r := Page(s, skip, limit);
    forall x | x in r ensures x in s {
      var i :| 0 <= i < |r| && r[i] == x;
      assert s[skip + i] == x;
    }
  }

  /** A page of an ordered listing is ordered, and holds only rows of it. */
  lemma PageOfSorted<T>(s: seq<T>, skip: nat, limit: nat, key: T -> real)
    requires SortedBy(s, key)
    ensures SortedBy(Page(s, skip, limit), key)
    ensures forall x | x in Page(s, skip, limit) :: x in s
  {
    var r := Page(s, skip, limit);
    forall i, j | 0 <= i < j < |r| ensures key(r[i]) <= key(r[j]) {
      assert r[i] == s[skip + i] && r[j] == s[skip + j];
    }
    forall x | x in r ensures x in s {
      var i :| 0 <= i < |r| && r[i] == x;
      assert s[skip + i] == x;
    }
  }
}
