/** The `Item` table and the data-store calls the resolvers make on it
    (`findFirst`, `findMany`, `update`, `deleteMany`), with the store replaced
    by an in-memory sequence of rows. The sequence order is the store's
    default order. */
module Table {

  datatype Option<T> = None | Some(value: T)

  datatype Item = Item(id: int, name: string, manufacturer: string, amount: int)

  predicate HasPair(x: Item, name: string, manufacturer: string)
  {
    x.name == name && x.manufacturer == manufacturer
  }

  /** `id` is the table's key: no two rows share one. */
  ghost predicate DistinctIds(t: seq<Item>)
  {
    forall a, b | 0 <= a < b < |t| :: t[a].id != t[b].id
  }

  ghost predicate PositiveIds(t: seq<Item>)
  {
    forall a | 0 <= a < |t| :: t[a].id >= 1
  }

  /** At most one row per exact `(name, manufacturer)` pair. */
  ghost predicate UniquePairs(t: seq<Item>)
  {
    forall a, b | 0 <= a < b < |t| :: !HasPair(t[b], t[a].name, t[a].manufacturer)
  }

  /** The table invariant kept by `createItem` and `deleteItems`. */
  ghost predicate WellFormed(t: seq<Item>)
  {
    DistinctIds(t) && PositiveIds(t) && UniquePairs(t)
  }

  ghost predicate Ascending(t: seq<Item>)
  {
    forall a, b | 0 <= a < b < |t| :: t[a].id <= t[b].id
  }

  ghost predicate StrictlyAscending(t: seq<Item>)
  {
    forall a, b | 0 <= a < b < |t| :: t[a].id < t[b].id
  }

  /** The rows of `s` that satisfy `p`, in their order in `s`. */
  function Filter(s: seq<Item>, p: Item -> bool): (r: seq<Item>)
    ensures |r| <= |s|
    ensures forall x :: x in r <==> x in s && p(x)
  {
    if s == [] then []
    else if p(s[0]) then [s[0]] + Filter(s[1..], p)
    else Filter(s[1..], p)
  }

  /** Filtering works piece by piece, so it keeps the relative order of rows. */
  lemma {:induction false} FilterAppend(s: seq<Item>, u: seq<Item>, p: Item -> bool)
    ensures Filter(s + u, p) == Filter(s, p) + Filter(u, p)
  {
    if s == [] {
      assert s + u == u;
    } else {
      assert (s + u)[1..] == s[1..] + u;
      FilterAppend(s[1..], u, p);
    }
  }

  /** Dropping rows keeps the table invariant. */
  lemma {:induction false} FilterWellFormed(t: seq<Item>, p: Item -> bool)
    requires WellFormed(t)
    ensures WellFormed(Filter(t, p))
  {
    if t != [] {
      FilterWellFormed(t[1..], p);
      var rest := Filter(t[1..], p);
      if p(t[0]) {
        var r := [t[0]] + rest;
        forall a, b | 0 <= a < b < |r|
          ensures r[a].id != r[b].id
          ensures !HasPair(r[b], r[a].name, r[a].manufacturer)
        {
          if a == 0 {
            assert r[b] in t[1..];
          }
        }
      }
    }
  }

  /** Dropping rows keeps a key-ordered table in key order. */
  lemma {:induction false} FilterAscending(t: seq<Item>, p: Item -> bool)
    requires StrictlyAscending(t)
    ensures StrictlyAscending(Filter(t, p))
  {
    if t != [] {
      FilterAscending(t[1..], p);
      var rest := Filter(t[1..], p);
      if p(t[0]) {
        var r := [t[0]] + rest;
        forall a, b | 0 <= a < b < |r| ensures r[a].id < r[b].id {
          if a == 0 {
            assert r[b] in t[1..];
            var j :| 0 <= j < |t[1..]| && t[1..][j] == r[b];
            assert t[j + 1] == r[b];
          }
        }
      }
    }
  }

  // findFirst({ where: { name, manufacturer } })

  /** Position of the first row with exactly this pair, if any. */
  function FindFirstByPair(t: seq<Item>, name: string, manufacturer: string): (r: Option<nat>)
    ensures r.Some? ==> r.value < |t| && HasPair(t[r.value], name, manufacturer)
    ensures r.Some? ==> forall k | 0 <= k < r.value :: !HasPair(t[k], name, manufacturer)
    ensures r.None? <==> forall k | 0 <= k < |t| :: !HasPair(t[k], name, manufacturer)
  {
    if t == [] then None
    else if HasPair(t[0], name, manufacturer) then Some(0)
    else match FindFirstByPair(t[1..], name, manufacturer)
      case None => None
      case Some(i) => Some(i + 1)
  }

  // findFirst({ orderBy: { id: 'desc' } })

  /** A row with the largest `id`, or nothing for an empty table. */
  function FindLastById(t: seq<Item>): (r: Option<Item>)
    ensures r.None? <==> t == []
    ensures r.Some? ==> r.value in t && forall k | 0 <= k < |t| :: t[k].id <= r.value.id
  {
    if t == [] then None
    else match FindLastById(t[1..])
      case None => Some(t[0])
      case Some(m) => if t[0].id >= m.id then Some(t[0]) else Some(m)
  }

  // findMany({ orderBy: { id: 'asc' } })

  /** Every row of a permutation of `s` plus `x` is one of those rows. */
  lemma PermutedRow(rest: seq<Item>, s: seq<Item>, x: Item, k: nat)
    requires multiset(rest) == multiset(s) + multiset{x} && k < |rest|
    ensures rest[k] == x || exists j | 0 <= j < |s| :: s[j] == rest[k]
  {
    assert rest[k] in multiset(rest);
  }

  /** A permutation of rows all keyed at least `lo` is keyed at least `lo`. */
  lemma PermutedAbove(rest: seq<Item>, s: seq<Item>, x: Item, lo: int)
    requires multiset(rest) == multiset(s) + multiset{x}
    requires lo <= x.id && forall k | 0 <= k < |s| :: lo <= s[k].id
    ensures forall k | 0 <= k < |rest| :: lo <= rest[k].id
  {
    forall k | 0 <= k < |rest| ensures lo <= rest[k].id {
      PermutedRow(rest, s, x, k);
    }
  }

  lemma ConsAscending(y: Item, rest: seq<Item>)
    requires Ascending(rest) && forall k | 0 <= k < |rest| :: y.id <= rest[k].id
    ensures Ascending([y] + rest)
  {
  }

  /** Inserts `x` into a table sorted by ascending `id`. */
  function InsertById(x: Item, s: seq<Item>): (r: seq<Item>)
    requires Ascending(s)
    ensures |r| == |s| + 1
    ensures multiset(r) == multiset(s) + multiset{x}
    ensures Ascending(r)
  {
    if s == [] then [x]
    else if x.id <= s[0].id then [x] + s
    else
      var rest := InsertById(x, s[1..]);
      assert s == [s[0]] + s[1..];
      PermutedAbove(rest, s[1..], x, s[0].id);
      ConsAscending(s[0], rest);
      [s[0]] + rest
  }

  /** Inserting a row whose `id` is new keeps the ids strictly ascending. */
  lemma {:induction false} InsertByIdStrict(x: Item, s: seq<Item>)
    requires StrictlyAscending(s)
    requires forall k | 0 <= k < |s| :: s[k].id != x.id
    ensures StrictlyAscending(InsertById(x, s))
  {
    if s != [] && x.id > s[0].id {
      var rest := InsertById(x, s[1..]);
      InsertByIdStrict(x, s[1..]);
      assert s == [s[0]] + s[1..];
      forall k | 0 <= k < |rest| ensures s[0].id < rest[k].id {
        PermutedRow(rest, s[1..], x, k);
      }
    }
  }

  /** The table ordered by ascending `id`: a sorted permutation of its rows. */
  function SortById(t: seq<Item>): (r: seq<Item>)
    ensures |r| == |t|
    ensures multiset(r) == multiset(t)
    ensures Ascending(r)
  {
    if t == [] then []
    else
      assert t == [t[0]] + t[1..];
      InsertById(t[0], SortById(t[1..]))
  }

  /** Ordering a table that is already in key order leaves it as it is. */
  lemma {:induction false} SortByIdOfAscending(t: seq<Item>)
    requires Ascending(t)
    ensures SortById(t) == t
  {
    if t != [] {
      SortByIdOfAscending(t[1..]);
      assert t == [t[0]] + t[1..];
      if |t| > 1 {
        assert t[0].id <= t[1..][0].id;
      }
    }
  }

  /** With distinct keys the sorted table is strictly ascending. */
  lemma {:induction false} SortByIdStrict(t: seq<Item>)
    requires DistinctIds(t)
    ensures StrictlyAscending(SortById(t))
  {
    if t != [] {
      var rest := SortById(t[1..]);
      SortByIdStrict(t[1..]);
      assert t == [t[0]] + t[1..];
      forall k | 0 <= k < |rest| ensures rest[k].id != t[0].id {
        assert rest[k] in multiset(t[1..]);
        var j :| 0 <= j < |t[1..]| && t[1..][j] == rest[k];
        assert t[j + 1] == rest[k];
      }
      InsertByIdStrict(t[0], rest);
    }
  }

  // update({ where: { id: oldId }, data: { id: newId } })

  /** Rewrites the key of the row whose `id` is `oldId`. The store refuses an
      update of a missing row and one that would give two rows the same key. */
  function UpdateId(t: seq<Item>, oldId: int, newId: int): (r: seq<Item>)
    requires exists k | 0 <= k < |t| :: t[k].id == oldId
    requires newId == oldId || forall k | 0 <= k < |t| :: t[k].id != newId
    ensures |r| == |t|
    ensures forall k | 0 <= k < |t| :: r[k].id == (if t[k].id == oldId then newId else t[k].id)
    ensures forall k | 0 <= k < |t| :: HasPair(r[k], t[k].name, t[k].manufacturer) && r[k].amount == t[k].amount
    ensures DistinctIds(t) ==> DistinctIds(r)
  {
    seq(|t|, k requires 0 <= k < |t| => if t[k].id == oldId then t[k].(id := newId) else t[k])
  }

  // deleteMany({ where: { id: { in: ids } } })

  datatype Deleted = Deleted(survivors: seq<Item>, count: nat)

  function Unlisted(ids: seq<int>): Item -> bool
  {
    (x: Item) => x.id !in ids
  }

  /** Removes every row whose `id` is listed; `count` is how many went. */
  function DeleteMany(t: seq<Item>, ids: seq<int>): (r: Deleted)
    ensures r.count + |r.survivors| == |t|
    ensures forall x :: x in r.survivors <==> x in t && x.id !in ids
  {
    var survivors := Filter(t, Unlisted(ids));
    Deleted(survivors, |t| - |survivors|)
  }

  function IdSet(t: seq<Item>): set<int>
  {
    set x | x in t :: x.id
  }

  lemma IdSetCons(t: seq<Item>)
    requires t != [] && DistinctIds(t)
    ensures IdSet(t) == {t[0].id} + IdSet(t[1..])
    ensures t[0].id !in IdSet(t[1..])
  {
    assert t == [t[0]] + t[1..];
    forall x | x in t[1..] ensures x.id != t[0].id {
      var k :| 0 <= k < |t[1..]| && t[1..][k] == x;
      assert t[k + 1] == x;
    }
  }

  /** Deleting from a non-empty table: the first row goes exactly when it is
      listed, and the rest of the table is handled alike. */
  lemma DeleteManyCons(t: seq<Item>, ids: seq<int>)
    requires t != []
    ensures DeleteMany(t, ids).count == DeleteMany(t[1..], ids).count + (if t[0].id in ids then 1 else 0)
  {
    var p := Unlisted(ids);
    assert Filter(t, p) == if p(t[0]) then [t[0]] + Filter(t[1..], p) else Filter(t[1..], p);
  }

  lemma CountNewKey(x: int, keys: set<int>, listed: set<int>)
    requires x !in keys
    ensures |({x} + keys) * listed| == |keys * listed| + (if x in listed then 1 else 0)
  {
    if x in listed {
      assert ({x} + keys) * listed == {x} + keys * listed;
    } else {
      assert ({x} + keys) * listed == keys * listed;
    }
  }

  /** The number of deleted rows is the number of listed ids present in the
      table: absent and repeated ids add nothing. */
  lemma {:induction false} DeleteCount(t: seq<Item>, ids: seq<int>)
    requires DistinctIds(t)
    ensures DeleteMany(t, ids).count == |IdSet(t) * set i | i in ids|
  {
    if t == [] {
      assert IdSet(t) == {};
    } else {
      DeleteCount(t[1..], ids);
      IdSetCons(t);
      DeleteManyCons(t, ids);
      CountNewKey(t[0].id, IdSet(t[1..]), set i | i in ids);
    }
  }
}
