/** The three resolvers of the inventory GraphQL API: the `items` query and
    the `createItem` and `deleteItems` mutations, over the in-memory table. */
module Resolvers {
  import opened Table
  import opened Text

  // ---------------------------------------------------------------------------
  // Query.items

  /** A row matches a search when its name OR its manufacturer contains the
      search string, ignoring case. */
  predicate Matches(x: Item, search: string)
  {
    ContainsInsensitive(x.name, search) || ContainsInsensitive(x.manufacturer, search)
  }

  /** Only a present, non-empty search string builds a filter; an absent or
      empty one is falsy and leaves the `where` clause empty. */
  predicate Searching(search: Option<string>)
  {
    search.Some? && search.value != ""
  }

  function MatchesSearch(search: string): Item -> bool
  {
    (x: Item) => Matches(x, search)
  }

  /** The rows selected by the `where` clause, in table order. */
  function Where(t: seq<Item>, search: Option<string>): (r: seq<Item>)
    ensures !Searching(search) ==> r == t
    ensures Searching(search) ==> forall x :: x in r <==> x in t && Matches(x, search.value)
  {
    if Searching(search) then Filter(t, MatchesSearch(search.value)) else t
  }

  function SkipCount(offset: Option<nat>): nat
  {
    if offset.Some? then offset.value else 0
  }

  /** `findMany({ where, take: limit, skip: offset })`: the filtered rows from
      position `offset` on, at most `limit` of them. */
  function Items(t: seq<Item>, limit: Option<nat>, offset: Option<nat>, search: Option<string>): (r: seq<Item>)
    ensures limit.Some? ==> |r| <= limit.value
    ensures SkipCount(offset) >= |Where(t, search)| ==> r == []
    ensures forall k | 0 <= k < |r| :: SkipCount(offset) + k < |Where(t, search)| && r[k] == Where(t, search)[SkipCount(offset) + k]
    ensures SkipCount(offset) + |r| >= |Where(t, search)| || (limit.Some? && |r| == limit.value)
  {
    var f := Where(t, search);
    var start := if SkipCount(offset) < |f| then SkipCount(offset) else |f|;
    var stop := if limit.Some? && start + limit.value < |f| then start + limit.value else |f|;
    f[start..stop]
  }

  /** Without a search string every row is listed. */
  lemma ItemsWithoutSearch(t: seq<Item>)
    ensures Items(t, None, None, None) == t
    ensures Items(t, None, None, Some("")) == t
  {
  }

  /** With a search string, the rows listed are exactly the matching ones. */
  lemma ItemsWithSearch(t: seq<Item>, search: string, x: Item)
    requires search != ""
    ensures x in Items(t, None, None, Some(search)) <==> x in t && Matches(x, search)
  {
    assert Items(t, None, None, Some(search)) == Where(t, Some(search));
  }

  /** Listing keeps the table order of the matching rows: filtering two parts
      of the table and joining them is filtering the whole. */
  lemma WhereKeepsOrder(t: seq<Item>, u: seq<Item>, search: Option<string>)
    ensures Where(t + u, search) == Where(t, search) + Where(u, search)
  {
    if Searching(search) {
      FilterAppend(t, u, MatchesSearch(search.value));
    }
  }

  /** On a table kept in key order, as the store keeps it, the rows are
      listed by ascending key. */
  lemma ItemsInKeyOrder(t: seq<Item>, limit: Option<nat>, offset: Option<nat>, search: Option<string>)
    requires StrictlyAscending(t)
    ensures StrictlyAscending(Items(t, limit, offset, search))
  {
    if Searching(search) {
      FilterAscending(t, MatchesSearch(search.value));
    }
    var f := Where(t, search);
    var r := Items(t, limit, offset, search);
    forall a, b | 0 <= a < b < |r| ensures r[a].id < r[b].id {
      assert r[a] == f[SkipCount(offset) + a] && r[b] == f[SkipCount(offset) + b];
    }
  }

  // ---------------------------------------------------------------------------
  // Mutation.createItem

  datatype Created = Created(table: seq<Item>, item: Item)

  /** The key a new row gets: one more than the largest key, or 1 for an
      empty table. */
  function NextId(t: seq<Item>): (r: int)
    ensures t == [] ==> r == 1
    ensures t != [] ==> exists k | 0 <= k < |t| :: r == t[k].id + 1
    ensures forall k | 0 <= k < |t| :: t[k].id < r
  {
    match FindLastById(t)
    case None => 1
    case Some(last) => last.id + 1
  }

  /** Create-or-merge: a row with exactly this `(name, manufacturer)` pair has
      `amount` added to its amount; otherwise a row with the next key is
      appended. `item` is the row written. */
  function CreateOrMerge(t: seq<Item>, name: string, manufacturer: string, amount: int): (r: Created)
    ensures FindFirstByPair(t, name, manufacturer).Some? ==>
      var k := FindFirstByPair(t, name, manufacturer).value;
      |r.table| == |t| && r.table[k] == r.item &&
      r.item == Item(t[k].id, name, manufacturer, t[k].amount + amount) &&
      forall j | 0 <= j < |t| && j != k :: r.table[j] == t[j]
    ensures FindFirstByPair(t, name, manufacturer).None? ==>
      r.table == t + [r.item] && r.item == Item(NextId(t), name, manufacturer, amount)
  {
    match FindFirstByPair(t, name, manufacturer)
    case Some(k) =>
      var merged := t[k].(amount := t[k].amount + amount);
      Created(t[k := merged], merged)
    case None =>
      var added := Item(NextId(t), name, manufacturer, amount);
      Created(t + [added], added)
  }

  /** A merge changes exactly one row, and by exactly `amount`. */
  lemma MergeAddsAmount(t: seq<Item>, name: string, manufacturer: string, amount: int, k: nat)
    requires UniquePairs(t)
    requires k < |t| && HasPair(t[k], name, manufacturer)
    ensures var r := CreateOrMerge(t, name, manufacturer, amount).table;
      |r| == |t| && r[k].amount == t[k].amount + amount &&
      r[k].id == t[k].id && HasPair(r[k], name, manufacturer) &&
      forall j | 0 <= j < |t| && j != k :: r[j] == t[j]
  {
    var f := FindFirstByPair(t, name, manufacturer);
    assert f.Some? && f.value == k;
  }

  /** A new pair gets a key no row has: a new row never collides. */
  lemma FreshIdUnused(t: seq<Item>, name: string, manufacturer: string, amount: int)
    requires FindFirstByPair(t, name, manufacturer).None?
    ensures var r := CreateOrMerge(t, name, manufacturer, amount);
      r.item.id !in IdSet(t) && |r.table| == |t| + 1 && r.table[..|t|] == t
  {
    var r := CreateOrMerge(t, name, manufacturer, amount);
    assert r.table[..|t|] == t;
  }

  lemma {:induction false} CreateKeepsUniquePairs(t: seq<Item>, name: string, manufacturer: string, amount: int)
    requires UniquePairs(t)
    ensures UniquePairs(CreateOrMerge(t, name, manufacturer, amount).table)
  {
    var r := CreateOrMerge(t, name, manufacturer, amount).table;
    forall a, b | 0 <= a < b < |r| ensures !HasPair(r[b], r[a].name, r[a].manufacturer) {
      assert HasPair(r[a], t[a].name, t[a].manufacturer);
      if b < |t| {
        assert HasPair(r[b], t[b].name, t[b].manufacturer);
      }
    }
  }

  /** Create-or-merge keeps the table invariant: keys distinct and positive,
      one row per pair. */
  lemma {:induction false} CreateKeepsWellFormed(t: seq<Item>, name: string, manufacturer: string, amount: int)
    requires WellFormed(t)
    ensures WellFormed(CreateOrMerge(t, name, manufacturer, amount).table)
  {
    CreateKeepsUniquePairs(t, name, manufacturer, amount);
    var r := CreateOrMerge(t, name, manufacturer, amount).table;
    if FindFirstByPair(t, name, manufacturer).None? {
      forall a, b | 0 <= a < b < |r| ensures r[a].id != r[b].id {
        if b == |t| {
          assert r[a] == t[a];
        }
      }
    }
  }

  function Sum(a: seq<int>): int
  {
    if a == [] then 0 else a[0] + Sum(a[1..])
  }

  /** The amount recorded for a pair, 0 when it has no row. */
  function AmountOf(t: seq<Item>, name: string, manufacturer: string): int
  {
    match FindFirstByPair(t, name, manufacturer)
    case None => 0
    case Some(k) => t[k].amount
  }

  /** `createItem` called once per amount, in order, with the same pair. */
  function CreateAll(t: seq<Item>, name: string, manufacturer: string, amounts: seq<int>): seq<Item>
    decreases |amounts|
  {
    if amounts == [] then t
    else CreateAll(CreateOrMerge(t, name, manufacturer, amounts[0]).table, name, manufacturer, amounts[1..])
  }

  lemma CreateAddsToAmount(t: seq<Item>, name: string, manufacturer: string, amount: int)
    requires UniquePairs(t)
    ensures var r := CreateOrMerge(t, name, manufacturer, amount).table;
      FindFirstByPair(r, name, manufacturer).Some? &&
      AmountOf(r, name, manufacturer) == AmountOf(t, name, manufacturer) + amount &&
      |t| <= |r| && forall k | 0 <= k < |t| && !HasPair(t[k], name, manufacturer) :: r[k] == t[k]
  {
    var r := CreateOrMerge(t, name, manufacturer, amount).table;
    match FindFirstByPair(t, name, manufacturer)
    case Some(k) =>
      MergeAddsAmount(t, name, manufacturer, amount, k);
      assert HasPair(r[k], name, manufacturer);
      var f := FindFirstByPair(r, name, manufacturer);
      assert f.Some? && f.value == k;
    case None =>
      assert HasPair(r[|t|], name, manufacturer);
      var f := FindFirstByPair(r, name, manufacturer);
      assert f.Some? && f.value == |t|;
  }

  /** After n calls of `createItem` with the same pair, exactly one row holds
      that pair and its amount is the starting amount (0 if the pair was
      absent) plus the sum of the amounts; rows of other pairs keep their
      place and contents. */
  lemma {:induction false} RepeatedCreate(t: seq<Item>, name: string, manufacturer: string, amounts: seq<int>)
    requires UniquePairs(t)
    requires amounts != []
    ensures var r := CreateAll(t, name, manufacturer, amounts);
      UniquePairs(r) &&
      FindFirstByPair(r, name, manufacturer).Some? &&
      AmountOf(r, name, manufacturer) == AmountOf(t, name, manufacturer) + Sum(amounts) &&
      |t| <= |r| && forall k | 0 <= k < |t| && !HasPair(t[k], name, manufacturer) :: r[k] == t[k]
    decreases |amounts|
  {
    var t1 := CreateOrMerge(t, name, manufacturer, amounts[0]).table;
    CreateKeepsUniquePairs(t, name, manufacturer, amounts[0]);
    CreateAddsToAmount(t, name, manufacturer, amounts[0]);
    if amounts[1..] == [] {
      assert Sum(amounts) == amounts[0];
    } else {
      RepeatedCreate(t1, name, manufacturer, amounts[1..]);
    }
  }

  /** Create-or-merge keeps a key-ordered table in key order: a merge keeps
      every key, and an appended row's key exceeds every other. */
  lemma CreateKeepsAscending(t: seq<Item>, name: string, manufacturer: string, amount: int)
    requires StrictlyAscending(t)
    ensures StrictlyAscending(CreateOrMerge(t, name, manufacturer, amount).table)
  {
    var r := CreateOrMerge(t, name, manufacturer, amount).table;
    forall a, b | 0 <= a < b < |r| ensures r[a].id < r[b].id {
      if FindFirstByPair(t, name, manufacturer).None? && b == |t| {
        assert r[a] == t[a];
      }
    }
  }

  // ---------------------------------------------------------------------------
  // Mutation.deleteItems

  /** Position of the row with key `id` in a table sorted by key. */
  function RankOf(sorted: seq<Item>, id: int): (r: nat)
    requires exists k | 0 <= k < |sorted| :: sorted[k].id == id
    ensures r < |sorted| && sorted[r].id == id
    ensures forall k | 0 <= k < r :: sorted[k].id != id
  {
    if sorted[0].id == id then 0
    else
      assert exists k | 0 <= k < |sorted[1..]| :: sorted[1..][k].id == id by {
        var k :| 0 <= k < |sorted| && sorted[k].id == id;
        assert sorted[1..][k - 1].id == id;
      }
      RankOf(sorted[1..], id) + 1
  }

  /** `items` lists the rows of `s` by strictly ascending key. */
  ghost predicate SortedKeysOf(items: seq<Item>, s: seq<Item>)
  {
    |items| == |s| && multiset(items) == multiset(s) && StrictlyAscending(items)
  }

  lemma SortByIdSorted(s: seq<Item>)
    requires DistinctIds(s)
    ensures SortedKeysOf(SortById(s), s)
  {
    SortByIdStrict(s);
  }

  /** The 0-based position of row `j`'s key in `items`. */
  function RankIn(items: seq<Item>, s: seq<Item>, j: nat): (r: nat)
    requires j < |s| && multiset(items) == multiset(s)
    ensures r < |items| && items[r].id == s[j].id
  {
    assert s[j] in multiset(items);
    RankOf(items, s[j].id)
  }

  /** Each row's key becomes its 1-based position in `items`. */
  function RenumberBy(s: seq<Item>, items: seq<Item>): (r: seq<Item>)
    requires multiset(items) == multiset(s)
    ensures |r| == |s|
    ensures forall j | 0 <= j < |s| :: r[j].id == RankIn(items, s, j) + 1
    ensures forall j | 0 <= j < |s| :: HasPair(r[j], s[j].name, s[j].manufacturer) && r[j].amount == s[j].amount
  {
    seq(|s|, j requires 0 <= j < |s| => s[j].(id := RankIn(items, s, j) + 1))
  }

  /** The table after renumbering: each row's key becomes its 1-based
      position in ascending key order; nothing else changes. */
  function Renumber(s: seq<Item>): (r: seq<Item>)
    ensures |r| == |s|
    ensures forall j | 0 <= j < |s| :: HasPair(r[j], s[j].name, s[j].manufacturer) && r[j].amount == s[j].amount
  {
    RenumberBy(s, SortById(s))
  }

  /** In a strictly ascending listing the rank of the row at position n is n. */
  lemma RankInSorted(items: seq<Item>, s: seq<Item>, j: nat, n: nat)
    requires SortedKeysOf(items, s) && j < |s| && n < |s|
    requires items[n].id == s[j].id
    ensures RankIn(items, s, j) == n
  {
  }

  /** Every position of the listing is the rank of the row listed there. */
  lemma RankOnto(items: seq<Item>, s: seq<Item>, n: nat)
    requires SortedKeysOf(items, s) && n < |s|
    ensures exists j | 0 <= j < |s| :: s[j] == items[n] && RankIn(items, s, j) == n
  {
    assert items[n] in multiset(s);
    var j :| 0 <= j < |s| && s[j] == items[n];
    RankInSorted(items, s, j, n);
  }

  /** Ranks compare as the keys they stand for. */
  lemma RankMonotone(items: seq<Item>, s: seq<Item>, j: nat, k: nat)
    requires SortedKeysOf(items, s) && j < |s| && k < |s|
    ensures s[j].id < s[k].id <==> RankIn(items, s, j) < RankIn(items, s, k)
  {
    var a, b := RankIn(items, s, j), RankIn(items, s, k);
    assert a < b ==> items[a].id < items[b].id;
    assert b < a ==> items[b].id < items[a].id;
  }

  /** The n-th row in ascending key order gets key n + 1, and keeps its name,
      manufacturer and amount. */
  lemma RenumberFollowsKeyOrder(s: seq<Item>, n: nat)
    requires DistinctIds(s) && n < |s|
    ensures exists j | 0 <= j < |s| :: s[j] == SortById(s)[n] && Renumber(s)[j] == SortById(s)[n].(id := n + 1)
  {
    SortByIdSorted(s);
    RankOnto(SortById(s), s, n);
  }

  /** Renumbering keeps the relative order of keys. */
  lemma RenumberKeepsOrder(s: seq<Item>)
    requires DistinctIds(s)
    ensures var r := Renumber(s);
      forall j, k | 0 <= j < |s| && 0 <= k < |s| :: s[j].id < s[k].id <==> r[j].id < r[k].id
  {
    var items := SortById(s);
    SortByIdSorted(s);
    forall j, k | 0 <= j < |s| && 0 <= k < |s|
      ensures s[j].id < s[k].id <==> RankIn(items, s, j) < RankIn(items, s, k)
    {
      RankMonotone(items, s, j, k);
    }
  }

  /** On a table in key order, renumbering gives the row at position j the
      key j + 1, so the table stays in key order. */
  lemma RenumberAscending(s: seq<Item>)
    requires StrictlyAscending(s)
    ensures forall j | 0 <= j < |s| :: Renumber(s)[j].id == j + 1
    ensures StrictlyAscending(Renumber(s))
  {
    SortByIdOfAscending(s);
    SortByIdSorted(s);
    forall j | 0 <= j < |s| ensures Renumber(s)[j].id == j + 1 {
      RankInSorted(s, s, j, j);
    }
  }

  /** After renumbering the keys are exactly 1..N, and no two rows share one. */
  lemma RenumberContiguous(s: seq<Item>)
    requires DistinctIds(s)
    ensures forall n :: n in IdSet(Renumber(s)) <==> 1 <= n <= |s|
    ensures DistinctIds(Renumber(s))
  {
    var r := Renumber(s);
    forall n | 1 <= n <= |s| ensures n in IdSet(r) {
      RenumberFollowsKeyOrder(s, n - 1);
      var j :| 0 <= j < |s| && r[j].id == n;
      assert r[j] in r;
    }
    forall x | x in r ensures 1 <= x.id <= |s| {
      var j :| 0 <= j < |r| && r[j] == x;
    }
    RenumberKeepsOrder(s);
    forall a, b | 0 <= a < b < |r| ensures r[a].id != r[b].id {
      assert s[a].id < s[b].id || s[b].id < s[a].id;
    }
  }

  lemma RenumberWellFormed(s: seq<Item>)
    requires WellFormed(s)
    ensures WellFormed(Renumber(s))
  {
    RenumberContiguous(s);
  }

  /** In a strictly ascending table of positive keys, the key at position k is
      at least k + 1, so renumbering only ever lowers a key. */
  lemma {:induction false} KeysAtLeastPosition(t: seq<Item>, k: nat)
    requires StrictlyAscending(t) && PositiveIds(t) && k < |t|
    ensures t[k].id >= k + 1
    decreases k
  {
    if k > 0 {
      KeysAtLeastPosition(t, k - 1);
    }
  }

  lemma SortedKeysPositive(items: seq<Item>, s: seq<Item>)
    requires SortedKeysOf(items, s) && PositiveIds(s)
    ensures PositiveIds(items)
  {
    forall k | 0 <= k < |items| ensures items[k].id >= 1 {
      assert items[k] in multiset(s);
    }
  }

  /** The table part-way through renumbering: rows whose rank is below `i`
      already carry their new key, the others still their old one. */
  ghost predicate RenumberedBelow(rows: seq<Item>, s: seq<Item>, items: seq<Item>, i: nat)
  {
    multiset(items) == multiset(s) && |items| == |rows| == |s| &&
    forall j | 0 <= j < |s| :: rows[j] == if RankIn(items, s, j) < i then s[j].(id := RankIn(items, s, j) + 1) else s[j]
  }

  /** Part-way through renumbering, a row holds the i-th smallest original key
      exactly when its rank is i; a row not yet renumbered still has its
      original key, which is at least its rank + 1. */
  lemma RenumberedKey(rows: seq<Item>, s: seq<Item>, items: seq<Item>, i: nat, k: nat)
    requires SortedKeysOf(items, s) && PositiveIds(s)
    requires i < |s| && k < |s| && RenumberedBelow(rows, s, items, i)
    ensures rows[k].id == items[i].id <==> RankIn(items, s, k) == i
    ensures RankIn(items, s, k) < i ==> rows[k].id == RankIn(items, s, k) + 1
    ensures RankIn(items, s, k) >= i ==> rows[k].id >= RankIn(items, s, k) + 1
  {
    SortedKeysPositive(items, s);
    KeysAtLeastPosition(items, i);
    KeysAtLeastPosition(items, RankIn(items, s, k));
  }

  /** One update of the renumbering loop: the row with the i-th smallest key
      exists and no other row holds key i + 1, so the store accepts the
      update; afterwards one more row carries its new key. */
  lemma RenumberStep(rows: seq<Item>, s: seq<Item>, items: seq<Item>, i: nat)
    requires SortedKeysOf(items, s) && PositiveIds(s)
    requires i < |s| && RenumberedBelow(rows, s, items, i)
    ensures exists k | 0 <= k < |rows| :: rows[k].id == items[i].id
    ensures i + 1 == items[i].id || forall k | 0 <= k < |rows| :: rows[k].id != i + 1
    ensures RenumberedBelow(UpdateId(rows, items[i].id, i + 1), s, items, i + 1)
  {
    RankOnto(items, s, i);
    var j :| 0 <= j < |s| && s[j] == items[i] && RankIn(items, s, j) == i;
    RenumberedKey(rows, s, items, i, j);
    forall k | 0 <= k < |rows| && rows[k].id == i + 1 ensures i + 1 == items[i].id {
      RenumberedKey(rows, s, items, i, k);
    }
    var next := UpdateId(rows, items[i].id, i + 1);
    forall k | 0 <= k < |s|
      ensures next[k] == if RankIn(items, s, k) < i + 1 then s[k].(id := RankIn(items, s, k) + 1) else s[k]
    {
      RenumberedKey(rows, s, items, i, k);
      if RankIn(items, s, k) == i {
        assert next[k] == rows[k].(id := i + 1);
      } else {
        assert next[k] == rows[k];
      }
    }
  }

  lemma RenumberedAll(rows: seq<Item>, s: seq<Item>, items: seq<Item>)
    requires RenumberedBelow(rows, s, items, |s|)
    ensures rows == RenumberBy(s, items)
  {
  }

  /** The key updates of the renumbering, `(old key, new key)`, in the order
      they are listed: the row with the k-th smallest key gets key k + 1. */
  function RenumberPlan(items: seq<Item>): (r: seq<(int, int)>)
    ensures |r| == |items|
    ensures forall k | 0 <= k < |items| :: r[k] == (items[k].id, k + 1)
  {
    seq(|items|, k requires 0 <= k < |items| => (items[k].id, k + 1))
  }

  /** Runs key updates one after another; `None` when the store refuses one
      (no row with the old key, or the new key already taken). */
  function ApplyUpdates(t: seq<Item>, ups: seq<(int, int)>): (r: Option<seq<Item>>)
    ensures r.Some? ==> |r.value| == |t|
    decreases |ups|
  {
    if ups == [] then Some(t)
    else
      var oldId := ups[0].0;
      var newId := ups[0].1;
      if (exists k | 0 <= k < |t| :: t[k].id == oldId) && (newId == oldId || forall k | 0 <= k < |t| :: t[k].id != newId)
      then ApplyUpdates(UpdateId(t, oldId, newId), ups[1..])
      else None
  }

  lemma {:induction false} SequentialRenumberFrom(rows: seq<Item>, s: seq<Item>, items: seq<Item>, i: nat)
    requires SortedKeysOf(items, s) && PositiveIds(s)
    requires i <= |s| && RenumberedBelow(rows, s, items, i)
    ensures ApplyUpdates(rows, RenumberPlan(items)[i..]) == Some(RenumberBy(s, items))
    decreases |s| - i
  {
    var plan := RenumberPlan(items);
    if i == |s| {
      assert plan[i..] == [];
      RenumberedAll(rows, s, items);
    } else {
      RenumberStep(rows, s, items, i);
      assert plan[i..][0] == (items[i].id, i + 1);
      assert plan[i..][1..] == plan[i + 1..];
      SequentialRenumberFrom(UpdateId(rows, items[i].id, i + 1), s, items, i + 1);
    }
  }

  /** Issued one at a time in ascending key order, the renumbering updates are
      all accepted by the store and produce the renumbered table. */
  lemma SequentialRenumber(s: seq<Item>)
    requires DistinctIds(s) && PositiveIds(s)
    ensures ApplyUpdates(s, RenumberPlan(SortById(s))) == Some(Renumber(s))
  {
    SortByIdSorted(s);
    SequentialRenumberFrom(s, s, SortById(s), 0);
  }

  /** The same two updates issued in the other order collide: after deleting
      key 1 from keys 1, 2, 3, moving key 3 to 2 before key 2 has moved to 1
      finds key 2 still taken. */
  lemma ConcurrentRenumberCanCollide()
    ensures var t := [Item(2, "Bolt", "Acme", 8), Item(3, "Nut", "Acme", 2)];
      RenumberPlan(SortById(t)) == [(2, 1), (3, 2)] &&
      ApplyUpdates(t, [(3, 2), (2, 1)]) == None &&
      ApplyUpdates(t, [(2, 1), (3, 2)]) == Some([Item(1, "Bolt", "Acme", 8), Item(2, "Nut", "Acme", 2)])
  {
    var t := [Item(2, "Bolt", "Acme", 8), Item(3, "Nut", "Acme", 2)];
    ExamplePlan(t);
    var reversed := [(3, 2), (2, 1)];
    assert reversed[0] == (3, 2) && t[1].id == 3 && t[0].id == 2;
    AscendingUpdatesExample();
  }

  lemma ExamplePlan(t: seq<Item>)
    requires t == [Item(2, "Bolt", "Acme", 8), Item(3, "Nut", "Acme", 2)]
    ensures RenumberPlan(SortById(t)) == [(2, 1), (3, 2)]
  {
    assert t[1..] == [t[1]];
    assert SortById(t[1..]) == [t[1]];
    assert SortById(t) == t;
  }

  lemma AscendingUpdatesExample()
    ensures var t := [Item(2, "Bolt", "Acme", 8), Item(3, "Nut", "Acme", 2)];
      ApplyUpdates(t, [(2, 1), (3, 2)]) == Some([Item(1, "Bolt", "Acme", 8), Item(2, "Nut", "Acme", 2)])
  {
    var t := [Item(2, "Bolt", "Acme", 8), Item(3, "Nut", "Acme", 2)];
    var t1 := [Item(1, "Bolt", "Acme", 8), Item(3, "Nut", "Acme", 2)];
    var t2 := [Item(1, "Bolt", "Acme", 8), Item(2, "Nut", "Acme", 2)];
    assert UpdateId(t, 2, 1) == t1 by { assert t[0].id == 2 && t[1].id == 3; }
    assert UpdateId(t1, 3, 2) == t2 by { assert t1[0].id == 1 && t1[1].id == 3; }
    var u := [(2, 1), (3, 2)];
    assert u[0] == (2, 1) && u[1..] == [(3, 2)];
    assert ApplyUpdates(t, u) == ApplyUpdates(t1, [(3, 2)]) by { assert t[0].id == 2 && t[1].id == 3; }
    assert ApplyUpdates(t1, [(3, 2)]) == ApplyUpdates(t2, []) by {
      assert [(3, 2)][1..] == [];
      assert t1[1].id == 3 && t1[0].id == 1;
    }
  }

  /** Deleting keeps the store's invariant: a well-formed table in key order. */
  lemma DeleteKeepsOrdered(t: seq<Item>, ids: seq<int>)
    requires WellFormed(t) && StrictlyAscending(t)
    ensures var r := DeleteMany(t, ids).survivors;
      WellFormed(r) && StrictlyAscending(r)
  {
    FilterWellFormed(t, Unlisted(ids));
    FilterAscending(t, Unlisted(ids));
  }

  /** Renumbering keeps the store's invariant. */
  lemma RenumberKeepsOrdered(s: seq<Item>)
    requires WellFormed(s) && StrictlyAscending(s)
    ensures WellFormed(Renumber(s)) && StrictlyAscending(Renumber(s))
  {
    RenumberWellFormed(s);
    RenumberAscending(s);
  }

  // ---------------------------------------------------------------------------
  // The data store, holding the item table.

  class Store {
    var rows: seq<Item>

    /** The table invariant, and rows kept in ascending key order. */
    ghost predicate Valid()
      reads this
    {
      WellFormed(rows) && StrictlyAscending(rows)
    }

    constructor ()
      ensures Valid() && rows == []
    {
      rows := [];
    }

    /** Mutation.createItem */
    method CreateItem(name: string, manufacturer: string, amount: int) returns (item: Item)
      requires Valid()
      modifies this
      ensures Valid()
      ensures rows == CreateOrMerge(old(rows), name, manufacturer, amount).table
      ensures item == CreateOrMerge(old(rows), name, manufacturer, amount).item
    {
      CreateKeepsWellFormed(rows, name, manufacturer, amount);
      CreateKeepsAscending(rows, name, manufacturer, amount);
      var existing := FindFirstByPair(rows, name, manufacturer);
      if existing.Some? {
        var k := existing.value;
        item := rows[k].(amount := rows[k].amount + amount);
        rows := rows[k := item];
      } else {
        item := Item(NextId(rows), name, manufacturer, amount);
        rows := rows + [item];
      }
    }

    /** Mutation.deleteItems: delete the listed keys, then renumber the
        survivors 1..N in ascending key order, one update at a time. */
    method DeleteItems(ids: seq<int>) returns (count: nat)
      requires Valid()
      modifies this
      ensures Valid()
      ensures count == DeleteMany(old(rows), ids).count
      ensures rows == Renumber(DeleteMany(old(rows), ids).survivors)
    {
      var deleted := DeleteMany(rows, ids);
      DeleteKeepsOrdered(rows, ids);
      rows := deleted.survivors;
      count := deleted.count;

      var items := SortById(rows);
      ghost var s := rows;
      SortByIdSorted(s);

      var i := 0;
      while i < |items|
        invariant 0 <= i <= |items| == |s|
        invariant RenumberedBelow(rows, s, items, i)
      {
        RenumberStep(rows, s, items, i);
        // update({ where: { id: items[i].id }, data: { id: i + 1 } })
        rows := UpdateId(rows, items[i].id, i + 1);
        i := i + 1;
      }
      RenumberedAll(rows, s, items);
      RenumberKeepsOrdered(s);
    }
  }

  /** The walk-through: on an empty table, create ("Bolt", "Acme", 5), then
      ("Bolt", "Acme", 3), then ("Nut", "Acme", 2), then delete key 1. */
  lemma Walkthrough()
    ensures var t1 := CreateOrMerge([], "Bolt", "Acme", 5);
      t1.table == [Item(1, "Bolt", "Acme", 5)] &&
      var t2 := CreateOrMerge(t1.table, "Bolt", "Acme", 3);
      t2.table == [Item(1, "Bolt", "Acme", 8)] &&
      var t3 := CreateOrMerge(t2.table, "Nut", "Acme", 2);
      t3.table == [Item(1, "Bolt", "Acme", 8), Item(2, "Nut", "Acme", 2)] &&
      var d := DeleteMany(t3.table, [1]);
      d.count == 1 && Renumber(d.survivors) == [Item(1, "Nut", "Acme", 2)]
  {
    var t1 := [Item(1, "Bolt", "Acme", 5)];
    assert CreateOrMerge([], "Bolt", "Acme", 5).table == t1 by {
      assert FindFirstByPair([], "Bolt", "Acme") == None;
    }
    var t2 := [Item(1, "Bolt", "Acme", 8)];
    assert CreateOrMerge(t1, "Bolt", "Acme", 3).table == t2 by {
      assert FindFirstByPair(t1, "Bolt", "Acme") == Some(0);
    }
    var t3 := [Item(1, "Bolt", "Acme", 8), Item(2, "Nut", "Acme", 2)];
    assert CreateOrMerge(t2, "Nut", "Acme", 2).table == t3 by {
      assert !HasPair(t2[0], "Nut", "Acme");
      assert FindFirstByPair(t2, "Nut", "Acme") == None;
      assert NextId(t2) == 2;
    }
    WalkthroughDelete(t3);
  }

  lemma WalkthroughDelete(t3: seq<Item>)
    requires t3 == [Item(1, "Bolt", "Acme", 8), Item(2, "Nut", "Acme", 2)]
    ensures var d := DeleteMany(t3, [1]);
      d.count == 1 && Renumber(d.survivors) == [Item(1, "Nut", "Acme", 2)]
  {
    var nut := Item(2, "Nut", "Acme", 2);
    var d := DeleteMany(t3, [1]);
    assert Filter(t3[1..], Unlisted([1])) == [nut] by {
      assert t3[1..] == [nut];
      assert t3[1..][1..] == [];
    }
    assert d.survivors == [nut];
    RenumberFollowsKeyOrder(d.survivors, 0);
  }
}
