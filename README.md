# Inventory resolvers, modelled in Dafny

This project models the business logic of a small inventory service. It is a
GraphQL API over one table of items `{ id, name, manufacturer, amount }`, and
its three resolvers are:

- **`items(limit, offset, search)`** lists rows. A non-empty `search` keeps a row
  when its `name` OR its `manufacturer` contains the search string, ignoring
  case. The list then skips `offset` rows and takes at most `limit`.
- **`createItem(name, manufacturer, amount)`** is create-or-merge. If a row has
  exactly this `(name, manufacturer)` pair, `amount` is added to that row's
  amount. Otherwise a new row is appended. Its key is the largest key plus one,
  or 1 for an empty table.
- **`deleteItems(ids)`** deletes every row whose key is listed. It then reloads
  the survivors in ascending key order and rewrites each key to the row's
  1-based position. It returns how many rows were deleted.

The data store is an in-memory sequence of rows. The sequence order is the
store's default order. Each store call the resolvers make is modelled on that
sequence:

- `findFirst` with a `where` clause (index.js:50-55) is `Table.FindFirstByPair`.
- `findFirst` ordered by descending key (index.js:69-71) is
  `Table.FindLastById`.
- `findMany({ where, take, skip })` (index.js:40-44) is `Resolvers.Items`,
  which slices `Resolvers.Where`, which filters with `Table.Filter`.
- `update` of an amount (index.js:58-67) is the row replacement
  `t[k := merged]` inside `Resolvers.CreateOrMerge`.
- `create` (index.js:73-80) is the append `t + [added]` inside
  `Resolvers.CreateOrMerge`.
- `deleteMany` (index.js:84-88) is `Table.DeleteMany`.
- `findMany` ordered by ascending key (index.js:90-92) is `Table.SortById`.
- `update` of a key (index.js:97-100) is `Table.UpdateId`.

Module `Text` holds the case-insensitive `contains` test. Module `Resolvers`
holds the three resolvers:

- `Items` is a function.
- `createItem` and `deleteItems` are the methods of class `Store`, whose field
  `rows` is the table. `DeleteItems` runs the renumbering as a loop of key
  updates.
- `CreateOrMerge`, `DeleteMany` and `Renumber` are the functions that specify
  those methods, and the lemmas are about them.

The table invariant `WellFormed` says three things: keys are distinct, keys are
at least 1, and each `(name, manufacturer)` pair has at most one row. The
store's invariant `Store.Valid` adds that rows are held in ascending key
order. Both mutations keep both.

## Model

| member | source | states |
|---|---|---|
| `Text.ContainsIffOccurs` | index.js:34-35 | the substring test holds exactly when the search string occurs at some position of the field |
| `Text.ContainsInsensitiveIff` | index.js:34-35 | the case-insensitive test holds exactly when the lower-cased search string occurs in the lower-cased field, so the case of either side does not matter |
| `Text.EmptyOccursEverywhere` | index.js:31-38 | an empty search string would match every row, consistent with the empty filter built for a falsy search |
| `Text.UpperCaseSearchMatches` | index.js:34-35 | the search "ACME" matches the manufacturer "Acme Corp" |
| `Table.Filter` | index.js:40-44 | the rows a `where` clause selects are exactly the table rows satisfying it, and there are no more of them than rows |
| `Table.FilterAppend` | index.js:40-44 | filtering keeps table order: filtering two consecutive parts and joining them equals filtering the whole |
| `Table.FilterWellFormed` | index.js:84-88 | deleting rows keeps keys distinct and positive and pairs unique |
| `Table.FilterAscending` | index.js:84-88 | deleting rows from a table in ascending key order leaves it in ascending key order |
| `Table.FindFirstByPair` | index.js:50-55 | returns the first position whose row has exactly this name and manufacturer, or nothing exactly when no row has the pair |
| `Table.FindLastById` | index.js:69-71 | returns a row of the table whose key is at least every key, or nothing exactly when the table is empty |
| `Table.SortById` | index.js:90-92 | the reloaded survivors are a permutation of the table in ascending key order |
| `Table.SortByIdStrict` | index.js:90-92 | with distinct keys the reloaded order is strictly ascending |
| `Table.SortByIdOfAscending` | index.js:90-92 | reloading a table that is already in key order gives the same rows in the same order |
| `Table.UpdateId` | index.js:97-100 | a key update changes only the key of the row holding the old key, keeps every other field, and keeps keys distinct; the store requires the row to exist and the new key to be free |
| `Table.DeleteMany` | index.js:84-88 | the survivors are exactly the rows whose key is not listed, and the count plus the survivors is the table size |
| `Table.DeleteCount` | index.js:84-88 | the returned count equals the number of distinct listed keys present in the table; absent or repeated ids add nothing |
| `Resolvers.Where` | index.js:31-38 | a falsy search (absent or empty) selects every row; otherwise a row is selected exactly when its name or its manufacturer contains the search case-insensitively |
| `Resolvers.Items` | index.js:40-44 | the result is the contiguous run of the filtered rows starting at `offset`, has at most `limit` rows, is empty when `offset` reaches the filtered count, and stops early only at `limit` |
| `Resolvers.ItemsWithoutSearch` | index.js:31-44 | with no search, no offset and no limit, every row is listed in table order |
| `Resolvers.ItemsWithSearch` | index.js:31-44 | with a non-empty search, a row is listed exactly when it is in the table and matches name OR manufacturer |
| `Resolvers.WhereKeepsOrder` | index.js:40-44 | the listed rows keep their relative table order |
| `Resolvers.ItemsInKeyOrder` | index.js:40-44 | on a table in key order, as the store keeps it, the listed rows come in strictly ascending key order for every limit, offset and search |
| `Resolvers.NextId` | index.js:69-72 | the new key is 1 for an empty table; otherwise it is one more than some existing key and exceeds every existing key |
| `Resolvers.CreateOrMerge` | index.js:49-82 | when the pair exists, only its first row changes: its key and pair are kept, its amount grows by `amount`, and the size is unchanged; otherwise exactly one row `{NextId, name, manufacturer, amount}` is appended and the old rows are kept |
| `Resolvers.MergeAddsAmount` | index.js:57-67 | with unique pairs, merging into the row at k adds exactly `amount` to it and leaves every other row and the table size unchanged |
| `Resolvers.FreshIdUnused` | index.js:69-80 | the appended row's key is held by no existing row, and the existing rows stay in front unchanged |
| `Resolvers.CreateKeepsUniquePairs` | index.js:50-81 | create-or-merge never makes a second row for a pair |
| `Resolvers.CreateKeepsWellFormed` | index.js:49-82 | create-or-merge keeps keys distinct and positive and pairs unique |
| `Resolvers.CreateKeepsAscending` | index.js:49-82 | create-or-merge keeps a table in ascending key order: a merge keeps every key and a new row's key exceeds all others |
| `Resolvers.CreateAddsToAmount` | index.js:50-81 | after one call the pair has a row, its amount has grown by `amount` from its previous amount (0 if absent), and rows of other pairs are untouched |
| `Resolvers.RepeatedCreate` | index.js:50-81 | n calls with the same pair and amounts a1..an leave exactly one row for the pair; its amount is the starting amount (0 if absent) plus a1+...+an, and rows of other pairs keep their place and contents |
| `Resolvers.RankOf` | index.js:96-100 | finds the first position in the reloaded list that holds the given key |
| `Resolvers.RenumberBy` | index.js:95-102 | each row's key becomes its position in the reloaded list plus one; name, manufacturer and amount are kept |
| `Resolvers.Renumber` | index.js:90-102 | renumbering keeps the number of rows and every row's name, manufacturer and amount |
| `Resolvers.RenumberFollowsKeyOrder` | index.js:90-102 | the n-th survivor in ascending original key order gets key n + 1, with its other fields unchanged |
| `Resolvers.RenumberContiguous` | index.js:90-102 | after renumbering the keys are exactly 1..N and pairwise distinct |
| `Resolvers.RenumberKeepsOrder` | index.js:90-102 | renumbering preserves the relative order of the survivors' keys in both directions |
| `Resolvers.RenumberWellFormed` | index.js:83-104 | the renumbered table keeps distinct positive keys and unique pairs |
| `Resolvers.RenumberAscending` | index.js:90-102 | on a table in key order, renumbering gives the row at position j the key j + 1, so the table stays in key order |
| `Resolvers.DeleteKeepsOrdered` | index.js:84-88 | the rows left by a delete are well-formed and still in ascending key order |
| `Resolvers.RenumberKeepsOrdered` | index.js:90-102 | renumbering keeps the table well-formed and in ascending key order |
| `Resolvers.RenumberStep` | index.js:96-100 | during sequential renumbering, the row to update exists and its new key is free, and after the update one more row carries its final key |
| `Resolvers.ApplyUpdates` | index.js:95-102 | running key updates one after another keeps the table size, or stops with a store error |
| `Resolvers.RenumberPlan` | index.js:96-100 | the update for the k-th reloaded row moves its key to k + 1 |
| `Resolvers.SequentialRenumber` | index.js:95-102 | the renumbering updates, applied one at a time in ascending key order, are all accepted and yield the renumbered table |
| `Resolvers.ConcurrentRenumberCanCollide` | index.js:95-102 | the same two renumbering updates applied in the other order collide on a key that is still taken |
| `Resolvers.Store.CreateItem` | index.js:49-82 | the new table and the returned row are those of create-or-merge on the old table, and the table invariant and key order are kept |
| `Resolvers.Store.DeleteItems` | index.js:83-104 | the count is the number of rows deleted, the new table is the survivors renumbered by ascending key, and the table invariant and key order are kept |
| `Resolvers.Walkthrough` | index.js:49-104 | from an empty table: create Bolt/Acme 5 gives key 1, Bolt/Acme 3 merges to amount 8, Nut/Acme 2 gets key 2, and deleting key 1 returns 1 and leaves Nut/Acme 2 at key 1 |

## Left out

- The GraphQL schema, the Apollo server, `listen` and the console message
  (index.js:1-26, 108-112) are framework wiring. The web client files under
  quasar-app/ are not part of this model.
- The Prisma client is replaced by a sequence of rows. Its default `findMany`
  order is taken to be table order. Store failures such as lost connections
  are not modelled. Two failures are modelled as the preconditions of
  `Table.UpdateId`: a missing row, and a key that is already taken.
- The key is taken to be the table's primary key, as the updates by `id`
  imply. The schema file is not part of this model. `Store` starts from an
  empty table, and both mutations require and keep `WellFormed`.
- The `Promise.all` in deleteItems is modelled as a sequential loop in
  ascending key order. Its possible collisions are shown under Findings.
  Races between requests are not modelled: read-max-then-insert in createItem
  and delete-then-renumber in deleteItems.
- Case-insensitive matching folds ASCII letters only. The store's Unicode case
  folding is not modelled.
- JavaScript's undefined arguments are not modelled. An undefined `name` or
  `manufacturer` would make the store drop that filter. An undefined `amount`
  would make the merged amount NaN. `name`, `manufacturer` and `amount` are
  taken as present.
- `limit` and `offset` are natural numbers or absent. Negative `take` and
  `skip` values are not modelled.
- Integers are unbounded. The 32-bit range of the GraphQL `Int` type is not
  modelled, so an amount or key beyond 2^31 - 1 is not an error here.
- Resolvers.Items: the query passes no `orderBy`, so the rows come in the
  store's default order, which the model takes to be table order. Every table
  a `Store` reaches is in ascending key order (`Store.Valid`), so the rows are
  listed by ascending key (`Resolvers.ItemsInKeyOrder`). A store whose default
  order is not insertion order is not modelled.

## Findings

| source | as written | input that shows it | evidently intended | confidence | as-written member | corrected member |
|---|---|---|---|---|---|---|
| index.js:95-102 | the renumbering updates are started together with `Promise.all`, so the store may apply them in any order | keys 1, 2, 3, then `deleteItems([1])`: the survivors get updates 2→1 and 3→2; if 3→2 is applied first, key 2 is still held by the other row and the update breaks key uniqueness | every survivor gets its position as key without a collision, which holds when the updates run one at a time in ascending key order | not executed; the collision needs the store to apply the second update before the first | `Resolvers.ConcurrentRenumberCanCollide` | `Resolvers.SequentialRenumber` |
