# Inventory repository and service, in Dafny

This project models the core of a console inventory tracker. The tracker keeps
items (id, name, quantity, price) in the relational table `inventory`, whose
`id` column is the primary key. The model covers four parts:

- **`AutoGenerator`** (`auto_generator.dfy`): the id generator. It makes four
  draws in `[0, 10)` and spells them as four decimal digits. The random source
  is a parameter: the draws come in as a sequence.
- **`Model`** (`inventory_item.dfy`): the immutable item record. Its public
  constructor takes the id from the generator.
- **`Repository`** (`repo.dfy`): the repository `Repo`. The table is a
  `map<string, Item>` held in a field. The methods change it the way the
  INSERT and DELETE statements change the table. Beside the class are:
  - functions that give each operation's effect on a table value (`Add`,
    `AddAll`, `Found`, `List`, `Remove`);
  - lemmas about those functions: round trips, inverses, the primary-key
    invariant, the order of listings and how batches behave.
- **`Service`** (`management.dfy`): the `Management` class. It holds a `Repo`,
  checks each argument, and then passes the call on to the repository.

`Exceptions` (`exceptions.dfy`) turns each exception into a variant of one
`Error` datatype: `NoItemPresent`, `EmptyItemName`, `ItemAlreadyExists` and
`StoreError`. `StoreError` stands for any `SQLException` other than a key
violation. `Text` (`text.dfy`) holds the string semantics the repository
relies on:

- Java's `String.isBlank`, with the whitespace set of `Character.isWhitespace`;
- the case-insensitive name comparison the database applies;
- the code-point order that `ORDER BY id` uses, with proofs that it is a
  strict total order, that every non-empty set of ids has a least element, and
  that an ascending sequence is determined by its elements.

Choices the code leaves open, and places where the code and its comments
disagree:

- **Connectivity.** `Repo.online` says whether the database can be reached.
  When it cannot, every operation that gets past its argument checks raises
  `StoreError`. The argument checks always run first.
- **Batches are all or nothing.** `addListOfItems` queues one INSERT per item
  and then executes the batch. The code does not say whether rows before a
  clash stay inserted. The model picks all or nothing: if any id is already
  stored, or appears twice in the list, the call raises `ItemAlreadyExists`
  and inserts nothing. Otherwise it inserts every item and returns `true`.
- **Prices the table cannot hold.** The `price` column is `DOUBLE NOT NULL`
  (src/dbConnection/DBConnection.java:33). A MySQL `DOUBLE` has no NaN and no
  infinities, and the JDBC driver refuses them when `setDouble` binds them
  (src/repository/Repo.java:61, :92). That refusal is an ordinary
  `SQLException`, not the key violation the code catches, so it surfaces as
  `StoreError`. It comes after the connection is opened and before the
  statement runs. `addItem` therefore raises `StoreError` for such a price
  even when the id is already stored. A batch stops at the first such item
  and inserts nothing. `Model.Finite` says which prices the column holds: not
  NaN, not an infinity.
- **Lookup by name.** `getItem` returns some stored row whose name matches the
  query up to case. The query has no ORDER BY, so the model does not fix which
  matching row it returns.
- **Removal from an empty table.** `removeItemById` returns `false` and raises
  nothing. This follows the code. The method's doc comment
  (src/repository/Repo.java:184) says it raises `NoItemPresent`.
- **Rebuilding a row.** `getItem` and `getItems` rebuild each row with a
  four-argument `InventoryItem(id, name, quantity, price)` constructor.
  src/model/InventoryItem.java declares no such constructor. The model uses
  the datatype constructor `Item(id, name, quantity, price)`, which keeps the
  stored id. That is evidently what the code means.
- **The service's empty-list check is redundant.** `Management.getItems`
  raises `NoItemPresent` when the repository returns an empty list. Over this
  repository that never happens, because `Repo.getItems` already raises on an
  empty table. `Service.Management.GetItems` keeps the check and proves that
  the result is still exactly the repository's.

## Model

| member | source | states |
|---|---|---|
| `AutoGenerator.Spell` | src/util/AutoGenerator.java:15-18 | the id built from the draws has one character per draw, and character i is the digit that draw i selects from `"0123456789"` |
| `AutoGenerator.CharacterAt` | src/util/AutoGenerator.java:9 | the alphabet is the ten decimal digits in order, so draw r selects the digit of value r |
| `AutoGenerator.SpellIsDigits` | src/util/AutoGenerator.java:9-17 | every character of a generated id is one of `'0'..'9'` |
| `AutoGenerator.SpellInjective` | src/util/AutoGenerator.java:7-20 | the id depends only on the draws, and equal ids come exactly from equal draws; no existing id is consulted, so uniqueness is left to the table |
| `AutoGenerator.IdGenerator` | src/util/AutoGenerator.java:7-20 | the loop appends one digit per draw; the result is the spelled draws, exactly 4 characters long and all decimal digits |
| `Model.NewItem` | src/model/InventoryItem.java:28-58 | the constructor takes its id from the generator, so the id is 4 decimal digits; the name, quantity and price getters return the arguments unchanged; no argument is validated |
| `Text.SameNameEquivalence` | src/repository/Repo.java:111 | case-insensitive name matching is reflexive, symmetric and transitive |
| `Text.IsBlank` | src/repository/Repo.java:119 | Java's `isBlank`: a string is blank exactly when stripping its leading and trailing whitespace (as `Character.isWhitespace` defines it) leaves the empty string |
| `Text.StripEmptyIffWhitespace` | src/repository/Repo.java:188 | stripping leaves nothing exactly when every character is whitespace, so the empty string and all-whitespace ids are both blank |
| `Text.BelowTotal` | src/repository/Repo.java:152 | any two different ids are ordered one way or the other by `ORDER BY id` |
| `Text.BelowTransitive` | src/repository/Repo.java:152 | the id order is transitive |
| `Text.BelowIrreflexive` | src/repository/Repo.java:152 | no id comes before itself |
| `Text.LeastExists` | src/repository/Repo.java:152-159 | a non-empty table has a smallest id, which is the next row an ordered result set delivers |
| `Text.AscendingUnique` | src/repository/Repo.java:152 | two strictly ascending id lists with the same elements are equal, so an ordered listing is fully determined by the table |
| `Repository.Add` | src/repository/Repo.java:48-68 | addItem: a missing item raises NoItemPresent; offline raises StoreError; a NaN or infinite price raises StoreError; otherwise the insert succeeds with true exactly when the id is not yet stored, and raises ItemAlreadyExists when it is; a rejected insert leaves the table as it was; a successful one adds exactly the new row, keeps every old row, and keeps every row under its own id |
| `Repository.Repo.AddItem` | src/repository/Repo.java:48-68 | null item raises NoItemPresent before the store is used; offline raises StoreError; a price the column cannot hold raises StoreError as it is bound; a stored id raises ItemAlreadyExists with the table unchanged; otherwise the row is inserted and true returned |
| `Repository.Rows` | src/repository/Repo.java:88-94 | the rows a batch queues: each item is stored under its own id |
| `Repository.RowFromBatch` | src/repository/Repo.java:88-94 | every queued row is one of the list's items |
| `Repository.RowsAt` | src/repository/Repo.java:88-94 | in a batch without repeated ids, each item is the row queued under its id |
| `Repository.RowsCount` | src/repository/Repo.java:88-94 | a batch without repeated ids queues one row per item |
| `Repository.BatchStep` | src/repository/Repo.java:88-94 | queueing one more item adds its row, and the batch stays acceptable exactly when that id is neither stored nor already queued |
| `Repository.AddAll` | src/repository/Repo.java:78-108 | addListOfItems: a missing or empty list raises NoItemPresent; offline raises StoreError; any NaN or infinite price raises StoreError; otherwise the batch succeeds with true exactly when its ids are all fresh and pairwise distinct, and raises ItemAlreadyExists when they are not; a failed batch leaves the table unchanged, a successful one adds exactly the batch's rows; the primary-key invariant is kept |
| `Repository.AddAllStoresEach` | src/repository/Repo.java:88-103 | after a successful batch every item of the list is stored under its id, every old row is kept, nothing else is added, and the table has grown by the list's length |
| `Repository.AddAllSingle` | src/repository/Repo.java:53-63 | a batch of one item has exactly the outcome of adding that item alone |
| `Repository.Repo.AddListOfItems` | src/repository/Repo.java:78-108 | null or empty list raises NoItemPresent; offline raises StoreError; the loop stops with StoreError at the first price the column cannot hold, and otherwise checks each queued id against the table and the earlier queued ids; any clash raises ItemAlreadyExists and inserts nothing; otherwise every item is inserted and true returned |
| `Repository.AddThenMatches` | src/repository/Repo.java:123-128 | after a successful insert, the set of rows a name query selects grows by exactly the new id when its name matches the query up to case, and is unchanged otherwise |
| `Repository.Found` | src/repository/Repo.java:118-142 | getItem: a returned item is one of the stored rows, and only for a non-blank name while the store is reachable; the only errors are EmptyItemName, StoreError and NoItemPresent, never ItemAlreadyExists |
| `Repository.FoundTotal` | src/repository/Repo.java:118-142 | every lookup has an outcome: over a keyed table, any name either yields a stored row or raises one of the errors |
| `Repository.FoundFailureDetermined` | src/repository/Repo.java:118-142 | whether a lookup fails, and with which error, is fixed by the table, the connection and the name; only the choice among several matching rows is left open |
| `Repository.AddThenFind` | src/repository/Repo.java:53-63 | round trip: an item just added is returned, with the same id, name, quantity and price, by a lookup of its name in any case, when no other row has that name |
| `Repository.Repo.GetItem` | src/repository/Repo.java:118-143 | blank name raises EmptyItemName; offline raises StoreError; no matching row raises NoItemPresent; otherwise some stored row whose name matches up to case; the table is not modified |
| `Repository.SortedIds` | src/repository/Repo.java:152 | the table's ids in strictly ascending order, each exactly once |
| `Repository.Listing` | src/repository/Repo.java:152-165 | the ordered listing has one entry per row |
| `Repository.List` | src/repository/Repo.java:151-175 | getItems: offline raises StoreError; online, an empty table raises NoItemPresent and any other table gives its ordered listing; a successful listing is never empty and has one entry per stored row |
| `Repository.ListingIsOrderedTable` | src/repository/Repo.java:152-165 | the listing holds every stored row exactly once, in strictly ascending order of id |
| `Repository.ListingUnique` | src/repository/Repo.java:152-165 | any list of the table's rows that is strictly ascending by id is the listing |
| `Repository.ListAfterBatch` | src/repository/Repo.java:78-108 | listing after a storable batch into an empty table returns that batch, sorted by id |
| `Repository.AddTwoThenList` | src/repository/Repo.java:48-68 | any two items with different ids and storable prices, added one after the other to an empty table, both succeed and are both listed in id order, whichever was added first; the second does not overwrite the first |
| `Repository.Repo.GetItems` | src/repository/Repo.java:151-175 | the loop reads rows in ascending id order; the result is the ordered listing of the whole table, or NoItemPresent when the table is empty, or StoreError when offline; the table is not modified |
| `Repository.Remove` | src/repository/Repo.java:187-201 | removeItemById: a blank id raises EmptyItemName; offline raises StoreError; otherwise it always succeeds, with true exactly when the id was stored; afterwards the stored ids are the old ones minus that id and every other row is unchanged; an error leaves the table unchanged |
| `Repository.RemoveFromEmpty` | src/repository/Repo.java:192-199 | deleting from an empty table is not an error: it returns false and the table stays empty |
| `Repository.NumericIdNotBlank` | src/model/InventoryItem.java:29 | a generated id is never blank, so removal by a generated id always reaches the table |
| `Repository.AddThenRemove` | src/repository/Repo.java:192-199 | removing an item just added returns true and restores the table exactly: removal undoes insertion |
| `Repository.AddFindRemoveScenario` | src/repository/Repo.java:118-143 | starting from an empty table, adding "test" with a storable price returns true; looking up "TEST" finds the same item; removing its id returns true; listing then raises NoItemPresent |
| `Repository.Repo.RemoveItemById` | src/repository/Repo.java:187-201 | blank id raises EmptyItemName; offline raises StoreError; otherwise deletes the row and returns whether it existed, with no error on an empty table |
| `Repository.Repo.constructor` | src/dbConnection/DBConnection.java:30 | a repository opens over an existing table in which every row is stored under its own id (the primary key) |
| `Service.Management.constructor` | src/service/Management.java:23-25 | the service wraps the repository it is given |
| `Service.Management.AddItem` | src/service/Management.java:34-40 | a null item raises NoItemPresent without touching the repository; otherwise the result, including any error, and the new table are exactly the repository's addItem |
| `Service.Management.AddList` | src/service/Management.java:49-55 | a null or empty list raises NoItemPresent without touching the repository; otherwise the result and the new table are exactly the repository's batch add |
| `Service.Management.GetItem` | src/service/Management.java:64-70 | a blank name raises EmptyItemName before the repository is consulted; otherwise the result is the repository's lookup |
| `Service.Management.GetItems` | src/service/Management.java:77-85 | returns the repository's list unchanged, and never an empty list; an empty table raises NoItemPresent |
| `Service.Management.RemoveItem` | src/service/Management.java:94-100 | a blank id raises EmptyItemName without touching the repository; otherwise the result, including any error, and the new table are exactly the repository's removal |

## Left out

- JDBC mechanics: connections, prepared statements, result sets and
  try-with-resources. The table is a map, and every `SQLException` other than a
  key violation is the single `StoreError`. Connectivity is fixed for each
  repository (`Repo.online`); it cannot change between calls.
- The real `Repo` constructor and `DBConnection` (credentials, the global
  `config` flag, `CREATE TABLE`). `Repository.Repo.constructor` instead takes
  the rows the table already holds. It keeps only the primary-key invariant.
- Column limits. `VARCHAR(100)` would reject longer names and ids, and `NOT
  NULL` rejects null fields. Neither is modelled.
- The database collation. Names are compared up to ASCII letter case only:
  accent-insensitive matching and case folding outside ASCII are not modelled.
  Ids are compared exactly, both for the primary key and for `DELETE ... WHERE
  id`. The listing order is plain code-point order, which is the collation's
  order for the digit ids the generator makes.
- Repository.Repo.GetItem: returns some matching row, not a specific one,
  because the query has no ORDER BY and the database fixes no order.
- Repository.Repo.AddListOfItems: never returns `false`. The code returns
  `false` when the driver reports a row as `EXECUTE_FAILED`, and the model has
  no driver failures. Driver batch behaviour is not modelled either: continuing
  past a failed row, or raising `BatchUpdateException` instead of a key
  violation.
- Null strings and null list elements. In Java these raise
  `NullPointerException` at `isBlank` or `getId`. Strings here are never null.
- The random source. `SecureRandom` becomes the draw sequence passed to
  `AutoGenerator.IdGenerator`.
- Floating point. The price is carried as the 64 bits of the `double` and is
  never computed with. The only property of it the model uses is whether the
  column can hold it (`Model.Finite`). A finite price is assumed
  to be stored and read back bit for bit. `toString` formatting is not
  modelled.
- The JSON file-backed repository (load, save, `DataCorruptionException`).
  Its implementation is not part of this model.
- The interfaces `IRepo`, `IManagement` and `IInventoryItem`. They hold no
  logic. `Management` is modelled over `Repo` itself, not over any `IRepo`,
  such as a test double.
- The console (`Start`, `UserPrompts`) and `Main`.
