/** The repository over the `inventory` table. The table is a map from the
    `id` column to the stored row; `Repo` holds it in a field and its methods
    change it as the INSERT and DELETE statements change the table. The
    functions beside the class give each operation's effect on a table value,
    and the lemmas state what the repository promises about them. */
module Repository {
  import opened Exceptions
  import opened Model
  import opened Text
  import AutoGenerator

  /** The `inventory` table: rows keyed by their `id` column. */
  type Table = map<string, Item>

  /** PRIMARY KEY id: every row is stored under its own id. */
  predicate KeyedById(t: Table) {
    forall id :: id in t ==> t[id].id == id
  }

  /** What an operation returns, and the table it leaves behind. */
  datatype Outcome<T> = Outcome(result: Result<T>, after: Table)

  /** The ids of a list of items, in the list's order. */
  function IdsOf(items: seq<Item>): seq<string> {
    seq(|items|, i requires 0 <= i < |items| => items[i].id)
  }

  // ---------------------------------------------------------------- addItem

  /** `addItem`: a null item is refused before the database is consulted;
      a price the column cannot hold is refused as it is bound, before the
      statement runs; an id already in the table violates the primary key. */
  function Add(t: Table, online: bool, item: Option<Item>): (o: Outcome<bool>)
    ensures KeyedById(t) ==> KeyedById(o.after)
    ensures o.result.Failure? ==> o.after == t
    ensures item.None? ==> o.result == Failure(NoItemPresent)
    ensures item.Some? && !online ==> o.result == Failure(StoreError)
    ensures item.Some? && online && !Finite(item.value.price) ==> o.result == Failure(StoreError)
    ensures item.Some? && online ==>
      (o.result == Success(true) <==> Finite(item.value.price) && item.value.id !in t)
    ensures item.Some? && online && Finite(item.value.price) && item.value.id in t ==>
      o.result == Failure(ItemAlreadyExists)
    ensures o.result.Success? ==>
      && item.Some?
      && o.result.value
      && Finite(item.value.price)
      && o.after.Keys == t.Keys + {item.value.id}
      && o.after[item.value.id] == item.value
      && forall id :: id in t ==> o.after[id] == t[id]
  {
    if item.None? then Outcome(Failure(NoItemPresent), t)
    else if !online then Outcome(Failure(StoreError), t)
    else if !Finite(item.value.price) then Outcome(Failure(StoreError), t)
    else if item.value.id in t then Outcome(Failure(ItemAlreadyExists), t)
    else Outcome(Success(true), t[item.value.id := item.value])
  }

  // --------------------------------------------------------- addListOfItems

  /** The rows a batch inserts: each item under its id. */
  function Rows(items: seq<Item>): (m: Table)
    ensures KeyedById(m)
    ensures forall i :: 0 <= i < |items| ==> items[i].id in m
  {
    if items == [] then map[]
    else
      var last := items[|items| - 1];
      Rows(items[..|items| - 1])[last.id := last]
  }

  /** Every row a batch inserts is one of its items. */
  lemma {:induction false} RowFromBatch(items: seq<Item>, id: string)
    requires id in Rows(items)
    ensures Rows(items)[id] in items
  {
    var init := items[..|items| - 1];
    if id != items[|items| - 1].id {
      RowFromBatch(init, id);
      assert Rows(init)[id] in init;
    }
  }

  /** A batch the table accepts: no id already stored, no id twice. */
  predicate FreshBatch(t: Table, items: seq<Item>) {
    && (forall i :: 0 <= i < |items| ==> items[i].id !in t)
    && (forall i, j :: 0 <= i < j < |items| ==> items[i].id != items[j].id)
  }

  /** Every price of a batch can be bound to the `DOUBLE` column. */
  predicate FinitePrices(items: seq<Item>) {
    forall i :: 0 <= i < |items| ==> Finite(items[i].price)
  }

  /** `addListOfItems`, all or nothing: a null or empty list is refused;
      a price the column cannot hold is refused while the batch is queued,
      before anything runs; a batch with any clashing id inserts nothing;
      otherwise every item is inserted. */
  function AddAll(t: Table, online: bool, items: Option<seq<Item>>): (o: Outcome<bool>)
    ensures KeyedById(t) ==> KeyedById(o.after)
    ensures o.result.Failure? ==> o.after == t
    ensures o.result.Success? ==>
      o.result.value && items.Some? && FinitePrices(items.value) && FreshBatch(t, items.value)
    ensures items.None? || items.value == [] ==> o.result == Failure(NoItemPresent)
    ensures items.Some? && items.value != [] && !online ==> o.result == Failure(StoreError)
    ensures items.Some? && items.value != [] && online && !FinitePrices(items.value) ==>
      o.result == Failure(StoreError)
    ensures items.Some? && items.value != [] && online ==>
      (o.result == Success(true) <==> FinitePrices(items.value) && FreshBatch(t, items.value))
    ensures items.Some? && items.value != [] && online ==>
      FinitePrices(items.value) && !FreshBatch(t, items.value) ==>
      o.result == Failure(ItemAlreadyExists)
    ensures o.result.Success? ==> o.after == t + Rows(items.value)
  {
    if items.None? || items.value == [] then Outcome(Failure(NoItemPresent), t)
    else if !online then Outcome(Failure(StoreError), t)
    else if !FinitePrices(items.value) then Outcome(Failure(StoreError), t)
    else if !FreshBatch(t, items.value) then Outcome(Failure(ItemAlreadyExists), t)
    else Outcome(Success(true), t + Rows(items.value))
  }

  /** In a batch without repeated ids, each item is the row stored under its id. */
  lemma {:induction false} RowsAt(items: seq<Item>, i: nat)
    requires forall j, k :: 0 <= j < k < |items| ==> items[j].id != items[k].id
    requires i < |items|
    ensures Rows(items)[items[i].id] == items[i]
  {
    if i < |items| - 1 {
      RowsAt(items[..|items| - 1], i);
    }
  }

  /** A successful batch stores every item of the list, keeps every old row,
      and adds nothing else. */
  lemma AddAllStoresEach(t: Table, online: bool, items: seq<Item>)
    requires AddAll(t, online, Some(items)).result.Success?
    ensures var after := AddAll(t, online, Some(items)).after;
      && (forall i :: 0 <= i < |items| ==> items[i].id in after && after[items[i].id] == items[i])
      && (forall id :: id in t ==> id in after && after[id] == t[id])
      && (forall id :: id in after ==> id in t || id in IdsOf(items))
      && |after| == |t| + |items|
  {
    var after := AddAll(t, online, Some(items)).after;
    forall i | 0 <= i < |items|
      ensures items[i].id in after && after[items[i].id] == items[i]
    {
      RowsAt(items, i);
    }
    forall id | id in after ensures id in t || id in IdsOf(items) {
      if id !in t {
        RowFromBatch(items, id);
        var it := Rows(items)[id];
        var i :| 0 <= i < |items| && items[i] == it;
        assert IdsOf(items)[i] == id;
      }
    }
    RowsCount(items);
    forall id | id in Rows(items) ensures id !in t {
      RowFromBatch(items, id);
    }
    assert t.Keys !! Rows(items).Keys;
    assert after.Keys == t.Keys + Rows(items).Keys;
  }

  /** A batch without repeated ids has one row per item. */
  lemma {:induction false} RowsCount(items: seq<Item>)
    requires forall j, k :: 0 <= j < k < |items| ==> items[j].id != items[k].id
    ensures |Rows(items)| == |items|
  {
    if items != [] {
      var init := items[..|items| - 1];
      RowsCount(init);
      var last := items[|items| - 1];
      if last.id in Rows(init) {
        RowFromBatch(init, last.id);
        assert false;
      }
    }
  }

  /** Queuing one more row: the batch gains that row, and stays acceptable
      exactly when the row's id is neither stored nor already queued. */
  lemma BatchStep(t: Table, list: seq<Item>, i: nat)
    requires i < |list|
    ensures Rows(list[..i + 1]) == Rows(list[..i])[list[i].id := list[i]]
    ensures FreshBatch(t, list[..i + 1]) <==>
      FreshBatch(t, list[..i]) && list[i].id !in t && list[i].id !in Rows(list[..i])
  {
    var s := list[..i + 1];
    var p := list[..i];
    var x := list[i];
    assert s[..i] == p && s[i] == x;
    if FreshBatch(t, s) && x.id in Rows(p) {
      RowFromBatch(p, x.id);
      assert false;
    }
    if FreshBatch(t, p) && x.id !in t && x.id !in Rows(p) {
      forall j, k | 0 <= j < k < |s| ensures s[j].id != s[k].id {
        if k == i {
          assert p[j].id in Rows(p);
        } else {
          assert s[j] == p[j] && s[k] == p[k];
        }
      }
      forall k | 0 <= k < |s| ensures s[k].id !in t {
        if k < i { assert s[k] == p[k]; }
      }
    }
  }

  /** A batch of one behaves exactly as adding that single item. */
  lemma AddAllSingle(t: Table, online: bool, item: Item)
    ensures AddAll(t, online, Some([item])) == Add(t, online, Some(item))
  {
    assert Rows([item]) == map[item.id := item];
    assert t + map[item.id := item] == t[item.id := item];
  }

  // ---------------------------------------------------------------- getItem

  /** The ids whose row has the given name, up to case. */
  function Matches(t: Table, name: string): set<string> {
    set id | id in t && SameName(t[id].name, name)
  }

  /** Adding an item changes what a name query selects by exactly that
      item's id, and only when its name matches the query. */
  lemma AddThenMatches(t: Table, online: bool, item: Item, name: string)
    requires Add(t, online, Some(item)).result.Success?
    ensures Matches(Add(t, online, Some(item)).after, name) ==
      Matches(t, name) + (if SameName(item.name, name) then {item.id} else {})
  {
    var after := Add(t, online, Some(item)).after;
    var grown := Matches(t, name) + (if SameName(item.name, name) then {item.id} else {});
    forall id ensures id in Matches(after, name) <==> id in grown {
      if id in t { assert after[id] == t[id]; }
    }
  }

  /** The results `getItem(name)` may return: a blank name is refused before
      the database is consulted, a name no row has raises NoItemPresent, and
      otherwise some stored row whose name matches is returned. Which one is
      not fixed, since the query has no ORDER BY. */
  predicate Found(t: Table, online: bool, name: string, r: Result<Item>)
    ensures Found(t, online, name, r) && r.Success? ==> r.value in t.Values && !IsBlank(name) && online
    ensures Found(t, online, name, r) && r.Failure? ==> r.error != ItemAlreadyExists
  {
    if IsBlank(name) then r == Failure(EmptyItemName)
    else if !online then r == Failure(StoreError)
    else if Matches(t, name) == {} then r == Failure(NoItemPresent)
    else r.Success? && r.value.id in t && t[r.value.id] == r.value && SameName(r.value.name, name)
  }

  /** Every query has an outcome: `getItem` always returns or raises. */
  lemma FoundTotal(t: Table, online: bool, name: string)
    requires KeyedById(t)
    ensures exists r :: Found(t, online, name, r)
  {
    if !IsBlank(name) && online && Matches(t, name) != {} {
      var id :| id in Matches(t, name);
      assert Found(t, online, name, Success(t[id]));
    } else if IsBlank(name) {
      assert Found(t, online, name, Failure(EmptyItemName));
    } else if !online {
      assert Found(t, online, name, Failure(StoreError));
    } else {
      assert Found(t, online, name, Failure(NoItemPresent));
    }
  }

  /** Only the choice among matching rows is open: whether the lookup fails,
      and with which error, is fixed by the table and the query. */
  lemma FoundFailureDetermined(t: Table, online: bool, name: string, r1: Result<Item>, r2: Result<Item>)
    requires Found(t, online, name, r1) && Found(t, online, name, r2)
    ensures r1.Failure? <==> r2.Failure?
    ensures r1.Failure? ==> r1 == r2
  {
  }

  /** Round trip: an item just added is what a lookup by its name (in any
      case) returns, as long as no other row has that name. */
  lemma AddThenFind(t: Table, item: Item, query: string, r: Result<Item>)
    requires KeyedById(t)
    requires Add(t, true, Some(item)).result == Success(true)
    requires !IsBlank(query) && SameName(item.name, query)
    requires forall id :: id in t ==> !SameName(t[id].name, query)
    requires Found(Add(t, true, Some(item)).after, true, query, r)
    ensures r == Success(item)
  {
    var after := Add(t, true, Some(item)).after;
    assert item.id in Matches(after, query);
    assert r.value.id !in t;
  }

  // --------------------------------------------------------------- getItems

  /** The ids of a set in ascending order. */
  ghost function SortedIds(ids: set<string>): (s: seq<string>)
    ensures Ascending(s)
    ensures forall x :: x in s <==> x in ids
    ensures |s| == |ids|
    decreases |ids|
  {
    if ids == {} then []
    else
      LeastExists(ids);
      var m :| IsLeast(m, ids);
      var rest := SortedIds(ids - {m});
      assert forall j :: 0 <= j < |rest| ==> rest[j] in ids - {m};
      [m] + rest
  }

  /** The rows of a table ordered by id: `SELECT * FROM inventory ORDER BY id`. */
  ghost function Listing(t: Table): (r: seq<Item>)
    ensures |r| == |t|
  {
    var ids := SortedIds(t.Keys);
    seq(|ids|, i requires 0 <= i < |ids| => t[ids[i]])
  }

  /** `getItems`: every stored row, ordered by id; an empty table raises
      NoItemPresent instead of returning an empty list. */
  ghost function List(t: Table, online: bool): (r: Result<seq<Item>>)
    ensures r.Success? ==> |r.value| == |t| > 0
    ensures !online ==> r == Failure(StoreError)
    ensures online && |t| == 0 ==> r == Failure(NoItemPresent)
    ensures online && |t| > 0 ==> r == Success(Listing(t))
  {
    if !online then Failure(StoreError)
    else if |t| == 0 then Failure(NoItemPresent)
    else Success(Listing(t))
  }

  /** The listing holds every stored row exactly once, in strictly ascending
      order of id. */
  lemma ListingIsOrderedTable(t: Table)
    requires KeyedById(t)
    ensures Ascending(IdsOf(Listing(t)))
    ensures forall it :: it in Listing(t) <==> it.id in t && t[it.id] == it
  {
    var ids := SortedIds(t.Keys);
    var rows := Listing(t);
    assert |rows| == |ids|;
    forall i | 0 <= i < |ids| ensures IdsOf(rows)[i] == ids[i] {
      assert rows[i] == t[ids[i]];
    }
    assert IdsOf(rows) == ids;
    forall it: Item | it.id in t && t[it.id] == it ensures it in Listing(t) {
      var i :| 0 <= i < |ids| && ids[i] == it.id;
      assert Listing(t)[i] == it;
    }
  }

  /** The listing is the only list of the table's rows ordered by id: any
      such list equals it. */
  lemma ListingUnique(t: Table, r: seq<Item>)
    requires KeyedById(t)
    requires Ascending(IdsOf(r))
    requires forall it :: it in r <==> it.id in t && t[it.id] == it
    ensures r == Listing(t)
  {
    var ids := SortedIds(t.Keys);
    forall x ensures x in IdsOf(r) <==> x in ids {
      if x in IdsOf(r) {
        var i :| 0 <= i < |r| && IdsOf(r)[i] == x;
        assert r[i] in r;
      }
      if x in ids {
        assert t[x] in r;
        var i :| 0 <= i < |r| && r[i] == t[x];
        assert IdsOf(r)[i] == x;
      }
    }
    AscendingUnique(IdsOf(r), ids);
    forall i | 0 <= i < |r| ensures r[i] == Listing(t)[i] {
      assert r[i] in r;
    }
  }

  /** Listing after a batch into an empty table gives back the batch, sorted
      by id. */
  lemma ListAfterBatch(items: seq<Item>, sorted: seq<Item>)
    requires items != [] && FinitePrices(items) && FreshBatch(map[], items)
    requires multiset(sorted) == multiset(items) && Ascending(IdsOf(sorted))
    ensures List(AddAll(map[], true, Some(items)).after, true) == Success(sorted)
  {
    var after := AddAll(map[], true, Some(items)).after;
    AddAllStoresEach(map[], true, items);
    forall it: Item ensures it in sorted <==> it.id in after && after[it.id] == it {
      assert it in sorted <==> it in multiset(sorted);
      assert it in items <==> it in multiset(items);
      if it in items {
        var i :| 0 <= i < |items| && items[i] == it;
      }
    }
    ListingUnique(after, sorted);
  }

  /** Two items with different ids added one after the other into an empty
      table are both listed, in order of id: the second does not overwrite
      the first. */
  lemma AddTwoThenList(a: Item, b: Item)
    requires a.id != b.id && Finite(a.price) && Finite(b.price)
    ensures var first := Add(map[], true, Some(a));
      var second := Add(first.after, true, Some(b));
      && first.result == Success(true)
      && second.result == Success(true)
      && List(second.after, true) == Success(if Below(a.id, b.id) then [a, b] else [b, a])
  {
    BelowIrreflexive(a.id);
    BelowTotal(a.id, b.id);
    var after := map[a.id := a][b.id := b];
    if Below(a.id, b.id) {
      assert IdsOf([a, b]) == [a.id, b.id];
      forall it: Item ensures it in [a, b] <==> it.id in after && after[it.id] == it {
      }
      ListingUnique(after, [a, b]);
    } else {
      assert IdsOf([b, a]) == [b.id, a.id];
      forall it: Item ensures it in [b, a] <==> it.id in after && after[it.id] == it {
      }
      ListingUnique(after, [b, a]);
    }
  }

  // ---------------------------------------------------------- removeItemById

  /** `removeItemById`: a blank id is refused; otherwise the row with that id
      is deleted and the result says whether there was one. An empty table is
      not an error here. */
  function Remove(t: Table, online: bool, id: string): (o: Outcome<bool>)
    ensures KeyedById(t) ==> KeyedById(o.after)
    ensures o.result.Failure? ==> o.after == t
    ensures IsBlank(id) ==> o.result == Failure(EmptyItemName)
    ensures !IsBlank(id) && !online ==> o.result == Failure(StoreError)
    ensures !IsBlank(id) && online ==> o.result.Success?
    ensures o.result.Success? ==>
      && (o.result.value <==> id in t)
      && id !in o.after
      && o.after.Keys == t.Keys - {id}
      && forall k :: k in t && k != id ==> k in o.after && o.after[k] == t[k]
  {
    if IsBlank(id) then Outcome(Failure(EmptyItemName), t)
    else if !online then Outcome(Failure(StoreError), t)
    else Outcome(Success(id in t), t - {id})
  }

  /** Removing from an empty table is not an error: it reports that nothing
      was removed. */
  lemma RemoveFromEmpty(id: string)
    requires !IsBlank(id)
    ensures Remove(map[], true, id) == Outcome(Success(false), map[])
  {
  }

  /** A generated id is never blank. */
  lemma NumericIdNotBlank(id: string)
    requires AutoGenerator.IsNumericId(id)
    ensures !IsBlank(id)
  {
    assert !IsWhitespace(id[0]);
  }

  /** Removing an item just added restores the table: removal undoes insertion. */
  lemma AddThenRemove(t: Table, item: Item)
    requires Add(t, true, Some(item)).result.Success?
    requires !IsBlank(item.id)
    ensures Remove(Add(t, true, Some(item)).after, true, item.id) == Outcome(Success(true), t)
  {
    assert t[item.id := item] - {item.id} == t;
  }

  /** The life of one item through the repository, starting from an empty
      table: it is added, found by its name in another case, removed, and the
      table then lists as empty. */
  lemma AddFindRemoveScenario(item: Item, r: Result<Item>)
    requires item.name == "test" && AutoGenerator.IsNumericId(item.id) && Finite(item.price)
    requires Found(Add(map[], true, Some(item)).after, true, "TEST", r)
    ensures Add(map[], true, Some(item)).result == Success(true)
    ensures r == Success(item)
    ensures Remove(Add(map[], true, Some(item)).after, true, item.id) == Outcome(Success(true), map[])
    ensures List(Remove(Add(map[], true, Some(item)).after, true, item.id).after, true) == Failure(NoItemPresent)
  {
    assert !IsWhitespace("TEST"[0]);
    assert SameName("test", "TEST");
    AddThenFind(map[], item, "TEST", r);
    NumericIdNotBlank(item.id);
    AddThenRemove(map[], item);
  }

  // ------------------------------------------------------------------ Repo

  /** The repository. `online` says whether the database can be reached:
      when it cannot, every operation that gets past its argument checks
      raises StoreError. */
  class Repo {
    var table: Table
    const online: bool

    ghost predicate Valid()
      reads this
    {
      KeyedById(table)
    }

    /** A repository over the rows the database already holds. */
    constructor (rows: Table, online: bool)
      requires KeyedById(rows)
      ensures Valid() && table == rows && this.online == online
    {
      table := rows;
      this.online := online;
    }

    method AddItem(item: Option<Item>) returns (r: Result<bool>)
      requires Valid()
      modifies this
      ensures Valid()
      ensures r == Add(old(table), online, item).result
      ensures table == Add(old(table), online, item).after
    {
      if item.None? {
        return Failure(NoItemPresent);
      }
      if !online {
        return Failure(StoreError);
      }
      var it := item.value;
      if !Finite(it.price) {
        // `setDouble` refuses the value before the INSERT runs
        return Failure(StoreError);
      }
      if it.id in table {
        // the INSERT violates the primary key
        return Failure(ItemAlreadyExists);
      }
      table := table[it.id := it];
      r := Success(true);
    }

    /** Queues one INSERT per item, noting whether any of them would clash
        with a stored row or with an earlier row of the batch, and then
        executes the batch as a whole. A price the column cannot hold stops
        the queueing at that item, before anything runs. */
    method AddListOfItems(items: Option<seq<Item>>) returns (r: Result<bool>)
      requires Valid()
      modifies this
      ensures Valid()
      ensures r == AddAll(old(table), online, items).result
      ensures table == AddAll(old(table), online, items).after
    {
      if items.None? || items.value == [] {
        return Failure(NoItemPresent);
      }
      if !online {
        return Failure(StoreError);
      }
      var list := items.value;
      var batch: Table := map[];
      var clash := false;
      for i := 0 to |list|
        invariant table == old(table)
        invariant batch == Rows(list[..i])
        invariant clash <==> !FreshBatch(table, list[..i])
        invariant forall j :: 0 <= j < i ==> Finite(list[j].price)
      {
        var it := list[i];
        if !Finite(it.price) {
          return Failure(StoreError);
        }
        BatchStep(table, list, i);
        if it.id in table || it.id in batch {
          clash := true;
        }
        batch := batch[it.id := it];
      }
      assert list[..|list|] == list;
      assert batch == Rows(list);
      assert FinitePrices(list);
      if clash {
        assert !FreshBatch(table, list);
        return Failure(ItemAlreadyExists);
      }
      assert FreshBatch(table, list);
      table := table + batch;
      r := Success(true);
    }

    method GetItem(name: string) returns (r: Result<Item>)
      requires Valid()
      ensures Found(table, online, name, r)
    {
      if IsBlank(name) {
        return Failure(EmptyItemName);
      }
      if !online {
        return Failure(StoreError);
      }
      var hits := Matches(table, name);
      if hits == {} {
        return Failure(NoItemPresent);
      }
      var id :| id in hits;
      var row := table[id];
      r := Success(Item(row.id, row.name, row.quantity, row.price));
    }

    /** Reads the rows one at a time in ascending order of id, as the result
        set of the ordered query delivers them, and refuses to return an
        empty list. */
    method GetItems() returns (r: Result<seq<Item>>)
      requires Valid()
      ensures r == List(table, online)
    {
      if !online {
        return Failure(StoreError);
      }
      var items: seq<Item> := [];
      ghost var read: seq<string> := [];
      var rest := table.Keys;
      while rest != {}
        invariant rest <= table.Keys
        invariant Ascending(read)
        invariant forall x :: x in read <==> x in table.Keys - rest
        invariant forall i :: 0 <= i < |read| ==> read[i] in table
        invariant forall i, x :: 0 <= i < |read| && x in rest ==> Below(read[i], x)
        invariant |items| == |read|
        invariant forall i :: 0 <= i < |read| ==> items[i] == table[read[i]]
        decreases |rest|
      {
        LeastExists(rest);
        var id :| IsLeast(id, rest);
        items := items + [table[id]];
        read := read + [id];
        rest := rest - {id};
      }
      assert IdsOf(items) == read;
      forall it: Item ensures it in items <==> it.id in table && table[it.id] == it {
        if it.id in table && table[it.id] == it {
          assert it.id in read;
          var i :| 0 <= i < |read| && read[i] == it.id;
          assert items[i] == it;
        }
      }
      ListingUnique(table, items);
      if items == [] {
        return Failure(NoItemPresent);
      }
      r := Success(items);
    }

    method RemoveItemById(id: string) returns (r: Result<bool>)
      requires Valid()
      modifies this
      ensures Valid()
      ensures r == Remove(old(table), online, id).result
      ensures table == Remove(old(table), online, id).after
    {
      if IsBlank(id) {
        return Failure(EmptyItemName);
      }
      if !online {
        return Failure(StoreError);
      }
      r := Success(id in table);
      table := table - {id};
    }
  }
}
