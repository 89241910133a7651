/** The service layer: each operation checks its argument the way the
    presentation layer needs it checked and then hands the call to the
    repository, returning whatever the repository returns or raises. */
module Service {
  import opened Exceptions
  import opened Model
  import opened Text
  import opened Repository

  class Management {
    const repo: Repo

    constructor (repo: Repo)
      ensures this.repo == repo
    {
      this.repo := repo;
    }

    /** A null item is refused without touching the repository; any other
        item is added by the repository, which decides the result. */
    method AddItem(item: Option<Item>) returns (r: Result<bool>)
      requires repo.Valid()
      modifies repo
      ensures repo.Valid()
      ensures item.None? ==> r == Failure(NoItemPresent) && unchanged(repo)
      ensures r == Add(old(repo.table), repo.online, item).result
      ensures repo.table == Add(old(repo.table), repo.online, item).after
    {
      if item.None? {
        return Failure(NoItemPresent);
      }
      r := repo.AddItem(item);
    }

    /** A null or empty list is refused without touching the repository;
        any other list goes to the repository as one batch. */
    method AddList(items: Option<seq<Item>>) returns (r: Result<bool>)
      requires repo.Valid()
      modifies repo
      ensures repo.Valid()
      ensures (items.None? || items.value == []) ==> r == Failure(NoItemPresent) && unchanged(repo)
      ensures r == AddAll(old(repo.table), repo.online, items).result
      ensures repo.table == AddAll(old(repo.table), repo.online, items).after
    {
      if items.None? || items.value == [] {
        return Failure(NoItemPresent);
      }
      r := repo.AddListOfItems(items);
    }

    /** A blank name is refused before the repository is consulted; any other
        name is looked up by the repository. */
    method GetItem(name: string) returns (r: Result<Item>)
      requires repo.Valid()
      ensures IsBlank(name) ==> r == Failure(EmptyItemName)
      ensures Found(repo.table, repo.online, name, r)
    {
      if IsBlank(name) {
        return Failure(EmptyItemName);
      }
      r := repo.GetItem(name);
    }

    /** The repository's list, unchanged; an empty list would raise
        NoItemPresent, but the repository never returns one. */
    method GetItems() returns (r: Result<seq<Item>>)
      requires repo.Valid()
      ensures r == List(repo.table, repo.online)
      ensures r.Success? ==> r.value != []
    {
      r := repo.GetItems();
      if r.Success? && r.value == [] {
        r := Failure(NoItemPresent);
      }
    }

    /** A blank id is refused without touching the repository; any other id
        is removed by the repository, which reports whether it was there. */
    method RemoveItem(id: string) returns (r: Result<bool>)
      requires repo.Valid()
      modifies repo
      ensures repo.Valid()
      ensures IsBlank(id) ==> r == Failure(EmptyItemName) && unchanged(repo)
      ensures r == Remove(old(repo.table), repo.online, id).result
      ensures repo.table == Remove(old(repo.table), repo.online, id).after
    {
      if IsBlank(id) {
        return Failure(EmptyItemName);
      }
      r := repo.RemoveItemById(id);
    }
  }
}
