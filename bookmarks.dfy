/**
 * The bookmark store of `lib/bookmark-context.tsx`: a list of employee ids,
 * mirrored into the browser's key-value storage under one key.
 */
module Bookmarks {
  import opened Seqs

  /** The storage key the list is kept under. */
  const StorageKey: string := "hr-bookmarks"

  /** Browser storage, with each stored value already decoded to its id list. */
  type Storage = map<string, seq<int>>

  /** What the mount effect reads: the saved list, or nothing and the initial `[]`. */
  function Load(storage: Storage): (r: seq<int>)
    ensures StorageKey in storage ==> r == storage[StorageKey]
    ensures StorageKey !in storage ==> r == []
  {
    if StorageKey in storage then storage[StorageKey] else []
  }

  /** What the save effect writes: the whole list under the key, other keys untouched. */
  function Save(storage: Storage, bookmarks: seq<int>): (r: Storage)
    ensures StorageKey in r && r[StorageKey] == bookmarks
    ensures forall k :: k != StorageKey ==> (k in r <==> k in storage)
    ensures forall k :: k != StorageKey && k in storage ==> r[k] == storage[k]
  {
    storage[StorageKey := bookmarks]
  }

  /** A save followed by a load gives the list back, whatever was stored before. */
  lemma SaveLoad(storage: Storage, bookmarks: seq<int>)
    ensures Load(Save(storage, bookmarks)) == bookmarks
    ensures Save(Save(storage, bookmarks), bookmarks) == Save(storage, bookmarks)
  {
  }

  class BookmarkStore {
    var bookmarks: seq<int>
    var storage: Storage

    /** The storage always holds the current list. */
    ghost predicate Valid()
      reads this
    {
      StorageKey in storage && storage[StorageKey] == bookmarks
    }

    /**
     * Mounting: the saved list is loaded when there is one, and the list is
     * then written back; an absent entry leaves `[]`, which is written.
     */
    constructor(saved: Storage)
      ensures Valid()
      ensures bookmarks == Load(saved)
      ensures storage == Save(saved, bookmarks)
    {
      bookmarks := Load(saved);
      storage := Save(saved, Load(saved));
    }

    /** `isBookmarked`: the id occurs in the list. */
    predicate IsBookmarked(id: int)
      reads this
    {
      id in bookmarks
    }

    /** `addBookmark`: appends, without checking for an existing copy, and saves. */
    method AddBookmark(id: int)
      requires Valid()
      modifies this
      ensures Valid()
      ensures bookmarks == old(bookmarks) + [id]
      ensures storage == Save(old(storage), bookmarks)
      ensures IsBookmarked(id)
      ensures multiset(bookmarks)[id] == multiset(old(bookmarks))[id] + 1
    {
      bookmarks := bookmarks + [id];
      storage := Save(storage, bookmarks);
    }

    /**
     * `removeBookmark`: drops every copy of the id, keeps the other ids in
     * order, and saves; an absent id leaves the list as it was.
     */
    method RemoveBookmark(id: int)
      requires Valid()
      modifies this
      ensures Valid()
      ensures bookmarks == RemoveAll(old(bookmarks), id)
      ensures storage == Save(old(storage), bookmarks)
      ensures !IsBookmarked(id)
      ensures multiset(bookmarks) == multiset(old(bookmarks))[id := 0]
      ensures IsSubseq(bookmarks, old(bookmarks))
      ensures id !in old(bookmarks) ==> bookmarks == old(bookmarks)
    {
      RemoveAllMembers(bookmarks, id);
      RemoveAllMultiset(bookmarks, id);
      FilterIsSubseq(bookmarks, Differs(id));
      if id !in bookmarks {
        RemoveAbsent(bookmarks, id);
      }
      bookmarks := RemoveAll(bookmarks, id);
      storage := Save(storage, bookmarks);
    }
  }

  /** Mounting again on the storage a store left behind restores its list. */
  method Reload(store: BookmarkStore) returns (reloaded: BookmarkStore)
    requires store.Valid()
    ensures fresh(reloaded) && reloaded.Valid()
    ensures reloaded.bookmarks == store.bookmarks
    ensures reloaded.storage == store.storage
  {
    reloaded := new BookmarkStore(store.storage);
  }
}
