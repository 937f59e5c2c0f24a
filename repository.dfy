/** The repository object (Services/FavoritesRepository.cs): the table of user
    records, keyed by UserId, and the per-process cache of documents. The store's
    replies are parameters of each operation: `getOk` is false where GetItem throws,
    `putOk` false where PutItem throws, `updateOk` false where UpdateItem throws or
    answers a non-success status. */
module Repository {
  import opened Wrappers
  import opened Favorites
  import opened Document
  import opened Reconciliation
  import opened Deletion

  /** Why a read or an update throws: the store call failed, or the stored record
      could not be mapped to a document. */
  datatype Fault = StoreFailure | CorruptDocument(DecodeError)

  /** Every record is stored under its own UserId, which is a string. */
  predicate TableInvariant(store: map<string, Item>) {
    forall key | key in store :: "UserId" in store[key] && store[key]["UserId"] == S(key)
  }

  /** GetItem answers an item with at least one attribute. */
  predicate HasRecord(store: map<string, Item>, userId: string) {
    userId in store && |store[userId]| != 0
  }

  /** The document a user without a record starts from: one empty list. */
  function DefaultFavorites(userId: string): (uf: UserFavorites)
    ensures uf.userId == userId && |uf.favorites| == 1
    ensures uf.favorites[0].listId == Some("Default-List") && uf.favorites[0].name == Some("Favorites 1")
    ensures uf.favorites[0].nfts == []
  {
    UserFavorites(userId, [FavoritesList(Some("Default-List"), Some("Favorites 1"), [])])
  }

  /** The read of GetFavoritesAsync: the default document when there is no record,
      the mapped record otherwise; a failed read or a corrupt record throws. */
  function LoadFavorites(store: map<string, Item>, userId: string, getOk: bool): (r: Result<UserFavorites, Fault>)
    ensures !getOk ==> r == Failure(StoreFailure)
    ensures getOk && !HasRecord(store, userId) ==> r == Success(DefaultFavorites(userId))
    ensures getOk && HasRecord(store, userId) ==>
      (r.Success? <==> Decode(store[userId]).Success?)
      && (r.Success? ==> r.value == Decode(store[userId]).value)
      && (r.Failure? ==> r.error == CorruptDocument(Decode(store[userId]).error))
    ensures r.Success? && TableInvariant(store) ==> r.value.userId == userId
  {
    if !getOk then Failure(StoreFailure)
    else if !HasRecord(store, userId) then Success(DefaultFavorites(userId))
    else match Decode(store[userId])
      case Failure(e) => Failure(CorruptDocument(e))
      case Success(uf) => Success(uf)
  }

  /** GetUserFavoritesAsync: the stored document, or null for a missing record and
      for every failure. It agrees with LoadFavorites wherever a record exists. */
  function LoadStored(store: map<string, Item>, userId: string, getOk: bool): (r: Option<UserFavorites>)
    ensures r.Some? <==> HasRecord(store, userId) && LoadFavorites(store, userId, getOk).Success?
    ensures r.Some? ==> LoadFavorites(store, userId, getOk) == Success(r.value)
    ensures r.Some? && TableInvariant(store) ==> r.value.userId == userId
  {
    if !getOk || !HasRecord(store, userId) then None
    else match Decode(store[userId])
      case Failure(_) => None
      case Success(uf) => Some(uf)
  }

  /** The foreach of UpdateFavoritesAsync over the submitted lists: each one is
      looked up by ListId and overwritten when the change test says it differs,
      or appended when its ListId is unknown. */
  method ReconcileLists(current: seq<FavoritesList>, updatedLists: array<FavoritesList>)
    returns (favs: seq<FavoritesList>, isModified: bool)
    ensures (favs, isModified) == Reconcile(current, updatedLists[..])
  {
    favs := current;
    isModified := false;
    var i := 0;
    while i < updatedLists.Length
      invariant 0 <= i <= updatedLists.Length
      invariant (favs, isModified) == Reconcile(current, updatedLists[..i])
    {
      var updatedList := updatedLists[i];
      var existing := FindList(favs, updatedList.listId);
      if existing.Some? {
        var k := existing.value;
        if favs[k].name != updatedList.name || NftsDiffer(favs[k].nfts, updatedList.nfts) {
          favs := favs[k := FavoritesList(favs[k].listId, updatedList.name, updatedList.nfts)];
          isModified := true;
        }
      } else {
        favs := favs + [updatedList];
        isModified := true;
      }
      ReconcileUnfold(current, updatedLists[..i], updatedList);
      assert updatedLists[..i + 1] == updatedLists[..i] + [updatedList];
      i := i + 1;
    }
    assert updatedLists[..i] == updatedLists[..];
  }

  class FavoritesRepository {
    /** The table: the stored item of each UserId. */
    var store: map<string, Item>
    /** `_cache`: the last document read from or written to the table per UserId. */
    var cache: map<string, UserFavorites>

    predicate Valid()
      reads this
    {
      && TableInvariant(store)
      && forall u | u in cache :: cache[u].userId == u
    }

    constructor(table: map<string, Item>)
      requires TableInvariant(table)
      ensures Valid()
      ensures store == table && cache == map[]
    {
      store := table;
      cache := map[];
    }

    /** GetFavoritesAsync: a found record is cached, the default document is not. */
    method GetFavorites(userId: string, getOk: bool) returns (r: Result<UserFavorites, Fault>)
      requires Valid()
      modifies this`cache
      ensures Valid()
      ensures r == LoadFavorites(store, userId, getOk)
      ensures cache == if r.Success? && HasRecord(store, userId) then old(cache)[userId := r.value] else old(cache)
    {
      if !getOk {
        return Failure(StoreFailure);
      }
      if !HasRecord(store, userId) {
        return Success(DefaultFavorites(userId));
      }
      var decoded := Decode(store[userId]);
      if decoded.Failure? {
        return Failure(CorruptDocument(decoded.error));
      }
      cache := cache[userId := decoded.value];
      return Success(decoded.value);
    }

    /** UpdateFavoritesAsync: reconcile the submitted lists, in order, into the
        current document, and put the whole document when anything changed.
        The document the read cached is the object the loop changes, so with a
        stored record the cache holds the reconciled document even when the put
        then fails. */
    method UpdateFavorites(userId: string, updatedLists: array?<FavoritesList>, getOk: bool, putOk: bool)
      returns (r: Result<Option<UserFavorites>, Fault>)
      requires Valid()
      modifies this
      ensures Valid()
      ensures updatedLists == null ==> r == Success(None) && store == old(store) && cache == old(cache)
      ensures updatedLists != null && LoadFavorites(old(store), userId, getOk).Failure? ==>
        && r == Failure(LoadFavorites(old(store), userId, getOk).error)
        && store == old(store) && cache == old(cache)
      ensures updatedLists != null && LoadFavorites(old(store), userId, getOk).Success? ==>
        var loaded := LoadFavorites(old(store), userId, getOk).value;
        var rec := Reconcile(loaded.favorites, updatedLists[..]);
        var doc := UserFavorites(userId, rec.0);
        var aliased := if HasRecord(old(store), userId) then old(cache)[userId := doc] else old(cache);
        if !rec.1 then
          r == Success(Some(loaded)) && store == old(store) && cache == aliased
        else if putOk then
          r == Success(Some(doc)) && store == old(store)[userId := Encode(doc)] && cache == old(cache)[userId := doc]
        else
          r == Failure(StoreFailure) && store == old(store) && cache == aliased
    {
      if updatedLists == null {
        return Success(None);
      }
      var cachedByRead := HasRecord(store, userId);
      var loaded := GetFavorites(userId, getOk);
      if loaded.Failure? {
        return Failure(loaded.error);
      }
      var userFavorites := loaded.value;
      assert userFavorites.userId == userId;
      var favs, isModified := ReconcileLists(userFavorites.favorites, updatedLists);
      ghost var doc := UserFavorites(userId, favs);
      assert cachedByRead ==> cache[userId := doc] == old(cache)[userId := doc];
      assert !cachedByRead ==> cache == old(cache);
      r := WriteBack(userFavorites, favs, isModified, cachedByRead, putOk);
    }

    /** The end of UpdateFavoritesAsync: the cached document already is the
        reconciled one when the read cached it; a changed document is put and
        cached, an unchanged one is answered as read. */
    method WriteBack(userFavorites: UserFavorites, favs: seq<FavoritesList>, isModified: bool, cachedByRead: bool, putOk: bool)
      returns (r: Result<Option<UserFavorites>, Fault>)
      requires Valid()
      requires !isModified ==> favs == userFavorites.favorites
      modifies this
      ensures Valid()
      ensures var doc := UserFavorites(userFavorites.userId, favs);
        var aliased := if cachedByRead then old(cache)[userFavorites.userId := doc] else old(cache);
        if !isModified then
          r == Success(Some(userFavorites)) && store == old(store) && cache == aliased
        else if putOk then
          r == Success(Some(doc)) && store == old(store)[doc.userId := Encode(doc)] && cache == old(cache)[doc.userId := doc]
        else
          r == Failure(StoreFailure) && store == old(store) && cache == aliased
    {
      var doc := UserFavorites(userFavorites.userId, favs);
      if cachedByRead {
        // the cached entry is the very object the loop changed
        cache := cache[doc.userId := doc];
      }
      if !isModified {
        return Success(Some(userFavorites));
      }
      if !putOk {
        return Failure(StoreFailure);
      }
      ReadAfterPut(store, doc);
      store := store[doc.userId := Encode(doc)];
      cache := cache[doc.userId := doc];
      return Success(Some(doc));
    }

    /** DeleteFavoritesListAsync: remove the first list with the ListId from the
        stored record, by its index; the cache is left as it is. */
    method DeleteFavoritesList(userId: string, listIdToDelete: string, getOk: bool, updateOk: bool)
      returns (deleted: bool)
      requires Valid()
      modifies this`store
      ensures Valid()
      ensures var found := LoadStored(old(store), userId, getOk);
        deleted <==> updateOk && found.Some? && FindList(found.value.favorites, Some(listIdToDelete)).Some?
      ensures !deleted ==> store == old(store)
      ensures deleted ==>
        var found := LoadStored(old(store), userId, getOk).value;
        var k := FindList(found.favorites, Some(listIdToDelete)).value;
        && userId in store && store == old(store)[userId := store[userId]]
        && LoadStored(store, userId, true) == Some(UserFavorites(userId, RemoveAt(found.favorites, k)))
    {
      var userFavorites := LoadStored(store, userId, getOk);
      if userFavorites.None? {
        return false;
      }
      var request := ListRemovalRequest(userId, userFavorites.value, listIdToDelete);
      if request.None? {
        return false;
      }
      if !updateOk {
        return false;
      }
      RemoveListFromRecord(store[userId], request.value);
      var updated := ApplyRemove(store[userId], request.value).value;
      ReplaceRecord(store, userId, updated);
      store := store[userId := updated];
      return true;
    }

    /** DeleteNftFromFavoritesListAsync: remove the first NFT with the Identifier
        from the first list with the ListId, by their indices; the cache is left as
        it is. */
    method DeleteNftFromFavoritesList(userId: string, listId: string, nftIdToDelete: string, getOk: bool, updateOk: bool)
      returns (deleted: bool)
      requires Valid()
      modifies this`store
      ensures Valid()
      ensures var found := LoadStored(old(store), userId, getOk);
        deleted <==>
          && updateOk && found.Some?
          && FindList(found.value.favorites, Some(listId)).Some?
          && FindNft(found.value.favorites[FindList(found.value.favorites, Some(listId)).value].nfts, Some(nftIdToDelete)).Some?
      ensures !deleted ==> store == old(store)
      ensures deleted ==>
        var found := LoadStored(old(store), userId, getOk).value;
        var k := FindList(found.favorites, Some(listId)).value;
        var n := FindNft(found.favorites[k].nfts, Some(nftIdToDelete)).value;
        && userId in store && store == old(store)[userId := store[userId]]
        && LoadStored(store, userId, true) == Some(UserFavorites(userId, RemoveNftAt(found.favorites, k, n)))
    {
      var userFavorites := LoadStored(store, userId, getOk);
      if userFavorites.None? {
        return false;
      }
      var favoritesList := FindList(userFavorites.value.favorites, Some(listId));
      if favoritesList.None? {
        return false;
      }
      var nftExists := FindNft(userFavorites.value.favorites[favoritesList.value].nfts, Some(nftIdToDelete)).Some?;
      if !nftExists {
        return false;
      }
      var request := CreateUpdateItemRequest(userFavorites.value, listId, nftIdToDelete);
      if !updateOk {
        return false;
      }
      var key := userFavorites.value.userId;
      ghost var k, n := favoritesList.value, FindNft(userFavorites.value.favorites[favoritesList.value].nfts, Some(nftIdToDelete)).value;
      assert request.value == UpdateRequest(key, NftAt(k, n), false);
      RemoveNftFromRecord(store[key], request.value);
      var updated := ApplyRemove(store[key], request.value).value;
      ReplaceRecord(store, key, updated);
      store := store[key := updated];
      assert LoadStored(store, userId, true) == Some(UserFavorites(userId, RemoveNftAt(userFavorites.value.favorites, k, n)));
      return true;
    }
  }

  // ---------------------------------------------------------------------------
  // Laws of the table
  // ---------------------------------------------------------------------------

  /** Replacing a record by one under the same UserId keeps the table invariant,
      and the next read answers the new record's document. */
  lemma ReplaceRecord(store: map<string, Item>, userId: string, item: Item)
    requires TableInvariant(store) && userId in store
    requires "UserId" in item && item["UserId"] == store[userId]["UserId"] && Decode(item).Success?
    ensures TableInvariant(store[userId := item])
    ensures LoadStored(store[userId := item], userId, true) == Some(Decode(item).value)
  {
  }

  /** A put keeps every record under its own UserId, and the next read of that user
      answers what the store keeps of the put document. */
  lemma ReadAfterPut(store: map<string, Item>, doc: UserFavorites)
    requires TableInvariant(store)
    ensures TableInvariant(store[doc.userId := Encode(doc)])
    ensures LoadFavorites(store[doc.userId := Encode(doc)], doc.userId, true) == Success(Persisted(doc))
  {
    RoundTrip(doc);
  }

  /** Submitting the same lists a second time, after the first submission was
      written, changes nothing and issues no put, provided the submitted ListIds
      are distinct and the store keeps every submitted list whole. */
  lemma ResubmissionIssuesNoPut(store: map<string, Item>, userId: string, subs: seq<FavoritesList>)
    requires TableInvariant(store) && LoadFavorites(store, userId, true).Success?
    requires DistinctListIds(subs)
    requires forall i | 0 <= i < |subs| :: ListKeptWhole(subs[i])
    ensures var rec := Reconcile(LoadFavorites(store, userId, true).value.favorites, subs);
            var after := if rec.1 then store[userId := Encode(UserFavorites(userId, rec.0))] else store;
            && LoadFavorites(after, userId, true).Success?
            && !Reconcile(LoadFavorites(after, userId, true).value.favorites, subs).1
  {
    var favs := LoadFavorites(store, userId, true).value.favorites;
    var rec := Reconcile(favs, subs);
    if rec.1 {
      ReadAfterPut(store, UserFavorites(userId, rec.0));
      ResubmitAfterPersistUnchanged(favs, subs);
    } else {
      ReconcileIdempotent(favs, subs);
    }
  }

  /** A new user who submits one list gets back the default list and theirs; the
      default list has no NFTs and is not written, so the store keeps their list
      alone (its NFT with null fields written as ""), and the same submission a
      second time changes nothing and issues no put. */
  lemma NewUserSubmitsTwice(store: map<string, Item>, nft: Nft)
    requires TableInvariant(store) && "u" !in store
    requires NftPersistable(nft)
    ensures var mine := FavoritesList(Some("L1"), Some("Mine"), [nft]);
            var stored := FavoritesList(Some("L1"), Some("Mine"), [PersistNft(nft)]);
            var first := LoadFavorites(store, "u", true);
            var rec := Reconcile(first.value.favorites, [mine]);
            var after := store["u" := Encode(UserFavorites("u", rec.0))];
            && first == Success(DefaultFavorites("u"))
            && rec == ([DefaultFavorites("u").favorites[0], mine], true)
            && LoadFavorites(after, "u", true) == Success(UserFavorites("u", [stored]))
            && Reconcile([stored], [mine]) == ([stored], false)
  {
    var mine := FavoritesList(Some("L1"), Some("Mine"), [nft]);
    var stored := FavoritesList(Some("L1"), Some("Mine"), [PersistNft(nft)]);
    var dflt := DefaultFavorites("u").favorites[0];
    assert [mine][..0] == [];
    assert FindList([dflt], mine.listId).None?;
    assert Reconcile([dflt], []) == ([dflt], false);
    assert [dflt][1..] == [];
    assert FindList([dflt][1..], mine.listId).None?;
    assert [dflt] + [mine] == [dflt, mine];
    assert Step([dflt], mine) == ([dflt, mine], true);
    assert Reconcile([dflt], [mine]) == ([dflt, mine], true);
    ReadAfterPut(store, UserFavorites("u", [dflt, mine]));
    assert PersistedLists([dflt, mine]) == [stored] by {
      assert [dflt, mine][1..] == [mine];
      assert [mine][1..] == [];
      assert [nft][1..] == [];
      assert PersistedNfts([nft]) == [PersistNft(nft)];
    }
    assert !NftsDiffer(stored.nfts, mine.nfts) by {
      assert PersistNft(nft).identifier == nft.identifier;
      assert nft in mine.nfts;
    }
    assert FindList([stored], mine.listId) == Some(0);
    assert [stored][..0] == [];
  }
}
