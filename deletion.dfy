/** Targeted deletion: the update requests that DeleteFavoritesListAsync
    (Services/FavoritesRepository.cs:247-272) and CreateUpdateItemRequest (436-475)
    build, which REMOVE one list, or one NFT of one list, by its index in the stored
    record, and the effect of such a request on the stored item. */
module Deletion {
  import opened Wrappers
  import opened Favorites
  import opened Document

  /** The document path of the update expression: `#Favorites[list]` or
      `#Favorites[list].#Nfts[nft]`. */
  datatype RemovePath = ListAt(list: nat) | NftAt(list: nat, nft: nat)

  /** An UpdateItem request: the key of the record, the path to REMOVE, and whether
      the request carries the condition `attribute_exists(Favorites)`. */
  datatype UpdateRequest = UpdateRequest(userId: string, path: RemovePath, needsFavorites: bool)

  /** `s` without its element at `k`; the later elements move down by one. */
  function RemoveAt<T>(s: seq<T>, k: nat): (r: seq<T>)
    requires k < |s|
    ensures |r| == |s| - 1
    ensures forall j | 0 <= j < k :: r[j] == s[j]
    ensures forall j | k <= j < |r| :: r[j] == s[j + 1]
  {
    s[..k] + s[k + 1..]
  }

  /** The lists after NFT `n` of list `k` is removed; every other list, and the
      ListId and Name of list `k`, stay as they are. */
  function RemoveNftAt(favs: seq<FavoritesList>, k: nat, n: nat): (r: seq<FavoritesList>)
    requires k < |favs| && n < |favs[k].nfts|
    ensures |r| == |favs|
    ensures forall j | 0 <= j < |favs| && j != k :: r[j] == favs[j]
    ensures r[k].listId == favs[k].listId && r[k].name == favs[k].name
    ensures r[k].nfts == RemoveAt(favs[k].nfts, n)
  {
    favs[k := FavoritesList(favs[k].listId, favs[k].name, RemoveAt(favs[k].nfts, n))]
  }

  /** The request of DeleteFavoritesListAsync: remove the first list whose ListId
      is `listId`, or no request when there is none (FindIndex gives -1). */
  function ListRemovalRequest(userId: string, uf: UserFavorites, listId: string): (r: Option<UpdateRequest>)
    ensures r.None? <==> forall j | 0 <= j < |uf.favorites| :: uf.favorites[j].listId != Some(listId)
    ensures r.Some? ==>
      && r.value.userId == userId && r.value.needsFavorites
      && r.value.path.ListAt?
      && var k := r.value.path.list;
      && k < |uf.favorites| && uf.favorites[k].listId == Some(listId)
      && forall j | 0 <= j < k :: uf.favorites[j].listId != Some(listId)
  {
    match FindList(uf.favorites, Some(listId))
    case None => None
    case Some(k) => Some(UpdateRequest(userId, ListAt(k), true))
  }

  /** CreateUpdateItemRequest: remove the first NFT with Identifier `nftId` from the
      first list with ListId `listId`; no request (null) when either is missing. */
  function CreateUpdateItemRequest(uf: UserFavorites, listId: string, nftId: string): (r: Option<UpdateRequest>)
    ensures r.Some? ==>
      && r.value.userId == uf.userId && !r.value.needsFavorites
      && r.value.path.NftAt?
      && var k, n := r.value.path.list, r.value.path.nft;
      && k < |uf.favorites| && uf.favorites[k].listId == Some(listId)
      && (forall j | 0 <= j < k :: uf.favorites[j].listId != Some(listId))
      && n < |uf.favorites[k].nfts| && uf.favorites[k].nfts[n].identifier == Some(nftId)
      && forall j | 0 <= j < n :: uf.favorites[k].nfts[j].identifier != Some(nftId)
  {
    match FindList(uf.favorites, Some(listId))
    case None => None
    case Some(k) =>
      match FindNft(uf.favorites[k].nfts, Some(nftId))
      case None => None
      case Some(n) => Some(UpdateRequest(uf.userId, NftAt(k, n), false))
  }

  /** No request is built exactly when no list has the ListId, or the first list
      that has it holds no NFT with the Identifier. */
  lemma NoNftRemovalRequest(uf: UserFavorites, listId: string, nftId: string)
    ensures CreateUpdateItemRequest(uf, listId, nftId).None? <==>
      forall k | 0 <= k < |uf.favorites| && uf.favorites[k].listId == Some(listId)
                 && (forall j | 0 <= j < k :: uf.favorites[j].listId != Some(listId)) ::
        forall n | 0 <= n < |uf.favorites[k].nfts| :: uf.favorites[k].nfts[n].identifier != Some(nftId)
  {
  }

  /** What the store does with a REMOVE request on one item: the element at the
      index is removed (an index past the end removes nothing); None where the
      store rejects the request (failed condition, or a path through a missing or
      mistyped attribute). */
  function ApplyRemove(item: Item, req: UpdateRequest): (r: Option<Item>)
    ensures r.Some? ==> r.value.Keys == item.Keys
    ensures r.Some? ==> forall key | key in item && key != "Favorites" :: r.value[key] == item[key]
  {
    if "Favorites" !in item || !item["Favorites"].L? then None
    else
      var lists := item["Favorites"].items;
      match req.path
      case ListAt(k) =>
        if k < |lists| then Some(item["Favorites" := L(RemoveAt(lists, k))]) else Some(item)
      case NftAt(k, n) =>
        if k >= |lists| || !lists[k].M? || "Nfts" !in lists[k].fields || !lists[k].fields["Nfts"].L? then None
        else
          var nfts := lists[k].fields["Nfts"].items;
          if n < |nfts| then
            var list' := M(lists[k].fields["Nfts" := L(RemoveAt(nfts, n))]);
            Some(item["Favorites" := L(lists[k := list'])])
          else Some(item)
  }

  // ---------------------------------------------------------------------------
  // Laws: an index-based removal on the stored item is the removal of that
  // element from the decoded document.
  // ---------------------------------------------------------------------------

  /** A sequence of list nodes, each decoding to the matching list, decodes to
      those lists. */
  lemma {:induction false} DecodeListsPointwise(vs: seq<AttrValue>, ds: seq<FavoritesList>)
    requires |vs| == |ds| && forall j | 0 <= j < |vs| :: DecodeList(vs[j]) == Success(ds[j])
    ensures DecodeLists(vs) == Success(ds)
  {
    if vs != [] {
      DecodeListsPointwise(vs[1..], ds[1..]);
      assert ds == [ds[0]] + ds[1..];
    }
  }

  /** A sequence of NFT nodes, each decoding to the matching NFT, decodes to
      those NFTs. */
  lemma {:induction false} DecodeNftsPointwise(vs: seq<AttrValue>, ns: seq<Nft>)
    requires |vs| == |ns| && forall j | 0 <= j < |vs| :: DecodeNft(vs[j]) == Success(ns[j])
    ensures DecodeNfts(vs) == Success(ns)
  {
    if vs != [] {
      DecodeNftsPointwise(vs[1..], ns[1..]);
      assert ns == [ns[0]] + ns[1..];
    }
  }

  lemma DecodeListsRemoveAt(vs: seq<AttrValue>, k: nat)
    requires DecodeLists(vs).Success? && k < |vs|
    ensures DecodeLists(RemoveAt(vs, k)) == Success(RemoveAt(DecodeLists(vs).value, k))
  {
    var ws, es := RemoveAt(vs, k), RemoveAt(DecodeLists(vs).value, k);
    forall j | 0 <= j < |ws| ensures DecodeList(ws[j]) == Success(es[j]) {
      if j < k { assert ws[j] == vs[j]; } else { assert ws[j] == vs[j + 1]; }
    }
    DecodeListsPointwise(ws, es);
  }

  lemma DecodeNftsRemoveAt(vs: seq<AttrValue>, n: nat)
    requires DecodeNfts(vs).Success? && n < |vs|
    ensures DecodeNfts(RemoveAt(vs, n)) == Success(RemoveAt(DecodeNfts(vs).value, n))
  {
    var ws, es := RemoveAt(vs, n), RemoveAt(DecodeNfts(vs).value, n);
    forall j | 0 <= j < |ws| ensures DecodeNft(ws[j]) == Success(es[j]) {
      if j < n { assert ws[j] == vs[j]; } else { assert ws[j] == vs[j + 1]; }
    }
    DecodeNftsPointwise(ws, es);
  }

  lemma DecodeListsUpdate(vs: seq<AttrValue>, k: nat, v: AttrValue)
    requires DecodeLists(vs).Success? && k < |vs| && DecodeList(v).Success?
    ensures DecodeLists(vs[k := v]) == Success(DecodeLists(vs).value[k := DecodeList(v).value])
  {
    DecodeListsPointwise(vs[k := v], DecodeLists(vs).value[k := DecodeList(v).value]);
  }

  /** Removing list `k` from a record that decodes gives a record that decodes to
      the same document without its k-th list; nothing else changes or moves. */
  lemma RemoveListFromRecord(item: Item, req: UpdateRequest)
    requires Decode(item).Success? && req.path.ListAt? && req.path.list < |Decode(item).value.favorites|
    ensures ApplyRemove(item, req).Some?
    ensures var d := Decode(item).value;
            Decode(ApplyRemove(item, req).value) == Success(UserFavorites(d.userId, RemoveAt(d.favorites, req.path.list)))
  {
    DecodeListsRemoveAt(item["Favorites"].items, req.path.list);
  }

  /** Removing NFT `n` from a list node that decodes gives a node that decodes to
      the same list without its n-th NFT. */
  lemma RemoveNftFromListNode(v: AttrValue, n: nat)
    requires DecodeList(v).Success? && n < |DecodeList(v).value.nfts|
    ensures "Nfts" in v.fields && v.fields["Nfts"].L? && n < |v.fields["Nfts"].items|
    ensures var fl := DecodeList(v).value;
            DecodeList(M(v.fields["Nfts" := L(RemoveAt(v.fields["Nfts"].items, n))]))
              == Success(FavoritesList(fl.listId, fl.name, RemoveAt(fl.nfts, n)))
  {
    DecodeNftsRemoveAt(v.fields["Nfts"].items, n);
  }

  /** Removing NFT `n` of list `k` from a record that decodes gives a record that
      decodes to the same document in which only list `k` lost its n-th NFT. */
  lemma RemoveNftFromRecord(item: Item, req: UpdateRequest)
    requires Decode(item).Success? && req.path.NftAt?
    requires req.path.list < |Decode(item).value.favorites|
    requires req.path.nft < |Decode(item).value.favorites[req.path.list].nfts|
    ensures ApplyRemove(item, req).Some?
    ensures var d := Decode(item).value;
            Decode(ApplyRemove(item, req).value)
              == Success(UserFavorites(d.userId, RemoveNftAt(d.favorites, req.path.list, req.path.nft)))
  {
    var lists := item["Favorites"].items;
    var k, n := req.path.list, req.path.nft;
    assert DecodeList(lists[k]).value == Decode(item).value.favorites[k];
    RemoveNftFromListNode(lists[k], n);
    var list' := M(lists[k].fields["Nfts" := L(RemoveAt(lists[k].fields["Nfts"].items, n))]);
    DecodeListsUpdate(lists, k, list');
  }
}
