/** The favorites data model: an NFT reference, a named favorites list and the
    per-user document, as they are persisted (Models/Nft/Nft.cs,
    Models/User/FavoritesList.cs, Models/User/UserFavorites.cs), together with the
    first-match lookups the repository uses (LINQ FirstOrDefault / FindIndex) and
    the write filter of the encoder. */
module Favorites {
  import opened Wrappers

  /** The seven NFT properties the store keeps; each may be null (None). */
  datatype Nft = Nft(
    identifier: Option<string>,
    collection: Option<string>,
    contract: Option<string>,
    name: Option<string>,
    imageUrl: Option<string>,
    animationUrl: Option<string>,
    openseaUrl: Option<string>)

  datatype FavoritesList = FavoritesList(listId: Option<string>, name: Option<string>, nfts: seq<Nft>)

  datatype UserFavorites = UserFavorites(userId: string, favorites: seq<FavoritesList>)

  /** A C# string that is neither null nor empty (string.IsNullOrEmpty is false). */
  predicate NonEmpty(s: Option<string>) {
    s.Some? && s.value != ""
  }

  /** `s ?? string.Empty` */
  function OrEmpty(s: Option<string>): (r: string)
    ensures s.Some? ==> r == s.value
    ensures s.None? ==> r == ""
  {
    if s.Some? then s.value else ""
  }

  /** Index of the first list whose ListId equals `id` (C# string equality, under
      which null equals null), or None where FindIndex returns -1. */
  function FindList(favs: seq<FavoritesList>, id: Option<string>): (r: Option<nat>)
    ensures r.None? <==> forall j | 0 <= j < |favs| :: favs[j].listId != id
    ensures r.Some? ==> r.value < |favs| && favs[r.value].listId == id
    ensures r.Some? ==> forall j | 0 <= j < r.value :: favs[j].listId != id
  {
    if favs == [] then None
    else if favs[0].listId == id then Some(0)
    else match FindList(favs[1..], id)
      case None => None
      case Some(k) => Some(k + 1)
  }

  /** Index of the first NFT whose Identifier equals `id`, or None. */
  function FindNft(nfts: seq<Nft>, id: Option<string>): (r: Option<nat>)
    ensures r.None? <==> forall j | 0 <= j < |nfts| :: nfts[j].identifier != id
    ensures r.Some? ==> r.value < |nfts| && nfts[r.value].identifier == id
    ensures r.Some? ==> forall j | 0 <= j < r.value :: nfts[j].identifier != id
  {
    if nfts == [] then None
    else if nfts[0].identifier == id then Some(0)
    else match FindNft(nfts[1..], id)
      case None => None
      case Some(k) => Some(k + 1)
  }

  /** The encoder's filter on a list: non-empty ListId, non-empty Name, at least
      one NFT (counted before the NFTs themselves are filtered). */
  predicate ListPersistable(fl: FavoritesList) {
    NonEmpty(fl.listId) && NonEmpty(fl.name) && |fl.nfts| > 0
  }

  /** The encoder's filter on an NFT: a non-empty Identifier. */
  predicate NftPersistable(n: Nft) {
    NonEmpty(n.identifier)
  }

  /** A list that the encoder keeps with every one of its NFTs. */
  predicate ListKeptWhole(fl: FavoritesList) {
    ListPersistable(fl) && forall i | 0 <= i < |fl.nfts| :: NftPersistable(fl.nfts[i])
  }

  /** An NFT that the store keeps exactly as it is: persistable and no null field. */
  predicate NftComplete(n: Nft) {
    NftPersistable(n) && n.collection.Some? && n.contract.Some? && n.name.Some?
    && n.imageUrl.Some? && n.animationUrl.Some? && n.openseaUrl.Some?
  }

  /** A list that the store keeps exactly as it is. */
  predicate ListComplete(fl: FavoritesList) {
    ListPersistable(fl) && forall i | 0 <= i < |fl.nfts| :: NftComplete(fl.nfts[i])
  }

  /** The NFT identifiers of a list, as a set. */
  function Identifiers(nfts: seq<Nft>): (ids: set<Option<string>>)
    ensures forall i | 0 <= i < |nfts| :: nfts[i].identifier in ids
    ensures forall id | id in ids :: exists i | 0 <= i < |nfts| :: nfts[i].identifier == id
  {
    set i | 0 <= i < |nfts| :: nfts[i].identifier
  }

  /** No two NFTs of the list share an identifier. */
  predicate DistinctIdentifiers(nfts: seq<Nft>) {
    forall i, j | 0 <= i < j < |nfts| :: nfts[i].identifier != nfts[j].identifier
  }

  /** No two lists share a ListId. */
  predicate DistinctListIds(favs: seq<FavoritesList>) {
    forall i, j | 0 <= i < j < |favs| :: favs[i].listId != favs[j].listId
  }
}
