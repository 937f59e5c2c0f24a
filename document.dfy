/** The document mapper between a UserFavorites value and the store's item, a map
    of attribute names to a tree of attribute values (map, list and string nodes).
    Encode is the Item of CreatePutItemRequest (Services/FavoritesRepository.cs:378-433),
    with its write filter; Decode is MapDynamoDbItemToUserFavorites (349-370), whose
    dictionary indexer throws on an absent key. */
module Document {
  import opened Wrappers
  import opened Favorites

  /** A stored attribute value. Only the S (string), L (list) and M (map) kinds are
      ever written by the mapper; Other stands for every other kind of the store
      (number, binary, boolean, null, sets). */
  datatype AttrValue =
    | S(s: string)
    | L(items: seq<AttrValue>)
    | M(fields: map<string, AttrValue>)
    | Other

  /** One stored record: the top-level attribute map. */
  type Item = map<string, AttrValue>

  /** Why decoding threw: an absent attribute (KeyNotFoundException from the
      indexer) or a node of the wrong kind where a list or map is needed. */
  datatype DecodeError = MissingAttribute(name: string) | WrongKind(name: string)

  const NftKeys: set<string> :=
    {"Identifier", "Collection", "Contract", "Name", "ImageUrl", "AnimationUrl", "OpenseaUrl"}
  const ListKeys: set<string> := {"ListId", "Name", "Nfts"}

  // ---------------------------------------------------------------------------
  // Encoding (CreatePutItemRequest)
  // ---------------------------------------------------------------------------

  /** An NFT as a map node; every null field is written as the empty string. */
  function EncodeNft(n: Nft): (v: AttrValue)
    ensures v.M? && v.fields.Keys == NftKeys
    ensures forall k | k in v.fields :: v.fields[k].S?
    ensures n.identifier.Some? ==> v.fields["Identifier"] == S(n.identifier.value)
    ensures n.identifier.None? ==> v.fields["Identifier"] == S("")
  {
    M(map[
      "Identifier" := S(OrEmpty(n.identifier)),
      "Collection" := S(OrEmpty(n.collection)),
      "Contract" := S(OrEmpty(n.contract)),
      "Name" := S(OrEmpty(n.name)),
      "ImageUrl" := S(OrEmpty(n.imageUrl)),
      "AnimationUrl" := S(OrEmpty(n.animationUrl)),
      "OpenseaUrl" := S(OrEmpty(n.openseaUrl))])
  }

  /** `Nfts.Where(non-empty Identifier).Select(EncodeNft)` */
  function EncodeNfts(nfts: seq<Nft>): (vs: seq<AttrValue>)
    ensures |vs| <= |nfts|
    ensures (forall i | 0 <= i < |nfts| :: NftPersistable(nfts[i])) ==> |vs| == |nfts|
    ensures forall i | 0 <= i < |vs| :: vs[i].M? && vs[i].fields.Keys == NftKeys
  {
    if nfts == [] then []
    else (if NftPersistable(nfts[0]) then [EncodeNft(nfts[0])] else []) + EncodeNfts(nfts[1..])
  }

  /** A list that passed the filter, as a map node. */
  function EncodeList(fl: FavoritesList): (v: AttrValue)
    requires ListPersistable(fl)
    ensures v.M? && v.fields.Keys == ListKeys
    ensures v.fields["ListId"] == S(fl.listId.value) && v.fields["Name"] == S(fl.name.value)
    ensures v.fields["Nfts"].L?
  {
    M(map["ListId" := S(fl.listId.value), "Name" := S(fl.name.value), "Nfts" := L(EncodeNfts(fl.nfts))])
  }

  /** `Favorites.Where(ListPersistable).Select(EncodeList)` */
  function EncodeLists(favs: seq<FavoritesList>): (vs: seq<AttrValue>)
    ensures |vs| <= |favs|
    ensures (forall i | 0 <= i < |favs| :: ListPersistable(favs[i])) ==> |vs| == |favs|
    ensures forall i | 0 <= i < |vs| :: vs[i].M? && vs[i].fields.Keys == ListKeys
  {
    if favs == [] then []
    else (if ListPersistable(favs[0]) then [EncodeList(favs[0])] else []) + EncodeLists(favs[1..])
  }

  /** The Item of the put request. */
  function Encode(uf: UserFavorites): (item: Item)
    ensures item.Keys == {"UserId", "Favorites"}
    ensures item["UserId"] == S(uf.userId)
    ensures item["Favorites"].L? && |item["Favorites"].items| <= |uf.favorites|
  {
    map["UserId" := S(uf.userId), "Favorites" := L(EncodeLists(uf.favorites))]
  }

  // ---------------------------------------------------------------------------
  // Decoding (MapDynamoDbItemToUserFavorites)
  // ---------------------------------------------------------------------------

  /** `.S` of a node: the string, or null when the node holds another kind. */
  function AsString(v: AttrValue): (r: Option<string>)
    ensures r.Some? <==> v.S?
  {
    if v.S? then Some(v.s) else None
  }

  function DecodeNft(v: AttrValue): (r: Result<Nft, DecodeError>)
    ensures r.Success? <==> v.M? && NftKeys <= v.fields.Keys
    ensures r.Success? ==>
      && r.value.identifier == AsString(v.fields["Identifier"])
      && r.value.collection == AsString(v.fields["Collection"])
      && r.value.contract == AsString(v.fields["Contract"])
      && r.value.name == AsString(v.fields["Name"])
      && r.value.imageUrl == AsString(v.fields["ImageUrl"])
      && r.value.animationUrl == AsString(v.fields["AnimationUrl"])
      && r.value.openseaUrl == AsString(v.fields["OpenseaUrl"])
  {
    if !v.M? then Failure(WrongKind("Nfts"))
    else
      var f := v.fields;
      if "Identifier" !in f then Failure(MissingAttribute("Identifier"))
      else if "Collection" !in f then Failure(MissingAttribute("Collection"))
      else if "Contract" !in f then Failure(MissingAttribute("Contract"))
      else if "Name" !in f then Failure(MissingAttribute("Name"))
      else if "ImageUrl" !in f then Failure(MissingAttribute("ImageUrl"))
      else if "AnimationUrl" !in f then Failure(MissingAttribute("AnimationUrl"))
      else if "OpenseaUrl" !in f then Failure(MissingAttribute("OpenseaUrl"))
      else Success(Nft(
        AsString(f["Identifier"]), AsString(f["Collection"]), AsString(f["Contract"]),
        AsString(f["Name"]), AsString(f["ImageUrl"]), AsString(f["AnimationUrl"]),
        AsString(f["OpenseaUrl"])))
  }

  /** Decodes every element in order; the first element that fails fails the whole. */
  function DecodeNfts(vs: seq<AttrValue>): (r: Result<seq<Nft>, DecodeError>)
    ensures r.Success? <==> forall i | 0 <= i < |vs| :: DecodeNft(vs[i]).Success?
    ensures r.Success? ==> |r.value| == |vs|
    ensures r.Success? ==> forall i | 0 <= i < |vs| :: r.value[i] == DecodeNft(vs[i]).value
  {
    if vs == [] then Success([])
    else match DecodeNft(vs[0])
      case Failure(e) => Failure(e)
      case Success(n) =>
        match DecodeNfts(vs[1..])
        case Failure(e) => Failure(e)
        case Success(ns) => Success([n] + ns)
  }

  function DecodeList(v: AttrValue): (r: Result<FavoritesList, DecodeError>)
    ensures r.Success? <==>
      v.M? && ListKeys <= v.fields.Keys && v.fields["Nfts"].L? && DecodeNfts(v.fields["Nfts"].items).Success?
    ensures r.Success? ==> r.value.listId == AsString(v.fields["ListId"])
    ensures r.Success? ==> r.value.name == AsString(v.fields["Name"])
    ensures r.Success? ==> r.value.nfts == DecodeNfts(v.fields["Nfts"].items).value
  {
    if !v.M? then Failure(WrongKind("Favorites"))
    else
      var f := v.fields;
      if "ListId" !in f then Failure(MissingAttribute("ListId"))
      else if "Name" !in f then Failure(MissingAttribute("Name"))
      else if "Nfts" !in f then Failure(MissingAttribute("Nfts"))
      else if !f["Nfts"].L? then Failure(WrongKind("Nfts"))
      else match DecodeNfts(f["Nfts"].items)
        case Failure(e) => Failure(e)
        case Success(nfts) => Success(FavoritesList(AsString(f["ListId"]), AsString(f["Name"]), nfts))
  }

  function DecodeLists(vs: seq<AttrValue>): (r: Result<seq<FavoritesList>, DecodeError>)
    ensures r.Success? <==> forall i | 0 <= i < |vs| :: DecodeList(vs[i]).Success?
    ensures r.Success? ==> |r.value| == |vs|
    ensures r.Success? ==> forall i | 0 <= i < |vs| :: r.value[i] == DecodeList(vs[i]).value
  {
    if vs == [] then Success([])
    else match DecodeList(vs[0])
      case Failure(e) => Failure(e)
      case Success(fl) =>
        match DecodeLists(vs[1..])
        case Failure(e) => Failure(e)
        case Success(fls) => Success([fl] + fls)
  }

  /** The stored record as a document. The partition key UserId is a string in
      every record of the table, so a UserId of another kind counts as corrupt. */
  function Decode(item: Item): (r: Result<UserFavorites, DecodeError>)
    ensures "UserId" !in item || "Favorites" !in item ==> r.Failure?
    ensures r.Success? <==>
      "UserId" in item && item["UserId"].S? && "Favorites" in item && item["Favorites"].L?
      && DecodeLists(item["Favorites"].items).Success?
    ensures r.Success? ==> r.value.userId == item["UserId"].s
    ensures r.Success? ==> r.value.favorites == DecodeLists(item["Favorites"].items).value
  {
    if "UserId" !in item then Failure(MissingAttribute("UserId"))
    else if !item["UserId"].S? then Failure(WrongKind("UserId"))
    else if "Favorites" !in item then Failure(MissingAttribute("Favorites"))
    else if !item["Favorites"].L? then Failure(WrongKind("Favorites"))
    else match DecodeLists(item["Favorites"].items)
      case Failure(e) => Failure(e)
      case Success(favs) => Success(UserFavorites(item["UserId"].s, favs))
  }

  // ---------------------------------------------------------------------------
  // What the store keeps of a document
  // ---------------------------------------------------------------------------

  /** An NFT after the encoder has written its null fields as "". */
  function PersistNft(n: Nft): (p: Nft)
    ensures NftPersistable(n) ==> NftComplete(p) && p.identifier == n.identifier
    ensures NftComplete(n) ==> p == n
  {
    Nft(Some(OrEmpty(n.identifier)), Some(OrEmpty(n.collection)), Some(OrEmpty(n.contract)),
        Some(OrEmpty(n.name)), Some(OrEmpty(n.imageUrl)), Some(OrEmpty(n.animationUrl)),
        Some(OrEmpty(n.openseaUrl)))
  }

  /** The NFTs of a kept list that the store keeps, in their order. */
  function PersistedNfts(nfts: seq<Nft>): (ps: seq<Nft>)
    ensures forall i | 0 <= i < |ps| :: NftComplete(ps[i])
    ensures forall n | n in nfts && NftPersistable(n) :: PersistNft(n) in ps
    ensures forall p | p in ps :: exists n | n in nfts :: NftPersistable(n) && p == PersistNft(n)
  {
    if nfts == [] then []
    else (if NftPersistable(nfts[0]) then [PersistNft(nfts[0])] else []) + PersistedNfts(nfts[1..])
  }

  function PersistList(fl: FavoritesList): FavoritesList {
    FavoritesList(fl.listId, fl.name, PersistedNfts(fl.nfts))
  }

  /** The lists the store keeps, in their order. */
  function PersistedLists(favs: seq<FavoritesList>): (ps: seq<FavoritesList>)
    ensures forall i | 0 <= i < |ps| :: NonEmpty(ps[i].listId) && NonEmpty(ps[i].name)
    ensures forall fl | fl in favs && ListPersistable(fl) :: PersistList(fl) in ps
    ensures forall p | p in ps :: exists fl | fl in favs :: ListPersistable(fl) && p == PersistList(fl)
  {
    if favs == [] then []
    else (if ListPersistable(favs[0]) then [PersistList(favs[0])] else []) + PersistedLists(favs[1..])
  }

  /** The document that decoding the put item gives back. */
  function Persisted(uf: UserFavorites): UserFavorites {
    UserFavorites(uf.userId, PersistedLists(uf.favorites))
  }

  // ---------------------------------------------------------------------------
  // Laws
  // ---------------------------------------------------------------------------

  lemma DecodeEncodeNft(n: Nft)
    ensures DecodeNft(EncodeNft(n)) == Success(PersistNft(n))
  {
  }

  lemma {:induction false} DecodeEncodeNfts(nfts: seq<Nft>)
    ensures DecodeNfts(EncodeNfts(nfts)) == Success(PersistedNfts(nfts))
  {
    if nfts != [] {
      DecodeEncodeNfts(nfts[1..]);
      var head := if NftPersistable(nfts[0]) then [EncodeNft(nfts[0])] else [];
      var vs := head + EncodeNfts(nfts[1..]);
      assert EncodeNfts(nfts) == vs;
      if NftPersistable(nfts[0]) {
        DecodeEncodeNft(nfts[0]);
        assert vs[0] == EncodeNft(nfts[0]) && vs[1..] == EncodeNfts(nfts[1..]);
        assert PersistedNfts(nfts) == [PersistNft(nfts[0])] + PersistedNfts(nfts[1..]);
      } else {
        assert vs == EncodeNfts(nfts[1..]);
        assert PersistedNfts(nfts) == PersistedNfts(nfts[1..]);
      }
    }
  }

  lemma DecodeEncodeList(fl: FavoritesList)
    requires ListPersistable(fl)
    ensures DecodeList(EncodeList(fl)) == Success(PersistList(fl))
  {
    DecodeEncodeNfts(fl.nfts);
  }

  lemma {:induction false} DecodeEncodeLists(favs: seq<FavoritesList>)
    ensures DecodeLists(EncodeLists(favs)) == Success(PersistedLists(favs))
  {
    if favs != [] {
      DecodeEncodeLists(favs[1..]);
      var head := if ListPersistable(favs[0]) then [EncodeList(favs[0])] else [];
      var vs := head + EncodeLists(favs[1..]);
      assert EncodeLists(favs) == vs;
      if ListPersistable(favs[0]) {
        DecodeEncodeList(favs[0]);
        assert vs[0] == EncodeList(favs[0]) && vs[1..] == EncodeLists(favs[1..]);
        assert PersistedLists(favs) == [PersistList(favs[0])] + PersistedLists(favs[1..]);
      } else {
        assert vs == EncodeLists(favs[1..]);
        assert PersistedLists(favs) == PersistedLists(favs[1..]);
      }
    }
  }

  /** Decoding the put item gives back the filtered document with null NFT
      fields read as "". */
  lemma RoundTrip(uf: UserFavorites)
    ensures Decode(Encode(uf)) == Success(Persisted(uf))
  {
    DecodeEncodeLists(uf.favorites);
  }

  lemma {:induction false} PersistedNftsComplete(nfts: seq<Nft>)
    requires forall i | 0 <= i < |nfts| :: NftComplete(nfts[i])
    ensures PersistedNfts(nfts) == nfts
  {
    if nfts != [] {
      PersistedNftsComplete(nfts[1..]);
    }
  }

  lemma {:induction false} PersistedListsComplete(favs: seq<FavoritesList>)
    requires forall i | 0 <= i < |favs| :: ListComplete(favs[i])
    ensures PersistedLists(favs) == favs
  {
    if favs != [] {
      PersistedNftsComplete(favs[0].nfts);
      PersistedListsComplete(favs[1..]);
    }
  }

  /** The round trip is exact when every list passes the filter and every NFT
      field is non-null and every Identifier non-empty. */
  lemma RoundTripComplete(uf: UserFavorites)
    requires forall i | 0 <= i < |uf.favorites| :: ListComplete(uf.favorites[i])
    ensures Decode(Encode(uf)) == Success(uf)
  {
    RoundTrip(uf);
    PersistedListsComplete(uf.favorites);
  }

  /** The filter keeps the relative order: it distributes over concatenation. */
  lemma {:induction false} PersistedListsAppend(a: seq<FavoritesList>, b: seq<FavoritesList>)
    ensures PersistedLists(a + b) == PersistedLists(a) + PersistedLists(b)
  {
    if a == [] {
      assert a + b == b;
    } else {
      var head := if ListPersistable(a[0]) then [PersistList(a[0])] else [];
      calc {
        PersistedLists(a + b);
        { assert (a + b)[0] == a[0] && (a + b)[1..] == a[1..] + b; }
        head + PersistedLists(a[1..] + b);
        { PersistedListsAppend(a[1..], b); }
        head + (PersistedLists(a[1..]) + PersistedLists(b));
        (head + PersistedLists(a[1..])) + PersistedLists(b);
      }
    }
  }

  /** The NFT filter keeps the relative order: it distributes over concatenation. */
  lemma {:induction false} PersistedNftsAppend(a: seq<Nft>, b: seq<Nft>)
    ensures PersistedNfts(a + b) == PersistedNfts(a) + PersistedNfts(b)
  {
    if a == [] {
      assert a + b == b;
    } else {
      var head := if NftPersistable(a[0]) then [PersistNft(a[0])] else [];
      calc {
        PersistedNfts(a + b);
        { assert (a + b)[0] == a[0] && (a + b)[1..] == a[1..] + b; }
        head + PersistedNfts(a[1..] + b);
        { PersistedNftsAppend(a[1..], b); }
        head + (PersistedNfts(a[1..]) + PersistedNfts(b));
        (head + PersistedNfts(a[1..])) + PersistedNfts(b);
      }
    }
  }

  /** The list filter counts NFTs before they are filtered: a list whose only NFT
      has an empty Identifier is persisted with no NFTs, and the next write drops
      it, so writing what was read back is not always a no-op. */
  lemma ListWithoutNftsCanBePersisted()
    ensures var n := Nft(Some(""), None, None, None, None, None, None);
            var fl := FavoritesList(Some("L"), Some("N"), [n]);
            PersistedLists([fl]) == [FavoritesList(Some("L"), Some("N"), [])]
            && PersistedLists(PersistedLists([fl])) == []
  {
    var n := Nft(Some(""), None, None, None, None, None, None);
    var fl := FavoritesList(Some("L"), Some("N"), [n]);
    assert PersistedNfts([n]) == [];
    assert PersistedLists([fl]) == [PersistList(fl)];
  }
}
