# Favorites repository — a verified model

This project models the favorites persistence engine of the Trnkt NFT service: the
class `FavoritesRepository` (`Services/FavoritesRepository.cs`). The class keeps one
record per user in a DynamoDB table. A record holds the user's favorites document: a
`UserId` and a list of named favorites lists, each holding NFT references. The class
also keeps an in-process cache of documents.

The model has six modules, one file each:

- `wrappers.dfy` (`Wrappers`): `Option` stands for a C# reference that may be null. `Result` stands for a call that returns or throws.
- `favorites.dfy` (`Favorites`): the persisted fields of `Nft`, `FavoritesList` and `UserFavorites` as datatypes. It also holds the first-match lookups the repository uses (`FirstOrDefault`, `FindIndex`) and the encoder's write filter as predicates.
- `document.dfy` (`Document`): the store's attribute tree (`S`, `L` and `M` nodes). `Encode` builds the item of `CreatePutItemRequest`, including its write filter. `Decode` is `MapDynamoDbItemToUserFavorites`, whose dictionary indexer throws on an absent key. `Persisted` describes what the store keeps of a document, and the round-trip laws connect the three.
- `reconcile.dfy` (`Reconciliation`): the merge of submitted lists into the stored document, keyed by `ListId`. `Step` is one iteration of the `foreach` and `Reconcile` is the whole loop as a left fold. The module also holds the change test, and laws on when a submission changes nothing and when a second submission is a no-op.
- `deletion.dfy` (`Deletion`): the index-based `REMOVE` requests of the two delete operations, and the effect of such a request on a stored item. The laws say that removing by index from the item removes that list or NFT from the decoded document.
- `repository.dfy` (`Repository`): the class `FavoritesRepository`. It has a `store` field (the table, a map from UserId to item) and a `cache` field (`_cache`), and the methods `GetFavorites`, `UpdateFavorites`, `DeleteFavoritesList` and `DeleteNftFromFavoritesList`. The loop of `UpdateFavoritesAsync` is the method `ReconcileLists`, proved against `Reconcile`.

Each store call's outcome is a boolean parameter:

- `getOk` is false where GetItem throws.
- `putOk` is false where PutItem throws.
- `updateOk` is false where UpdateItem throws or answers a failure status.

A thrown exception that the source rethrows is a `Failure` result. One that it catches and turns into `false` or `null` is that value.

Where the code decides something differently from the repository's documented intent, the model follows the code:

- **Aliasing of the cache.** `GetFavoritesAsync` caches the decoded document object (line 117). `UpdateFavoritesAsync` then changes that same object in place (lines 167-168 and 176). So when a stored record exists, the cache holds the reconciled document even when the later put fails. `UpdateFavorites` states this (`cache == old(cache)[userId := doc]` on that path). Without a stored record, the default document is not cached and a failed put leaves the cache as it was.
- **Empty lists can be stored.** The write filter counts a list's NFTs before it filters them. A list whose NFTs all have empty identifiers is stored with no NFTs (`ListWithoutNftsCanBePersisted`).
- **Missing keys throw.** The mapper throws on every absent key, including `OpenseaUrl` and the other optional NFT fields, instead of defaulting them (`DecodeNft`, `Decode`).
- **Deletes leave the cache alone.** Neither delete touches the cache.
- **Resubmission only settles lists the filter keeps whole.** A submitted list that the filter drops is appended again, and written again, by every resubmission (`DroppedListRewrittenEachTime`).
- **The change test can miss an added NFT.** It compares counts and asks only that every stored identifier be submitted. With a duplicate identifier in the stored list, an added NFT goes unnoticed (`AddedNftMissedWithDuplicates`).

## Model

| member | source | states |
|---|---|---|
| Favorites.OrEmpty | Services/FavoritesRepository.cs:414-420 | `s ?? string.Empty`: the string itself when not null, the empty string for null |
| Favorites.FindList | Services/FavoritesRepository.cs:443-447 | the index of the first list whose ListId equals the key; None exactly when no list has that ListId |
| Favorites.FindNft | Services/FavoritesRepository.cs:450-455 | the index of the first NFT whose Identifier equals the key; None exactly when no NFT has it |
| Favorites.ListPersistable | Services/FavoritesRepository.cs:389-393 | the list filter: a non-empty ListId, a non-empty Name and at least one NFT |
| Favorites.NftPersistable | Services/FavoritesRepository.cs:406-407 | the NFT filter: a non-empty Identifier |
| Favorites.Identifiers | Services/FavoritesRepository.cs:156-157 | the set of identifiers of a list: every NFT's identifier is in it, and every member is some NFT's identifier |
| Document.EncodeNft | Services/FavoritesRepository.cs:412-421 | an NFT is a map node with exactly the seven keys, all strings, with the Identifier (or "" for null) under "Identifier" |
| Document.EncodeNfts | Services/FavoritesRepository.cs:404-424 | the filter never adds NFTs and keeps all of them when every identifier is non-empty; each kept node has the seven keys |
| Document.EncodeList | Services/FavoritesRepository.cs:396-426 | a kept list is a map node with exactly ListId, Name and Nfts, carrying the list's ListId and Name as strings |
| Document.EncodeLists | Services/FavoritesRepository.cs:386-429 | the list filter never adds lists and keeps all of them when every list passes it; each kept node has the three keys |
| Document.Encode | Services/FavoritesRepository.cs:378-433 | the put item has exactly the keys UserId (the document's UserId as a string) and Favorites (a list no longer than the document's) |
| Document.AsString | Services/FavoritesRepository.cs:356-364 | `.S` gives a string exactly on a string node, null otherwise |
| Document.DecodeNft | Services/FavoritesRepository.cs:359-367 | an NFT decodes exactly when its node is a map holding all seven keys, and each of its seven fields is `.S` of the node under that key |
| Document.DecodeNfts | Services/FavoritesRepository.cs:358-367 | a list of NFT nodes decodes exactly when every node does, into the same number of NFTs, in order |
| Document.DecodeList | Services/FavoritesRepository.cs:354-368 | a list node decodes exactly when it is a map with ListId, Name and a list of NFTs that decodes, and it carries those values |
| Document.DecodeLists | Services/FavoritesRepository.cs:354-368 | the Favorites list decodes exactly when every entry does, into the same number of lists, in order |
| Document.Decode | Services/FavoritesRepository.cs:349-370 | an item decodes exactly when UserId is a string, Favorites a list and every entry decodes; the document carries that UserId and exactly the decoded entries, in order; an absent UserId or Favorites throws |
| Document.PersistNft | Services/FavoritesRepository.cs:412-421 | what the store keeps of a kept NFT has no null field and the same identifier; a complete NFT is kept as it is |
| Document.PersistedNfts | Services/FavoritesRepository.cs:404-424 | the store keeps exactly the NFTs with a non-empty identifier, each with its null fields made empty |
| Document.PersistedLists | Services/FavoritesRepository.cs:386-429 | the store keeps exactly the lists with non-empty ListId and Name and at least one NFT |
| Document.DecodeEncodeNft | Services/FavoritesRepository.cs:349-433 | decoding an encoded NFT gives what the store keeps of it |
| Document.DecodeEncodeNfts | Services/FavoritesRepository.cs:349-433 | decoding encoded NFTs gives what the store keeps of them, in order |
| Document.DecodeEncodeList | Services/FavoritesRepository.cs:349-433 | decoding an encoded kept list gives what the store keeps of it |
| Document.DecodeEncodeLists | Services/FavoritesRepository.cs:349-433 | decoding encoded lists gives what the store keeps of them, in order |
| Document.RoundTrip | Services/FavoritesRepository.cs:349-433 | decoding the put item always succeeds, and gives the persisted form of the document |
| Document.PersistedNftsComplete | Services/FavoritesRepository.cs:404-424 | NFTs with no null field and non-empty identifiers are kept exactly |
| Document.PersistedListsComplete | Services/FavoritesRepository.cs:386-429 | lists that pass the filter and hold only complete NFTs are kept exactly |
| Document.RoundTripComplete | Services/FavoritesRepository.cs:349-433 | when every list passes the filter and every NFT field is set, decoding the put item gives back the document itself |
| Document.PersistedNftsAppend | Services/FavoritesRepository.cs:405-423 | the NFT filter works NFT by NFT and keeps the order: persisting a concatenation concatenates the results |
| Document.PersistedListsAppend | Services/FavoritesRepository.cs:386-393 | the filter works list by list and keeps the order: persisting a concatenation concatenates the results |
| Document.ListWithoutNftsCanBePersisted | Services/FavoritesRepository.cs:389-408 | a list whose only NFT has an empty identifier is stored with no NFTs, and a second write drops it |
| Reconciliation.AllSubmitted | Services/FavoritesRepository.cs:157 | every stored NFT's identifier is carried by some submitted NFT |
| Reconciliation.NftsDiffer | Services/FavoritesRepository.cs:156-157 | the NFT change test: the counts differ or some stored identifier is not submitted |
| Reconciliation.NeedsUpdate | Services/FavoritesRepository.cs:160 | the whole change test: the names differ or the NFT test fires |
| Reconciliation.Step | Services/FavoritesRepository.cs:151-179 | an unknown ListId is appended; the first match is overwritten by the submitted list exactly when the change test fires; every other list keeps its value and place; the flag is set exactly when the list was not yet settled |
| Reconciliation.Reconcile | Services/FavoritesRepository.cs:145-180 | an unmodified result is the input document; existing lists keep their ListIds and places; lists only get appended, and only from the submission |
| Reconciliation.ReconcileKeepsUntouched | Services/FavoritesRepository.cs:149-180 | over the whole loop, a list keeps its value and place unless a submission names its ListId and it is the first list with that ListId; so every list no submission names is unchanged |
| Reconciliation.NftsDifferBySets | Services/FavoritesRepository.cs:156-157 | the NFT test fires exactly when the counts differ or some stored identifier is not among the submitted ones |
| Reconciliation.SameIdentifiersWhenNotDiffering | Services/FavoritesRepository.cs:156-157 | with distinct stored identifiers, a list that passes the test has exactly the submitted identifier set |
| Reconciliation.AddedNftMissedWithDuplicates | Services/FavoritesRepository.cs:156-157 | with a duplicate stored identifier, a list with a different identifier set passes the test |
| Reconciliation.NotDifferingFromItself | Services/FavoritesRepository.cs:156-157 | a list of NFTs never differs from itself |
| Reconciliation.StepKeepsOtherLookups | Services/FavoritesRepository.cs:151-179 | a step leaves the first match of every other ListId, and that list, unchanged |
| Reconciliation.StepSettles | Services/FavoritesRepository.cs:151-179 | after its step a submitted list is settled: found by ListId and passing the change test |
| Reconciliation.StepKeepsSettled | Services/FavoritesRepository.cs:151-179 | a step for one ListId keeps a list of another ListId settled |
| Reconciliation.UnchangedIffAllSettled | Services/FavoritesRepository.cs:145-183 | a submission sets no flag, and so no put follows, exactly when every submitted list is already settled in the document |
| Reconciliation.NewListIdModifies | Services/FavoritesRepository.cs:173-178 | a submitted ListId absent from the document always sets the modified flag |
| Reconciliation.ReconcileSettlesAll | Services/FavoritesRepository.cs:145-180 | with distinct submitted ListIds, every submitted list is settled in the result |
| Reconciliation.ReconcileIdempotent | Services/FavoritesRepository.cs:145-183 | with distinct submitted ListIds, reconciling the result again with the same submission changes nothing and sets no flag |
| Reconciliation.SettledSurvivesPersist | Services/FavoritesRepository.cs:386-429 | a settled list whose submission the filter keeps whole is still settled in what the store keeps |
| Reconciliation.ResubmitAfterPersistUnchanged | Services/FavoritesRepository.cs:145-193 | after the reconciled document is stored, the same submission against what the store keeps sets no flag, when ListIds are distinct and every list is kept whole |
| Reconciliation.DroppedListRewrittenEachTime | Services/FavoritesRepository.cs:173-193 | a submitted list without NFTs is appended and flags a write, yet the store keeps none of it |
| Deletion.RemoveAt | Services/FavoritesRepository.cs:256 | REMOVE at an index: one element fewer, the earlier ones in place, the later ones moved down by one |
| Deletion.RemoveNftAt | Services/FavoritesRepository.cs:458 | removing NFT n of list k changes only that list's NFTs, and keeps its ListId and Name |
| Deletion.ListRemovalRequest | Services/FavoritesRepository.cs:248-272 | no request exactly when no list has the ListId; otherwise a conditional REMOVE of the first list with it, keyed by the given UserId |
| Deletion.CreateUpdateItemRequest | Services/FavoritesRepository.cs:436-475 | a request removes the first NFT with the Identifier from the first list with the ListId, keyed by the document's UserId, without condition |
| Deletion.NoNftRemovalRequest | Services/FavoritesRepository.cs:443-455 | no request exactly when no list has the ListId or the first such list holds no NFT with the Identifier |
| Deletion.ApplyRemove | Services/FavoritesRepository.cs:256-272 | a removal changes only the Favorites attribute of the item and keeps its keys |
| Deletion.RemoveListFromRecord | Services/FavoritesRepository.cs:256-275 | removing list k from a record that decodes succeeds, and the result decodes to the document without its k-th list |
| Deletion.RemoveNftFromRecord | Services/FavoritesRepository.cs:458-474 | removing NFT n of list k succeeds, and the result decodes to the document in which only list k lost its n-th NFT |
| Repository.HasRecord | Services/FavoritesRepository.cs:92 | a record exists: GetItem answers an item with at least one attribute |
| Repository.DefaultFavorites | Services/FavoritesRepository.cs:95-106 | the default document: the requested UserId and one list, "Default-List" named "Favorites 1", with no NFTs |
| Repository.LoadFavorites | Services/FavoritesRepository.cs:67-125 | a failed read throws; no record gives the default document; a record gives its decoding, or throws when it is corrupt; the document carries the requested UserId |
| Repository.LoadStored | Services/FavoritesRepository.cs:34-63 | null for a failed read, a missing record or a corrupt record; otherwise the same document LoadFavorites gives |
| Repository.ReconcileLists | Services/FavoritesRepository.cs:145-180 | the loop over the submitted array computes exactly Reconcile of the loaded lists and the submission |
| Repository.FavoritesRepository.constructor | Services/FavoritesRepository.cs:22-31 | a new repository over a table, with an empty cache |
| Repository.FavoritesRepository.GetFavorites | Services/FavoritesRepository.cs:67-125 | answers LoadFavorites; caches the document only when a record was found and decoded |
| Repository.FavoritesRepository.UpdateFavorites | Services/FavoritesRepository.cs:129-206 | null lists: null, nothing changes; failed read: rethrow, nothing changes; unmodified: the loaded document, no put; modified: put of the reconciled document and cache it, or rethrow on a failed put with the store unchanged |
| Repository.FavoritesRepository.WriteBack | Services/FavoritesRepository.cs:183-205 | a put only when modified; the cache holds the reconciled document after a put, and after any outcome when the read had cached it |
| Repository.FavoritesRepository.DeleteFavoritesList | Services/FavoritesRepository.cs:235-291 | true exactly when the record is found, holds the ListId and the update succeeds; then the next read gives the document without its first list of that ListId; otherwise the store is unchanged; the cache is never touched |
| Repository.FavoritesRepository.DeleteNftFromFavoritesList | Services/FavoritesRepository.cs:295-344 | true exactly when the record, the list and the NFT are found and the update succeeds; then only that NFT is gone from that list; otherwise the store is unchanged |
| Repository.ReadAfterPut | Services/FavoritesRepository.cs:186-191 | a put keeps every record under its own UserId, and the next read answers the persisted form of the put document |
| Repository.ResubmissionIssuesNoPut | Services/FavoritesRepository.cs:129-206 | after one update, the same submission against the store's new state sets no flag and issues no put, when ListIds are distinct and every list is kept whole |
| Repository.NewUserSubmitsTwice | Services/FavoritesRepository.cs:92-193 | for any NFT with an identifier: a new user's first submission gives the default list and theirs; the store keeps only theirs, with null NFT fields written as "", and the second submission changes nothing and issues no put |

## Left out

- The DynamoDB SDK calls, their HTTP status checks and the logging in the catch paths are not modelled. Each call's outcome is a boolean parameter. The two deletes test the status differently (`!= OK` and `< 300`), and both reduce to `updateOk`.
- `DeleteUserFavoritesAsync` is not modelled: it is a single pass-through delete call.
- `SerializeAttributeValue` and `LogAttributeValue` are not modelled: they only log to the console.
- async/await and concurrent requests are not modelled. The model is sequential, so the lost update between two read-modify-write cycles of one user is not captured.
- Null submitted lists, null `Nfts` collections and null NFT entries inside a list are not modelled. The source throws on some of these and filters others; the model's sequences hold no nulls.
- `FavoritesList.UserId` is left out because it is never stored or read. The NFT properties that are never persisted (traits, owners, rarity and the rest) are left out for the same reason.
- A stored `UserId` that is not a string is treated as a corrupt record. The table's key schema makes it a string.
- `.L` or `.M` on a node of the wrong kind is treated as a throw. Some SDK versions answer an empty list or map there instead.
- The cache-read path of `GetFavoritesAsync` and `InvalidateCache` are not modelled: both are commented out in the source. The `?? new UserFavorites` fallback of `UpdateFavoritesAsync` is not modelled either, because `GetFavoritesAsync` never answers null.
- The controllers, `NftService`, `DynamoDbService`, `IFavoritesRepository` and the hosting setup are not part of this model.
- Reconciliation.ReconcileIdempotent: assumes the submitted ListIds are distinct. With a repeated ListId, later entries overwrite earlier ones and a second pass can still flag a change.
- Repository.ResubmissionIssuesNoPut: assumes distinct ListIds and that the filter keeps every submitted list whole. Otherwise the second call can write again, as DroppedListRewrittenEachTime shows.
- Repository.FavoritesRepository.UpdateFavorites: the cached object is changed once after the loop instead of at each in-place change. Nothing reads the cache in between, so the final state is the same.
