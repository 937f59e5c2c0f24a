/** The reconciliation at the heart of UpdateFavoritesAsync
    (Services/FavoritesRepository.cs:145-180): each submitted list, in order, is
    looked up by ListId (first match); an unknown ListId is appended, a known one is
    overwritten with the submitted Name and Nfts when the change test says it
    differs. Reconcile is the specification of the repository's loop. */
module Reconciliation {
  import opened Wrappers
  import opened Favorites
  import opened Document

  /** `existing.All(nft => submitted.Any(u => u.Identifier == nft.Identifier))` */
  predicate AllSubmitted(existing: seq<Nft>, submitted: seq<Nft>) {
    forall nft | nft in existing :: exists u | u in submitted :: u.identifier == nft.identifier
  }

  /** The NFT change test of lines 156-157: different counts, or some existing
      identifier that no submitted NFT carries. */
  predicate NftsDiffer(existing: seq<Nft>, submitted: seq<Nft>) {
    |existing| != |submitted| || !AllSubmitted(existing, submitted)
  }

  /** The whole change test of line 160. */
  predicate NeedsUpdate(existing: FavoritesList, submitted: FavoritesList) {
    existing.name != submitted.name || NftsDiffer(existing.nfts, submitted.nfts)
  }

  /** The submitted list is already reflected in `favs`: its ListId is present and
      its first match passes the change test. */
  predicate Settled(favs: seq<FavoritesList>, u: FavoritesList) {
    var k := FindList(favs, u.listId);
    k.Some? && !NeedsUpdate(favs[k.value], u)
  }

  /** One iteration of the foreach over the submitted lists: the new Favorites and
      whether this list set the modified flag. */
  function Step(favs: seq<FavoritesList>, u: FavoritesList): (r: (seq<FavoritesList>, bool))
    ensures r.1 <==> !Settled(favs, u)
    ensures FindList(favs, u.listId).None? ==> r.0 == favs + [u]
    ensures FindList(favs, u.listId).Some? ==>
      var k := FindList(favs, u.listId).value;
      && |r.0| == |favs|
      && r.0[k] == (if r.1 then u else favs[k])
      && forall j | 0 <= j < |favs| && j != k :: r.0[j] == favs[j]
  {
    match FindList(favs, u.listId)
    case None => (favs + [u], true)
    case Some(k) =>
      if NeedsUpdate(favs[k], u) then
        (favs[k := FavoritesList(favs[k].listId, u.name, u.nfts)], true)
      else (favs, false)
  }

  /** The loop over the submitted lists, as a left fold: the final Favorites and
      the isModified flag. */
  function Reconcile(favs: seq<FavoritesList>, subs: seq<FavoritesList>): (r: (seq<FavoritesList>, bool))
    decreases |subs|
    ensures !r.1 ==> r.0 == favs
    ensures |favs| <= |r.0|
    ensures forall j | 0 <= j < |favs| :: r.0[j].listId == favs[j].listId
    ensures forall j | |favs| <= j < |r.0| :: r.0[j] in subs
  {
    if subs == [] then (favs, false)
    else
      var prev := Reconcile(favs, subs[..|subs| - 1]);
      var next := Step(prev.0, subs[|subs| - 1]);
      (next.0, prev.1 || next.1)
  }

  // ---------------------------------------------------------------------------
  // The change test
  // ---------------------------------------------------------------------------

  lemma NftsDifferBySets(existing: seq<Nft>, submitted: seq<Nft>)
    ensures NftsDiffer(existing, submitted) <==>
      |existing| != |submitted| || !(Identifiers(existing) <= Identifiers(submitted))
  {
    if Identifiers(existing) <= Identifiers(submitted) {
      forall nft | nft in existing ensures exists u | u in submitted :: u.identifier == nft.identifier {
        var i :| 0 <= i < |existing| && existing[i] == nft;
        assert nft.identifier in Identifiers(submitted);
      }
    }
  }

  lemma {:induction false} IdentifiersCard(nfts: seq<Nft>)
    ensures |Identifiers(nfts)| <= |nfts|
    ensures DistinctIdentifiers(nfts) ==> |Identifiers(nfts)| == |nfts|
  {
    if nfts != [] {
      var init := nfts[..|nfts| - 1];
      var last := nfts[|nfts| - 1].identifier;
      IdentifiersCard(init);
      assert Identifiers(nfts) == Identifiers(init) + {last} by {
        forall id | id in Identifiers(nfts) ensures id in Identifiers(init) + {last} {
          var i :| 0 <= i < |nfts| && nfts[i].identifier == id;
          if i < |nfts| - 1 { assert init[i] == nfts[i]; }
        }
      }
      if DistinctIdentifiers(nfts) {
        assert last !in Identifiers(init);
      }
    }
  }

  /** When the stored list has no duplicate identifiers, passing the NFT change
      test means the two lists carry exactly the same identifiers. */
  lemma SameIdentifiersWhenNotDiffering(existing: seq<Nft>, submitted: seq<Nft>)
    requires DistinctIdentifiers(existing)
    requires !NftsDiffer(existing, submitted)
    ensures Identifiers(existing) == Identifiers(submitted)
  {
    IdentifiersCard(existing);
    IdentifiersCard(submitted);
    NftsDifferBySets(existing, submitted);
    var a, b := Identifiers(existing), Identifiers(submitted);
    assert a <= b;
    assert b == a + (b - a) && a !! (b - a);
    assert |b| == |a| + |b - a|;
    assert |b - a| == 0;
  }

  /** With a duplicate identifier in the stored list, an NFT added by the client
      goes unnoticed: the counts agree and every stored identifier is submitted. */
  lemma AddedNftMissedWithDuplicates()
    ensures var x := Nft(Some("x"), None, None, None, None, None, None);
            var y := Nft(Some("y"), None, None, None, None, None, None);
            !NftsDiffer([x, x], [x, y]) && Identifiers([x, x]) != Identifiers([x, y])
  {
    var x := Nft(Some("x"), None, None, None, None, None, None);
    var y := Nft(Some("y"), None, None, None, None, None, None);
    assert [x, y][0] == x && [x, y][1] == y;
    assert Some("y") in Identifiers([x, y]);
    assert Some("y") !in Identifiers([x, x]);
  }

  lemma NotDifferingFromItself(nfts: seq<Nft>)
    ensures !NftsDiffer(nfts, nfts)
  {
    NftsDifferBySets(nfts, nfts);
  }

  // ---------------------------------------------------------------------------
  // First-match lookups under the changes a step makes
  // ---------------------------------------------------------------------------

  lemma FindListSameIds(f: seq<FavoritesList>, g: seq<FavoritesList>, id: Option<string>)
    requires |f| == |g| && forall j | 0 <= j < |f| :: f[j].listId == g[j].listId
    ensures FindList(f, id) == FindList(g, id)
  {
  }

  lemma FindListAppend(f: seq<FavoritesList>, x: FavoritesList, id: Option<string>)
    ensures FindList(f, id).Some? ==> FindList(f + [x], id) == FindList(f, id)
    ensures FindList(f, id).None? && x.listId == id ==> FindList(f + [x], id) == Some(|f|)
    ensures FindList(f, id).None? && x.listId != id ==> FindList(f + [x], id).None?
  {
    var g := f + [x];
    if FindList(f, id).Some? {
      var k := FindList(f, id).value;
      forall j | 0 <= j < k ensures g[j].listId != id { assert g[j] == f[j]; }
      assert g[k] == f[k];
      FirstMatchIsFound(g, id, k);
    } else if x.listId == id {
      forall j | 0 <= j < |f| ensures g[j].listId != id { assert g[j] == f[j]; }
      assert g[|f|] == x;
      FirstMatchIsFound(g, id, |f|);
    } else {
      forall j | 0 <= j < |g| ensures g[j].listId != id {
        if j < |f| { assert g[j] == f[j]; } else { assert g[j] == x; }
      }
    }
  }

  /** A list with the ListId and none before it is the one FindList finds. */
  lemma FirstMatchIsFound(g: seq<FavoritesList>, id: Option<string>, k: nat)
    requires k < |g| && g[k].listId == id
    requires forall j | 0 <= j < k :: g[j].listId != id
    ensures FindList(g, id) == Some(k)
  {
  }

  /** A step leaves every other ListId's first match where and as it was. */
  lemma StepKeepsOtherLookups(f: seq<FavoritesList>, u: FavoritesList, id: Option<string>)
    requires id != u.listId
    ensures FindList(Step(f, u).0, id) == FindList(f, id)
    ensures FindList(f, id).Some? ==> Step(f, u).0[FindList(f, id).value] == f[FindList(f, id).value]
  {
    var g := Step(f, u).0;
    if FindList(f, u.listId).None? {
      FindListAppend(f, u, id);
    } else {
      FindListSameIds(f, g, id);
    }
  }

  lemma StepSettles(f: seq<FavoritesList>, u: FavoritesList)
    ensures Settled(Step(f, u).0, u)
  {
    var g := Step(f, u).0;
    NotDifferingFromItself(u.nfts);
    if FindList(f, u.listId).None? {
      FindListAppend(f, u, u.listId);
    } else {
      FindListSameIds(f, g, u.listId);
    }
  }

  lemma StepKeepsSettled(f: seq<FavoritesList>, u: FavoritesList, v: FavoritesList)
    requires v.listId != u.listId && Settled(f, v)
    ensures Settled(Step(f, u).0, v)
  {
    StepKeepsOtherLookups(f, u, v.listId);
  }

  // ---------------------------------------------------------------------------
  // Reconciliation laws
  // ---------------------------------------------------------------------------

  lemma ReconcileUnfold(favs: seq<FavoritesList>, subs: seq<FavoritesList>, u: FavoritesList)
    ensures var prev := Reconcile(favs, subs);
            var next := Step(prev.0, u);
            Reconcile(favs, subs + [u]) == (next.0, prev.1 || next.1)
  {
    assert (subs + [u])[..|subs|] == subs;
  }

  /** A submission leaves the document unchanged, and no put follows, exactly when
      every submitted list is already reflected in it: its ListId is present and
      its first match has the same Name and passes the NFT test. */
  lemma {:induction false} UnchangedIffAllSettled(favs: seq<FavoritesList>, subs: seq<FavoritesList>)
    ensures !Reconcile(favs, subs).1 <==> forall i | 0 <= i < |subs| :: Settled(favs, subs[i])
    decreases |subs|
  {
    if subs != [] {
      var init, u := subs[..|subs| - 1], subs[|subs| - 1];
      assert subs == init + [u];
      ReconcileUnfold(favs, init, u);
      UnchangedIffAllSettled(favs, init);
      assert forall i | 0 <= i < |init| :: init[i] == subs[i];
    }
  }

  /** A submitted list whose ListId is not in the document is appended and the
      document counts as modified. */
  lemma NewListIdModifies(favs: seq<FavoritesList>, subs: seq<FavoritesList>, i: nat)
    requires i < |subs| && FindList(favs, subs[i].listId).None?
    ensures Reconcile(favs, subs).1
  {
    UnchangedIffAllSettled(favs, subs);
  }

  /** After a reconciliation, every submitted list is settled, provided the
      submitted ListIds are distinct. */
  lemma {:induction false} ReconcileSettlesAll(favs: seq<FavoritesList>, subs: seq<FavoritesList>)
    requires DistinctListIds(subs)
    ensures forall i | 0 <= i < |subs| :: Settled(Reconcile(favs, subs).0, subs[i])
    decreases |subs|
  {
    if subs != [] {
      var init, u := subs[..|subs| - 1], subs[|subs| - 1];
      assert subs == init + [u];
      ReconcileUnfold(favs, init, u);
      ReconcileSettlesAll(favs, init);
      var f := Reconcile(favs, init).0;
      forall i | 0 <= i < |subs|
        ensures Settled(Step(f, u).0, subs[i])
      {
        if i == |subs| - 1 {
          StepSettles(f, u);
        } else {
          assert subs[i] == init[i];
          StepKeepsSettled(f, u, subs[i]);
        }
      }
    }
  }

  /** Across the whole loop, a list keeps its value and its place unless some
      submission names its ListId and it is the first list with that ListId; in
      particular every list no submission names is left as it was. */
  lemma {:induction false} ReconcileKeepsUntouched(favs: seq<FavoritesList>, subs: seq<FavoritesList>, j: nat)
    requires j < |favs|
    requires (forall i | 0 <= i < |subs| :: subs[i].listId != favs[j].listId)
             || FindList(favs, favs[j].listId) != Some(j)
    ensures Reconcile(favs, subs).0[j] == favs[j]
    decreases |subs|
  {
    if subs != [] {
      var init, u := subs[..|subs| - 1], subs[|subs| - 1];
      assert forall i | 0 <= i < |init| :: init[i] == subs[i];
      ReconcileKeepsUntouched(favs, init, j);
      FirstMatchCarriesOver(favs, Reconcile(favs, init).0, j);
    }
  }

  /** A list that is the first match of its ListId in a document whose prefix has
      the same ListIds is the first match in the original too. */
  lemma FirstMatchCarriesOver(favs: seq<FavoritesList>, prev: seq<FavoritesList>, j: nat)
    requires j < |favs| <= |prev|
    requires forall i | 0 <= i < |favs| :: prev[i].listId == favs[i].listId
    ensures FindList(prev, favs[j].listId) == Some(j) ==> FindList(favs, favs[j].listId) == Some(j)
  {
    var id := favs[j].listId;
    if FindList(prev, id) == Some(j) {
      assert forall i | 0 <= i < j :: favs[i].listId != id by {
        forall i | 0 <= i < j ensures favs[i].listId != id {
          assert prev[i].listId == favs[i].listId;
        }
      }
    }
  }

  /** Submitting the same lists twice in a row: the second pass changes nothing and
      sets no modified flag (distinct submitted ListIds). */
  lemma ReconcileIdempotent(favs: seq<FavoritesList>, subs: seq<FavoritesList>)
    requires DistinctListIds(subs)
    ensures var once := Reconcile(favs, subs).0;
            Reconcile(once, subs) == (once, false)
  {
    ReconcileSettlesAll(favs, subs);
    UnchangedIffAllSettled(Reconcile(favs, subs).0, subs);
  }

  // ---------------------------------------------------------------------------
  // Reconciliation against what the store gives back
  // ---------------------------------------------------------------------------

  lemma {:induction false} PersistedNftsWhole(nfts: seq<Nft>)
    requires forall i | 0 <= i < |nfts| :: NftPersistable(nfts[i])
    ensures |PersistedNfts(nfts)| == |nfts|
    ensures forall i | 0 <= i < |nfts| :: PersistedNfts(nfts)[i].identifier == nfts[i].identifier
  {
    if nfts != [] {
      PersistedNftsWhole(nfts[1..]);
      assert PersistedNfts(nfts) == [PersistNft(nfts[0])] + PersistedNfts(nfts[1..]);
    }
  }

  /** The first match of a ListId, if the filter keeps it, is the first match in
      the persisted lists too. */
  lemma {:induction false} FindListPersisted(f: seq<FavoritesList>, id: Option<string>)
    requires FindList(f, id).Some? && ListPersistable(f[FindList(f, id).value])
    ensures var p := PersistedLists(f);
            FindList(p, id).Some? && p[FindList(p, id).value] == PersistList(f[FindList(f, id).value])
  {
    var rest := PersistedLists(f[1..]);
    if f[0].listId == id {
      assert PersistedLists(f) == [PersistList(f[0])] + rest;
    } else {
      FindListPersisted(f[1..], id);
      if ListPersistable(f[0]) {
        var p := [PersistList(f[0])] + rest;
        assert PersistedLists(f) == p;
        assert p[0].listId != id && p[1..] == rest;
      } else {
        assert PersistedLists(f) == rest;
      }
    }
  }

  /** A stored list that passes the change test against a submission the filter
      keeps whole passes the filter itself, and still passes the test once its
      NFTs have been through the encoder. */
  lemma SettledListPersistsWhole(e: FavoritesList, u: FavoritesList)
    requires e.listId == u.listId && !NeedsUpdate(e, u) && ListKeptWhole(u)
    ensures ListPersistable(e) && !NeedsUpdate(PersistList(e), u)
  {
    forall i | 0 <= i < |e.nfts| ensures NftPersistable(e.nfts[i]) {
      var j :| 0 <= j < |u.nfts| && u.nfts[j].identifier == e.nfts[i].identifier;
    }
    PersistedNftsWhole(e.nfts);
    var pe := PersistList(e);
    forall i | 0 <= i < |pe.nfts|
      ensures exists j | 0 <= j < |u.nfts| :: u.nfts[j].identifier == pe.nfts[i].identifier
    {
      assert pe.nfts[i].identifier == e.nfts[i].identifier;
    }
  }

  /** A settled list whose submission the filter keeps whole is still settled in
      the document that decoding the put item gives back. */
  lemma SettledSurvivesPersist(f: seq<FavoritesList>, u: FavoritesList)
    requires Settled(f, u) && ListKeptWhole(u)
    ensures Settled(PersistedLists(f), u)
  {
    SettledListPersistsWhole(f[FindList(f, u.listId).value], u);
    FindListPersisted(f, u.listId);
  }

  /** Submitting the same lists again after the reconciled document was written
      and read back sets no modified flag, provided the submitted ListIds are
      distinct and the write filter keeps every submitted list whole. */
  lemma ResubmitAfterPersistUnchanged(favs: seq<FavoritesList>, subs: seq<FavoritesList>)
    requires DistinctListIds(subs)
    requires forall i | 0 <= i < |subs| :: ListKeptWhole(subs[i])
    ensures !Reconcile(PersistedLists(Reconcile(favs, subs).0), subs).1
  {
    var once := Reconcile(favs, subs).0;
    ReconcileSettlesAll(favs, subs);
    forall i | 0 <= i < |subs| ensures Settled(PersistedLists(once), subs[i]) {
      SettledSurvivesPersist(once, subs[i]);
    }
    UnchangedIffAllSettled(PersistedLists(once), subs);
  }

  /** A submitted list that the write filter drops (here: one without NFTs) is
      appended again by every resubmission, so each one is written again. */
  lemma DroppedListRewrittenEachTime()
    ensures var u := FavoritesList(Some("L"), Some("N"), []);
            Reconcile([], [u]) == ([u], true)
            && PersistedLists([u]) == []
  {
    var u := FavoritesList(Some("L"), Some("N"), []);
    ReconcileUnfold([], [], u);
    assert [] + [u] == [u];
  }
}
