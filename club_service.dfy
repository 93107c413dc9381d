/** Club creation and the tier diff-apply of src/server/services/club.service.ts.
    `UpsertTiers` states, as a function of the old tier table, what `upsertClubTiers`
    leaves behind; the lemmas below say what that means; the methods change the
    database step by step in the order the service does. */
module ClubService {
  import opened Wrappers
  import opened Images
  import opened Tables

  /** One element of the submitted `tiers` array. */
  datatype TierInput = TierInput(id: Option<int>, fields: TierFields, coverImage: ImageInput)

  /** The tier table as the diff sees it: its rows and the next id of its sequence. */
  datatype TierTable = TierTable(rows: map<int, Tier>, nextId: int)

  ghost predicate IdsBelowNext(t: TierTable)
  {
    1 <= t.nextId && forall id :: id in t.rows ==> id < t.nextId
  }

  predicate HasFalsyId(t: TierInput)
  {
    !Truthy(t.id)
  }

  predicate HasDefinedId(t: TierInput)
  {
    t.id.Some?
  }

  /** `tiers.filter((tier) => !tier.id)` (club.service.ts:141). */
  function TiersToCreate(tiers: seq<TierInput>): (r: seq<TierInput>)
    ensures forall t :: t in r <==> t in tiers && (t.id.None? || t.id == Some(0))
  {
    Filter(tiers, HasFalsyId)
  }

  /** `tiers.filter((tier) => tier.id !== undefined)` (club.service.ts:154). */
  function TiersToUpdate(tiers: seq<TierInput>): (r: seq<TierInput>)
    ensures forall t :: t in r <==> t in tiers && t.id.Some?
  {
    Filter(tiers, HasDefinedId)
  }

  function TierCovers(tiers: seq<TierInput>): seq<ImageInput>
  {
    seq(|tiers|, i requires 0 <= i < |tiers| => tiers[i].coverImage)
  }

  /** The `findFirst` guard (club.service.ts:101-121): a tier named for deletion still has
      a membership. */
  predicate DeletingTierWithMembers(rows: map<int, Tier>, deleteIds: seq<int>)
  {
    exists id :: id in deleteIds && id in rows && rows[id].memberCount > 0
  }

  predicate ZeroIdSubmitted(tiers: seq<TierInput>)
  {
    exists t :: t in tiers && t.id == Some(0)
  }

  predicate IdSubmitted(tiers: seq<TierInput>, id: int)
  {
    exists t :: t in tiers && t.id == Some(id)
  }

  /** Every id the caller submits lies below `n`. */
  predicate SubmittedIdsBelow(tiers: seq<TierInput>, n: int)
  {
    forall t :: t in tiers && t.id.Some? ==> t.id.value < n
  }

  /** No other submitted tier carries the same id as `tier`. */
  predicate OnlyTierWithId(tiers: seq<TierInput>, tier: TierInput)
  {
    forall other :: other in tiers && other.id == tier.id ==> other == tier
  }

  function DeleteRows(rows: map<int, Tier>, deleteIds: seq<int>): map<int, Tier>
  {
    rows - (set id | id in deleteIds)
  }

  /** The row `createMany` writes for a submitted tier (club.service.ts:144-149). */
  function NewTierRow(clubId: int, tier: TierInput, created: seq<ImageRecord>): Tier
  {
    Tier(clubId, tier.fields, ApplyKeyWrite(ResolveOnCreate(tier.coverImage, created), None), 0)
  }

  /** One row of `createMany` with `skipDuplicates`: a tier whose id is `0` is written
      under that explicit id and skipped if it exists; any other takes the next id. */
  function InsertTier(t: TierTable, clubId: int, tier: TierInput, created: seq<ImageRecord>): TierTable
  {
    var row := NewTierRow(clubId, tier, created);
    if tier.id == Some(0) then
      if 0 in t.rows then t else TierTable(t.rows[0 := row], t.nextId)
    else TierTable(t.rows[t.nextId := row], t.nextId + 1)
  }

  /** A tier the create step writes under the next id of the sequence: any but an
      explicit id 0. */
  predicate TakesFreshId(tier: TierInput)
  {
    tier.id != Some(0)
  }

  /** How many ids of the sequence the create step uses for `toCreate`. */
  function FreshIdCount(toCreate: seq<TierInput>): nat
    decreases |toCreate|
  {
    if toCreate == [] then 0
    else FreshIdCount(toCreate[..|toCreate| - 1]) + (if TakesFreshId(toCreate[|toCreate| - 1]) then 1 else 0)
  }

  /** A tier that takes a fresh id makes the count grow past it. */
  lemma {:induction false} FreshIdCountGrows(s: seq<TierInput>, i: int, j: int)
    requires 0 <= i < j <= |s| && TakesFreshId(s[i])
    ensures FreshIdCount(s[..i]) < FreshIdCount(s[..j])
    decreases j
  {
    assert s[..j][..j - 1] == s[..j - 1];
    if j > i + 1 {
      FreshIdCountGrows(s, i, j - 1);
    }
  }

  function CreateRows(t: TierTable, clubId: int, toCreate: seq<TierInput>, created: seq<ImageRecord>): TierTable
    decreases |toCreate|
  {
    if toCreate == [] then t
    else
      InsertTier(CreateRows(t, clubId, toCreate[..|toCreate| - 1], created),
                 clubId, toCreate[|toCreate| - 1], created)
  }

  /** One element of the update (club.service.ts:162-171): the row with the tier's id
      takes the submitted fields and `clubId`, and its cover by the three-way rule; an id
      with no row matches nothing. */
  function UpdateRow(rows: map<int, Tier>, clubId: int, tier: TierInput, created: seq<ImageRecord>): map<int, Tier>
  {
    match tier.id
    case None => rows
    case Some(id) =>
      if id in rows then
        rows[id := Tier(clubId, tier.fields,
                        ApplyKeyWrite(ResolveImageId(tier.coverImage, created), rows[id].coverImageId),
                        rows[id].memberCount)]
      else rows
  }

  function UpdateRows(rows: map<int, Tier>, clubId: int, toUpdate: seq<TierInput>, created: seq<ImageRecord>): map<int, Tier>
    decreases |toUpdate|
  {
    if toUpdate == [] then rows
    else
      UpdateRow(UpdateRows(rows, clubId, toUpdate[..|toUpdate| - 1], created),
                clubId, toUpdate[|toUpdate| - 1], created)
  }

  /** `upsertClubTiers` as a function of the old table: refuse, or delete, create, update.
      `created` are the image records made for the submitted tier covers. */
  function UpsertTiers(t: TierTable, clubId: int, tiers: seq<TierInput>, deleteIds: seq<int>,
                       created: seq<ImageRecord>): (r: Result<TierTable, ServiceError>)
    ensures r.Failure? <==> DeletingTierWithMembers(t.rows, deleteIds)
    ensures r.Failure? ==> r.error == BadRequest
  {
    if |deleteIds| > 0 && DeletingTierWithMembers(t.rows, deleteIds) then Failure(BadRequest)
    else
      var afterCreate := CreateRows(TierTable(DeleteRows(t.rows, deleteIds), t.nextId),
                                    clubId, TiersToCreate(tiers), created);
      Success(TierTable(UpdateRows(afterCreate.rows, clubId, TiersToUpdate(tiers), created),
                        afterCreate.nextId))
  }

  lemma ApplyKeyWriteIdempotent(w: KeyWrite, current: Option<int>)
    ensures ApplyKeyWrite(w, ApplyKeyWrite(w, current)) == ApplyKeyWrite(w, current)
  {
  }

  /** The create step never overwrites a row, keeps the sequence above every id, advances
      it once per tier that takes a fresh id, and adds exactly the fresh range (and 0 for
      an explicit id 0), each a new row of the club with no members. */
  lemma {:induction false} CreateRowsFacts(t: TierTable, clubId: int, toCreate: seq<TierInput>,
                                           created: seq<ImageRecord>) returns (r: TierTable)
    requires IdsBelowNext(t)
    ensures r == CreateRows(t, clubId, toCreate, created)
    ensures IdsBelowNext(r) && t.nextId <= r.nextId
    ensures forall id :: id in t.rows ==> id in r.rows && r.rows[id] == t.rows[id]
    ensures forall id :: id in r.rows && id !in t.rows ==>
              (t.nextId <= id || (id == 0 && ZeroIdSubmitted(toCreate)))
              && r.rows[id].clubId == clubId && r.rows[id].memberCount == 0
    ensures forall id :: t.nextId <= id < r.nextId ==> id in r.rows
    ensures r.nextId == t.nextId + FreshIdCount(toCreate)
    ensures forall id :: id in r.rows <==>
              id in t.rows || t.nextId <= id < r.nextId || (id == 0 && ZeroIdSubmitted(toCreate))
    decreases |toCreate|
  {
    if toCreate == [] {
      r := t;
    } else {
      var prefix, last := toCreate[..|toCreate| - 1], toCreate[|toCreate| - 1];
      assert toCreate == prefix + [last];
      var p := CreateRowsFacts(t, clubId, prefix, created);
      r := InsertTier(p, clubId, last, created);
      assert forall tier :: tier in prefix ==> tier in toCreate;
      assert ZeroIdSubmitted(toCreate) <==> ZeroIdSubmitted(prefix) || last.id == Some(0);
    }
  }

  /** The i-th tier to create that takes a fresh id is written under `t.nextId` plus the
      number of fresh ids taken before it, and no later tier overwrites that row. */
  lemma {:induction false} CreateRowsAt(t: TierTable, clubId: int, toCreate: seq<TierInput>,
                                        created: seq<ImageRecord>, i: int)
    requires IdsBelowNext(t)
    requires 0 <= i < |toCreate| && TakesFreshId(toCreate[i])
    ensures var r := CreateRows(t, clubId, toCreate, created);
            var id := t.nextId + FreshIdCount(toCreate[..i]);
            id in r.rows && r.rows[id] == NewTierRow(clubId, toCreate[i], created)
    decreases |toCreate|
  {
    var prefix, last := toCreate[..|toCreate| - 1], toCreate[|toCreate| - 1];
    var p := CreateRowsFacts(t, clubId, prefix, created);
    if i == |prefix| {
      assert toCreate[..i] == prefix;
    } else {
      assert toCreate[..i] == prefix[..i] && toCreate[i] == prefix[i];
      CreateRowsAt(t, clubId, prefix, created, i);
      FreshIdCountGrows(prefix, i, |prefix|);
      assert prefix[..|prefix|] == prefix;
    }
  }

  /** The update step keeps the set of ids and every member count, leaves rows no submitted
      tier names as they were, moves every named row to the club, and gives a row named by
      exactly one submitted tier that tier's fields and its cover by the three-way rule. */
  lemma {:induction false} UpdateRowsFacts(rows: map<int, Tier>, clubId: int, toUpdate: seq<TierInput>,
                                           created: seq<ImageRecord>) returns (r: map<int, Tier>)
    ensures r == UpdateRows(rows, clubId, toUpdate, created)
    ensures r.Keys == rows.Keys
    ensures forall id :: id in rows ==> r[id].memberCount == rows[id].memberCount
    ensures forall id :: id in rows && !IdSubmitted(toUpdate, id) ==> r[id] == rows[id]
    ensures forall id :: id in rows && IdSubmitted(toUpdate, id) ==> r[id].clubId == clubId
    ensures forall tier :: tier in toUpdate && tier.id.Some? && tier.id.value in rows
                           && OnlyTierWithId(toUpdate, tier) ==>
              r[tier.id.value] == Tier(clubId, tier.fields,
                                       ApplyKeyWrite(ResolveImageId(tier.coverImage, created),
                                                     rows[tier.id.value].coverImageId),
                                       rows[tier.id.value].memberCount)
    decreases |toUpdate|
  {
    if toUpdate == [] {
      r := rows;
    } else {
      var prefix, last := toUpdate[..|toUpdate| - 1], toUpdate[|toUpdate| - 1];
      assert toUpdate == prefix + [last];
      var p := UpdateRowsFacts(rows, clubId, prefix, created);
      r := UpdateRow(p, clubId, last, created);
      assert forall tier :: tier in prefix ==> tier in toUpdate;
      forall id | id in rows && !IdSubmitted(toUpdate, id)
        ensures r[id] == rows[id]
      {
        assert !IdSubmitted(prefix, id);
      }
      forall tier | tier in toUpdate && tier.id.Some? && tier.id.value in rows && OnlyTierWithId(toUpdate, tier)
        ensures r[tier.id.value] == Tier(clubId, tier.fields,
                                         ApplyKeyWrite(ResolveImageId(tier.coverImage, created),
                                                       rows[tier.id.value].coverImageId),
                                         rows[tier.id.value].memberCount)
      {
        var id := tier.id.value;
        var w := ResolveImageId(tier.coverImage, created);
        if last.id == Some(id) {
          assert last == tier;
          if tier in prefix {
            ApplyKeyWriteIdempotent(w, rows[id].coverImageId);
          } else {
            assert !IdSubmitted(prefix, id);
          }
        } else {
          assert tier in prefix;
        }
      }
    }
  }

  /** A tier of the old table named in `deleteTierIds` is gone after a successful call,
      unless its id is 0 and a submitted tier carries the id 0 (the create step writes that
      row again); any row left under a deleted id is a new, memberless row of the club. */
  lemma UpsertRemovesDeletedTiers(t: TierTable, clubId: int, tiers: seq<TierInput>,
                                  deleteIds: seq<int>, created: seq<ImageRecord>)
    requires IdsBelowNext(t)
    requires UpsertTiers(t, clubId, tiers, deleteIds, created).Success?
    ensures var rows := UpsertTiers(t, clubId, tiers, deleteIds, created).value.rows;
            forall id :: id in deleteIds && id in rows ==>
              (id !in t.rows || (id == 0 && ZeroIdSubmitted(tiers)))
              && rows[id].clubId == clubId && rows[id].memberCount == 0
  {
    var afterDelete := TierTable(DeleteRows(t.rows, deleteIds), t.nextId);
    var c := CreateRowsFacts(afterDelete, clubId, TiersToCreate(tiers), created);
    var u := UpdateRowsFacts(c.rows, clubId, TiersToUpdate(tiers), created);
    forall id | id in deleteIds && id in u
      ensures (id !in t.rows || (id == 0 && ZeroIdSubmitted(tiers)))
              && u[id].clubId == clubId && u[id].memberCount == 0
    {
      assert id !in afterDelete.rows;
    }
  }

  /** Tiers neither deleted nor submitted are left exactly as they were. */
  lemma UpsertKeepsUntouchedTiers(t: TierTable, clubId: int, tiers: seq<TierInput>,
                                  deleteIds: seq<int>, created: seq<ImageRecord>)
    requires IdsBelowNext(t)
    requires UpsertTiers(t, clubId, tiers, deleteIds, created).Success?
    ensures var rows := UpsertTiers(t, clubId, tiers, deleteIds, created).value.rows;
            forall id :: id in t.rows && id !in deleteIds && !IdSubmitted(tiers, id) ==>
              id in rows && rows[id] == t.rows[id]
  {
    var afterDelete := TierTable(DeleteRows(t.rows, deleteIds), t.nextId);
    var c := CreateRowsFacts(afterDelete, clubId, TiersToCreate(tiers), created);
    var u := UpdateRowsFacts(c.rows, clubId, TiersToUpdate(tiers), created);
    forall id | id in t.rows && id !in deleteIds && !IdSubmitted(tiers, id)
      ensures id in u && u[id] == t.rows[id]
    {
      assert id in afterDelete.rows;
      assert !IdSubmitted(TiersToUpdate(tiers), id);
    }
  }

  /** The ids after a successful call: the old ids not deleted, one fresh id of the
      sequence per created tier that does not carry the explicit id 0, and 0 when a
      submitted tier carries it. No other row appears. */
  lemma UpsertTierIds(t: TierTable, clubId: int, tiers: seq<TierInput>,
                      deleteIds: seq<int>, created: seq<ImageRecord>)
    requires IdsBelowNext(t)
    requires UpsertTiers(t, clubId, tiers, deleteIds, created).Success?
    ensures var r := UpsertTiers(t, clubId, tiers, deleteIds, created).value;
            && r.nextId == t.nextId + FreshIdCount(TiersToCreate(tiers))
            && forall id :: id in r.rows <==>
                 (id in t.rows && id !in deleteIds) || t.nextId <= id < r.nextId
                 || (id == 0 && ZeroIdSubmitted(tiers))
  {
    var afterDelete := TierTable(DeleteRows(t.rows, deleteIds), t.nextId);
    var toCreate := TiersToCreate(tiers);
    var c := CreateRowsFacts(afterDelete, clubId, toCreate, created);
    var u := UpdateRowsFacts(c.rows, clubId, TiersToUpdate(tiers), created);
    assert ZeroIdSubmitted(toCreate) <==> ZeroIdSubmitted(tiers);
  }

  /** The row a successful call leaves for the i-th tier to create, when it takes a fresh
      id. */
  lemma {:induction false} CreatedTierRow(t: TierTable, clubId: int, tiers: seq<TierInput>,
                                          deleteIds: seq<int>, created: seq<ImageRecord>, i: int)
    requires IdsBelowNext(t)
    requires UpsertTiers(t, clubId, tiers, deleteIds, created).Success?
    requires 0 <= i < |TiersToCreate(tiers)| && TakesFreshId(TiersToCreate(tiers)[i])
    ensures var r := UpsertTiers(t, clubId, tiers, deleteIds, created).value;
            var toCreate := TiersToCreate(tiers);
            var id := t.nextId + FreshIdCount(toCreate[..i]);
            && t.nextId <= id < r.nextId && id in r.rows && id !in t.rows
            && r.rows[id].clubId == clubId && r.rows[id].memberCount == 0
            && (!IdSubmitted(tiers, id) ==> r.rows[id] == NewTierRow(clubId, toCreate[i], created))
  {
    var afterDelete := TierTable(DeleteRows(t.rows, deleteIds), t.nextId);
    var toCreate := TiersToCreate(tiers);
    var toUpdate := TiersToUpdate(tiers);
    var c := CreateRows(afterDelete, clubId, toCreate, created);
    var u := UpdateRows(c.rows, clubId, toUpdate, created);
    assert UpsertTiers(t, clubId, tiers, deleteIds, created).value == TierTable(u, c.nextId);
    var id := t.nextId + FreshIdCount(toCreate[..i]);
    assert id in c.rows && c.rows[id] == NewTierRow(clubId, toCreate[i], created) by {
      CreateRowsAt(afterDelete, clubId, toCreate, created, i);
    }
    assert id < c.nextId by {
      var c' := CreateRowsFacts(afterDelete, clubId, toCreate, created);
      FreshIdCountGrows(toCreate, i, |toCreate|);
      assert toCreate[..|toCreate|] == toCreate;
    }
    var u' := UpdateRowsFacts(c.rows, clubId, toUpdate, created);
    if !IdSubmitted(tiers, id) {
      assert !IdSubmitted(toUpdate, id);
    }
  }

  /** The row the i-th tier to create has in `r`: its own new, memberless row of the club
      under the fresh id `t.nextId` plus the number of fresh ids used before it, not an id
      of the old table; when no submitted id reaches the fresh range, exactly the row
      `createMany` wrote for it. */
  ghost predicate NewRowOfTier(t: TierTable, r: TierTable, clubId: int, tiers: seq<TierInput>,
                               created: seq<ImageRecord>, i: int)
    requires 0 <= i < |TiersToCreate(tiers)|
  {
    var toCreate := TiersToCreate(tiers);
    var id := t.nextId + FreshIdCount(toCreate[..i]);
    && t.nextId <= id < r.nextId && id in r.rows && id !in t.rows
    && r.rows[id].clubId == clubId && r.rows[id].memberCount == 0
    && (SubmittedIdsBelow(tiers, t.nextId) ==> r.rows[id] == NewTierRow(clubId, toCreate[i], created))
  }

  /** Every tier to create that has no id gets its own row as `NewRowOfTier` says; the
      fresh ids grow with the position, so two such tiers never share a row, and the same
      call does not delete it. */
  lemma UpsertCreatesNewTiers(t: TierTable, clubId: int, tiers: seq<TierInput>,
                              deleteIds: seq<int>, created: seq<ImageRecord>)
    requires IdsBelowNext(t)
    requires UpsertTiers(t, clubId, tiers, deleteIds, created).Success?
    ensures var r := UpsertTiers(t, clubId, tiers, deleteIds, created).value;
            var toCreate := TiersToCreate(tiers);
            forall i :: 0 <= i < |toCreate| && toCreate[i].id.None? ==>
              NewRowOfTier(t, r, clubId, tiers, created, i)
    ensures var toCreate := TiersToCreate(tiers);
            forall i, j :: 0 <= i < j < |toCreate| && toCreate[i].id.None? ==>
              FreshIdCount(toCreate[..i]) < FreshIdCount(toCreate[..j])
  {
    var toCreate := TiersToCreate(tiers);
    var r := UpsertTiers(t, clubId, tiers, deleteIds, created).value;
    forall i | 0 <= i < |toCreate| && toCreate[i].id.None?
      ensures NewRowOfTier(t, r, clubId, tiers, created, i)
    {
      CreatedTierRow(t, clubId, tiers, deleteIds, created, i);
      var id := t.nextId + FreshIdCount(toCreate[..i]);
      if SubmittedIdsBelow(tiers, t.nextId) {
        assert !IdSubmitted(tiers, id);
      }
    }
    forall i, j | 0 <= i < j < |toCreate| && toCreate[i].id.None?
      ensures FreshIdCount(toCreate[..i]) < FreshIdCount(toCreate[..j])
    {
      FreshIdCountGrows(toCreate, i, j);
    }
  }

  /** A submitted tier with an id that names a row of the old table, not deleted, takes the
      club's id (even when the row belonged to another club), keeps its member count, and,
      when it is the only submitted tier with that id, takes the submitted fields and its
      cover by the three-way rule. */
  lemma UpsertUpdatesSubmittedTiers(t: TierTable, clubId: int, tiers: seq<TierInput>,
                                    deleteIds: seq<int>, created: seq<ImageRecord>)
    requires IdsBelowNext(t)
    requires UpsertTiers(t, clubId, tiers, deleteIds, created).Success?
    ensures var rows := UpsertTiers(t, clubId, tiers, deleteIds, created).value.rows;
            forall tier :: tier in tiers && tier.id.Some? && tier.id.value in t.rows
                           && tier.id.value !in deleteIds ==>
              var id := tier.id.value;
              id in rows && rows[id].clubId == clubId
              && rows[id].memberCount == t.rows[id].memberCount
              && (OnlyTierWithId(tiers, tier) ==>
                    rows[id] == Tier(clubId, tier.fields,
                                     ApplyKeyWrite(ResolveImageId(tier.coverImage, created),
                                                   t.rows[id].coverImageId),
                                     t.rows[id].memberCount))
  {
    var afterDelete := TierTable(DeleteRows(t.rows, deleteIds), t.nextId);
    var c := CreateRowsFacts(afterDelete, clubId, TiersToCreate(tiers), created);
    var toUpdate := TiersToUpdate(tiers);
    var u := UpdateRowsFacts(c.rows, clubId, toUpdate, created);
    forall tier | tier in tiers && tier.id.Some? && tier.id.value in t.rows && tier.id.value !in deleteIds
      ensures var id := tier.id.value;
              id in u && u[id].clubId == clubId
              && u[id].memberCount == t.rows[id].memberCount
              && (OnlyTierWithId(tiers, tier) ==>
                    u[id] == Tier(clubId, tier.fields,
                                  ApplyKeyWrite(ResolveImageId(tier.coverImage, created),
                                                t.rows[id].coverImageId),
                                  t.rows[id].memberCount))
    {
      var id := tier.id.value;
      assert id in afterDelete.rows;
      assert tier in toUpdate;
      assert IdSubmitted(toUpdate, id);
    }
  }

  /** A new tier whose cover is an upload without an id gets the id of the image created
      for it, provided the created records carry the uploaded URLs. */
  lemma NewTierCoversResolve(clubId: int, tiers: seq<TierInput>, created: seq<ImageRecord>)
    requires CarriesUrls(created, UploadUrls(TierCovers(tiers), false))
    ensures forall tier :: tier in tiers && tier.coverImage.Given? && tier.coverImage.id.None? ==>
              NewTierRow(clubId, tier, created).coverImageId.Some?
  {
    UploadedImagesResolve(TierCovers(tiers), false, created);
    forall tier | tier in tiers && tier.coverImage.Given? && tier.coverImage.id.None?
      ensures NewTierRow(clubId, tier, created).coverImageId.Some?
    {
      var i :| 0 <= i < |tiers| && tiers[i] == tier;
      assert TierCovers(tiers)[i] == tier.coverImage;
    }
  }

  /** A club with tiers 1 and 2, one new tier, tier 2 updated and tier 1 deleted ends with
      exactly two tiers, 2 and 3; had tier 1 a member, the call would fail. */
  lemma TwoTierRoundTrip(a: TierFields, b: TierFields, c: TierFields, d: TierFields)
    ensures var old1 := Tier(7, a, None, 0);
            var old2 := Tier(7, b, None, 0);
            var t := TierTable(map[1 := old1, 2 := old2], 3);
            var submitted := [TierInput(None, c, Absent), TierInput(Some(2), d, Absent)];
            var r := UpsertTiers(t, 7, submitted, [1], []);
            r.Success? && r.value.rows == map[2 := Tier(7, d, None, 0), 3 := Tier(7, c, None, 0)]
    ensures var t := TierTable(map[1 := Tier(7, a, None, 1), 2 := Tier(7, b, None, 0)], 3);
            UpsertTiers(t, 7, [TierInput(None, c, Absent)], [1], []) == Failure(BadRequest)
  {
    var old1, old2 := Tier(7, a, None, 0), Tier(7, b, None, 0);
    var t := TierTable(map[1 := old1, 2 := old2], 3);
    var n, u := TierInput(None, c, Absent), TierInput(Some(2), d, Absent);
    var submitted := [n, u];
    assert !DeletingTierWithMembers(t.rows, [1]);
    var afterDelete := DeleteRows(t.rows, [1]);
    assert afterDelete == map[2 := old2];
    assert submitted[1..] == [u] && [u][1..] == [];
    assert Filter([u], HasFalsyId) == [];
    assert Filter([u], HasDefinedId) == [u];
    assert TiersToCreate(submitted) == [n];
    assert TiersToUpdate(submitted) == [u];
    assert [n][..0] == [];
    assert [u][..0] == [];
    assert NewTierRow(7, n, []) == Tier(7, c, None, 0);
    assert CreateRows(TierTable(afterDelete, 3), 7, [], []) == TierTable(afterDelete, 3);
    var afterCreate := CreateRows(TierTable(afterDelete, 3), 7, [n], []);
    assert afterCreate == InsertTier(TierTable(afterDelete, 3), 7, n, []);
    assert afterCreate == TierTable(map[2 := old2, 3 := Tier(7, c, None, 0)], 4);
    assert ResolveImageId(Absent, []) == Keep;
    var afterUpdate := UpdateRows(afterCreate.rows, 7, [u], []);
    assert UpdateRows(afterCreate.rows, 7, [], []) == afterCreate.rows;
    assert afterUpdate == UpdateRow(afterCreate.rows, 7, u, []);
    assert afterUpdate == map[2 := Tier(7, d, None, 0), 3 := Tier(7, c, None, 0)];
    var blocked := TierTable(map[1 := Tier(7, a, None, 1), 2 := Tier(7, b, None, 0)], 3);
    assert 1 in blocked.rows && blocked.rows[1].memberCount > 0;
  }

  /** The guard and the `deleteMany` step (club.service.ts:101-130). */
  method DeleteTierRows(db: Database, deleteIds: seq<int>) returns (outcome: Outcome<ServiceError>)
    requires db.Valid()
    modifies db`tiers
    ensures db.Valid()
    ensures outcome.Fail? <==> DeletingTierWithMembers(old(db.tiers), deleteIds)
    ensures outcome.Fail? ==> outcome.error == BadRequest && db.tiers == old(db.tiers)
    ensures outcome.Pass? ==> db.tiers == DeleteRows(old(db.tiers), deleteIds)
  {
    if |deleteIds| > 0 {
      if DeletingTierWithMembers(db.tiers, deleteIds) {
        return Fail(BadRequest);
      }
      db.tiers := DeleteRows(db.tiers, deleteIds);
    } else {
      assert DeleteRows(db.tiers, deleteIds) == db.tiers;
    }
    outcome := Pass;
  }

  /** The `createMany` step: each tier to create is written as a new row, in order. */
  method CreateTierRows(db: Database, clubId: int, toCreate: seq<TierInput>, created: seq<ImageRecord>)
    requires db.Valid()
    modifies db`tiers, db`nextTierId
    ensures db.Valid()
    ensures TierTable(db.tiers, db.nextTierId)
              == CreateRows(TierTable(old(db.tiers), old(db.nextTierId)), clubId, toCreate, created)
    ensures db.nextTierId >= old(db.nextTierId)
  {
    ghost var start := TierTable(db.tiers, db.nextTierId);
    var i := 0;
    while i < |toCreate|
      invariant 0 <= i <= |toCreate|
      invariant db.Valid()
      invariant TierTable(db.tiers, db.nextTierId) == CreateRows(start, clubId, toCreate[..i], created)
      invariant db.nextTierId >= old(db.nextTierId)
    {
      var tier := toCreate[i];
      var row := NewTierRow(clubId, tier, created);
      if tier.id == Some(0) {
        if 0 !in db.tiers {
          db.tiers := db.tiers[0 := row];
        }
      } else {
        db.tiers := db.tiers[db.nextTierId := row];
        db.nextTierId := db.nextTierId + 1;
      }
      assert toCreate[..i + 1][..i] == toCreate[..i];
      i := i + 1;
    }
    assert toCreate[..i] == toCreate;
  }

  /** The update step: each tier to update rewrites the row with its id, if there is one. */
  method UpdateTierRows(db: Database, clubId: int, toUpdate: seq<TierInput>, created: seq<ImageRecord>)
    requires db.Valid()
    modifies db`tiers
    ensures db.Valid()
    ensures db.tiers == UpdateRows(old(db.tiers), clubId, toUpdate, created)
  {
    var j := 0;
    while j < |toUpdate|
      invariant 0 <= j <= |toUpdate|
      invariant db.tiers == UpdateRows(old(db.tiers), clubId, toUpdate[..j], created)
      invariant db.tiers.Keys == old(db.tiers).Keys
      invariant db.Valid()
    {
      var tier := toUpdate[j];
      if tier.id.Some? && tier.id.value in db.tiers {
        var id := tier.id.value;
        var current := db.tiers[id];
        db.tiers := db.tiers[id := Tier(clubId, tier.fields,
                                        ApplyKeyWrite(ResolveImageId(tier.coverImage, created), current.coverImageId),
                                        current.memberCount)];
      }
      assert toUpdate[..j + 1][..j] == toUpdate[..j];
      j := j + 1;
    }
    assert toUpdate[..j] == toUpdate;
  }

  /** `upsertClubTiers` on the database. On refusal nothing is written; otherwise the tier
      table becomes what `UpsertTiers` gives for the old table and the images created for
      the submitted covers, which are new rows owned by `userId`. */
  method UpsertClubTiers(db: Database, clubId: int, tiers: seq<TierInput>, deleteIds: seq<int>, userId: int)
    returns (outcome: Outcome<ServiceError>, created: seq<ImageRecord>)
    requires db.Valid()
    modifies db
    ensures db.Valid()
    ensures db.clubs == old(db.clubs) && db.posts == old(db.posts)
    ensures db.nextClubId == old(db.nextClubId) && db.nextPostId == old(db.nextPostId)
    ensures outcome.Fail? <==> DeletingTierWithMembers(old(db.tiers), deleteIds)
    ensures outcome.Fail? ==>
              outcome.error == BadRequest && created == []
              && db.tiers == old(db.tiers) && db.nextTierId == old(db.nextTierId)
              && db.images == old(db.images) && db.nextImageId == old(db.nextImageId)
    ensures outcome.Pass? ==>
              UpsertTiers(TierTable(old(db.tiers), old(db.nextTierId)), clubId, tiers, deleteIds, created)
                == Success(TierTable(db.tiers, db.nextTierId))
    ensures outcome.Pass? ==>
              CarriesUrls(created, UploadUrls(TierCovers(tiers), false))
              && forall i :: 0 <= i < |created| ==>
                   created[i].userId == userId && created[i].id !in old(db.images)
                   && created[i].id in db.images && db.images[created[i].id] == created[i]
    ensures forall id :: id in old(db.images) ==> id in db.images && db.images[id] == old(db.images)[id]
    ensures forall id :: id in db.images && id !in old(db.images) ==> db.images[id].userId == userId
    ensures db.nextTierId >= old(db.nextTierId) && db.nextImageId >= old(db.nextImageId)
  {
    var guard := DeleteTierRows(db, deleteIds);
    if guard.Fail? {
      return guard, [];
    }
    created := db.CreateEntityImages(UploadUrls(TierCovers(tiers), false), userId);

    ghost var afterDelete := TierTable(db.tiers, db.nextTierId);
    CreateTierRows(db, clubId, TiersToCreate(tiers), created);
    UpdateTierRows(db, clubId, TiersToUpdate(tiers), created);
    assert TierTable(db.tiers, db.nextTierId)
        == TierTable(UpdateRows(CreateRows(afterDelete, clubId, TiersToCreate(tiers), created).rows,
                                clubId, TiersToUpdate(tiers), created),
                     CreateRows(afterDelete, clubId, TiersToCreate(tiers), created).nextId);
    outcome := Pass;
  }

  /** The first two steps of `createClub` (club.service.ts:38-67): create the image rows
      for the club images without a truthy id, then insert the club row under the next id
      of the sequence, owned by `userId`, with each image column resolved against the new
      rows. */
  method InsertClub(db: Database, fields: ClubFields, coverImage: ImageInput, headerImage: ImageInput,
                    avatarImage: ImageInput, userId: int)
    returns (id: int)
    requires db.Valid()
    modifies db`clubs, db`nextClubId, db`images, db`nextImageId
    ensures db.Valid()
    ensures id !in old(db.clubs) && id in db.clubs && db.clubs == old(db.clubs)[id := db.clubs[id]]
    ensures var club := db.clubs[id];
            club.ownerId == userId && club.fields == fields
            && club.memberIds == {} && club.admins == map[]
            && ImageColumnAfter(club.avatarId, avatarImage, None, old(db.images), db.images)
            && ImageColumnAfter(club.coverImageId, coverImage, None, old(db.images), db.images)
            && ImageColumnAfter(club.headerImageId, headerImage, None, old(db.images), db.images)
    ensures forall id :: id in old(db.images) ==> id in db.images && db.images[id] == old(db.images)[id]
    ensures forall id :: id in db.images && id !in old(db.images) ==> db.images[id].userId == userId
    ensures db.nextClubId > old(db.nextClubId) && db.nextImageId >= old(db.nextImageId)
  {
    var clubImages := [coverImage, headerImage, avatarImage];
    var created := db.CreateEntityImages(UploadUrls(clubImages, true), userId);
    ResolvedColumn(clubImages, true, avatarImage, None, created, old(db.images), db.images);
    ResolvedColumn(clubImages, true, coverImage, None, created, old(db.images), db.images);
    ResolvedColumn(clubImages, true, headerImage, None, created, old(db.images), db.images);
    id := db.nextClubId;
    db.clubs := db.clubs[id := Club(userId, fields,
                                    ApplyKeyWrite(ResolveImageId(avatarImage, created), None),
                                    ApplyKeyWrite(ResolveImageId(coverImage, created), None),
                                    ApplyKeyWrite(ResolveImageId(headerImage, created), None),
                                    {}, map[])];
    db.nextClubId := db.nextClubId + 1;
  }

  /** `createClub` (club.service.ts:27-84): in one transaction, create the club images,
      insert the club row, then run `upsertClubTiers` for it. A refusal rolls every table
      back; the id sequences stay where they got to. */
  method CreateClub(db: Database, fields: ClubFields, coverImage: ImageInput, headerImage: ImageInput,
                    avatarImage: ImageInput, tiers: seq<TierInput>, deleteIds: seq<int>, userId: int)
    returns (r: Result<int, ServiceError>)
    requires db.Valid()
    modifies db
    ensures db.Valid()
    ensures db.posts == old(db.posts)
    ensures r.Failure? <==> DeletingTierWithMembers(old(db.tiers), deleteIds)
    ensures r.Failure? ==>
              r.error == BadRequest && db.clubs == old(db.clubs)
              && db.tiers == old(db.tiers) && db.images == old(db.images)
    ensures r.Success? ==>
              r.value !in old(db.clubs) && r.value in db.clubs
              && db.clubs == old(db.clubs)[r.value := db.clubs[r.value]]
    ensures r.Success? ==>
              var club := db.clubs[r.value];
              club.ownerId == userId && club.fields == fields
              && club.memberIds == {} && club.admins == map[]
              && ImageColumnAfter(club.avatarId, avatarImage, None, old(db.images), db.images)
              && ImageColumnAfter(club.coverImageId, coverImage, None, old(db.images), db.images)
              && ImageColumnAfter(club.headerImageId, headerImage, None, old(db.images), db.images)
    ensures r.Success? ==>
              exists created: seq<ImageRecord> ::
                && UpsertTiers(TierTable(old(db.tiers), old(db.nextTierId)), r.value, tiers, deleteIds, created)
                     == Success(TierTable(db.tiers, db.nextTierId))
                && CarriesUrls(created, UploadUrls(TierCovers(tiers), false))
                && forall i :: 0 <= i < |created| ==>
                     created[i].userId == userId && created[i].id !in old(db.images)
                     && created[i].id in db.images && db.images[created[i].id] == created[i]
    ensures forall id :: id in old(db.images) ==> id in db.images && db.images[id] == old(db.images)[id]
    ensures forall id :: id in db.images && id !in old(db.images) ==> db.images[id].userId == userId
  {
    var clubs0, tiers0, images0 := db.clubs, db.tiers, db.images;
    var id := InsertClub(db, fields, coverImage, headerImage, avatarImage, userId);
    ghost var club, imagesMid := db.clubs[id], db.images;
    var outcome, tierImages := UpsertClubTiers(db, id, tiers, deleteIds, userId);
    if outcome.Fail? {
      db.clubs, db.tiers, db.images := clubs0, tiers0, images0;
      return Failure(outcome.error);
    }
    ColumnSurvivesNewImages(club.avatarId, avatarImage, None, images0, imagesMid, db.images);
    ColumnSurvivesNewImages(club.coverImageId, coverImage, None, images0, imagesMid, db.images);
    ColumnSurvivesNewImages(club.headerImageId, headerImage, None, images0, imagesMid, db.images);
    assert forall i :: 0 <= i < |tierImages| ==> tierImages[i].id !in images0;
    r := Success(id);
  }

  /** `upsertClub`: a truthy id takes the update branch, which does nothing yet; otherwise
      the club is created. */
  method UpsertClub(db: Database, id: Option<int>, isModerator: bool, userId: int, fields: ClubFields,
                    coverImage: ImageInput, headerImage: ImageInput, avatarImage: ImageInput,
                    tiers: seq<TierInput>, deleteIds: seq<int>)
    returns (r: Option<Result<int, ServiceError>>)
    requires db.Valid()
    modifies db
    ensures db.Valid()
    ensures Truthy(id) ==> r.None? && unchanged(db)
    ensures !Truthy(id) ==>
              r.Some? && (r.value.Failure? <==> DeletingTierWithMembers(old(db.tiers), deleteIds))
              && (r.value.Success? ==>
                    r.value.value !in old(db.clubs) && r.value.value in db.clubs
                    && db.clubs[r.value.value].ownerId == userId)
  {
    if Truthy(id) {
      r := None;
    } else {
      var created := CreateClub(db, fields, coverImage, headerImage, avatarImage, tiers, deleteIds, userId);
      r := Some(created);
    }
  }
}
