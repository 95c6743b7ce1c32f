/** The route handlers of plants.routes.js that the model covers, each a
    function from the tables and the request to the answer and the tables
    afterwards. The identifier generator and the clock are parameters. */
module PlantRoutes {
  import opened Common
  import opened Seqs
  import opened Tables
  import opened Rows
  import opened Queries
  import opened Aggregate
  import opened PlantDetail
  import opened Http

  // ---------------------------------------------------------------------------
  // GET /plantas
  // ---------------------------------------------------------------------------

  /** The answer to the rows of the `/plantas` query: 404 when there is no
      row, otherwise the rows grouped by user and, within a user, by plant. */
  function Plantas(rows: seq<JoinRow>): (r: Reply)
    ensures r.status == NotFound <==> |rows| == 0
    ensures r.status != NotFound ==> r.status == Ok && r.body == UserTree(ExpectedUsers(rows))
  {
    if |rows| == 0 then Reply(NotFound, Message)
    else
      GroupByUserIsExpected(rows);
      Reply(Ok, UserTree(GroupByUser(rows)))
  }

  /** `GET /plantas`: read-only; 404 exactly when there is no user. */
  function GetPlantas(s: Store): (r: Outcome)
    ensures r.store == s
    ensures r.reply.status == NotFound <==> |s.usuarios| == 0
    ensures r.reply.status != NotFound ==> r.reply.status == Ok && r.reply.body.UserTree?
  {
    Outcome(Plantas(QueryPlantas(s)), s)
  }

  /** The records `GET /plantas` answers with are the fold of the query's rows. */
  lemma GetPlantasRecords(s: Store)
    requires |s.usuarios| > 0
    ensures GetPlantas(s).reply.body == UserTree(GroupByUser(QueryPlantas(s)))
  {
  }

  /** Every registered user gets a record in `GET /plantas`, and no two
      records share a user id. */
  lemma PlantasListsEveryUserOnce(s: Store)
    requires |s.usuarios| > 0
    ensures forall i :: 0 <= i < |s.usuarios| ==>
      exists j :: 0 <= j < |GetPlantas(s).reply.body.users| && GetPlantas(s).reply.body.users[j].userId == s.usuarios[i].id
    ensures forall i, j :: 0 <= i < j < |GetPlantas(s).reply.body.users| ==>
      GetPlantas(s).reply.body.users[i].userId != GetPlantas(s).reply.body.users[j].userId
  {
    var rows := QueryPlantas(s);
    GetPlantasRecords(s);
    RecordsDistinct(rows);
    JoinUsersEvery(s, s.usuarios);
    forall i | 0 <= i < |s.usuarios|
      ensures exists j :: 0 <= j < |GroupByUser(rows)| && GroupByUser(rows)[j].userId == s.usuarios[i].id
    {
      var k :| 0 <= k < |rows| && rows[k].userId == s.usuarios[i].id;
      RecordOfRow(rows, k);
    }
  }

  /** Every record of `GET /plantas` belongs to a registered user. */
  lemma PlantasListsOnlyUsers(s: Store)
    requires |s.usuarios| > 0
    ensures forall j :: 0 <= j < |GetPlantas(s).reply.body.users| ==>
      exists i :: 0 <= i < |s.usuarios| && GetPlantas(s).reply.body.users[j].userId == s.usuarios[i].id
  {
    var rows := QueryPlantas(s);
    GetPlantasRecords(s);
    JoinUsersOnly(s, s.usuarios);
    forall j | 0 <= j < |GroupByUser(rows)|
      ensures exists i :: 0 <= i < |s.usuarios| && GroupByUser(rows)[j].userId == s.usuarios[i].id
    {
      RowOfRecord(rows, j);
      var k :| 0 <= k < |rows| && rows[k].userId == GroupByUser(rows)[j].userId;
    }
  }

  // ---------------------------------------------------------------------------
  // GET /plants/:id
  // ---------------------------------------------------------------------------

  /** `GET /plants/:id`: read-only; 404 exactly when no plant has the id,
      otherwise the plant with that id and one of the names stored under it. */
  function GetPlant(s: Store, id: string): (r: Outcome)
    ensures r.store == s
    ensures r.reply.status == NotFound <==> !HasPlant(s.plantas, id)
    ensures r.reply.status != NotFound ==>
      r.reply.status == Ok && r.reply.body.PlantBody? && r.reply.body.planta.id == id &&
      exists p :: p in s.plantas && p.id == id && r.reply.body.planta.name == p.name
  {
    var rows := QueryPlant(s, id);
    match ShowPlant(rows)
    case None => Refuse(NotFound, s)
    case Some(v) =>
      assert rows[0].plantaId == id;
      Outcome(Reply(Ok, PlantBody(v)), s)
  }

  /** The plant object `GET /plants/:id` answers with is the fold of the query's rows. */
  lemma GetPlantView(s: Store, id: string)
    requires HasPlant(s.plantas, id)
    ensures ShowPlant(QueryPlant(s, id)).Some?
    ensures GetPlant(s, id).reply.body == PlantBody(ShowPlant(QueryPlant(s, id)).value)
  {
  }

  /** Each entry of `GET /plants/:id` shows a history row of that plant. */
  lemma GetPlantShowsOnlyItsHistory(s: Store, id: string)
    requires HasPlant(s.plantas, id)
    ensures forall e :: e in GetPlant(s, id).reply.body.planta.historiales ==>
      exists h :: h in s.historiales && h.plantaId == id && Shows(e, h)
  {
    var rows := QueryPlant(s, id);
    GetPlantView(s, id);
    var v := ShowPlant(rows).value;
    QueryPlantOnly(s, id);
    forall e | e in v.historiales ensures exists h :: h in s.historiales && h.plantaId == id && Shows(e, h) {
      var k :| 0 <= k < |rows| && rows[k].hist.historialId.Some? && rows[k].hist == e;
    }
  }

  /** Every history row of a plant appears among the entries of `GET /plants/:id`. */
  lemma GetPlantShowsAllItsHistory(s: Store, id: string)
    requires HasPlant(s.plantas, id)
    ensures forall h :: h in s.historiales && h.plantaId == id ==>
      ShownIn(GetPlant(s, id).reply.body.planta.historiales, h)
  {
    var rows := QueryPlant(s, id);
    GetPlantView(s, id);
    QueryPlantEvery(s, id);
    forall h | h in s.historiales && h.plantaId == id
      ensures ShownIn(ShowPlant(rows).value.historiales, h)
    {
      RowShown(rows, h);
    }
  }

  /** A history row some plant row shows is shown by the fold of those rows. */
  lemma RowShown(rows: seq<PlantRow>, h: History)
    requires exists k :: 0 <= k < |rows| && Shows(rows[k].hist, h)
    ensures ShowPlant(rows).Some? && ShownIn(ShowPlant(rows).value.historiales, h)
  {
    var k :| 0 <= k < |rows| && Shows(rows[k].hist, h);
    ShowPlantKeeps(rows, k);
  }

  /** The fold keeps the rows' history columns when every one carries a history. */
  lemma ShowPlantAllHistory(p: Plant, cols: seq<HistoryCols>)
    requires |cols| > 0 && forall k :: 0 <= k < |cols| ==> cols[k].historialId.Some?
    ensures ShowPlant(PlantRowsOf(p, cols)).Some?
    ensures ShowPlant(PlantRowsOf(p, cols)).value.historiales == cols
  {
    var rows := PlantRowsOf(p, cols);
    NonNullHistoriesAll(rows);
  }

  /** With unique plant ids the query reads the rows of the one plant with the id. */
  lemma QueryPlantUnique(s: Store, i: nat)
    requires UniquePlantIds(s.plantas) && i < |s.plantas|
    ensures QueryPlant(s, s.plantas[i].id) == PlantRowsOf(s.plantas[i], PlantCols(s, s.plantas[i]))
  {
    var p := s.plantas[i];
    PlantsWithIdAt(s.plantas, i);
    assert JoinPlants(s, [p]) == PlantRowsOf(p, PlantCols(s, p)) + JoinPlants(s, []);
  }

  /** With unique catalog ids and known services, a plant's joined columns
      are one per history row of the plant, or the single null row. */
  lemma PlantColsExact(s: Store, p: Plant)
    requires UniqueServiceIds(s.servicios) && HistoriesInCatalog(s.historiales, s.servicios)
    ensures |HistoriesOfPlant(s.historiales, p.id)| == 0 ==> PlantCols(s, p) == [NullHistory]
    ensures |HistoriesOfPlant(s.historiales, p.id)| > 0 ==> ShowsEach(PlantCols(s, p), HistoriesOfPlant(s.historiales, p.id))
  {
    var hs := HistoriesOfPlant(s.historiales, p.id);
    if |hs| > 0 {
      assert HistoriesInCatalog(hs, s.servicios) by {
        forall k | 0 <= k < |hs| ensures InCatalog(s.servicios, hs[k].servicioId) {
          assert hs[k] in hs;
          var j :| 0 <= j < |s.historiales| && s.historiales[j] == hs[k];
        }
      }
      JoinHistoriesExact(hs, s.servicios);
      forall k | 0 <= k < |hs| ensures Shows(PlantCols(s, p)[k], hs[k]) {
        assert PairedWithService(PlantCols(s, p)[k], hs[k], s.servicios);
        assert PlantCols(s, p)[k] == WithService(hs[k], ServicesWithId(s.servicios, hs[k].servicioId)[0]);
      }
    }
  }

  /** With unique keys and every history row naming a catalog service,
      `GET /plants/:id` lists the plant's history rows one for one, in
      table order. */
  lemma GetPlantExact(s: Store, id: string)
    requires UniquePlantIds(s.plantas) && UniqueServiceIds(s.servicios)
    requires HistoriesInCatalog(s.historiales, s.servicios)
    requires HasPlant(s.plantas, id)
    ensures ShowsEach(GetPlant(s, id).reply.body.planta.historiales, HistoriesOfPlant(s.historiales, id))
  {
    var i :| 0 <= i < |s.plantas| && s.plantas[i].id == id;
    GetPlantUnique(s, i);
    ShowPlantColsExact(s, s.plantas[i]);
  }

  /** With unique plant ids `GET /plants/:id` shows the fold of the one plant's columns. */
  lemma GetPlantUnique(s: Store, i: nat)
    requires UniquePlantIds(s.plantas) && i < |s.plantas|
    ensures ShowPlant(PlantRowsOf(s.plantas[i], PlantCols(s, s.plantas[i]))).Some?
    ensures GetPlant(s, s.plantas[i].id).reply.body.planta ==
      ShowPlant(PlantRowsOf(s.plantas[i], PlantCols(s, s.plantas[i]))).value
  {
    QueryPlantUnique(s, i);
    GetPlantView(s, s.plantas[i].id);
  }

  /** The fold of a plant's columns shows its history rows one for one. */
  lemma ShowPlantColsExact(s: Store, p: Plant)
    requires UniqueServiceIds(s.servicios) && HistoriesInCatalog(s.historiales, s.servicios)
    ensures ShowPlant(PlantRowsOf(p, PlantCols(s, p))).Some?
    ensures ShowsEach(ShowPlant(PlantRowsOf(p, PlantCols(s, p))).value.historiales, HistoriesOfPlant(s.historiales, p.id))
  {
    PlantColsExact(s, p);
    if |HistoriesOfPlant(s.historiales, p.id)| > 0 {
      ShowPlantAllHistory(p, PlantCols(s, p));
    } else {
      NullHistoryShowsNothing(p);
    }
  }

  /** A plant without history rows is shown with an empty history. */
  lemma NullHistoryShowsNothing(p: Plant)
    ensures ShowPlant(PlantRowsOf(p, [NullHistory])).Some?
    ensures ShowPlant(PlantRowsOf(p, [NullHistory])).value.historiales == []
  {
    var rows := PlantRowsOf(p, [NullHistory]);
    assert rows[0].hist == NullHistory;
  }

  // ---------------------------------------------------------------------------
  // POST /plants/create
  // ---------------------------------------------------------------------------

  /** The body fields `name` and `usuario_id`. */
  datatype CreatePlantRequest = CreatePlantRequest(name: Option<string>, usuarioId: Option<string>)

  /** `POST /plants/create` with `newId` the generated uuid: 400 and no
      change when a field is falsy, otherwise 201 and exactly the new row
      appended to `plantas`. */
  function CreatePlant(s: Store, req: CreatePlantRequest, newId: string): (r: Outcome)
    ensures r.reply.status == BadRequest <==> !Truthy(req.name) || !Truthy(req.usuarioId)
    ensures r.reply.status == BadRequest ==> r.store == s
    ensures r.reply.status != BadRequest ==>
      var p := Plant(newId, req.name.value, req.usuarioId.value);
      r.reply == Reply(Created, CreatedPlant(p)) &&
      r.store.usuarios == s.usuarios && r.store.servicios == s.servicios && r.store.historiales == s.historiales &&
      |r.store.plantas| == |s.plantas| + 1 && r.store.plantas[..|s.plantas|] == s.plantas &&
      r.store.plantas[|s.plantas|] == p
  {
    if !Truthy(req.name) || !Truthy(req.usuarioId) then Refuse(BadRequest, s)
    else
      var p := Plant(newId, req.name.value, req.usuarioId.value);
      Outcome(Reply(Created, CreatedPlant(p)), s.(plantas := s.plantas + [p]))
  }

  /** A plant no history row refers to is shown with an empty history. */
  lemma GetPlantNoHistory(s: Store, id: string)
    requires HasPlant(s.plantas, id)
    requires forall h :: h in s.historiales ==> h.plantaId != id
    ensures GetPlant(s, id).reply.body.planta.historiales == []
  {
    var rows := QueryPlant(s, id);
    GetPlantView(s, id);
    QueryPlantOnly(s, id);
    assert forall k :: 0 <= k < |rows| ==> rows[k].hist.historialId.None?;
  }

  /** A plant whose id no other row shares is shown under its own name. */
  lemma GetPlantOwnName(s: Store, i: nat)
    requires i < |s.plantas|
    requires forall j :: 0 <= j < |s.plantas| && j != i ==> s.plantas[j].id != s.plantas[i].id
    ensures GetPlant(s, s.plantas[i].id).reply.body.planta.name == s.plantas[i].name
  {
    var id := s.plantas[i].id;
    assert HasPlant(s.plantas, id);
    var v := GetPlant(s, id).reply.body.planta;
    var p :| p in s.plantas && p.id == id && v.name == p.name;
    OnlyPlantWithId(s.plantas, i, p);
  }

  /** The one plant stored under an id no other plant shares is the plant at `i`. */
  lemma OnlyPlantWithId(ps: seq<Plant>, i: nat, p: Plant)
    requires i < |ps|
    requires forall j :: 0 <= j < |ps| && j != i ==> ps[j].id != ps[i].id
    requires p in ps && p.id == ps[i].id
    ensures p == ps[i]
  {
    var j :| 0 <= j < |ps| && ps[j] == p;
  }

  /** A plant created under a fresh id is shown by `GET /plants/:id` under
      the name given and with an empty history. */
  lemma CreateThenGet(s: Store, req: CreatePlantRequest, newId: string)
    requires CreatePlant(s, req, newId).reply.status == Created
    requires !HasPlant(s.plantas, newId)
    requires forall h :: h in s.historiales ==> h.plantaId != newId
    ensures var g := GetPlant(CreatePlant(s, req, newId).store, newId).reply;
      g.status == Ok && g.body == PlantBody(PlantView(newId, req.name.value, []))
  {
    var t := CreatePlant(s, req, newId).store;
    var n := |s.plantas|;
    assert t.plantas[n].id == newId;
    assert HasPlant(t.plantas, newId);
    forall j | 0 <= j < |t.plantas| && j != n ensures t.plantas[j].id != t.plantas[n].id {
      assert t.plantas[j] == s.plantas[j];
    }
    GetPlantOwnName(t, n);
    GetPlantNoHistory(t, newId);
  }

  /** Deleting a plant just created under a fresh id restores the tables. */
  lemma CreateThenDelete(s: Store, req: CreatePlantRequest, newId: string)
    requires CreatePlant(s, req, newId).reply.status == Created
    requires newId != "" && !HasPlant(s.plantas, newId)
    ensures var d := DeletePlant(CreatePlant(s, req, newId).store, newId);
      d.reply.status == Ok && d.store == s
  {
    var t := CreatePlant(s, req, newId).store;
    var p := t.plantas[|s.plantas|];
    assert t.plantas == s.plantas + [p];
    assert HasPlant(t.plantas, newId);
    WithoutPlantAppend(s.plantas, [p], newId);
    WithoutPlantAbsent(s.plantas, newId);
    assert WithoutPlant([p], newId) == [];
  }

  // ---------------------------------------------------------------------------
  // DELETE /plants/delete/:id
  // ---------------------------------------------------------------------------

  /** `DELETE /plants/delete/:id`: 400 for an empty id, 404 when no plant
      has it, both without change; otherwise 200 and every plant row with
      that id removed, the history rows left as they are. */
  function DeletePlant(s: Store, id: string): (r: Outcome)
    ensures r.reply.status == BadRequest <==> id == ""
    ensures r.reply.status == NotFound <==> id != "" && !HasPlant(s.plantas, id)
    ensures r.reply.status != Ok ==> r.store == s
    ensures r.reply.status == Ok ==>
      (forall p :: p in r.store.plantas <==> p in s.plantas && p.id != id) &&
      r.store.usuarios == s.usuarios && r.store.servicios == s.servicios && r.store.historiales == s.historiales
    ensures r.reply.status in {BadRequest, NotFound, Ok}
  {
    if id == "" then Refuse(BadRequest, s)
    else if !HasPlant(s.plantas, id) then Refuse(NotFound, s)
    else Outcome(Reply(Ok, Message), s.(plantas := WithoutPlant(s.plantas, id)))
  }

  /** With unique plant ids, a successful delete removes exactly the one row. */
  lemma DeleteRemovesOneRow(s: Store, id: string)
    requires UniquePlantIds(s.plantas)
    requires DeletePlant(s, id).reply.status == Ok
    ensures exists i :: (0 <= i < |s.plantas| && s.plantas[i].id == id &&
      DeletePlant(s, id).store.plantas == s.plantas[..i] + s.plantas[i + 1..])
  {
    var i :| 0 <= i < |s.plantas| && s.plantas[i].id == id;
    WithoutPlantOnly(s.plantas, i);
  }

  /** Deleting the same plant a second time finds nothing. */
  lemma DeleteTwice(s: Store, id: string)
    requires DeletePlant(s, id).reply.status == Ok
    ensures DeletePlant(DeletePlant(s, id).store, id).reply.status == NotFound
  {
    var t := DeletePlant(s, id).store;
    forall i | 0 <= i < |t.plantas| ensures t.plantas[i].id != id {
      assert t.plantas[i] in t.plantas;
    }
  }

  // ---------------------------------------------------------------------------
  // POST /plants/add-services
  // ---------------------------------------------------------------------------

  /** The body fields `plantaId` and `servicioIds`; `None` for the latter
      when it is not an array. */
  datatype AddServicesRequest = AddServicesRequest(plantaId: Option<string>, servicioIds: Option<seq<int>>)

  /** The first validation: a truthy plant id and a non-empty array. */
  predicate WellFormed(req: AddServicesRequest)
  {
    Truthy(req.plantaId) && req.servicioIds.Some? && |req.servicioIds.value| > 0
  }

  /** One history row per requested service, in request order; the k-th
      row takes the k-th generated uuid and all share one date. */
  function NewHistories(plantaId: string, ids: seq<int>, uuid: nat -> string, now: Timestamp): (r: seq<History>)
    ensures |r| == |ids|
    ensures forall h :: h in r ==> h.plantaId == plantaId && h.fecha == now && h.servicioId in ids
    ensures forall k :: 0 <= k < |r| ==> r[k].servicioId == ids[k]
  {
    seq(|ids|, k requires 0 <= k < |ids| => History(uuid(k), plantaId, ids[k], now))
  }

  /** `POST /plants/add-services`: 400 for a malformed request, 404 for an
      unknown plant, 400 with the catalog ids found when their number
      differs from the number requested; all of these leave the tables as
      they are. Otherwise 201 and one new history row per requested id. */
  function AddServices(s: Store, req: AddServicesRequest, uuid: nat -> string, now: Timestamp): (r: Outcome)
    ensures r.reply == Reply(BadRequest, Message) <==> !WellFormed(req)
    ensures r.reply.status == NotFound <==> WellFormed(req) && !HasPlant(s.plantas, req.plantaId.value)
    ensures r.reply.body.InvalidServices? <==>
      WellFormed(req) && HasPlant(s.plantas, req.plantaId.value) &&
      |CatalogHits(s.servicios, req.servicioIds.value)| != |req.servicioIds.value|
    ensures r.reply.body.InvalidServices? ==>
      r.reply.status == BadRequest && r.reply.body.validServiceIds == CatalogHits(s.servicios, req.servicioIds.value)
    ensures r.reply.status != Created ==> r.store == s
    ensures r.reply.status == Created ==>
      var pid, ids := req.plantaId.value, req.servicioIds.value;
      r.reply.body == ServicesAdded(pid, ids) &&
      r.store.usuarios == s.usuarios && r.store.plantas == s.plantas && r.store.servicios == s.servicios &&
      |r.store.historiales| == |s.historiales| + |ids| &&
      r.store.historiales[..|s.historiales|] == s.historiales &&
      forall k :: 0 <= k < |ids| ==> r.store.historiales[|s.historiales| + k] == History(uuid(k), pid, ids[k], now)
    ensures r.reply.status in {BadRequest, NotFound, Created}
  {
    if !WellFormed(req) then Refuse(BadRequest, s)
    else
      var pid, ids := req.plantaId.value, req.servicioIds.value;
      if !HasPlant(s.plantas, pid) then Refuse(NotFound, s)
      else
        var valid := CatalogHits(s.servicios, ids);
        if |valid| != |ids| then Outcome(Reply(BadRequest, InvalidServices(valid)), s)
        else Outcome(Reply(Created, ServicesAdded(pid, ids)), s.(historiales := s.historiales + NewHistories(pid, ids, uuid, now)))
  }

  /** With unique catalog ids no catalog id is found twice. */
  lemma {:induction false} CatalogHitsNoDup(catalog: seq<Service>, requested: seq<int>)
    requires UniqueServiceIds(catalog)
    ensures NoDup(CatalogHits(catalog, requested))
  {
    if |catalog| > 0 {
      var rest := catalog[1..];
      assert UniqueServiceIds(rest) by {
        forall i, j | 0 <= i < j < |rest| ensures rest[i].id != rest[j].id {
          assert rest[i] == catalog[i + 1] && rest[j] == catalog[j + 1];
        }
      }
      CatalogHitsNoDup(rest, requested);
      var tail := CatalogHits(rest, requested);
      var head := if catalog[0].id in requested then [catalog[0].id] else [];
      assert CatalogHits(catalog, requested) == head + tail;
      forall j | 0 <= j < |tail| ensures tail[j] != catalog[0].id {
        assert tail[j] in tail;
        var i :| 0 <= i < |rest| && rest[i].id == tail[j];
        assert rest[i] == catalog[i + 1];
      }
      forall i, j | 0 <= i < j < |head + tail| ensures (head + tail)[i] != (head + tail)[j] {
        if i < |head| {
          assert (head + tail)[j] == tail[j - 1];
        } else {
          assert (head + tail)[i] == tail[i - |head|] && (head + tail)[j] == tail[j - |head|];
        }
      }
    }
  }

  /** With unique catalog ids, as many catalog ids are found as requested
      exactly when every requested id is in the catalog and none is
      requested twice. */
  lemma HitsMatchRequest(catalog: seq<Service>, ids: seq<int>)
    requires UniqueServiceIds(catalog)
    ensures |CatalogHits(catalog, ids)| == |ids| <==>
      (forall k :: 0 <= k < |ids| ==> InCatalog(catalog, ids[k])) && NoDup(ids)
  {
    var hits := CatalogHits(catalog, ids);
    CatalogHitsNoDup(catalog, ids);
    ElemsCard(hits);
    ElemsCard(ids);
    assert Elems(hits) <= Elems(ids) by {
      forall x | x in Elems(hits) ensures x in Elems(ids) {
        var i :| 0 <= i < |hits| && hits[i] == x;
        assert x in hits;
        var j :| 0 <= j < |ids| && ids[j] == x;
      }
    }
    SubsetCard(Elems(hits), Elems(ids));
    if (forall k :: 0 <= k < |ids| ==> InCatalog(catalog, ids[k])) && NoDup(ids) {
      assert Elems(ids) <= Elems(hits) by {
        forall x | x in Elems(ids) ensures x in Elems(hits) {
          var j :| 0 <= j < |ids| && ids[j] == x;
          assert InCatalog(catalog, ids[j]);
          assert x in hits;
          var i :| 0 <= i < |hits| && hits[i] == x;
        }
      }
      assert Elems(hits) == Elems(ids);
      assert |hits| == |Elems(hits)| == |Elems(ids)| == |ids|;
    }
    if |hits| == |ids| {
      assert |Elems(ids)| == |ids|;
      assert NoDup(ids);
      assert Elems(hits) == Elems(ids);
      forall k | 0 <= k < |ids| ensures InCatalog(catalog, ids[k]) {
        assert ids[k] in Elems(hits);
        var i :| 0 <= i < |hits| && hits[i] == ids[k];
        assert hits[i] in hits;
      }
    }
  }

  /** With unique catalog ids the batch is recorded exactly when the request
      is well formed, the plant exists, every requested service is in the
      catalog and none is requested twice. */
  lemma AddServicesAcceptsExactly(s: Store, req: AddServicesRequest, uuid: nat -> string, now: Timestamp)
    requires UniqueServiceIds(s.servicios)
    ensures AddServices(s, req, uuid, now).reply.status == Created <==>
      WellFormed(req) && HasPlant(s.plantas, req.plantaId.value) &&
      (forall k :: 0 <= k < |req.servicioIds.value| ==> InCatalog(s.servicios, req.servicioIds.value[k])) &&
      NoDup(req.servicioIds.value)
  {
    if WellFormed(req) {
      HitsMatchRequest(s.servicios, req.servicioIds.value);
    }
  }

  /** A request naming the same service twice is refused and records nothing. */
  lemma DuplicateServiceIdRejected(s: Store, req: AddServicesRequest, uuid: nat -> string, now: Timestamp, i: nat, j: nat)
    requires UniqueServiceIds(s.servicios)
    requires WellFormed(req) && HasPlant(s.plantas, req.plantaId.value)
    requires i < j < |req.servicioIds.value|
    requires req.servicioIds.value[i] == req.servicioIds.value[j]
    ensures AddServices(s, req, uuid, now).reply.status == BadRequest
    ensures AddServices(s, req, uuid, now).store == s
  {
    AddServicesAcceptsExactly(s, req, uuid, now);
  }

  /** A history row of an existing plant is shown by `GET /plants/:id`. */
  lemma EntryShown(t: Store, pid: string, h: History)
    requires HasPlant(t.plantas, pid)
    requires h in t.historiales && h.plantaId == pid
    ensures ShownIn(GetPlant(t, pid).reply.body.planta.historiales, h)
  {
    GetPlantShowsAllItsHistory(t, pid);
  }

  /** A successful batch leaves the tables as they were, with the batch
      appended to `historiales`. */
  lemma AddServicesCreated(s: Store, req: AddServicesRequest, uuid: nat -> string, now: Timestamp)
    requires AddServices(s, req, uuid, now).reply.status == Created
    ensures WellFormed(req) && HasPlant(s.plantas, req.plantaId.value)
    ensures AddServices(s, req, uuid, now).store ==
      s.(historiales := s.historiales + NewHistories(req.plantaId.value, req.servicioIds.value, uuid, now))
  {
  }

  /** Every row of a batch recorded for an existing plant is shown by `GET /plants/:id`. */
  lemma BatchShown(t: Store, pid: string, ids: seq<int>, uuid: nat -> string, now: Timestamp)
    requires HasPlant(t.plantas, pid)
    requires forall k :: 0 <= k < |ids| ==> History(uuid(k), pid, ids[k], now) in t.historiales
    ensures forall k :: 0 <= k < |ids| ==>
      ShownIn(GetPlant(t, pid).reply.body.planta.historiales, History(uuid(k), pid, ids[k], now))
  {
    forall k | 0 <= k < |ids|
      ensures ShownIn(GetPlant(t, pid).reply.body.planta.historiales, History(uuid(k), pid, ids[k], now))
    {
      EntryShown(t, pid, History(uuid(k), pid, ids[k], now));
    }
  }

  /** After a successful batch, `GET /plants/:id` shows one entry per
      requested service, each with its generated id, the service and the
      batch's date. */
  lemma AddServicesThenGet(s: Store, req: AddServicesRequest, uuid: nat -> string, now: Timestamp)
    requires AddServices(s, req, uuid, now).reply.status == Created
    ensures GetPlant(AddServices(s, req, uuid, now).store, req.plantaId.value).reply.status == Ok
    ensures forall k :: 0 <= k < |req.servicioIds.value| ==>
      ShownIn(GetPlant(AddServices(s, req, uuid, now).store, req.plantaId.value).reply.body.planta.historiales,
              History(uuid(k), req.plantaId.value, req.servicioIds.value[k], now))
  {
    var pid, ids := req.plantaId.value, req.servicioIds.value;
    var hs := NewHistories(pid, ids, uuid, now);
    var t := s.(historiales := s.historiales + hs);
    AddServicesCreated(s, req, uuid, now);
    forall k | 0 <= k < |ids| ensures History(uuid(k), pid, ids[k], now) in t.historiales {
      assert t.historiales[|s.historiales| + k] == hs[k];
    }
    BatchShown(t, pid, ids, uuid, now);
  }

  /** A request naming a service outside the catalog is refused and records
      nothing, however many of the other ids are valid. */
  lemma UnknownServiceRejected(s: Store, req: AddServicesRequest, uuid: nat -> string, now: Timestamp, k: nat)
    requires UniqueServiceIds(s.servicios)
    requires WellFormed(req) && HasPlant(s.plantas, req.plantaId.value)
    requires k < |req.servicioIds.value| && !InCatalog(s.servicios, req.servicioIds.value[k])
    ensures AddServices(s, req, uuid, now).reply.status == BadRequest
    ensures AddServices(s, req, uuid, now).store == s
  {
    AddServicesAcceptsExactly(s, req, uuid, now);
  }

  /** A successful batch names only catalog services, so the history
      table keeps naming only catalog services. */
  lemma AddServicesKeepsHistoriesInCatalog(s: Store, req: AddServicesRequest, uuid: nat -> string, now: Timestamp)
    requires UniqueServiceIds(s.servicios) && HistoriesInCatalog(s.historiales, s.servicios)
    ensures var t := AddServices(s, req, uuid, now).store;
      HistoriesInCatalog(t.historiales, t.servicios)
  {
    var t := AddServices(s, req, uuid, now);
    if t.reply.status == Created {
      var hs := NewHistories(req.plantaId.value, req.servicioIds.value, uuid, now);
      assert t.store.historiales == s.historiales + hs;
      AddServicesAcceptsExactly(s, req, uuid, now);
      forall j | 0 <= j < |t.store.historiales| ensures InCatalog(s.servicios, t.store.historiales[j].servicioId) {
        if j >= |s.historiales| {
          assert t.store.historiales[j] == hs[j - |s.historiales|];
        }
      }
    }
  }

  /** The rows of a plant without history, after a batch for it, are the batch. */
  lemma BatchIsPlantHistory(prior: seq<History>, hs: seq<History>, pid: string)
    requires forall h :: h in prior ==> h.plantaId != pid
    requires forall k :: 0 <= k < |hs| ==> hs[k].plantaId == pid
    ensures HistoriesOfPlant(prior + hs, pid) == hs
  {
    HistoriesOfPlantAppend(prior, hs, pid);
    forall j | 0 <= j < |prior| ensures prior[j].plantaId != pid {
      assert prior[j] in prior;
    }
    HistoriesOfPlantNone(prior, pid);
    HistoriesOfPlantAll(hs, pid);
  }

  /** For a plant without history rows, after a successful batch
      `GET /plants/:id` shows exactly one entry per requested service, in
      request order, all with the batch's date. */
  lemma AddServicesThenGetExactly(s: Store, req: AddServicesRequest, uuid: nat -> string, now: Timestamp)
    requires UniquePlantIds(s.plantas) && UniqueServiceIds(s.servicios)
    requires HistoriesInCatalog(s.historiales, s.servicios)
    requires AddServices(s, req, uuid, now).reply.status == Created
    requires forall h :: h in s.historiales ==> h.plantaId != req.plantaId.value
    ensures ShowsEach(GetPlant(AddServices(s, req, uuid, now).store, req.plantaId.value).reply.body.planta.historiales,
                      NewHistories(req.plantaId.value, req.servicioIds.value, uuid, now))
  {
    var pid, ids := req.plantaId.value, req.servicioIds.value;
    var hs := NewHistories(pid, ids, uuid, now);
    var t := s.(historiales := s.historiales + hs);
    AddServicesCreated(s, req, uuid, now);
    AddServicesKeepsHistoriesInCatalog(s, req, uuid, now);
    assert HistoriesInCatalog(t.historiales, t.servicios);
    BatchIsPlantHistory(s.historiales, hs, pid);
    GetPlantExact(t, pid);
  }
}
