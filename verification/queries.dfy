/** The two read queries of plants.routes.js as functions over the
    in-memory tables: the left joins produce their rows in table order
    (SQL leaves that order open; this model fixes one). */
module Queries {
  import opened Common
  import opened Tables
  import opened Rows

  /** The catalog rows the join on the service id matches for one history row. */
  function ServicesWithId(catalog: seq<Service>, id: int): (r: seq<Service>)
    ensures forall s :: s in r <==> s in catalog && s.id == id
  {
    if |catalog| == 0 then []
    else (if catalog[0].id == id then [catalog[0]] else []) + ServicesWithId(catalog[1..], id)
  }

  /** The history columns `c` carry the id, service and date of history row `h`. */
  predicate Shows(c: HistoryCols, h: History)
  {
    c.historialId == Some(h.id) && c.servicioId == Some(h.servicioId) && c.fecha == Some(h.fecha)
  }

  /** Some entry of `es` shows history row `h`. */
  predicate ShownIn(es: seq<HistoryCols>, h: History)
  {
    exists e :: e in es && Shows(e, h)
  }

  /** The entries `es` show the history rows `hs`, one for one and in order. */
  predicate ShowsEach(es: seq<HistoryCols>, hs: seq<History>)
  {
    |es| == |hs| && forall k :: 0 <= k < |hs| ==> Shows(es[k], hs[k])
  }

  /** The joined history and service columns of a history row and a matching service. */
  function WithService(h: History, s: Service): HistoryCols
  {
    HistoryCols(Some(h.id), Some(h.servicioId), Some(h.fecha), Some(s.name), Some(s.description))
  }

  function WithServices(h: History, ss: seq<Service>): (r: seq<HistoryCols>)
    ensures |r| == |ss| && forall k :: 0 <= k < |ss| ==> r[k] == WithService(h, ss[k])
  {
    if |ss| == 0 then [] else [WithService(h, ss[0])] + WithServices(h, ss[1..])
  }

  /** The columns one history row contributes to the join: one row per
      matching service, or one row with null service columns. */
  function HistoryRowCols(h: History, catalog: seq<Service>): (r: seq<HistoryCols>)
    ensures |r| > 0
    ensures forall k :: 0 <= k < |r| ==> Shows(r[k], h)
  {
    var ss := ServicesWithId(catalog, h.servicioId);
    if |ss| == 0 then [HistoryCols(Some(h.id), Some(h.servicioId), Some(h.fecha), None, None)]
    else WithServices(h, ss)
  }

  /** The rows of `historiales` with the given `planta_id`, in table order. */
  function HistoriesOfPlant(hs: seq<History>, id: string): (r: seq<History>)
    ensures forall h :: h in r <==> h in hs && h.plantaId == id
  {
    if |hs| == 0 then []
    else (if hs[0].plantaId == id then [hs[0]] else []) + HistoriesOfPlant(hs[1..], id)
  }

  lemma {:induction false} HistoriesOfPlantAppend(a: seq<History>, b: seq<History>, id: string)
    ensures HistoriesOfPlant(a + b, id) == HistoriesOfPlant(a, id) + HistoriesOfPlant(b, id)
  {
    if |a| == 0 {
      assert a + b == b;
    } else {
      assert (a + b)[1..] == a[1..] + b;
      HistoriesOfPlantAppend(a[1..], b, id);
    }
  }

  function JoinHistories(hs: seq<History>, catalog: seq<Service>): (r: seq<HistoryCols>)
    ensures |r| >= |hs|
  {
    if |hs| == 0 then [] else HistoryRowCols(hs[0], catalog) + JoinHistories(hs[1..], catalog)
  }

  /** The history columns of one plant in `plantas LEFT JOIN historiales LEFT JOIN servicios`. */
  function PlantCols(s: Store, p: Plant): (r: seq<HistoryCols>)
    ensures |r| > 0
  {
    var hs := HistoriesOfPlant(s.historiales, p.id);
    if |hs| == 0 then [NullHistory] else JoinHistories(hs, s.servicios)
  }

  function PlantRowsOf(p: Plant, cols: seq<HistoryCols>): (r: seq<PlantRow>)
    ensures |r| == |cols|
    ensures forall k :: 0 <= k < |cols| ==> r[k] == PlantRow(p.id, p.name, cols[k])
  {
    if |cols| == 0 then [] else [PlantRow(p.id, p.name, cols[0])] + PlantRowsOf(p, cols[1..])
  }

  /** The rows of `plantas` with the given id, in table order. */
  function PlantsWithId(ps: seq<Plant>, id: string): (r: seq<Plant>)
    ensures forall p :: p in r <==> p in ps && p.id == id
  {
    if |ps| == 0 then []
    else (if ps[0].id == id then [ps[0]] else []) + PlantsWithId(ps[1..], id)
  }

  function JoinPlants(s: Store, ps: seq<Plant>): (r: seq<PlantRow>)
    ensures |r| >= |ps|
    ensures forall k :: 0 <= k < |r| ==> exists p :: p in ps && r[k].plantaId == p.id && r[k].plantaName == p.name
  {
    if |ps| == 0 then [] else PlantRowsOf(ps[0], PlantCols(s, ps[0])) + JoinPlants(s, ps[1..])
  }

  /** The rows of the `GET /plants/:id` query: empty exactly when no plant has that id. */
  function QueryPlant(s: Store, id: string): (r: seq<PlantRow>)
    ensures |r| == 0 <==> !HasPlant(s.plantas, id)
    ensures forall k :: 0 <= k < |r| ==> r[k].plantaId == id
    ensures forall k :: 0 <= k < |r| ==> exists p :: p in s.plantas && p.id == id && r[k].plantaName == p.name
  {
    var ps := PlantsWithId(s.plantas, id);
    assert |ps| == 0 <==> !HasPlant(s.plantas, id) by {
      if HasPlant(s.plantas, id) {
        var i :| 0 <= i < |s.plantas| && s.plantas[i].id == id;
        assert s.plantas[i] in ps;
      }
      if |ps| > 0 {
        assert ps[0] in ps;
      }
    }
    JoinPlants(s, ps)
  }

  /** The rows of `plantas` owned by a user, in table order. */
  function PlantsOfUser(ps: seq<Plant>, userId: string): (r: seq<Plant>)
    ensures forall p :: p in r <==> p in ps && p.usuarioId == userId
  {
    if |ps| == 0 then []
    else (if ps[0].usuarioId == userId then [ps[0]] else []) + PlantsOfUser(ps[1..], userId)
  }

  function UserPlantRows(u: User, p: Plant, cols: seq<HistoryCols>): (r: seq<JoinRow>)
    ensures |r| == |cols|
    ensures forall k :: 0 <= k < |r| ==> r[k].userId == u.id
  {
    if |cols| == 0 then []
    else [JoinRow(u.id, u.name, u.email, Some(p.id), Some(p.name), cols[0])] + UserPlantRows(u, p, cols[1..])
  }

  function JoinUserPlants(s: Store, u: User, ps: seq<Plant>): (r: seq<JoinRow>)
    ensures |r| >= |ps|
    ensures forall k :: 0 <= k < |r| ==> r[k].userId == u.id
  {
    if |ps| == 0 then [] else UserPlantRows(u, ps[0], PlantCols(s, ps[0])) + JoinUserPlants(s, u, ps[1..])
  }

  /** The rows one user contributes to `usuarios LEFT JOIN plantas ...`:
      a single row with null plant and history columns when the user owns no plant. */
  function UserRows(s: Store, u: User): (r: seq<JoinRow>)
    ensures |r| > 0
    ensures forall k :: 0 <= k < |r| ==> r[k].userId == u.id
  {
    var ps := PlantsOfUser(s.plantas, u.id);
    if |ps| == 0 then [JoinRow(u.id, u.name, u.email, None, None, NullHistory)]
    else JoinUserPlants(s, u, ps)
  }

  function JoinUsers(s: Store, us: seq<User>): (r: seq<JoinRow>)
    ensures |r| >= |us|
  {
    if |us| == 0 then [] else UserRows(s, us[0]) + JoinUsers(s, us[1..])
  }

  /** The rows of the `GET /plantas` query: empty exactly when `usuarios` is. */
  function QueryPlantas(s: Store): (r: seq<JoinRow>)
    ensures |r| == 0 <==> |s.usuarios| == 0
  {
    JoinUsers(s, s.usuarios)
  }

  // ---------------------------------------------------------------------------
  // What the joins show of the history table. Each direction is a lemma of
  // its own: together in one context they would instantiate each other
  // without end.
  // ---------------------------------------------------------------------------

  /** Every joined history column shows one of the history rows given. */
  lemma {:induction false} JoinHistoriesOnly(hs: seq<History>, catalog: seq<Service>)
    ensures forall k :: 0 <= k < |JoinHistories(hs, catalog)| ==> exists j :: 0 <= j < |hs| && Shows(JoinHistories(hs, catalog)[k], hs[j])
  {
    if |hs| > 0 {
      var a := HistoryRowCols(hs[0], catalog);
      var b := JoinHistories(hs[1..], catalog);
      JoinHistoriesOnly(hs[1..], catalog);
      var r := a + b;
      assert JoinHistories(hs, catalog) == r;
      forall k | 0 <= k < |r| ensures exists j :: 0 <= j < |hs| && Shows(r[k], hs[j]) {
        if k < |a| {
          assert Shows(r[k], hs[0]);
        } else {
          assert r[k] == b[k - |a|];
          var j :| 0 <= j < |hs[1..]| && Shows(b[k - |a|], hs[1..][j]);
          assert hs[1..][j] == hs[j + 1];
        }
      }
    } else {
      assert JoinHistories(hs, catalog) == [];
    }
  }

  /** Every history row given is shown by some joined history column. */
  lemma {:induction false} JoinHistoriesEvery(hs: seq<History>, catalog: seq<Service>)
    ensures forall j :: 0 <= j < |hs| ==> exists k :: 0 <= k < |JoinHistories(hs, catalog)| && Shows(JoinHistories(hs, catalog)[k], hs[j])
  {
    if |hs| > 0 {
      var a := HistoryRowCols(hs[0], catalog);
      var b := JoinHistories(hs[1..], catalog);
      JoinHistoriesEvery(hs[1..], catalog);
      var r := a + b;
      assert JoinHistories(hs, catalog) == r;
      forall j | 0 <= j < |hs|
        ensures exists k :: 0 <= k < |JoinHistories(hs, catalog)| && Shows(JoinHistories(hs, catalog)[k], hs[j])
      {
        if j == 0 {
          assert Shows(r[0], hs[0]);
        } else {
          assert hs[j] == hs[1..][j - 1];
          var k :| 0 <= k < |b| && Shows(b[k], hs[1..][j - 1]);
          assert r[k + |a|] == b[k];
        }
      }
    }
  }

  /** A plant's joined columns show only history rows of that plant. */
  lemma PlantColsOnly(s: Store, p: Plant)
    ensures forall k :: 0 <= k < |PlantCols(s, p)| && PlantCols(s, p)[k].historialId.Some? ==>
        exists h :: h in s.historiales && h.plantaId == p.id && Shows(PlantCols(s, p)[k], h)
  {
    var hs := HistoriesOfPlant(s.historiales, p.id);
    var r := PlantCols(s, p);
    if |hs| > 0 {
      JoinHistoriesOnly(hs, s.servicios);
      forall k | 0 <= k < |r| && r[k].historialId.Some?
        ensures exists h :: h in s.historiales && h.plantaId == p.id && Shows(r[k], h)
      {
        var j :| 0 <= j < |hs| && Shows(r[k], hs[j]);
        assert hs[j] in hs;
      }
    }
  }

  /** A plant's joined columns show every history row of that plant. */
  lemma PlantColsEvery(s: Store, p: Plant)
    ensures forall h :: h in s.historiales && h.plantaId == p.id ==> exists k :: 0 <= k < |PlantCols(s, p)| && Shows(PlantCols(s, p)[k], h)
  {
    var hs := HistoriesOfPlant(s.historiales, p.id);
    var r := PlantCols(s, p);
    if |hs| > 0 {
      JoinHistoriesEvery(hs, s.servicios);
      forall h | h in s.historiales && h.plantaId == p.id
        ensures exists k :: 0 <= k < |r| && Shows(r[k], h)
      {
        assert h in hs;
        var j :| 0 <= j < |hs| && hs[j] == h;
      }
    }
  }

  /** The join of plants sharing one id shows only history rows of that id. */
  lemma {:induction false} JoinPlantsOnly(s: Store, ps: seq<Plant>, id: string)
    requires forall i :: 0 <= i < |ps| ==> ps[i].id == id
    ensures forall k :: 0 <= k < |JoinPlants(s, ps)| && JoinPlants(s, ps)[k].hist.historialId.Some? ==>
        exists h :: h in s.historiales && h.plantaId == id && Shows(JoinPlants(s, ps)[k].hist, h)
  {
    if |ps| > 0 {
      var cols := PlantCols(s, ps[0]);
      var a := PlantRowsOf(ps[0], cols);
      var b := JoinPlants(s, ps[1..]);
      var r := a + b;
      assert JoinPlants(s, ps) == r;
      PlantColsOnly(s, ps[0]);
      JoinPlantsOnly(s, ps[1..], id);
      forall k | 0 <= k < |r| && r[k].hist.historialId.Some?
        ensures exists h :: h in s.historiales && h.plantaId == id && Shows(r[k].hist, h)
      {
        if k < |a| {
          assert r[k].hist == cols[k];
        } else {
          assert r[k] == b[k - |a|];
        }
      }
    }
  }

  /** The join of a non-empty list of plants sharing one id shows every
      history row of that id. */
  lemma JoinPlantsEvery(s: Store, ps: seq<Plant>, id: string)
    requires |ps| > 0 && ps[0].id == id
    ensures forall h :: h in s.historiales && h.plantaId == id ==> exists k :: 0 <= k < |JoinPlants(s, ps)| && Shows(JoinPlants(s, ps)[k].hist, h)
  {
    var cols := PlantCols(s, ps[0]);
    var a := PlantRowsOf(ps[0], cols);
    var r := a + JoinPlants(s, ps[1..]);
    assert JoinPlants(s, ps) == r;
    PlantColsEvery(s, ps[0]);
    forall h | h in s.historiales && h.plantaId == id
      ensures exists k :: 0 <= k < |r| && Shows(r[k].hist, h)
    {
      var k :| 0 <= k < |cols| && Shows(cols[k], h);
      assert r[k].hist == cols[k];
    }
  }

  /** The rows of `GET /plants/:id` show only history rows of that plant. */
  lemma QueryPlantOnly(s: Store, id: string)
    ensures forall k :: 0 <= k < |QueryPlant(s, id)| && QueryPlant(s, id)[k].hist.historialId.Some? ==>
        exists h :: h in s.historiales && h.plantaId == id && Shows(QueryPlant(s, id)[k].hist, h)
  {
    var ps := PlantsWithId(s.plantas, id);
    forall i | 0 <= i < |ps| ensures ps[i].id == id {
      assert ps[i] in ps;
    }
    JoinPlantsOnly(s, ps, id);
  }

  /** When the plant exists, the rows of `GET /plants/:id` show every history row of it. */
  lemma QueryPlantEvery(s: Store, id: string)
    requires HasPlant(s.plantas, id)
    ensures forall h :: h in s.historiales && h.plantaId == id ==> exists k :: 0 <= k < |QueryPlant(s, id)| && Shows(QueryPlant(s, id)[k].hist, h)
  {
    var ps := PlantsWithId(s.plantas, id);
    var i :| 0 <= i < |s.plantas| && s.plantas[i].id == id;
    assert s.plantas[i] in ps;
    assert ps[0] in ps;
    JoinPlantsEvery(s, ps, id);
    assert QueryPlant(s, id) == JoinPlants(s, ps);
  }

  /** Only users appear in the rows of `GET /plantas`. */
  lemma {:induction false} JoinUsersOnly(s: Store, us: seq<User>)
    ensures forall k :: 0 <= k < |JoinUsers(s, us)| ==> exists i :: 0 <= i < |us| && JoinUsers(s, us)[k].userId == us[i].id
  {
    if |us| > 0 {
      var a := UserRows(s, us[0]);
      var b := JoinUsers(s, us[1..]);
      var r := a + b;
      assert JoinUsers(s, us) == r;
      JoinUsersOnly(s, us[1..]);
      forall k | 0 <= k < |r| ensures exists i :: 0 <= i < |us| && r[k].userId == us[i].id {
        if k < |a| {
          assert r[k].userId == us[0].id;
        } else {
          assert r[k] == b[k - |a|];
          var i :| 0 <= i < |us[1..]| && b[k - |a|].userId == us[1..][i].id;
          assert us[1..][i] == us[i + 1];
        }
      }
    } else {
      assert JoinUsers(s, us) == [];
    }
  }

  /** Every user appears in the rows of `GET /plantas`. */
  lemma {:induction false} JoinUsersEvery(s: Store, us: seq<User>)
    ensures forall i :: 0 <= i < |us| ==> exists k :: 0 <= k < |JoinUsers(s, us)| && JoinUsers(s, us)[k].userId == us[i].id
  {
    if |us| > 0 {
      var a := UserRows(s, us[0]);
      var b := JoinUsers(s, us[1..]);
      var r := a + b;
      assert JoinUsers(s, us) == r;
      JoinUsersEvery(s, us[1..]);
      forall i | 0 <= i < |us|
        ensures exists k :: 0 <= k < |JoinUsers(s, us)| && JoinUsers(s, us)[k].userId == us[i].id
      {
        if i == 0 {
          assert r[0].userId == us[0].id;
        } else {
          assert us[i] == us[1..][i - 1];
          var k :| 0 <= k < |b| && b[k].userId == us[1..][i - 1].id;
          assert r[k + |a|] == b[k];
        }
      }
    }
  }

  // ---------------------------------------------------------------------------
  // The exact answer of GET /plants/:id when the keys are unique and every
  // history row names a catalog service
  // ---------------------------------------------------------------------------

  /** A service id outside the catalog matches no row. */
  lemma {:induction false} ServicesWithIdNone(catalog: seq<Service>, id: int)
    requires !InCatalog(catalog, id)
    ensures ServicesWithId(catalog, id) == []
  {
    if |catalog| > 0 {
      assert catalog[0].id != id;
      assert !InCatalog(catalog[1..], id) by {
        forall i | 0 <= i < |catalog[1..]| ensures catalog[1..][i].id != id {
          assert catalog[1..][i] == catalog[i + 1];
        }
      }
      ServicesWithIdNone(catalog[1..], id);
    }
  }

  /** With unique catalog ids, a catalog id matches exactly one row. */
  lemma {:induction false} ServicesWithIdOne(catalog: seq<Service>, id: int)
    requires UniqueServiceIds(catalog) && InCatalog(catalog, id)
    ensures |ServicesWithId(catalog, id)| == 1 && ServicesWithId(catalog, id)[0].id == id
  {
    var rest := catalog[1..];
    assert UniqueServiceIds(rest) by {
      forall i, j | 0 <= i < j < |rest| ensures rest[i].id != rest[j].id {
        assert rest[i] == catalog[i + 1] && rest[j] == catalog[j + 1];
      }
    }
    if catalog[0].id == id {
      assert !InCatalog(rest, id) by {
        forall i | 0 <= i < |rest| ensures rest[i].id != id {
          assert rest[i] == catalog[i + 1];
        }
      }
      ServicesWithIdNone(rest, id);
    } else {
      var i :| 0 <= i < |catalog| && catalog[i].id == id;
      assert rest[i - 1] == catalog[i];
      ServicesWithIdOne(rest, id);
    }
  }

  /** Every history row names a catalog service. */
  predicate HistoriesInCatalog(hs: seq<History>, catalog: seq<Service>)
  {
    forall k :: 0 <= k < |hs| ==> InCatalog(catalog, hs[k].servicioId)
  }

  /** A history row whose service is in a catalog with unique ids joins to one row. */
  lemma HistoryRowColsOne(h: History, catalog: seq<Service>)
    requires UniqueServiceIds(catalog) && InCatalog(catalog, h.servicioId)
    ensures |ServicesWithId(catalog, h.servicioId)| == 1
    ensures HistoryRowCols(h, catalog) == [WithService(h, ServicesWithId(catalog, h.servicioId)[0])]
  {
    ServicesWithIdOne(catalog, h.servicioId);
  }

  lemma HistoriesInCatalogTail(hs: seq<History>, catalog: seq<Service>)
    requires |hs| > 0 && HistoriesInCatalog(hs, catalog)
    ensures InCatalog(catalog, hs[0].servicioId) && HistoriesInCatalog(hs[1..], catalog)
  {
    forall k | 0 <= k < |hs[1..]| ensures InCatalog(catalog, hs[1..][k].servicioId) {
      assert hs[1..][k] == hs[k + 1];
    }
  }

  /** `c` is history row `h` joined with its one catalog service. */
  predicate PairedWithService(c: HistoryCols, h: History, catalog: seq<Service>)
  {
    |ServicesWithId(catalog, h.servicioId)| == 1 && c == WithService(h, ServicesWithId(catalog, h.servicioId)[0])
  }

  /** With unique catalog ids and known services, the join pairs each history
      row with its one service, row for row. */
  lemma {:induction false} JoinHistoriesExact(hs: seq<History>, catalog: seq<Service>)
    requires UniqueServiceIds(catalog) && HistoriesInCatalog(hs, catalog)
    ensures |JoinHistories(hs, catalog)| == |hs|
    ensures forall k :: 0 <= k < |hs| ==> PairedWithService(JoinHistories(hs, catalog)[k], hs[k], catalog)
  {
    if |hs| > 0 {
      HistoriesInCatalogTail(hs, catalog);
      HistoryRowColsOne(hs[0], catalog);
      var a := HistoryRowCols(hs[0], catalog);
      var rest := hs[1..];
      JoinHistoriesExact(rest, catalog);
      var b := JoinHistories(rest, catalog);
      assert JoinHistories(hs, catalog) == a + b;
      forall k | 0 <= k < |hs| ensures PairedWithService((a + b)[k], hs[k], catalog) {
        if k > 0 {
          assert rest[k - 1] == hs[k];
          assert PairedWithService(b[k - 1], rest[k - 1], catalog);
          assert (a + b)[k] == b[k - 1];
        } else {
          assert (a + b)[0] == a[0];
        }
      }
    }
  }

  /** With unique plant ids the query reads the one plant with the id. */
  lemma {:induction false} PlantsWithIdAt(ps: seq<Plant>, i: nat)
    requires UniquePlantIds(ps) && i < |ps|
    ensures PlantsWithId(ps, ps[i].id) == [ps[i]]
  {
    var id := ps[i].id;
    var rest := ps[1..];
    UniquePlantIdsTail(ps);
    if i == 0 {
      HeadIdNotInTail(ps);
      PlantsWithIdNone(rest, id);
      assert PlantsWithId(ps, id) == [ps[0]] + PlantsWithId(rest, id);
    } else {
      assert ps[0].id != id;
      assert rest[i - 1] == ps[i];
      PlantsWithIdAt(rest, i - 1);
      assert PlantsWithId(ps, id) == [] + PlantsWithId(rest, id);
    }
  }

  /** No plant row matches an id no plant has. */
  lemma {:induction false} PlantsWithIdNone(ps: seq<Plant>, id: string)
    requires !HasPlant(ps, id)
    ensures PlantsWithId(ps, id) == []
  {
    if |ps| > 0 {
      assert ps[0].id != id;
      assert !HasPlant(ps[1..], id) by {
        forall j | 0 <= j < |ps[1..]| ensures ps[1..][j].id != id {
          assert ps[1..][j] == ps[j + 1];
        }
      }
      PlantsWithIdNone(ps[1..], id);
    }
  }

  /** Selecting the rows of a plant keeps every row when all belong to it. */
  lemma {:induction false} HistoriesOfPlantAll(hs: seq<History>, id: string)
    requires forall k :: 0 <= k < |hs| ==> hs[k].plantaId == id
    ensures HistoriesOfPlant(hs, id) == hs
  {
    if |hs| > 0 {
      HistoriesOfPlantAll(hs[1..], id);
      assert hs == [hs[0]] + hs[1..];
    }
  }

  /** Selecting the rows of a plant keeps nothing when none belongs to it. */
  lemma {:induction false} HistoriesOfPlantNone(hs: seq<History>, id: string)
    requires forall k :: 0 <= k < |hs| ==> hs[k].plantaId != id
    ensures HistoriesOfPlant(hs, id) == []
  {
    if |hs| > 0 {
      HistoriesOfPlantNone(hs[1..], id);
    }
  }
}
