/** The routes of the two routers behind one entry point, and the table
    invariants the write routes keep: unique keys and a history that names
    only catalog services. */
module Api {
  import opened Common
  import opened Tables
  import opened Queries
  import opened Http
  import PlantRoutes
  import UserRoutes

  /** One request to a route the model covers. */
  datatype Request =
    | GetPlantasReq
    | GetPlantReq(id: string)
    | CreatePlantReq(plant: PlantRoutes.CreatePlantRequest)
    | DeletePlantReq(id: string)
    | AddServicesReq(batch: PlantRoutes.AddServicesRequest)
    | CreateUserReq(user: UserRoutes.CreateUserRequest)
    | LoginReq(login: UserRoutes.LoginRequest)
    | GetUserReq(id: string)

  /** What the handlers take from outside the tables: `uuid(k)` is the k-th
      generated uuid of the request, `now` the clock reading, `hash` and
      `verify` stand for `bcrypt.hash` and `bcrypt.compare`. */
  datatype Env = Env(uuid: nat -> string, now: Timestamp, hash: string -> string, verify: (string, string) -> bool)

  /** The routes that only query. */
  predicate ReadOnly(req: Request)
  {
    req.GetPlantasReq? || req.GetPlantReq? || req.LoginReq? || req.GetUserReq?
  }

  /** Dispatch a request to its route. Queries never write, no failed
      request writes, no route writes the service catalog, and every answer
      is one of five statuses. */
  function Handle(s: Store, req: Request, env: Env): (r: Outcome)
    ensures ReadOnly(req) ==> r.store == s
    ensures r.reply.status >= 400 ==> r.store == s
    ensures r.store.servicios == s.servicios
    ensures r.reply.status in {Ok, Created, BadRequest, Unauthorized, NotFound}
  {
    match req
    case GetPlantasReq => PlantRoutes.GetPlantas(s)
    case GetPlantReq(id) => PlantRoutes.GetPlant(s, id)
    case CreatePlantReq(p) => PlantRoutes.CreatePlant(s, p, env.uuid(0))
    case DeletePlantReq(id) => PlantRoutes.DeletePlant(s, id)
    case AddServicesReq(b) => PlantRoutes.AddServices(s, b, env.uuid, env.now)
    case CreateUserReq(u) => UserRoutes.CreateUser(s, u, env.uuid(0), env.hash)
    case LoginReq(l) => UserRoutes.Login(s, l, env.verify)
    case GetUserReq(id) => UserRoutes.GetUser(s, id)
  }

  /** The tables hold unique keys, unique emails, and history rows that
      name catalog services. */
  predicate Consistent(s: Store)
  {
    UniqueUserIds(s.usuarios) && UserRoutes.UniqueEmails(s.usuarios) &&
    UniquePlantIds(s.plantas) && UniqueServiceIds(s.servicios) &&
    UniqueHistoryIds(s.historiales) && HistoriesInCatalog(s.historiales, s.servicios)
  }

  /** The generated ids are new: the first is no user's or plant's id, none
      is a history row's id, and no two are equal. */
  ghost predicate Fresh(s: Store, env: Env)
  {
    (forall i :: 0 <= i < |s.usuarios| ==> s.usuarios[i].id != env.uuid(0)) &&
    !HasPlant(s.plantas, env.uuid(0)) &&
    (forall k: nat, i :: 0 <= i < |s.historiales| ==> s.historiales[i].id != env.uuid(k)) &&
    (forall k: nat, j: nat :: k < j ==> env.uuid(k) != env.uuid(j))
  }

  /** Adding a plant under a new id keeps the tables consistent. */
  lemma CreatePlantKeepsConsistent(s: Store, req: PlantRoutes.CreatePlantRequest, newId: string)
    requires Consistent(s) && !HasPlant(s.plantas, newId)
    ensures Consistent(PlantRoutes.CreatePlant(s, req, newId).store)
  {
    var t := PlantRoutes.CreatePlant(s, req, newId).store;
    if t != s {
      var n := |s.plantas|;
      assert t.plantas == s.plantas + [t.plantas[n]];
      forall i, j | 0 <= i < j < |t.plantas| ensures t.plantas[i].id != t.plantas[j].id {
        assert t.plantas[i] == s.plantas[i];
        if j < n {
          assert t.plantas[j] == s.plantas[j];
        } else {
          assert t.plantas[j].id == newId;
        }
      }
    }
  }

  /** Deleting a plant keeps the tables consistent; the history rows it
      leaves behind still name catalog services. */
  lemma DeletePlantKeepsConsistent(s: Store, id: string)
    requires Consistent(s)
    ensures Consistent(PlantRoutes.DeletePlant(s, id).store)
  {
    if PlantRoutes.DeletePlant(s, id).reply.status == Ok {
      WithoutPlantKeepsUnique(s.plantas, id);
    }
  }

  /** A batch of services whose generated ids are new keeps the tables consistent. */
  lemma AddServicesKeepsConsistent(s: Store, req: PlantRoutes.AddServicesRequest, uuid: nat -> string, now: Timestamp)
    requires Consistent(s)
    requires forall k: nat, i :: 0 <= i < |s.historiales| ==> s.historiales[i].id != uuid(k)
    requires forall k: nat, j: nat :: k < j ==> uuid(k) != uuid(j)
    ensures Consistent(PlantRoutes.AddServices(s, req, uuid, now).store)
  {
    PlantRoutes.AddServicesKeepsHistoriesInCatalog(s, req, uuid, now);
    if PlantRoutes.AddServices(s, req, uuid, now).reply.status == Created {
      PlantRoutes.AddServicesCreated(s, req, uuid, now);
      var hs := PlantRoutes.NewHistories(req.plantaId.value, req.servicioIds.value, uuid, now);
      BatchKeepsHistoryIdsUnique(s.historiales, hs, uuid);
    }
  }

  /** Appending rows with fresh, pairwise different generated ids keeps history ids unique. */
  lemma BatchKeepsHistoryIdsUnique(prior: seq<History>, hs: seq<History>, uuid: nat -> string)
    requires UniqueHistoryIds(prior)
    requires forall k :: 0 <= k < |hs| ==> hs[k].id == uuid(k)
    requires forall k: nat, i :: 0 <= i < |prior| ==> prior[i].id != uuid(k)
    requires forall k: nat, j: nat :: k < j ==> uuid(k) != uuid(j)
    ensures UniqueHistoryIds(prior + hs)
  {
    var all := prior + hs;
    var n := |prior|;
    forall a, b | 0 <= a < b < |all| ensures all[a].id != all[b].id {
      if b < n {
        assert all[a] == prior[a] && all[b] == prior[b];
      } else if a < n {
        assert all[a] == prior[a] && all[b] == hs[b - n];
        assert prior[a].id != uuid(b - n);
      } else {
        assert all[a] == hs[a - n] && all[b] == hs[b - n];
        assert uuid(a - n) != uuid(b - n);
      }
    }
  }

  /** Registering a user under a new id keeps the tables consistent. */
  lemma CreateUserKeepsConsistent(s: Store, req: UserRoutes.CreateUserRequest, newId: string, hash: string -> string)
    requires Consistent(s)
    requires forall i :: 0 <= i < |s.usuarios| ==> s.usuarios[i].id != newId
    ensures Consistent(UserRoutes.CreateUser(s, req, newId, hash).store)
  {
    UserRoutes.CreateUserKeepsEmailsUnique(s, req, newId, hash);
    var t := UserRoutes.CreateUser(s, req, newId, hash).store;
    if t != s {
      var n := |s.usuarios|;
      forall i, j | 0 <= i < j < |t.usuarios| ensures t.usuarios[i].id != t.usuarios[j].id {
        assert t.usuarios[i] == s.usuarios[i];
        if j < n {
          assert t.usuarios[j] == s.usuarios[j];
        } else {
          assert t.usuarios[j].id == newId;
        }
      }
    }
  }

  /** Every route keeps the tables consistent, provided the generated ids are new. */
  lemma HandleKeepsConsistent(s: Store, req: Request, env: Env)
    requires Consistent(s) && Fresh(s, env)
    ensures Consistent(Handle(s, req, env).store)
  {
    match req
    case CreatePlantReq(p) => CreatePlantKeepsConsistent(s, p, env.uuid(0));
    case DeletePlantReq(id) => DeletePlantKeepsConsistent(s, id);
    case AddServicesReq(b) => AddServicesKeepsConsistent(s, b, env.uuid, env.now);
    case CreateUserReq(u) => CreateUserKeepsConsistent(s, u, env.uuid(0), env.hash);
    case _ =>
  }
}
