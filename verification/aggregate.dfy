/** `GET /plantas`: the fold of the flat left-join rows into
    users -> plants -> historiales (plants.routes.js, lines 28-62), a
    reference definition of its result by grouping, and the proof that the
    two agree. */
module Aggregate {
  import opened Common
  import opened Seqs
  import opened Rows

  datatype PlantNode = PlantNode(plantaId: Option<string>, plantaName: Option<string>, historiales: seq<HistoryCols>)
  datatype UserNode = UserNode(userId: string, userName: string, userEmail: string, plantas: seq<PlantNode>)

  // ---------------------------------------------------------------------------
  // The fold, step by step as the route performs it
  // ---------------------------------------------------------------------------

  /** The position of the user record with the row's `user_id`, found by strict equality. */
  function FindUser(users: seq<UserNode>, id: string): (r: Option<nat>)
    ensures r.None? <==> forall j :: 0 <= j < |users| ==> users[j].userId != id
    ensures r.Some? ==> r.value < |users| && users[r.value].userId == id
    ensures r.Some? ==> forall j :: 0 <= j < r.value ==> users[j].userId != id
  {
    if |users| == 0 then None
    else if users[0].userId == id then Some(0)
    else match FindUser(users[1..], id)
      case None => None
      case Some(i) => Some(i + 1)
  }

  /** The position of the plant record with the row's `planta_id`, found by
      strict equality; two null ids are equal, so a null id finds a null-id plant. */
  function FindPlant(plantas: seq<PlantNode>, id: Option<string>): (r: Option<nat>)
    ensures r.None? <==> forall j :: 0 <= j < |plantas| ==> plantas[j].plantaId != id
    ensures r.Some? ==> r.value < |plantas| && plantas[r.value].plantaId == id
    ensures r.Some? ==> forall j :: 0 <= j < r.value ==> plantas[j].plantaId != id
  {
    if |plantas| == 0 then None
    else if plantas[0].plantaId == id then Some(0)
    else match FindPlant(plantas[1..], id)
      case None => None
      case Some(i) => Some(i + 1)
  }

  /** Append the row's history columns when `row.historial_id` is truthy. */
  function AddHistory(p: PlantNode, row: JoinRow): PlantNode
  {
    if Truthy(row.hist.historialId) then p.(historiales := p.historiales + [row.hist]) else p
  }

  /** Find or create the row's plant within one user's plant list, then add its history. */
  function AddToPlants(plantas: seq<PlantNode>, row: JoinRow): seq<PlantNode>
  {
    match FindPlant(plantas, row.plantaId)
    case Some(i) => plantas[i := AddHistory(plantas[i], row)]
    case None => plantas + [AddHistory(PlantNode(row.plantaId, row.plantaName, []), row)]
  }

  /** One step of the fold: file the row under its user and plant. */
  function AddRow(users: seq<UserNode>, row: JoinRow): seq<UserNode>
  {
    match FindUser(users, row.userId)
    case Some(i) => users[i := users[i].(plantas := AddToPlants(users[i].plantas, row))]
    case None => users + [UserNode(row.userId, row.userName, row.userEmail, AddToPlants([], row))]
  }

  /** The whole fold over the rows, starting from an empty user list. */
  function GroupByUser(rows: seq<JoinRow>): seq<UserNode>
  {
    if |rows| == 0 then [] else AddRow(GroupByUser(rows[..|rows| - 1]), rows[|rows| - 1])
  }

  // ---------------------------------------------------------------------------
  // Reference definition: group by key, in order of first occurrence
  // ---------------------------------------------------------------------------

  /** The `user_id` column, row by row. */
  function UserIds(rows: seq<JoinRow>): (r: seq<string>)
    ensures |r| == |rows| && forall i :: 0 <= i < |rows| ==> r[i] == rows[i].userId
  {
    if |rows| == 0 then [] else UserIds(rows[..|rows| - 1]) + [rows[|rows| - 1].userId]
  }

  /** The `planta_id` column, row by row. */
  function PlantIds(rows: seq<JoinRow>): (r: seq<Option<string>>)
    ensures |r| == |rows| && forall i :: 0 <= i < |rows| ==> r[i] == rows[i].plantaId
  {
    if |rows| == 0 then [] else PlantIds(rows[..|rows| - 1]) + [rows[|rows| - 1].plantaId]
  }

  /** The rows of one user, in input order. */
  function RowsOfUser(rows: seq<JoinRow>, id: string): seq<JoinRow>
  {
    if |rows| == 0 then []
    else RowsOfUser(rows[..|rows| - 1], id) + (if rows[|rows| - 1].userId == id then [rows[|rows| - 1]] else [])
  }

  /** The rows of one plant, in input order. */
  function RowsOfPlant(rows: seq<JoinRow>, id: Option<string>): seq<JoinRow>
  {
    if |rows| == 0 then []
    else RowsOfPlant(rows[..|rows| - 1], id) + (if rows[|rows| - 1].plantaId == id then [rows[|rows| - 1]] else [])
  }

  /** The history columns of the rows whose `historial_id` is truthy, in input order. */
  function Entries(rows: seq<JoinRow>): (r: seq<HistoryCols>)
    ensures |r| <= |rows|
    ensures forall h :: h in r ==> Truthy(h.historialId)
  {
    if |rows| == 0 then []
    else Entries(rows[..|rows| - 1]) + (if Truthy(rows[|rows| - 1].hist.historialId) then [rows[|rows| - 1].hist] else [])
  }

  /** The plant record the rows `rs` of plant `id` should produce. */
  function ExpectedPlant(id: Option<string>, rs: seq<JoinRow>): PlantNode
  {
    PlantNode(id, if |rs| == 0 then None else rs[0].plantaName, Entries(rs))
  }

  /** One plant record per distinct `planta_id`, in order of first occurrence. */
  function ExpectedPlants(rs: seq<JoinRow>): seq<PlantNode>
  {
    var d := Dedup(PlantIds(rs));
    seq(|d|, i requires 0 <= i < |d| => ExpectedPlant(d[i], RowsOfPlant(rs, d[i])))
  }

  /** The user record the rows `rs` of user `id` should produce. */
  function ExpectedUser(id: string, rs: seq<JoinRow>): UserNode
  {
    UserNode(id,
      if |rs| == 0 then "" else rs[0].userName,
      if |rs| == 0 then "" else rs[0].userEmail,
      ExpectedPlants(rs))
  }

  /** One user record per distinct `user_id`, in order of first occurrence. */
  function ExpectedUsers(rows: seq<JoinRow>): seq<UserNode>
  {
    var d := Dedup(UserIds(rows));
    seq(|d|, i requires 0 <= i < |d| => ExpectedUser(d[i], RowsOfUser(rows, d[i])))
  }

  // ---------------------------------------------------------------------------
  // The fold computes the reference definition
  // ---------------------------------------------------------------------------

  lemma UserRowsSnoc(rows: seq<JoinRow>, r: JoinRow, id: string)
    ensures RowsOfUser(rows + [r], id) == RowsOfUser(rows, id) + (if r.userId == id then [r] else [])
  {
    assert (rows + [r])[..|rows|] == rows;
  }

  lemma PlantRowsSnoc(rows: seq<JoinRow>, r: JoinRow, id: Option<string>)
    ensures RowsOfPlant(rows + [r], id) == RowsOfPlant(rows, id) + (if r.plantaId == id then [r] else [])
  {
    assert (rows + [r])[..|rows|] == rows;
  }

  lemma UserIdsSnoc(rows: seq<JoinRow>, r: JoinRow)
    ensures UserIds(rows + [r]) == UserIds(rows) + [r.userId]
  {
    assert (rows + [r])[..|rows|] == rows;
  }

  lemma PlantIdsSnoc(rows: seq<JoinRow>, r: JoinRow)
    ensures PlantIds(rows + [r]) == PlantIds(rows) + [r.plantaId]
  {
    assert (rows + [r])[..|rows|] == rows;
  }

  lemma EntriesSnoc(rows: seq<JoinRow>, r: JoinRow)
    ensures Entries(rows + [r]) == Entries(rows) + (if Truthy(r.hist.historialId) then [r.hist] else [])
  {
    assert (rows + [r])[..|rows|] == rows;
  }

  /** A plant id occurs in the rows exactly when it has rows. */
  lemma {:induction false} RowsOfPlantNonEmpty(rows: seq<JoinRow>, id: Option<string>)
    ensures id in PlantIds(rows) <==> |RowsOfPlant(rows, id)| > 0
  {
    if |rows| > 0 {
      var p := rows[..|rows| - 1];
      assert rows == p + [rows[|rows| - 1]];
      PlantRowsSnoc(p, rows[|rows| - 1], id);
      RowsOfPlantNonEmpty(p, id);
    }
  }

  /** A user id occurs in the rows exactly when it has rows. */
  lemma {:induction false} RowsOfUserNonEmpty(rows: seq<JoinRow>, id: string)
    ensures id in UserIds(rows) <==> |RowsOfUser(rows, id)| > 0
  {
    if |rows| > 0 {
      var p := rows[..|rows| - 1];
      assert rows == p + [rows[|rows| - 1]];
      UserRowsSnoc(p, rows[|rows| - 1], id);
      RowsOfUserNonEmpty(p, id);
    }
  }

  /** One more row of an existing plant adds at most its history entry. */
  lemma ExpectedPlantGrow(id: Option<string>, rs: seq<JoinRow>, r: JoinRow)
    requires |rs| > 0
    ensures ExpectedPlant(id, rs + [r]) == AddHistory(ExpectedPlant(id, rs), r)
  {
    assert (rs + [r])[0] == rs[0];
    EntriesSnoc(rs, r);
  }

  /** The first row of a plant creates its record. */
  lemma ExpectedPlantFirst(r: JoinRow)
    ensures ExpectedPlant(r.plantaId, [r]) == AddHistory(PlantNode(r.plantaId, r.plantaName, []), r)
  {
    EntriesSnoc([], r);
    assert [] + [r] == [r];
  }

  /** The plant records carry the distinct plant ids, in order. */
  lemma ExpectedPlantsKeys(rs: seq<JoinRow>)
    ensures |ExpectedPlants(rs)| == |Dedup(PlantIds(rs))|
    ensures forall j :: 0 <= j < |ExpectedPlants(rs)| ==> ExpectedPlants(rs)[j].plantaId == Dedup(PlantIds(rs))[j]
  {
  }

  /** A row leaves the records of the other plants as they were. */
  lemma ExpectedPlantsOtherAt(rs: seq<JoinRow>, r: JoinRow, j: nat)
    requires j < |Dedup(PlantIds(rs))| && j < |Dedup(PlantIds(rs + [r]))|
    requires Dedup(PlantIds(rs + [r]))[j] == Dedup(PlantIds(rs))[j] != r.plantaId
    ensures ExpectedPlants(rs + [r])[j] == ExpectedPlants(rs)[j]
  {
    var k := Dedup(PlantIds(rs))[j];
    PlantRowsSnoc(rs, r, k);
    assert RowsOfPlant(rs + [r], k) == RowsOfPlant(rs, k);
    assert ExpectedPlants(rs + [r])[j] == ExpectedPlant(k, RowsOfPlant(rs + [r], k));
  }

  /** A row of the already seen plant `d[i]` adds its history to that plant's record. */
  lemma ExpectedPlantsSeenAt(rs: seq<JoinRow>, r: JoinRow, i: nat)
    requires i < |Dedup(PlantIds(rs))| && i < |Dedup(PlantIds(rs + [r]))|
    requires Dedup(PlantIds(rs + [r]))[i] == Dedup(PlantIds(rs))[i] == r.plantaId
    ensures ExpectedPlants(rs + [r])[i] == AddHistory(ExpectedPlants(rs)[i], r)
  {
    var k := r.plantaId;
    PlantRowsSnoc(rs, r, k);
    assert k in PlantIds(rs) by {
      DedupSpec(PlantIds(rs));
    }
    RowsOfPlantNonEmpty(rs, k);
    ExpectedPlantGrow(k, RowsOfPlant(rs, k), r);
    assert ExpectedPlants(rs + [r])[i] == ExpectedPlant(k, RowsOfPlant(rs + [r], k));
    assert ExpectedPlants(rs)[i] == ExpectedPlant(k, RowsOfPlant(rs, k));
  }

  /** The first row of a plant appends its record. */
  lemma ExpectedPlantsNewAt(rs: seq<JoinRow>, r: JoinRow)
    requires r.plantaId !in PlantIds(rs)
    ensures Dedup(PlantIds(rs + [r])) == Dedup(PlantIds(rs)) + [r.plantaId]
    ensures |ExpectedPlants(rs + [r])| == |ExpectedPlants(rs)| + 1
    ensures ExpectedPlants(rs + [r])[|ExpectedPlants(rs)|] == AddHistory(PlantNode(r.plantaId, r.plantaName, []), r)
  {
    var k := r.plantaId;
    var d := Dedup(PlantIds(rs));
    PlantRowsSnoc(rs, r, k);
    DedupSnoc(PlantIds(rs), k);
    RowsOfPlantNonEmpty(rs, k);
    assert RowsOfPlant(rs + [r], k) == [r];
    ExpectedPlantFirst(r);
    assert ExpectedPlants(rs + [r])[|d|] == ExpectedPlant(k, RowsOfPlant(rs + [r], k));
  }

  /** A row of a plant found among the records keeps the distinct plant
      ids, and that plant is the `i`-th and only the `i`-th of them. */
  lemma SeenPlantKeys(rs: seq<JoinRow>, r: JoinRow, i: nat)
    requires FindPlant(ExpectedPlants(rs), r.plantaId) == Some(i)
    ensures i < |Dedup(PlantIds(rs))| && Dedup(PlantIds(rs))[i] == r.plantaId
    ensures Dedup(PlantIds(rs + [r])) == Dedup(PlantIds(rs))
    ensures forall j :: 0 <= j < |Dedup(PlantIds(rs))| && j != i ==> Dedup(PlantIds(rs))[j] != r.plantaId
  {
    var ps := PlantIds(rs);
    var d := Dedup(ps);
    ExpectedPlantsKeys(rs);
    assert d[i] == r.plantaId;
    DedupSpec(ps);
    assert r.plantaId in ps by {
      assert d[i] in ps;
    }
    PlantIdsSnoc(rs, r);
    DedupSnoc(ps, r.plantaId);
    forall j | 0 <= j < |d| && j != i ensures d[j] != r.plantaId {
      if j < i {
        assert d[j] != d[i];
      } else {
        assert d[i] != d[j];
      }
    }
  }

  /** A row of a plant missing from the records names a plant id not seen before. */
  lemma NewPlantKeys(rs: seq<JoinRow>, r: JoinRow)
    requires FindPlant(ExpectedPlants(rs), r.plantaId).None?
    ensures r.plantaId !in PlantIds(rs)
    ensures forall j :: 0 <= j < |Dedup(PlantIds(rs))| ==> Dedup(PlantIds(rs))[j] != r.plantaId
  {
    var d := Dedup(PlantIds(rs));
    ExpectedPlantsKeys(rs);
    forall j | 0 <= j < |d| ensures d[j] != r.plantaId {
      assert ExpectedPlants(rs)[j].plantaId == d[j];
    }
    DedupSpec(PlantIds(rs));
    forall m | 0 <= m < |PlantIds(rs)| ensures PlantIds(rs)[m] != r.plantaId {
      assert PlantIds(rs)[m] in d;
    }
  }

  /** A row of an already seen plant updates that plant's record in place. */
  lemma ExpectedPlantsSnocSeen(rs: seq<JoinRow>, r: JoinRow, i: nat)
    requires FindPlant(ExpectedPlants(rs), r.plantaId) == Some(i)
    ensures ExpectedPlants(rs + [r]) == ExpectedPlants(rs)[i := AddHistory(ExpectedPlants(rs)[i], r)]
  {
    var P := ExpectedPlants(rs);
    var Q := ExpectedPlants(rs + [r]);
    var W := P[i := AddHistory(P[i], r)];
    SeenPlantKeys(rs, r, i);
    assert |Q| == |W|;
    forall j | 0 <= j < |W| ensures Q[j] == W[j] {
      if j == i {
        ExpectedPlantsSeenAt(rs, r, i);
      } else {
        ExpectedPlantsOtherAt(rs, r, j);
      }
    }
  }

  /** A row of a plant not seen before appends a new record. */
  lemma ExpectedPlantsSnocNew(rs: seq<JoinRow>, r: JoinRow)
    requires FindPlant(ExpectedPlants(rs), r.plantaId).None?
    ensures ExpectedPlants(rs + [r]) == ExpectedPlants(rs) + [AddHistory(PlantNode(r.plantaId, r.plantaName, []), r)]
  {
    var P := ExpectedPlants(rs);
    var Q := ExpectedPlants(rs + [r]);
    var W := P + [AddHistory(PlantNode(r.plantaId, r.plantaName, []), r)];
    NewPlantKeys(rs, r);
    ExpectedPlantsNewAt(rs, r);
    assert |Q| == |W|;
    forall j | 0 <= j < |W| ensures Q[j] == W[j] {
      if j < |P| {
        assert Dedup(PlantIds(rs + [r]))[j] == Dedup(PlantIds(rs))[j];
        ExpectedPlantsOtherAt(rs, r, j);
        assert W[j] == P[j];
      } else {
        assert j == |P|;
      }
    }
  }

  /** Adding one row to a plant list built from `rs` gives the plant list of `rs + [r]`. */
  lemma ExpectedPlantsSnoc(rs: seq<JoinRow>, r: JoinRow)
    ensures ExpectedPlants(rs + [r]) == AddToPlants(ExpectedPlants(rs), r)
  {
    match FindPlant(ExpectedPlants(rs), r.plantaId)
    case Some(i) => ExpectedPlantsSnocSeen(rs, r, i);
    case None => ExpectedPlantsSnocNew(rs, r);
  }

  /** One more row of an existing user updates that user's plants. */
  lemma ExpectedUserGrow(id: string, rs: seq<JoinRow>, r: JoinRow)
    requires |rs| > 0
    ensures ExpectedUser(id, rs + [r]) == ExpectedUser(id, rs).(plantas := AddToPlants(ExpectedPlants(rs), r))
  {
    assert (rs + [r])[0] == rs[0];
    ExpectedPlantsSnoc(rs, r);
  }

  /** The first row of a user creates its record. */
  lemma ExpectedUserFirst(r: JoinRow)
    ensures ExpectedUser(r.userId, [r]) == UserNode(r.userId, r.userName, r.userEmail, AddToPlants([], r))
  {
    ExpectedPlantsSnoc([], r);
    assert [] + [r] == [r];
    assert ExpectedPlants([]) == [];
  }

  /** The user records carry the distinct user ids, in order. */
  lemma ExpectedUsersKeys(rows: seq<JoinRow>)
    ensures |ExpectedUsers(rows)| == |Dedup(UserIds(rows))|
    ensures forall j :: 0 <= j < |ExpectedUsers(rows)| ==> ExpectedUsers(rows)[j].userId == Dedup(UserIds(rows))[j]
  {
  }

  /** A row leaves the records of the other users as they were. */
  lemma ExpectedUsersOtherAt(rows: seq<JoinRow>, r: JoinRow, j: nat)
    requires j < |Dedup(UserIds(rows))| && j < |Dedup(UserIds(rows + [r]))|
    requires Dedup(UserIds(rows + [r]))[j] == Dedup(UserIds(rows))[j] != r.userId
    ensures ExpectedUsers(rows + [r])[j] == ExpectedUsers(rows)[j]
  {
    var k := Dedup(UserIds(rows))[j];
    UserRowsSnoc(rows, r, k);
    assert RowsOfUser(rows + [r], k) == RowsOfUser(rows, k);
    assert ExpectedUsers(rows + [r])[j] == ExpectedUser(k, RowsOfUser(rows + [r], k));
  }

  /** A row of the already seen user `d[i]` is folded into that user's plants. */
  lemma ExpectedUsersSeenAt(rows: seq<JoinRow>, r: JoinRow, i: nat)
    requires i < |Dedup(UserIds(rows))| && i < |Dedup(UserIds(rows + [r]))|
    requires Dedup(UserIds(rows + [r]))[i] == Dedup(UserIds(rows))[i] == r.userId
    ensures ExpectedUsers(rows + [r])[i]
      == ExpectedUsers(rows)[i].(plantas := AddToPlants(ExpectedUsers(rows)[i].plantas, r))
  {
    var k := r.userId;
    UserRowsSnoc(rows, r, k);
    assert k in UserIds(rows) by {
      DedupSpec(UserIds(rows));
    }
    RowsOfUserNonEmpty(rows, k);
    ExpectedUserGrow(k, RowsOfUser(rows, k), r);
    assert ExpectedUsers(rows + [r])[i] == ExpectedUser(k, RowsOfUser(rows + [r], k));
    assert ExpectedUsers(rows)[i] == ExpectedUser(k, RowsOfUser(rows, k));
  }

  /** The first row of a user appends its record. */
  lemma ExpectedUsersNewAt(rows: seq<JoinRow>, r: JoinRow)
    requires r.userId !in UserIds(rows)
    ensures Dedup(UserIds(rows + [r])) == Dedup(UserIds(rows)) + [r.userId]
    ensures |ExpectedUsers(rows + [r])| == |ExpectedUsers(rows)| + 1
    ensures ExpectedUsers(rows + [r])[|ExpectedUsers(rows)|]
      == UserNode(r.userId, r.userName, r.userEmail, AddToPlants([], r))
  {
    var k := r.userId;
    var d := Dedup(UserIds(rows));
    UserRowsSnoc(rows, r, k);
    DedupSnoc(UserIds(rows), k);
    RowsOfUserNonEmpty(rows, k);
    assert RowsOfUser(rows + [r], k) == [r];
    ExpectedUserFirst(r);
    assert ExpectedUsers(rows + [r])[|d|] == ExpectedUser(k, RowsOfUser(rows + [r], k));
  }

  /** A row of a user found among the records keeps the distinct user
      ids, and that user is the `i`-th and only the `i`-th of them. */
  lemma SeenUserKeys(rows: seq<JoinRow>, r: JoinRow, i: nat)
    requires FindUser(ExpectedUsers(rows), r.userId) == Some(i)
    ensures i < |Dedup(UserIds(rows))| && Dedup(UserIds(rows))[i] == r.userId
    ensures Dedup(UserIds(rows + [r])) == Dedup(UserIds(rows))
    ensures forall j :: 0 <= j < |Dedup(UserIds(rows))| && j != i ==> Dedup(UserIds(rows))[j] != r.userId
  {
    var us := UserIds(rows);
    var d := Dedup(us);
    ExpectedUsersKeys(rows);
    assert d[i] == r.userId;
    DedupSpec(us);
    assert r.userId in us by {
      assert d[i] in us;
    }
    UserIdsSnoc(rows, r);
    DedupSnoc(us, r.userId);
    forall j | 0 <= j < |d| && j != i ensures d[j] != r.userId {
      if j < i {
        assert d[j] != d[i];
      } else {
        assert d[i] != d[j];
      }
    }
  }

  /** A row of a user missing from the records names a user id not seen before. */
  lemma NewUserKeys(rows: seq<JoinRow>, r: JoinRow)
    requires FindUser(ExpectedUsers(rows), r.userId).None?
    ensures r.userId !in UserIds(rows)
    ensures forall j :: 0 <= j < |Dedup(UserIds(rows))| ==> Dedup(UserIds(rows))[j] != r.userId
  {
    var d := Dedup(UserIds(rows));
    ExpectedUsersKeys(rows);
    forall j | 0 <= j < |d| ensures d[j] != r.userId {
      assert ExpectedUsers(rows)[j].userId == d[j];
    }
    DedupSpec(UserIds(rows));
    forall m | 0 <= m < |UserIds(rows)| ensures UserIds(rows)[m] != r.userId {
      assert UserIds(rows)[m] in d;
    }
  }

  /** A row of an already seen user updates that user's record in place. */
  lemma ExpectedUsersSnocSeen(rows: seq<JoinRow>, r: JoinRow, i: nat)
    requires FindUser(ExpectedUsers(rows), r.userId) == Some(i)
    ensures ExpectedUsers(rows + [r])
      == ExpectedUsers(rows)[i := ExpectedUsers(rows)[i].(plantas := AddToPlants(ExpectedUsers(rows)[i].plantas, r))]
  {
    var U := ExpectedUsers(rows);
    var V := ExpectedUsers(rows + [r]);
    var W := U[i := U[i].(plantas := AddToPlants(U[i].plantas, r))];
    SeenUserKeys(rows, r, i);
    assert |V| == |W|;
    forall j | 0 <= j < |W| ensures V[j] == W[j] {
      if j == i {
        ExpectedUsersSeenAt(rows, r, i);
      } else {
        ExpectedUsersOtherAt(rows, r, j);
      }
    }
  }

  /** A row of a user not seen before appends a new record. */
  lemma ExpectedUsersSnocNew(rows: seq<JoinRow>, r: JoinRow)
    requires FindUser(ExpectedUsers(rows), r.userId).None?
    ensures ExpectedUsers(rows + [r])
      == ExpectedUsers(rows) + [UserNode(r.userId, r.userName, r.userEmail, AddToPlants([], r))]
  {
    var U := ExpectedUsers(rows);
    var V := ExpectedUsers(rows + [r]);
    var W := U + [UserNode(r.userId, r.userName, r.userEmail, AddToPlants([], r))];
    NewUserKeys(rows, r);
    ExpectedUsersNewAt(rows, r);
    assert |V| == |W|;
    forall j | 0 <= j < |W| ensures V[j] == W[j] {
      if j < |U| {
        assert Dedup(UserIds(rows + [r]))[j] == Dedup(UserIds(rows))[j];
        ExpectedUsersOtherAt(rows, r, j);
        assert W[j] == U[j];
      } else {
        assert j == |U|;
      }
    }
  }

  /** Adding one row to the users built from `rows` gives the users of `rows + [r]`. */
  lemma ExpectedUsersSnoc(rows: seq<JoinRow>, r: JoinRow)
    ensures ExpectedUsers(rows + [r]) == AddRow(ExpectedUsers(rows), r)
  {
    match FindUser(ExpectedUsers(rows), r.userId)
    case Some(i) => ExpectedUsersSnocSeen(rows, r, i);
    case None => ExpectedUsersSnocNew(rows, r);
  }

  /** The route's fold yields exactly the grouping by user and plant. */
  lemma {:induction false} GroupByUserIsExpected(rows: seq<JoinRow>)
    ensures GroupByUser(rows) == ExpectedUsers(rows)
  {
    if |rows| == 0 {
      assert ExpectedUsers(rows) == [];
    } else {
      var p := rows[..|rows| - 1];
      assert rows == p + [rows[|rows| - 1]];
      GroupByUserIsExpected(p);
      ExpectedUsersSnoc(p, rows[|rows| - 1]);
    }
  }

  // ---------------------------------------------------------------------------
  // What the fold promises
  // ---------------------------------------------------------------------------

  /** The first row of a user is the row where its id first occurs. */
  lemma {:induction false} RowsOfUserFirst(rows: seq<JoinRow>, id: string)
    requires id in UserIds(rows)
    ensures |RowsOfUser(rows, id)| > 0
    ensures RowsOfUser(rows, id)[0] == rows[IndexOf(UserIds(rows), id)]
  {
    var p := rows[..|rows| - 1];
    var r := rows[|rows| - 1];
    assert rows == p + [r];
    UserRowsSnoc(p, r, id);
    RowsOfUserNonEmpty(p, id);
    if id in UserIds(p) {
      RowsOfUserFirst(p, id);
      IndexOfSnoc(UserIds(p), r.userId, id);
    } else {
      IndexOfNew(UserIds(p), id);
    }
  }

  /** The first row of a plant is the row where its id first occurs. */
  lemma {:induction false} RowsOfPlantFirst(rows: seq<JoinRow>, id: Option<string>)
    requires id in PlantIds(rows)
    ensures |RowsOfPlant(rows, id)| > 0
    ensures RowsOfPlant(rows, id)[0] == rows[IndexOf(PlantIds(rows), id)]
  {
    var p := rows[..|rows| - 1];
    var r := rows[|rows| - 1];
    assert rows == p + [r];
    PlantRowsSnoc(p, r, id);
    RowsOfPlantNonEmpty(p, id);
    if id in PlantIds(p) {
      RowsOfPlantFirst(p, id);
      IndexOfSnoc(PlantIds(p), r.plantaId, id);
    } else {
      IndexOfNew(PlantIds(p), id);
    }
  }

  /** History entries of consecutive row blocks come one block after the other. */
  lemma {:induction false} EntriesAppend(a: seq<JoinRow>, b: seq<JoinRow>)
    ensures Entries(a + b) == Entries(a) + Entries(b)
  {
    if |b| == 0 {
      assert a + b == a;
    } else {
      var b' := b[..|b| - 1];
      assert a + b == (a + b') + [b[|b| - 1]];
      assert b == b' + [b[|b| - 1]];
      EntriesAppend(a, b');
      EntriesSnoc(a + b', b[|b| - 1]);
      EntriesSnoc(b', b[|b| - 1]);
    }
  }

  /** An entry is the history of a row exactly when that row's `historial_id` is truthy. */
  lemma {:induction false} EntriesAreHistoryRows(rows: seq<JoinRow>)
    ensures forall h :: h in Entries(rows) <==>
      exists k :: 0 <= k < |rows| && Truthy(rows[k].hist.historialId) && rows[k].hist == h
  {
    if |rows| > 0 {
      var p := rows[..|rows| - 1];
      assert rows == p + [rows[|rows| - 1]];
      EntriesSnoc(p, rows[|rows| - 1]);
      EntriesAreHistoryRows(p);
      forall h | h in Entries(rows)
        ensures exists k :: 0 <= k < |rows| && Truthy(rows[k].hist.historialId) && rows[k].hist == h
      {
        if h !in Entries(p) {
          assert rows[|rows| - 1].hist == h;
        } else {
          var k :| 0 <= k < |p| && Truthy(p[k].hist.historialId) && p[k].hist == h;
          assert rows[k] == p[k];
        }
      }
      forall k | 0 <= k < |rows| && Truthy(rows[k].hist.historialId)
        ensures rows[k].hist in Entries(rows)
      {
        if k < |p| {
          assert p[k] == rows[k];
        }
      }
    }
  }

  /** The user of row `k` has a record. */
  lemma RecordOfRow(rows: seq<JoinRow>, k: nat)
    requires k < |rows|
    ensures exists i :: 0 <= i < |GroupByUser(rows)| && GroupByUser(rows)[i].userId == rows[k].userId
  {
    GroupByUserIsExpected(rows);
    ExpectedUsersKeys(rows);
    DedupSpec(UserIds(rows));
    var d := Dedup(UserIds(rows));
    assert UserIds(rows)[k] in d;
    var i :| 0 <= i < |d| && d[i] == rows[k].userId;
    assert GroupByUser(rows)[i].userId == rows[k].userId;
  }

  /** Each user record is the record of some row's user. */
  lemma RowOfRecord(rows: seq<JoinRow>, i: nat)
    requires i < |GroupByUser(rows)|
    ensures exists k :: 0 <= k < |rows| && rows[k].userId == GroupByUser(rows)[i].userId
  {
    GroupByUserIsExpected(rows);
    ExpectedUsersKeys(rows);
    DedupSpec(UserIds(rows));
    var d := Dedup(UserIds(rows));
    assert GroupByUser(rows)[i].userId == d[i];
    assert d[i] in UserIds(rows);
    var k :| 0 <= k < |UserIds(rows)| && UserIds(rows)[k] == d[i];
    assert rows[k].userId == d[i];
  }

  /** No two user records share a user id. */
  lemma RecordsDistinct(rows: seq<JoinRow>)
    ensures forall i, j :: 0 <= i < j < |GroupByUser(rows)| ==> GroupByUser(rows)[i].userId != GroupByUser(rows)[j].userId
  {
    GroupByUserIsExpected(rows);
    ExpectedUsersKeys(rows);
    DedupSpec(UserIds(rows));
  }

  /** `GET /plantas` yields one user record per distinct `user_id`, and no other. */
  lemma OneRecordPerUser(rows: seq<JoinRow>)
    ensures |GroupByUser(rows)| == |Dedup(UserIds(rows))|
    ensures forall i :: 0 <= i < |GroupByUser(rows)| ==> GroupByUser(rows)[i].userId in UserIds(rows)
    ensures forall k :: 0 <= k < |rows| ==>
      exists i :: 0 <= i < |GroupByUser(rows)| && GroupByUser(rows)[i].userId == rows[k].userId
    ensures forall i, j :: 0 <= i < j < |GroupByUser(rows)| ==> GroupByUser(rows)[i].userId != GroupByUser(rows)[j].userId
  {
    assert |GroupByUser(rows)| == |Dedup(UserIds(rows))| by {
      GroupByUserIsExpected(rows);
    }
    forall i | 0 <= i < |GroupByUser(rows)| ensures GroupByUser(rows)[i].userId in UserIds(rows) {
      RowOfRecord(rows, i);
      var k :| 0 <= k < |rows| && rows[k].userId == GroupByUser(rows)[i].userId;
      assert UserIds(rows)[k] == rows[k].userId;
    }
    forall k | 0 <= k < |rows|
      ensures exists i :: 0 <= i < |GroupByUser(rows)| && GroupByUser(rows)[i].userId == rows[k].userId
    {
      RecordOfRow(rows, k);
    }
    RecordsDistinct(rows);
  }

  /** `a` and `b` both occur in `ids`, and `a` first occurs before `b` does. */
  predicate FirstSeenBefore<T(==)>(ids: seq<T>, a: T, b: T)
  {
    a in ids && b in ids && IndexOf(ids, a) < IndexOf(ids, b)
  }

  /** The records at positions `i < j` carry ids whose first occurrences come in that order. */
  lemma UsersOrderAt(rows: seq<JoinRow>, i: nat, j: nat)
    requires i < j < |GroupByUser(rows)|
    ensures FirstSeenBefore(UserIds(rows), GroupByUser(rows)[i].userId, GroupByUser(rows)[j].userId)
  {
    var d := Dedup(UserIds(rows));
    GroupByUserIsExpected(rows);
    ExpectedUsersKeys(rows);
    DedupFirstOccurrenceOrder(UserIds(rows));
    assert GroupByUser(rows)[i].userId == d[i] && GroupByUser(rows)[j].userId == d[j];
  }

  /** The user records come in the order in which their ids first occur. */
  lemma UsersInFirstOccurrenceOrder(rows: seq<JoinRow>)
    ensures forall i, j :: 0 <= i < j < |GroupByUser(rows)| ==>
      FirstSeenBefore(UserIds(rows), GroupByUser(rows)[i].userId, GroupByUser(rows)[j].userId)
  {
    forall i, j | 0 <= i < j < |GroupByUser(rows)|
      ensures FirstSeenBefore(UserIds(rows), GroupByUser(rows)[i].userId, GroupByUser(rows)[j].userId)
    {
      UsersOrderAt(rows, i, j);
    }
  }

  /** A user record takes name and email from the user's first row, and
      holds one plant record per distinct `planta_id` among that user's rows,
      in order of first occurrence. */
  lemma UserRecord(rows: seq<JoinRow>, i: nat)
    requires i < |GroupByUser(rows)|
    ensures var u := GroupByUser(rows)[i];
      u.userId in UserIds(rows) &&
      u.userName == rows[IndexOf(UserIds(rows), u.userId)].userName &&
      u.userEmail == rows[IndexOf(UserIds(rows), u.userId)].userEmail
    ensures var u := GroupByUser(rows)[i]; var ps := PlantIds(RowsOfUser(rows, u.userId));
      |u.plantas| == |Dedup(ps)| &&
      (forall j :: 0 <= j < |u.plantas| ==> u.plantas[j].plantaId == Dedup(ps)[j])
  {
    GroupByUserIsExpected(rows);
    ExpectedUsersKeys(rows);
    DedupSpec(UserIds(rows));
    var d := Dedup(UserIds(rows));
    var u := GroupByUser(rows)[i];
    assert u == ExpectedUser(d[i], RowsOfUser(rows, d[i]));
    RowsOfUserFirst(rows, d[i]);
    ExpectedPlantsKeys(RowsOfUser(rows, d[i]));
  }

  /** A plant record takes its name from the plant's first row of that user
      and holds, in input order, the history of exactly that user's rows of
      that plant whose `historial_id` is truthy. */
  lemma PlantRecord(rows: seq<JoinRow>, i: nat, j: nat)
    requires i < |GroupByUser(rows)| && j < |GroupByUser(rows)[i].plantas|
    ensures var u := GroupByUser(rows)[i]; var p := u.plantas[j]; var urs := RowsOfUser(rows, u.userId);
      p.plantaId in PlantIds(urs) &&
      p.plantaName == urs[IndexOf(PlantIds(urs), p.plantaId)].plantaName &&
      p.historiales == Entries(RowsOfPlant(urs, p.plantaId))
  {
    GroupByUserIsExpected(rows);
    ExpectedUsersKeys(rows);
    var d := Dedup(UserIds(rows));
    var u := GroupByUser(rows)[i];
    var urs := RowsOfUser(rows, d[i]);
    assert u == ExpectedUser(d[i], urs);
    var e := Dedup(PlantIds(urs));
    ExpectedPlantsKeys(urs);
    DedupSpec(PlantIds(urs));
    assert u.plantas[j] == ExpectedPlant(e[j], RowsOfPlant(urs, e[j]));
    RowsOfPlantFirst(urs, e[j]);
  }

  /** The rows of a user are rows of that user. */
  lemma {:induction false} RowsOfUserMembers(rows: seq<JoinRow>, id: string)
    ensures forall x :: x in RowsOfUser(rows, id) ==> x in rows && x.userId == id
  {
    if |rows| > 0 {
      var p := rows[..|rows| - 1];
      assert rows == p + [rows[|rows| - 1]];
      UserRowsSnoc(p, rows[|rows| - 1], id);
      RowsOfUserMembers(p, id);
    }
  }

  /** Rows that all name no plant and carry no history. */
  ghost predicate PlantlessRows(rs: seq<JoinRow>)
  {
    forall k :: 0 <= k < |rs| ==>
      rs[k].plantaId.None? && rs[k].plantaName.None? && !Truthy(rs[k].hist.historialId)
  }

  lemma {:induction false} PlantlessRowsGroup(rs: seq<JoinRow>)
    requires PlantlessRows(rs)
    ensures forall k :: 0 <= k < |PlantIds(rs)| ==> PlantIds(rs)[k] == None
    ensures RowsOfPlant(rs, None) == rs
    ensures Entries(rs) == []
  {
    if |rs| > 0 {
      var p := rs[..|rs| - 1];
      assert rs == p + [rs[|rs| - 1]];
      PlantlessRowsGroup(p);
      PlantRowsSnoc(p, rs[|rs| - 1], None);
      EntriesSnoc(p, rs[|rs| - 1]);
    }
  }

  /** The rows of a user all name no plant when every row of that user does. */
  lemma PlantlessUserRows(rows: seq<JoinRow>, id: string)
    requires forall k :: 0 <= k < |rows| && rows[k].userId == id ==>
      rows[k].plantaId.None? && rows[k].plantaName.None? && !Truthy(rows[k].hist.historialId)
    ensures PlantlessRows(RowsOfUser(rows, id))
  {
    var urs := RowsOfUser(rows, id);
    RowsOfUserMembers(rows, id);
    forall k | 0 <= k < |urs|
      ensures urs[k].plantaId.None? && urs[k].plantaName.None? && !Truthy(urs[k].hist.historialId)
    {
      assert urs[k] in urs;
      var m :| 0 <= m < |rows| && rows[m] == urs[k];
    }
  }

  /** Rows that name no plant group into one null plant record without history. */
  lemma PlantlessPlants(rs: seq<JoinRow>)
    requires |rs| > 0 && PlantlessRows(rs)
    ensures ExpectedPlants(rs) == [PlantNode(None, None, [])]
  {
    PlantlessRowsGroup(rs);
    DedupConstant(PlantIds(rs), None);
    assert ExpectedPlants(rs)[0] == ExpectedPlant(None, RowsOfPlant(rs, None));
  }

  /** The record of user `d[i]` is built from that user's rows. */
  lemma UserRecordAt(rows: seq<JoinRow>, i: nat)
    requires i < |Dedup(UserIds(rows))|
    ensures i < |GroupByUser(rows)|
    ensures GroupByUser(rows)[i] == ExpectedUser(Dedup(UserIds(rows))[i], RowsOfUser(rows, Dedup(UserIds(rows))[i]))
  {
    GroupByUserIsExpected(rows);
  }

  /** A user whose rows name no plant (the outer join's row for a user
      without plants) gets ONE plant record, with null id, null name and
      no history: null equals null, so the rows share that record. */
  lemma UserWithoutPlantsGetsNullPlant(rows: seq<JoinRow>, id: string)
    requires id in UserIds(rows)
    requires forall k :: 0 <= k < |rows| && rows[k].userId == id ==>
      rows[k].plantaId.None? && rows[k].plantaName.None? && !Truthy(rows[k].hist.historialId)
    ensures exists i :: (0 <= i < |GroupByUser(rows)| && GroupByUser(rows)[i].userId == id
                         && GroupByUser(rows)[i].plantas == [PlantNode(None, None, [])])
  {
    var d := Dedup(UserIds(rows));
    var i: nat :| i < |d| && d[i] == id by {
      DedupSpec(UserIds(rows));
      assert UserIds(rows)[IndexOf(UserIds(rows), id)] in d;
    }
    var urs := RowsOfUser(rows, id);
    RowsOfUserNonEmpty(rows, id);
    PlantlessUserRows(rows, id);
    PlantlessPlants(urs);
    UserRecordAt(rows, i);
    assert GroupByUser(rows)[i] == ExpectedUser(id, urs);
  }

  // ---------------------------------------------------------------------------
  // History totals
  // ---------------------------------------------------------------------------

  /** The number of history entries across a plant list. */
  function PlantsHistoryCount(ps: seq<PlantNode>): nat
  {
    if |ps| == 0 then 0 else |ps[0].historiales| + PlantsHistoryCount(ps[1..])
  }

  /** The number of history entries across a user list. */
  function UsersHistoryCount(us: seq<UserNode>): nat
  {
    if |us| == 0 then 0 else PlantsHistoryCount(us[0].plantas) + UsersHistoryCount(us[1..])
  }

  lemma {:induction false} PlantsHistoryCountUpdate(ps: seq<PlantNode>, i: nat, p: PlantNode)
    requires i < |ps|
    ensures PlantsHistoryCount(ps[i := p]) + |ps[i].historiales| == PlantsHistoryCount(ps) + |p.historiales|
  {
    if i == 0 {
      assert ps[i := p][1..] == ps[1..];
    } else {
      assert ps[i := p][1..] == ps[1..][i - 1 := p];
      PlantsHistoryCountUpdate(ps[1..], i - 1, p);
    }
  }

  lemma {:induction false} PlantsHistoryCountSnoc(ps: seq<PlantNode>, p: PlantNode)
    ensures PlantsHistoryCount(ps + [p]) == PlantsHistoryCount(ps) + |p.historiales|
  {
    if |ps| == 0 {
      assert ([] + [p])[1..] == [];
    } else {
      assert (ps + [p])[1..] == ps[1..] + [p];
      PlantsHistoryCountSnoc(ps[1..], p);
    }
  }

  lemma {:induction false} UsersHistoryCountUpdate(us: seq<UserNode>, i: nat, u: UserNode)
    requires i < |us|
    ensures UsersHistoryCount(us[i := u]) + PlantsHistoryCount(us[i].plantas) == UsersHistoryCount(us) + PlantsHistoryCount(u.plantas)
  {
    if i == 0 {
      assert us[i := u][1..] == us[1..];
    } else {
      assert us[i := u][1..] == us[1..][i - 1 := u];
      UsersHistoryCountUpdate(us[1..], i - 1, u);
    }
  }

  lemma {:induction false} UsersHistoryCountSnoc(us: seq<UserNode>, u: UserNode)
    ensures UsersHistoryCount(us + [u]) == UsersHistoryCount(us) + PlantsHistoryCount(u.plantas)
  {
    if |us| == 0 {
      assert ([] + [u])[1..] == [];
    } else {
      assert (us + [u])[1..] == us[1..] + [u];
      UsersHistoryCountSnoc(us[1..], u);
    }
  }

  /** Folding a row into a plant list adds one entry exactly when its `historial_id` is truthy. */
  lemma AddToPlantsCount(ps: seq<PlantNode>, r: JoinRow)
    ensures PlantsHistoryCount(AddToPlants(ps, r))
      == PlantsHistoryCount(ps) + if Truthy(r.hist.historialId) then 1 else 0
  {
    match FindPlant(ps, r.plantaId)
    case Some(i) => PlantsHistoryCountUpdate(ps, i, AddHistory(ps[i], r));
    case None => PlantsHistoryCountSnoc(ps, AddHistory(PlantNode(r.plantaId, r.plantaName, []), r));
  }

  /** Folding a row into the user list adds one entry exactly when its `historial_id` is truthy. */
  lemma AddRowCount(us: seq<UserNode>, r: JoinRow)
    ensures UsersHistoryCount(AddRow(us, r))
      == UsersHistoryCount(us) + if Truthy(r.hist.historialId) then 1 else 0
  {
    match FindUser(us, r.userId)
    case Some(i) =>
      AddToPlantsCount(us[i].plantas, r);
      UsersHistoryCountUpdate(us, i, us[i].(plantas := AddToPlants(us[i].plantas, r)));
    case None =>
      AddToPlantsCount([], r);
      assert PlantsHistoryCount([]) == 0;
      UsersHistoryCountSnoc(us, UserNode(r.userId, r.userName, r.userEmail, AddToPlants([], r)));
  }

  /** Across the whole response there are exactly as many history entries
      as input rows with a truthy `historial_id`. */
  lemma {:induction false} HistoryCountMatchesRows(rows: seq<JoinRow>)
    ensures UsersHistoryCount(GroupByUser(rows)) == |Entries(rows)|
  {
    if |rows| > 0 {
      var p := rows[..|rows| - 1];
      assert rows == p + [rows[|rows| - 1]];
      HistoryCountMatchesRows(p);
      AddRowCount(GroupByUser(p), rows[|rows| - 1]);
      EntriesSnoc(p, rows[|rows| - 1]);
    }
  }
}
