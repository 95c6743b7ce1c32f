/** The four tables the routes read and write, held in memory as sequences
    of rows in insertion order, and the single-table lookups the route
    handlers issue. */
module Tables {
  import opened Common

  /** A row of `usuarios`; `password` holds whatever was stored, which the
      registration route makes the bcrypt hash of the plaintext. */
  datatype User = User(id: string, name: string, email: string, password: string)

  /** A row of `plantas`, owned by the user `usuarioId`. */
  datatype Plant = Plant(id: string, name: string, usuarioId: string)

  /** A row of the read-only service catalog `servicios`. */
  datatype Service = Service(id: int, name: string, description: string)

  /** A row of `historiales`: service `servicioId` applied to plant `plantaId` at `fecha`. */
  datatype History = History(id: string, plantaId: string, servicioId: int, fecha: Timestamp)

  datatype Store = Store(
    usuarios: seq<User>,
    plantas: seq<Plant>,
    servicios: seq<Service>,
    historiales: seq<History>)

  /** The column of `usuarios` a lookup filters on. */
  datatype UserColumn = IdColumn | EmailColumn

  function Column(u: User, c: UserColumn): string
  {
    match c
    case IdColumn => u.id
    case EmailColumn => u.email
  }

  /** Some user holds `v` in column `c`. */
  predicate Occurs(us: seq<User>, c: UserColumn, v: string)
  {
    exists i :: 0 <= i < |us| && Column(us[i], c) == v
  }

  /** `i` is the first user holding `v` in column `c`: the row a lookup by
      that column hands back first. */
  predicate FirstAt(us: seq<User>, c: UserColumn, v: string, i: int)
  {
    0 <= i < |us| && Column(us[i], c) == v && forall j :: 0 <= j < i ==> Column(us[j], c) != v
  }

  /** The lookup of users by one column: the position of the first row
      whose column holds `v`, the row the routes read as the result. */
  function FirstWhere(us: seq<User>, c: UserColumn, v: string): (r: Option<nat>)
    ensures r.None? <==> !Occurs(us, c, v)
    ensures r.Some? ==> FirstAt(us, c, v, r.value)
  {
    if |us| == 0 then None
    else if Column(us[0], c) == v then Some(0)
    else match FirstWhere(us[1..], c, v)
      case None => None
      case Some(i) => Some(i + 1)
  }

  /** Whether the lookup of plants by id finds any row. */
  predicate HasPlant(ps: seq<Plant>, id: string)
  {
    exists i :: 0 <= i < |ps| && ps[i].id == id
  }

  /** Deleting plants by id: every row with that id goes, the
      others stay in order. */
  function WithoutPlant(ps: seq<Plant>, id: string): (r: seq<Plant>)
    ensures forall p :: p in r <==> p in ps && p.id != id
    ensures |r| <= |ps|
  {
    if |ps| == 0 then []
    else (if ps[0].id == id then [] else [ps[0]]) + WithoutPlant(ps[1..], id)
  }

  /** The catalog lookup by a list of ids: the catalog ids that
      occur in `requested`, in catalog order, each catalog row once. */
  function CatalogHits(catalog: seq<Service>, requested: seq<int>): (r: seq<int>)
    ensures forall x :: x in r <==> x in requested && exists i :: 0 <= i < |catalog| && catalog[i].id == x
    ensures |r| <= |catalog|
  {
    if |catalog| == 0 then []
    else (if catalog[0].id in requested then [catalog[0].id] else []) + CatalogHits(catalog[1..], requested)
  }

  /** No two plants share an id (the `id` column is the table's key). */
  predicate UniquePlantIds(ps: seq<Plant>)
  {
    forall i, j :: 0 <= i < j < |ps| ==> ps[i].id != ps[j].id
  }

  /** No two users share an id. */
  predicate UniqueUserIds(us: seq<User>)
  {
    forall i, j :: 0 <= i < j < |us| ==> us[i].id != us[j].id
  }

  /** No two history rows share an id. */
  predicate UniqueHistoryIds(hs: seq<History>)
  {
    forall i, j :: 0 <= i < j < |hs| ==> hs[i].id != hs[j].id
  }

  /** No two catalog rows share an id. */
  predicate UniqueServiceIds(catalog: seq<Service>)
  {
    forall i, j :: 0 <= i < j < |catalog| ==> catalog[i].id != catalog[j].id
  }

  /** Whether some catalog row has the id. */
  predicate InCatalog(catalog: seq<Service>, x: int)
  {
    exists i :: 0 <= i < |catalog| && catalog[i].id == x
  }

  /** Deleting works block by block. */
  lemma {:induction false} WithoutPlantAppend(a: seq<Plant>, b: seq<Plant>, id: string)
    ensures WithoutPlant(a + b, id) == WithoutPlant(a, id) + WithoutPlant(b, id)
  {
    if |a| == 0 {
      assert a + b == b;
    } else {
      assert (a + b)[1..] == a[1..] + b;
      WithoutPlantAppend(a[1..], b, id);
    }
  }

  /** Deleting an id no plant has changes nothing. */
  lemma {:induction false} WithoutPlantAbsent(ps: seq<Plant>, id: string)
    requires !HasPlant(ps, id)
    ensures WithoutPlant(ps, id) == ps
  {
    if |ps| > 0 {
      assert ps[0].id != id;
      TailAbsent(ps, id);
      WithoutPlantAbsent(ps[1..], id);
      assert ps == [ps[0]] + ps[1..];
    }
  }

  /** An id no row after the first has is not found in the tail. */
  lemma TailAbsent(ps: seq<Plant>, id: string)
    requires |ps| > 0
    requires forall j :: 0 < j < |ps| ==> ps[j].id != id
    ensures !HasPlant(ps[1..], id)
  {
    forall i | 0 <= i < |ps[1..]| ensures ps[1..][i].id != id {
      assert ps[1..][i] == ps[i + 1];
    }
  }

  /** Removing row `i > 0` is keeping the first row and removing row `i - 1` of the tail. */
  lemma SpliceCons<T>(ps: seq<T>, i: nat)
    requires 0 < i < |ps|
    ensures ps[..i] + ps[i + 1..] == [ps[0]] + (ps[1..][..i - 1] + ps[1..][i..])
  {
    assert [ps[0]] + ps[1..][..i - 1] == ps[..i];
    assert ps[1..][i..] == ps[i + 1..];
  }

  /** Deleting the id only the plant at `i` has removes exactly that row. */
  lemma {:induction false} WithoutPlantOnly(ps: seq<Plant>, i: nat)
    requires i < |ps|
    requires forall j :: 0 <= j < |ps| && j != i ==> ps[j].id != ps[i].id
    ensures WithoutPlant(ps, ps[i].id) == ps[..i] + ps[i + 1..]
  {
    var id := ps[i].id;
    var rest := ps[1..];
    if i == 0 {
      TailAbsent(ps, id);
      WithoutPlantAbsent(rest, id);
      assert WithoutPlant(ps, id) == [] + rest;
    } else {
      assert ps[0].id != id;
      assert rest[i - 1] == ps[i];
      forall j | 0 <= j < |rest| && j != i - 1 ensures rest[j].id != rest[i - 1].id {
        assert rest[j] == ps[j + 1];
      }
      WithoutPlantOnly(rest, i - 1);
      assert WithoutPlant(ps, id) == [ps[0]] + WithoutPlant(rest, id);
      SpliceCons(ps, i);
    }
  }

  /** Deleting keeps the remaining plant ids distinct. */
  lemma {:induction false} WithoutPlantKeepsUnique(ps: seq<Plant>, id: string)
    requires UniquePlantIds(ps)
    ensures UniquePlantIds(WithoutPlant(ps, id))
  {
    if |ps| > 0 {
      var rest := ps[1..];
      UniquePlantIdsTail(ps);
      WithoutPlantKeepsUnique(rest, id);
      var w := WithoutPlant(rest, id);
      if ps[0].id == id {
        assert WithoutPlant(ps, id) == w;
      } else {
        assert WithoutPlant(ps, id) == [ps[0]] + w;
        HeadNotKept(ps, id);
        ConsKeepsUnique(ps[0], w);
      }
    }
  }

  /** The remaining rows after the first do not share the first row's id. */
  lemma HeadNotKept(ps: seq<Plant>, id: string)
    requires |ps| > 0 && UniquePlantIds(ps)
    ensures forall j :: 0 <= j < |WithoutPlant(ps[1..], id)| ==> WithoutPlant(ps[1..], id)[j].id != ps[0].id
  {
    var rest := ps[1..];
    var w := WithoutPlant(rest, id);
    forall j | 0 <= j < |w| ensures w[j].id != ps[0].id {
      assert w[j] in rest by {
        assert w[j] in w;
      }
      var m :| 0 <= m < |rest| && rest[m] == w[j];
      assert rest[m] == ps[m + 1];
    }
  }

  /** A plant whose id none of a list of distinct ids has can go in front of it. */
  lemma ConsKeepsUnique(p: Plant, w: seq<Plant>)
    requires UniquePlantIds(w)
    requires forall j :: 0 <= j < |w| ==> w[j].id != p.id
    ensures UniquePlantIds([p] + w)
  {
    var c := [p] + w;
    forall a, b | 0 <= a < b < |c| ensures c[a].id != c[b].id {
      assert c[b] == w[b - 1];
      if a > 0 {
        assert c[a] == w[a - 1];
      }
    }
  }

  /** Dropping the first row keeps plant ids distinct. */
  lemma UniquePlantIdsTail(ps: seq<Plant>)
    requires |ps| > 0 && UniquePlantIds(ps)
    ensures UniquePlantIds(ps[1..])
  {
    var rest := ps[1..];
    forall a, b | 0 <= a < b < |rest| ensures rest[a].id != rest[b].id {
      assert rest[a] == ps[a + 1] && rest[b] == ps[b + 1];
    }
  }

  /** With distinct plant ids, no later row has the first row's id. */
  lemma HeadIdNotInTail(ps: seq<Plant>)
    requires |ps| > 0 && UniquePlantIds(ps)
    ensures !HasPlant(ps[1..], ps[0].id)
  {
    var rest := ps[1..];
    forall j | 0 <= j < |rest| ensures rest[j].id != ps[0].id {
      assert rest[j] == ps[j + 1];
    }
  }
}
