/** `GET /plants/:id`: the rows of one plant folded into the `planta`
    object (plants.routes.js, lines 95-118). */
module PlantDetail {
  import opened Common
  import opened Rows

  /** The `planta` object of the response. */
  datatype PlantView = PlantView(id: string, name: string, historiales: seq<HistoryCols>)

  /** The history columns of the rows whose `historial_id` is not null. The
      test is strict, so an empty-string id would be kept here. */
  function NonNullHistories(rows: seq<PlantRow>): (r: seq<HistoryCols>)
    ensures |r| <= |rows|
    ensures forall h :: h in r ==> h.historialId.Some?
  {
    if |rows| == 0 then []
    else (if rows[0].hist.historialId.Some? then [rows[0].hist] else []) + NonNullHistories(rows[1..])
  }

  /** The filter keeps the order of the rows: it works block by block. */
  lemma {:induction false} NonNullHistoriesAppend(a: seq<PlantRow>, b: seq<PlantRow>)
    ensures NonNullHistories(a + b) == NonNullHistories(a) + NonNullHistories(b)
  {
    if |a| == 0 {
      assert a + b == b;
    } else {
      assert (a + b)[1..] == a[1..] + b;
      NonNullHistoriesAppend(a[1..], b);
    }
  }

  /** An entry is the history of a row exactly when that row's `historial_id` is not null. */
  lemma {:induction false} NonNullHistoriesMembers(rows: seq<PlantRow>)
    ensures forall h :: h in NonNullHistories(rows) <==>
      exists k :: 0 <= k < |rows| && rows[k].hist.historialId.Some? && rows[k].hist == h
  {
    if |rows| > 0 {
      NonNullHistoriesMembers(rows[1..]);
      forall h | h in NonNullHistories(rows)
        ensures exists k :: 0 <= k < |rows| && rows[k].hist.historialId.Some? && rows[k].hist == h
      {
        if h !in NonNullHistories(rows[1..]) {
          assert rows[0].hist == h;
        } else {
          var k :| 0 <= k < |rows[1..]| && rows[1..][k].hist.historialId.Some? && rows[1..][k].hist == h;
          assert rows[k + 1] == rows[1..][k];
        }
      }
      forall k | 0 <= k < |rows| && rows[k].hist.historialId.Some?
        ensures rows[k].hist in NonNullHistories(rows)
      {
        if k > 0 {
          assert rows[1..][k - 1] == rows[k];
        }
      }
    }
  }

  /** When every row carries a history, the entries are the rows' histories, one for one. */
  lemma {:induction false} NonNullHistoriesAll(rows: seq<PlantRow>)
    requires forall k :: 0 <= k < |rows| ==> rows[k].hist.historialId.Some?
    ensures |NonNullHistories(rows)| == |rows|
    ensures forall k :: 0 <= k < |rows| ==> NonNullHistories(rows)[k] == rows[k].hist
  {
    if |rows| > 0 {
      NonNullHistoriesAll(rows[1..]);
    }
  }

  /** `hs` picks the history columns of the rows at the strictly increasing
      positions `ks`, and those positions are exactly the rows whose
      `historial_id` is not null: one entry per such row, in row order. */
  predicate PicksNonNull(rows: seq<PlantRow>, hs: seq<HistoryCols>, ks: seq<nat>)
  {
    |ks| == |hs| &&
    (forall i :: 0 <= i < |ks| ==> ks[i] < |rows| && rows[ks[i]].hist.historialId.Some? && hs[i] == rows[ks[i]].hist) &&
    (forall i, j :: 0 <= i < j < |ks| ==> ks[i] < ks[j]) &&
    (forall k :: 0 <= k < |rows| && rows[k].hist.historialId.Some? ==> k in ks)
  }

  /** Positions one further on, for the rows after the first. */
  function Shift(t: seq<nat>): (r: seq<nat>)
  {
    seq(|t|, i requires 0 <= i < |t| => t[i] + 1)
  }

  /** The position of the first row when it has a history. */
  function HeadPosition(rows: seq<PlantRow>): seq<nat>
    requires |rows| > 0
  {
    if rows[0].hist.historialId.Some? then [0] else []
  }

  /** The history of the first row when it has one. */
  function HeadHistory(rows: seq<PlantRow>): seq<HistoryCols>
    requires |rows| > 0
  {
    if rows[0].hist.historialId.Some? then [rows[0].hist] else []
  }

  /** The positions of the rows whose `historial_id` is not null, in order. */
  function NonNullPositions(rows: seq<PlantRow>): seq<nat>
  {
    if |rows| == 0 then [] else HeadPosition(rows) + Shift(NonNullPositions(rows[1..]))
  }

  /** Each picked position of the rest, one further on, picks the same history. */
  lemma PicksStepEntries(rows: seq<PlantRow>, u: seq<HistoryCols>, t: seq<nat>)
    requires |rows| > 0 && PicksNonNull(rows[1..], u, t)
    ensures var ks, hs := HeadPosition(rows) + Shift(t), HeadHistory(rows) + u;
      |ks| == |hs| &&
      forall i :: 0 <= i < |ks| ==> ks[i] < |rows| && rows[ks[i]].hist.historialId.Some? && hs[i] == rows[ks[i]].hist
  {
    var head, sh := HeadPosition(rows), Shift(t);
    var ks, hs := head + sh, HeadHistory(rows) + u;
    forall i | 0 <= i < |ks|
      ensures ks[i] < |rows| && rows[ks[i]].hist.historialId.Some? && hs[i] == rows[ks[i]].hist
    {
      if i >= |head| {
        var m := i - |head|;
        assert ks[i] == t[m] + 1 && hs[i] == u[m];
        assert rows[t[m] + 1] == rows[1..][t[m]];
      }
    }
  }

  /** Putting the first row's position in front keeps the positions increasing. */
  lemma PicksStepIncreasing(rows: seq<PlantRow>, t: seq<nat>)
    requires |rows| > 0 && forall i, j :: 0 <= i < j < |t| ==> t[i] < t[j]
    ensures var ks := HeadPosition(rows) + Shift(t);
      forall i, j :: 0 <= i < j < |ks| ==> ks[i] < ks[j]
  {
    var head := HeadPosition(rows);
    var ks := head + Shift(t);
    forall i, j | 0 <= i < j < |ks| ensures ks[i] < ks[j] {
      assert ks[j] == t[j - |head|] + 1;
      if i >= |head| {
        assert ks[i] == t[i - |head|] + 1;
      }
    }
  }

  /** Every row with a history keeps its position. */
  lemma PicksStepCovers(rows: seq<PlantRow>, t: seq<nat>)
    requires |rows| > 0
    requires forall k :: 0 <= k < |rows[1..]| && rows[1..][k].hist.historialId.Some? ==> k in t
    ensures var ks := HeadPosition(rows) + Shift(t);
      forall k :: 0 <= k < |rows| && rows[k].hist.historialId.Some? ==> k in ks
  {
    var head := HeadPosition(rows);
    var ks := head + Shift(t);
    forall k | 0 <= k < |rows| && rows[k].hist.historialId.Some? ensures k in ks {
      if k == 0 {
        assert ks[0] == 0;
      } else {
        assert rows[1..][k - 1] == rows[k];
        var m :| 0 <= m < |t| && t[m] == k - 1;
        assert ks[|head| + m] == k;
      }
    }
  }

  /** The filter keeps each row with a history once, in row order. */
  lemma {:induction false} NonNullHistoriesInRowOrder(rows: seq<PlantRow>)
    ensures PicksNonNull(rows, NonNullHistories(rows), NonNullPositions(rows))
  {
    if |rows| > 0 {
      var rest := rows[1..];
      NonNullHistoriesInRowOrder(rest);
      var t := NonNullPositions(rest);
      var u := NonNullHistories(rest);
      assert NonNullPositions(rows) == HeadPosition(rows) + Shift(t);
      assert NonNullHistories(rows) == HeadHistory(rows) + u;
      PicksStepEntries(rows, u, t);
      PicksStepIncreasing(rows, t);
      PicksStepCovers(rows, t);
    }
  }

  /** The `planta` object, or `None` for the 404 answer when the query found
      no row. The route's choice between the list and an empty list when the
      list is empty changes nothing. */
  function ShowPlant(rows: seq<PlantRow>): (r: Option<PlantView>)
    ensures r.None? <==> |rows| == 0
    ensures r.Some? ==> r.value.id == rows[0].plantaId && r.value.name == rows[0].plantaName
    ensures r.Some? ==> forall h :: h in r.value.historiales <==>
      exists k :: 0 <= k < |rows| && rows[k].hist.historialId.Some? && rows[k].hist == h
    ensures r.Some? ==> (r.value.historiales == [] <==> forall k :: 0 <= k < |rows| ==> rows[k].hist.historialId.None?)
  {
    if |rows| == 0 then None
    else
      NonNullHistoriesMembers(rows);
      var historiales := NonNullHistories(rows);
      assert historiales == [] <==> forall k :: 0 <= k < |rows| ==> rows[k].hist.historialId.None? by {
        if historiales != [] {
          assert historiales[0] in historiales;
        }
        if exists k :: 0 <= k < |rows| && rows[k].hist.historialId.Some? {
          var k :| 0 <= k < |rows| && rows[k].hist.historialId.Some?;
          assert rows[k].hist in historiales;
        }
      }
      Some(PlantView(rows[0].plantaId, rows[0].plantaName, if |historiales| > 0 then historiales else []))
  }

  /** The `historiales` array lists the rows that carry a history in row
      order, one entry per such row: entry `i` is the history of row
      `NonNullPositions(rows)[i]`, and those positions strictly increase
      and cover every row whose `historial_id` is not null. */
  lemma ShowPlantInRowOrder(rows: seq<PlantRow>)
    requires |rows| > 0
    ensures PicksNonNull(rows, ShowPlant(rows).value.historiales, NonNullPositions(rows))
  {
    NonNullHistoriesInRowOrder(rows);
  }

  /** The history of every row that carries one is shown. */
  lemma ShowPlantKeeps(rows: seq<PlantRow>, k: nat)
    requires k < |rows| && rows[k].hist.historialId.Some?
    ensures ShowPlant(rows).Some? && rows[k].hist in ShowPlant(rows).value.historiales
  {
  }
}
