/**
  Per-store metrics (`calcular_metricas_tienda`): the cleaned table is grouped
  by store label and each group reduced to its revenue, average sale, average
  rating, share of five-star ratings and shipping efficiency. The metrics
  table has one row per store, in order of first appearance (`unique()`).
 */
module Metrics {
  import opened Wrappers
  import opened Tables

  /** `groupby('Tienda')`: the rows of one store, in table order. */
  function Group(rows: seq<Row>, store: string): seq<Row>
  {
    if |rows| == 0 then []
    else
      var last := rows[|rows| - 1];
      if last.store == store then Group(rows[..|rows| - 1], store) + [last]
      else Group(rows[..|rows| - 1], store)
  }

  /** A group holds exactly the table's rows with that store label. */
  lemma {:induction false} GroupMembers(rows: seq<Row>, store: string)
    ensures |Group(rows, store)| <= |rows|
    ensures forall r :: r in Group(rows, store) <==> r in rows && r.store == store
  {
    if |rows| > 0 {
      var init := rows[..|rows| - 1];
      GroupMembers(init, store);
      assert rows == init + [rows[|rows| - 1]];
    }
  }

  /** No two entries of `ss` are equal. */
  predicate Distinct(ss: seq<string>)
  {
    forall i, j :: 0 <= i < j < |ss| ==> ss[i] != ss[j]
  }

  /** `df['Tienda'].unique()`: every store label once, in order of first appearance. */
  function Stores(rows: seq<Row>): seq<string>
  {
    if |rows| == 0 then []
    else
      var init := Stores(rows[..|rows| - 1]);
      var s := rows[|rows| - 1].store;
      if s in init then init else init + [s]
  }

  /** The store list has no duplicates. */
  lemma {:induction false} StoresDistinct(rows: seq<Row>)
    ensures Distinct(Stores(rows))
  {
    if |rows| > 0 {
      StoresDistinct(rows[..|rows| - 1]);
    }
  }

  /** Every row's label is in the store list. */
  lemma {:induction false} StoresCover(rows: seq<Row>)
    ensures forall k :: 0 <= k < |rows| ==> rows[k].store in Stores(rows)
  {
    if |rows| > 0 {
      var init := rows[..|rows| - 1];
      StoresCover(init);
      assert forall k :: 0 <= k < |init| ==> init[k] == rows[k];
    }
  }

  /** Every label in the store list is the label of some row: returns one. */
  lemma {:induction false} StoresOrigin(rows: seq<Row>, s: string) returns (k: nat)
    requires s in Stores(rows)
    ensures k < |rows| && rows[k].store == s
  {
    var init := rows[..|rows| - 1];
    if s in Stores(init) {
      k := StoresOrigin(init, s);
      assert init[k] == rows[k];
    } else {
      k := |rows| - 1;
    }
  }

  /** The store list has no duplicates and holds exactly the labels of the table's rows. */
  lemma StoresMembers(rows: seq<Row>)
    ensures Distinct(Stores(rows))
    ensures forall k :: 0 <= k < |rows| ==> rows[k].store in Stores(rows)
    ensures forall s :: s in Stores(rows) ==> exists k :: 0 <= k < |rows| && rows[k].store == s
  {
    StoresDistinct(rows);
    StoresCover(rows);
    forall s | s in Stores(rows)
      ensures exists k :: 0 <= k < |rows| && rows[k].store == s
    {
      var k := StoresOrigin(rows, s);
    }
  }

  /** Grouping distributes over concatenation. */
  lemma {:induction false} GroupAppend(a: seq<Row>, b: seq<Row>, store: string)
    ensures Group(a + b, store) == Group(a, store) + Group(b, store)
    decreases |b|
  {
    if |b| == 0 {
      assert a + b == a;
    } else {
      var b' := b[..|b| - 1];
      assert (a + b)[..|a + b| - 1] == a + b';
      GroupAppend(a, b', store);
    }
  }

  /** A store label that occurs in the table has a non-empty group. */
  lemma StoreHasRows(rows: seq<Row>, store: string)
    requires store in Stores(rows)
    ensures |Group(rows, store)| > 0
  {
    StoresMembers(rows);
    var k :| 0 <= k < |rows| && rows[k].store == store;
    GroupMembers(rows, store);
    assert rows[k] in rows;
  }

  /** The `Total Venta` column of a group. */
  function TotalColumn(g: seq<Row>): seq<real>
  {
    seq(|g|, k requires 0 <= k < |g| => g[k].totalSale)
  }

  /** The `Calificación` column of a group. */
  function RatingColumn(g: seq<Row>): seq<real>
  {
    seq(|g|, k requires 0 <= k < |g| => g[k].rating as real)
  }

  /** The `Porcentaje_Envio` column of a group. */
  function ShippingPercentColumn(g: seq<Row>): seq<real>
  {
    seq(|g|, k requires 0 <= k < |g| => g[k].shippingPercent)
  }

  /** `.sum()` of a column. */
  function Sum(xs: seq<real>): real
  {
    if |xs| == 0 then 0.0 else Sum(xs[..|xs| - 1]) + xs[|xs| - 1]
  }

  /** `.mean()` of a non-empty column. */
  function Mean(xs: seq<real>): real
    requires |xs| > 0
  {
    Sum(xs) / |xs| as real
  }

  /** The mean times the number of values gives back the sum. */
  lemma MeanTimesCount(xs: seq<real>, n: nat)
    requires n == |xs| > 0
    ensures Mean(xs) * n as real == Sum(xs)
  {
  }

  /** A sum of values in [lo, hi] lies between |xs| * lo and |xs| * hi. */
  lemma {:induction false} SumBounds(xs: seq<real>, lo: real, hi: real)
    requires forall k :: 0 <= k < |xs| ==> lo <= xs[k] <= hi
    ensures |xs| as real * lo <= Sum(xs) <= |xs| as real * hi
  {
    if |xs| > 0 {
      SumBounds(xs[..|xs| - 1], lo, hi);
    }
  }

  /** The mean of values in [lo, hi] lies in [lo, hi]. */
  lemma MeanBounds(xs: seq<real>, lo: real, hi: real)
    requires |xs| > 0
    requires forall k :: 0 <= k < |xs| ==> lo <= xs[k] <= hi
    ensures lo <= Mean(xs) <= hi
  {
    SumBounds(xs, lo, hi);
    MeanTimesCount(xs, |xs|);
  }

  /** `Ingresos_Totales`: the store's summed `Total Venta`. */
  function Revenue(rows: seq<Row>, store: string): real
  {
    Sum(TotalColumn(Group(rows, store)))
  }

  /** `Promedio_Venta`: revenue divided over the store's rows. */
  function AverageSale(rows: seq<Row>, store: string): (a: real)
    requires store in Stores(rows)
    ensures a * |Group(rows, store)| as real == Revenue(rows, store)
  {
    StoreHasRows(rows, store);
    var g := Group(rows, store);
    MeanTimesCount(TotalColumn(g), |g|);
    Mean(TotalColumn(g))
  }

  /** `Calificacion_Promedio`: the mean rating of the store's rows. */
  function AverageRating(rows: seq<Row>, store: string): (a: real)
    requires store in Stores(rows)
    ensures a * |Group(rows, store)| as real == Sum(RatingColumn(Group(rows, store)))
  {
    StoreHasRows(rows, store);
    var g := Group(rows, store);
    MeanTimesCount(RatingColumn(g), |g|);
    Mean(RatingColumn(g))
  }

  /** With ratings on the 1 to 5 scale, a store's average rating is on that scale too. */
  lemma AverageRatingBounds(rows: seq<Row>, store: string)
    requires store in Stores(rows)
    requires forall r :: r in rows && r.store == store ==> 1 <= r.rating <= 5
    ensures 1.0 <= AverageRating(rows, store) <= 5.0
  {
    StoreHasRows(rows, store);
    var g := Group(rows, store);
    GroupMembers(rows, store);
    assert forall k :: 0 <= k < |g| ==> g[k] in g;
    MeanBounds(RatingColumn(g), 1.0, 5.0);
  }

  /** `df[df['Calificación'] == 5]`: the rows rated five stars. */
  function FiveStarRows(rows: seq<Row>): (fs: seq<Row>)
  {
    if |rows| == 0 then []
    else
      var last := rows[|rows| - 1];
      if last.rating == 5 then FiveStarRows(rows[..|rows| - 1]) + [last]
      else FiveStarRows(rows[..|rows| - 1])
  }

  /** Selecting five-star rows and grouping by store commute. */
  lemma {:induction false} GroupFiveStarRows(rows: seq<Row>, store: string)
    ensures Group(FiveStarRows(rows), store) == FiveStarRows(Group(rows, store))
  {
    if |rows| > 0 {
      var init := rows[..|rows| - 1];
      var last := rows[|rows| - 1];
      GroupFiveStarRows(init, store);
      var a := Group(init, store);
      var fs := FiveStarRows(init);
      assert (a + [last])[..|a|] == a;
      assert (fs + [last])[..|fs|] == fs;
    }
  }

  /** There are no more five-star rows than rows. */
  lemma {:induction false} FiveStarRowsLength(rows: seq<Row>)
    ensures |FiveStarRows(rows)| <= |rows|
  {
    if |rows| > 0 {
      FiveStarRowsLength(rows[..|rows| - 1]);
    }
  }

  /** The five-star rows are exactly the rows rated 5. */
  lemma {:induction false} FiveStarRowsMembers(rows: seq<Row>)
    ensures forall r :: r in FiveStarRows(rows) <==> r in rows && r.rating == 5
  {
    if |rows| > 0 {
      var init := rows[..|rows| - 1];
      FiveStarRowsMembers(init);
      assert rows == init + [rows[|rows| - 1]];
    }
  }

  /** Multiplying by a positive factor keeps a real's sign and its order against 1. */
  lemma ScaleByPositive(n: real, d: real)
    requires 0.0 < d
    ensures 0.0 <= n * d <==> 0.0 <= n
    ensures n * d <= d <==> n <= 1.0
    ensures n * d == 0.0 <==> n == 0.0
  {
  }

  /** A part of a non-empty whole, in percent, lies in (0, 100] and scales back to the part. */
  lemma PercentOfCount(part: nat, whole: nat)
    requires 0 < part <= whole
    ensures 0.0 < part as real / whole as real * 100.0 <= 100.0
    ensures part as real / whole as real * 100.0 * whole as real == 100.0 * part as real
  {
    var q := part as real / whole as real;
    assert q * whole as real == part as real;
    ScaleByPositive(q, whole as real);
  }

  /**
    `Porcentaje_5_Estrellas`: 100 * the store's five-star rows / its rows. A
    store with no five-star row is missing from the numerator's index, so the
    analysis gets NaN for it: `None` here.
   */
  function FiveStarPercent(rows: seq<Row>, store: string): (p: Option<real>)
    requires store in Stores(rows)
    ensures p.None? <==> FiveStarRows(Group(rows, store)) == []
    ensures p.Some? ==> 0.0 < p.value <= 100.0
    ensures p.Some? ==> p.value * |Group(rows, store)| as real == 100.0 * |FiveStarRows(Group(rows, store))| as real
  {
    StoreHasRows(rows, store);
    var g := Group(rows, store);
    GroupFiveStarRows(rows, store);
    FiveStarRowsLength(g);
    var fives := |Group(FiveStarRows(rows), store)|;
    if fives == 0 then None
    else
      PercentOfCount(fives, |g|);
      Some(fives as real / |g| as real * 100.0)
  }

  /** The percentage is missing exactly when none of the store's rows is rated 5. */
  lemma FiveStarPercentMissing(rows: seq<Row>, store: string)
    requires store in Stores(rows)
    ensures FiveStarPercent(rows, store).None? <==> forall r :: r in rows && r.store == store ==> r.rating != 5
  {
    var g := Group(rows, store);
    GroupMembers(rows, store);
    FiveStarRowsMembers(g);
    if FiveStarRows(g) != [] {
      assert FiveStarRows(g)[0] in FiveStarRows(g);
    }
  }

  /** `Eficiencia_Envio`: 100 minus the store's mean shipping percentage. */
  function ShippingEfficiency(rows: seq<Row>, store: string): (e: real)
    requires store in Stores(rows)
    ensures (100.0 - e) * |Group(rows, store)| as real == Sum(ShippingPercentColumn(Group(rows, store)))
  {
    StoreHasRows(rows, store);
    var g := Group(rows, store);
    MeanTimesCount(ShippingPercentColumn(g), |g|);
    100.0 - Mean(ShippingPercentColumn(g))
  }

  /** One row of the metrics table. */
  datatype StoreMetrics = StoreMetrics(store: string, revenue: real, averageSale: real,
                                       averageRating: real, fiveStarPercent: Option<real>,
                                       shippingEfficiency: real)

  /** The metrics of one store. */
  function MetricsOf(rows: seq<Row>, store: string): StoreMetrics
    requires store in Stores(rows)
  {
    StoreMetrics(store, Revenue(rows, store), AverageSale(rows, store), AverageRating(rows, store),
                 FiveStarPercent(rows, store), ShippingEfficiency(rows, store))
  }

  /** `calcular_metricas_tienda`: one metrics row per distinct store, in first-appearance order. */
  function MetricsTable(rows: seq<Row>): seq<StoreMetrics>
  {
    var ss := Stores(rows);
    seq(|ss|, i requires 0 <= i < |ss| => MetricsOf(rows, ss[i]))
  }

  /** The store labels of a metrics table, in order. */
  function MetricsStores(m: seq<StoreMetrics>): seq<string>
  {
    seq(|m|, i requires 0 <= i < |m| => m[i].store)
  }

  /** In a list without duplicates every entry occurs once. */
  lemma {:induction false} DistinctMultiplicity(ss: seq<string>, s: string)
    requires Distinct(ss)
    ensures multiset(ss)[s] == if s in ss then 1 else 0
  {
    if |ss| > 0 {
      var init := ss[..|ss| - 1];
      assert ss == init + [ss[|ss| - 1]];
      DistinctMultiplicity(init, s);
    }
  }

  /** A label carried by some row has exactly one entry in the metrics table; any other label has none. */
  lemma MetricsTableOnce(rows: seq<Row>, s: string)
    ensures multiset(MetricsStores(MetricsTable(rows)))[s]
            == if exists k :: 0 <= k < |rows| && rows[k].store == s then 1 else 0
  {
    assert MetricsStores(MetricsTable(rows)) == Stores(rows);
    StoresDistinct(rows);
    DistinctMultiplicity(Stores(rows), s);
    StoresCover(rows);
    if s in Stores(rows) {
      var k := StoresOrigin(rows, s);
    }
  }

  /** Each entry of the metrics table holds its store's aggregates over exactly that store's rows. */
  lemma MetricsTableEntry(rows: seq<Row>, i: nat)
    requires i < |MetricsTable(rows)|
    ensures var e := MetricsTable(rows)[i];
            var g := Group(rows, e.store);
            && |g| > 0
            && e.revenue == Sum(TotalColumn(g))
            && e.averageSale * |g| as real == e.revenue
            && e.averageRating * |g| as real == Sum(RatingColumn(g))
            && (e.fiveStarPercent.None? <==> FiveStarRows(g) == [])
            && (e.fiveStarPercent.Some? ==> e.fiveStarPercent.value * |g| as real == 100.0 * |FiveStarRows(g)| as real)
            && (100.0 - e.shippingEfficiency) * |g| as real == Sum(ShippingPercentColumn(g))
  {
    var s := Stores(rows)[i];
    assert s in Stores(rows);
    StoreHasRows(rows, s);
  }

  /**
    `calcular_metricas_tienda` as the source builds it: a table indexed by the
    store labels, then one column assigned after the other. The placeholder
    values of the empty table are all overwritten.
   */
  method CalcStoreMetrics(rows: seq<Row>) returns (metricas: seq<StoreMetrics>)
    ensures metricas == MetricsTable(rows)
  {
    var index := Stores(rows);
    assert forall i :: 0 <= i < |index| ==> index[i] in Stores(rows);
    metricas := seq(|index|, i requires 0 <= i < |index| => StoreMetrics(index[i], 0.0, 0.0, 0.0, None, 0.0));
    metricas := seq(|index|, i requires 0 <= i < |index| => metricas[i].(revenue := Revenue(rows, index[i])));
    metricas := seq(|index|, i requires 0 <= i < |index| => metricas[i].(averageSale := AverageSale(rows, index[i])));
    metricas := seq(|index|, i requires 0 <= i < |index| => metricas[i].(averageRating := AverageRating(rows, index[i])));
    metricas := seq(|index|, i requires 0 <= i < |index| => metricas[i].(fiveStarPercent := FiveStarPercent(rows, index[i])));
    metricas := seq(|index|, i requires 0 <= i < |index| => metricas[i].(shippingEfficiency := ShippingEfficiency(rows, index[i])));
  }

  /** The revenue of the stores listed in `ss`, added up. */
  function RevenueOver(rows: seq<Row>, ss: seq<string>): real
  {
    if |ss| == 0 then 0.0 else RevenueOver(rows, ss[..|ss| - 1]) + Revenue(rows, ss[|ss| - 1])
  }

  /** Adding one row to the table adds its total to the revenue of its store, if listed. */
  lemma {:induction false} RevenueOverSnoc(rows: seq<Row>, r: Row, ss: seq<string>)
    requires Distinct(ss)
    ensures RevenueOver(rows + [r], ss) == RevenueOver(rows, ss) + (if r.store in ss then r.totalSale else 0.0)
  {
    if |ss| > 0 {
      var init := ss[..|ss| - 1];
      var s := ss[|ss| - 1];
      RevenueOverSnoc(rows, r, init);
      var g := Group(rows, s);
      assert (rows + [r])[..|rows|] == rows;
      if r.store == s {
        assert Group(rows + [r], s) == g + [r];
        var xs := TotalColumn(g + [r]);
        assert xs[..|g|] == TotalColumn(g);
        assert Sum(xs) == Sum(TotalColumn(g)) + r.totalSale;
        assert r.store !in init;
      } else {
        assert Group(rows + [r], s) == g;
      }
    }
  }

  /**
    Every row is counted in exactly one store: the revenues of all stores add
    up to the `Total Venta` of the whole table.
   */
  lemma {:induction false} RevenuePartition(rows: seq<Row>)
    ensures RevenueOver(rows, Stores(rows)) == Sum(TotalColumn(rows))
  {
    StoresMembers(rows);
    RevenueOverCovering(rows, Stores(rows));
  }

  /** Over distinct stores that cover every row, the revenues add up to the whole `Total Venta` column. */
  lemma {:induction false} RevenueOverCovering(rows: seq<Row>, ss: seq<string>)
    requires Distinct(ss)
    requires forall k :: 0 <= k < |rows| ==> rows[k].store in ss
    ensures RevenueOver(rows, ss) == Sum(TotalColumn(rows))
  {
    if |rows| == 0 {
      RevenueOverEmpty(rows, ss);
    } else {
      var init := rows[..|rows| - 1];
      var r := rows[|rows| - 1];
      assert rows == init + [r];
      RevenueOverCovering(init, ss);
      RevenueOverSnoc(init, r, ss);
      assert TotalColumn(rows)[..|init|] == TotalColumn(init);
    }
  }

  /** Every store of an empty table has zero revenue. */
  lemma {:induction false} RevenueOverEmpty(rows: seq<Row>, ss: seq<string>)
    requires |rows| == 0
    ensures RevenueOver(rows, ss) == 0.0
  {
    if |ss| > 0 {
      RevenueOverEmpty(rows, ss[..|ss| - 1]);
    }
  }
}
