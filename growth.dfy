/**
  Growth (`calcular_crecimiento`): the frame gets a month column; the sales of
  each store are summed per month into buckets ordered by month (the
  `groupby(['Tienda', 'Año_Mes'])` table); and a store's growth is the change
  from its first bucket to its last, in percent (`calcular_tasa`). Months
  without sales have no bucket, so the first and last buckets are the
  earliest and latest months with sales, whatever lies between.
 */
module Growth {
  import opened Tables
  import opened Metrics

  /** One row of the monthly sales table: a month and its summed `Total Venta`. */
  datatype Bucket = Bucket(month: YearMonth, total: real)

  /** Buckets in strictly increasing month order: the order `groupby` sorts them into. */
  predicate Chronological(bs: seq<Bucket>)
  {
    forall i, j :: 0 <= i < j < |bs| ==> Earlier(bs[i].month, bs[j].month)
  }

  /** The months that have a bucket. */
  function BucketMonths(bs: seq<Bucket>): set<YearMonth>
  {
    if |bs| == 0 then {} else {bs[0].month} + BucketMonths(bs[1..])
  }

  /** Every bucket's month is a bucket month. */
  lemma {:induction false} BucketMonthsHas(bs: seq<Bucket>, l: nat)
    requires l < |bs|
    ensures bs[l].month in BucketMonths(bs)
  {
    if l > 0 {
      assert bs[1..][l - 1] == bs[l];
      BucketMonthsHas(bs[1..], l - 1);
    }
  }

  /** Every bucket month is the month of some bucket. */
  lemma {:induction false} BucketMonthsIndex(bs: seq<Bucket>, m: YearMonth) returns (l: nat)
    requires m in BucketMonths(bs)
    ensures l < |bs| && bs[l].month == m
  {
    if bs[0].month == m {
      l := 0;
    } else {
      l := BucketMonthsIndex(bs[1..], m);
      l := l + 1;
    }
  }

  /** The months in which the rows fall. */
  function RowMonths(g: seq<Row>): set<YearMonth>
  {
    set r | r in g :: MonthOf(r.date)
  }

  /** The summed totals of all buckets of `month`. */
  function Lookup(bs: seq<Bucket>, month: YearMonth): real
  {
    if |bs| == 0 then 0.0
    else (if bs[0].month == month then bs[0].total else 0.0) + Lookup(bs[1..], month)
  }

  /** Reference definition: the summed `Total Venta` of the rows of `month`. */
  function MonthTotal(g: seq<Row>, month: YearMonth): real
  {
    if |g| == 0 then 0.0
    else
      var last := g[|g| - 1];
      MonthTotal(g[..|g| - 1], month) + (if MonthOf(last.date) == month then last.totalSale else 0.0)
  }

  /** Adds `amount` to the bucket of `month`, opening that bucket in its place if there is none. */
  function Insert(bs: seq<Bucket>, month: YearMonth, amount: real): seq<Bucket>
  {
    if |bs| == 0 then [Bucket(month, amount)]
    else if bs[0].month == month then [Bucket(month, bs[0].total + amount)] + bs[1..]
    else if Earlier(month, bs[0].month) then [Bucket(month, amount)] + bs
    else [bs[0]] + Insert(bs[1..], month, amount)
  }

  /** The monthly sales of one store's rows. */
  function MonthlySales(g: seq<Row>): seq<Bucket>
  {
    if |g| == 0 then []
    else
      var last := g[|g| - 1];
      Insert(MonthlySales(g[..|g| - 1]), MonthOf(last.date), last.totalSale)
  }

  /** Adding a sale adds its month to the bucket months. */
  lemma {:induction false} InsertMonths(bs: seq<Bucket>, month: YearMonth, amount: real)
    ensures BucketMonths(Insert(bs, month, amount)) == BucketMonths(bs) + {month}
  {
    if |bs| > 0 && bs[0].month != month && !Earlier(month, bs[0].month) {
      InsertMonths(bs[1..], month, amount);
      assert ([bs[0]] + Insert(bs[1..], month, amount))[1..] == Insert(bs[1..], month, amount);
    } else if |bs| > 0 && bs[0].month == month {
      assert ([Bucket(month, bs[0].total + amount)] + bs[1..])[1..] == bs[1..];
    } else if |bs| > 0 {
      assert ([Bucket(month, amount)] + bs)[1..] == bs;
    }
  }

  /** Adding a sale keeps the buckets in strictly increasing month order. */
  lemma {:induction false} InsertChronological(bs: seq<Bucket>, month: YearMonth, amount: real)
    requires Chronological(bs)
    ensures Chronological(Insert(bs, month, amount))
  {
    if |bs| > 0 && bs[0].month != month && !Earlier(month, bs[0].month) {
      var rest := Insert(bs[1..], month, amount);
      InsertChronological(bs[1..], month, amount);
      InsertMonths(bs[1..], month, amount);
      forall j | 0 <= j < |rest|
        ensures Earlier(bs[0].month, rest[j].month)
      {
        BucketMonthsHas(rest, j);
        var m := rest[j].month;
        if m != month {
          var l := BucketMonthsIndex(bs[1..], m);
          assert bs[l + 1] == bs[1..][l];
        }
      }
    }
  }

  /** Adding a sale adds its amount to its own month and to no other. */
  lemma {:induction false} InsertLookup(bs: seq<Bucket>, month: YearMonth, amount: real, k: YearMonth)
    ensures Lookup(Insert(bs, month, amount), k) == Lookup(bs, k) + (if k == month then amount else 0.0)
  {
    if |bs| > 0 && bs[0].month != month && !Earlier(month, bs[0].month) {
      InsertLookup(bs[1..], month, amount, k);
    }
  }

  /**
    The monthly sales are in chronological order, have a bucket for exactly
    the months the rows fall in, and hold for each month the reference total.
   */
  lemma {:induction false} MonthlySalesFacts(g: seq<Row>)
    ensures Chronological(MonthlySales(g))
    ensures BucketMonths(MonthlySales(g)) == RowMonths(g)
    ensures forall k :: Lookup(MonthlySales(g), k) == MonthTotal(g, k)
  {
    if |g| > 0 {
      var init := g[..|g| - 1];
      var last := g[|g| - 1];
      MonthlySalesFacts(init);
      var bs := MonthlySales(init);
      InsertChronological(bs, MonthOf(last.date), last.totalSale);
      InsertMonths(bs, MonthOf(last.date), last.totalSale);
      assert g == init + [last];
      assert RowMonths(g) == RowMonths(init) + {MonthOf(last.date)};
      forall k ensures Lookup(MonthlySales(g), k) == MonthTotal(g, k) {
        InsertLookup(bs, MonthOf(last.date), last.totalSale, k);
      }
    }
  }

  /** A month without a bucket totals zero. */
  lemma {:induction false} LookupAbsent(bs: seq<Bucket>, k: YearMonth)
    requires k !in BucketMonths(bs)
    ensures Lookup(bs, k) == 0.0
  {
    if |bs| > 0 {
      LookupAbsent(bs[1..], k);
    }
  }

  /** In chronological buckets each month has one bucket, so a bucket holds its month's whole total. */
  lemma {:induction false} LookupChronological(bs: seq<Bucket>, i: nat)
    requires Chronological(bs) && i < |bs|
    ensures Lookup(bs, bs[i].month) == bs[i].total
  {
    var k := bs[i].month;
    if i == 0 {
      if k in BucketMonths(bs[1..]) {
        var l := BucketMonthsIndex(bs[1..], k);
        assert false;
      }
      LookupAbsent(bs[1..], k);
    } else {
      assert Earlier(bs[0].month, bs[i].month);
      assert bs[1..][i - 1] == bs[i];
      LookupChronological(bs[1..], i - 1);
    }
  }

  /** `calcular_tasa`: percentage change from the first bucket to the last. */
  function Rate(bs: seq<Bucket>): real
    requires |bs| > 0 && bs[0].total != 0.0
  {
    (bs[|bs| - 1].total - bs[0].total) / bs[0].total * 100.0
  }

  /** The store has sales and its first month's total is not zero, so its rate is defined. */
  predicate GrowthDefined(rows: seq<Row>, store: string)
  {
    var bs := MonthlySales(Group(rows, store));
    |bs| > 0 && bs[0].total != 0.0
  }

  /** `Tasa_Crecimiento` of one store. */
  function GrowthRate(rows: seq<Row>, store: string): real
    requires GrowthDefined(rows, store)
  {
    Rate(MonthlySales(Group(rows, store)))
  }

  /** The first bucket of chronological buckets is a month no other bucket month precedes. */
  lemma FirstBucketEarliest(bs: seq<Bucket>, m: YearMonth)
    requires Chronological(bs) && m in BucketMonths(bs)
    ensures !Earlier(m, bs[0].month)
  {
    var l := BucketMonthsIndex(bs, m);
    if l > 0 {
      assert Earlier(bs[0].month, bs[l].month);
    }
  }

  /** The last bucket of chronological buckets is a month no other bucket month follows. */
  lemma LastBucketLatest(bs: seq<Bucket>, m: YearMonth)
    requires Chronological(bs) && m in BucketMonths(bs)
    ensures !Earlier(bs[|bs| - 1].month, m)
  {
    var l := BucketMonthsIndex(bs, m);
    if l < |bs| - 1 {
      assert Earlier(bs[l].month, bs[|bs| - 1].month);
    }
  }

  /**
    The first bucket of a store is a month with sales that no other such
    month precedes, and its last bucket one that no other such month
    follows; months without sales have no bucket.
   */
  lemma GrowthEndpoints(rows: seq<Row>, store: string)
    requires GrowthDefined(rows, store)
    ensures var g := Group(rows, store);
            var bs := MonthlySales(g);
            && BucketMonths(bs) == RowMonths(g)
            && bs[0].month in RowMonths(g) && bs[|bs| - 1].month in RowMonths(g)
            && (forall m :: m in RowMonths(g) ==> !Earlier(m, bs[0].month) && !Earlier(bs[|bs| - 1].month, m))
  {
    var g := Group(rows, store);
    var bs := MonthlySales(g);
    MonthlySalesFacts(g);
    BucketMonthsHas(bs, 0);
    BucketMonthsHas(bs, |bs| - 1);
    forall m | m in RowMonths(g)
      ensures !Earlier(m, bs[0].month) && !Earlier(bs[|bs| - 1].month, m)
    {
      FirstBucketEarliest(bs, m);
      LastBucketLatest(bs, m);
    }
  }

  /**
    A store's growth compares the whole totals of its first and its last
    bucket month: the percentage change between the two month totals.
   */
  lemma GrowthFromMonthTotals(rows: seq<Row>, store: string)
    requires GrowthDefined(rows, store)
    ensures var g := Group(rows, store);
            var bs := MonthlySales(g);
            && MonthTotal(g, bs[0].month) != 0.0
            && GrowthRate(rows, store)
               == (MonthTotal(g, bs[|bs| - 1].month) - MonthTotal(g, bs[0].month)) / MonthTotal(g, bs[0].month) * 100.0
  {
    var g := Group(rows, store);
    var bs := MonthlySales(g);
    MonthlySalesFacts(g);
    LookupChronological(bs, 0);
    LookupChronological(bs, |bs| - 1);
  }

  /** A store whose sales all fall in one month has growth 0: its first and last bucket coincide. */
  lemma SingleMonthGrowth(rows: seq<Row>, store: string, month: YearMonth)
    requires GrowthDefined(rows, store)
    requires RowMonths(Group(rows, store)) == {month}
    ensures GrowthRate(rows, store) == 0.0
  {
    var bs := MonthlySales(Group(rows, store));
    MonthlySalesFacts(Group(rows, store));
    BucketMonthsHas(bs, 0);
    BucketMonthsHas(bs, |bs| - 1);
    assert !Earlier(bs[0].month, bs[|bs| - 1].month);
  }

  /** `Año_Mes`: the month column for the loaded rows. */
  function MonthColumn(sales: seq<Sale>): seq<YearMonth>
  {
    seq(|sales|, k requires 0 <= k < |sales| => MonthOf(sales[k].date))
  }

  /**
    `calcular_crecimiento`: adds the month column to the frame and returns
    the growth of every store, keyed by store label.
   */
  method CalcGrowth(f: Frame) returns (growth: map<string, real>)
    requires f.Cleaned()
    requires forall s :: s in Stores(f.Rows()) ==> GrowthDefined(f.Rows(), s)
    modifies f
    ensures f.sales == old(f.sales) && f.totalSale == old(f.totalSale)
    ensures f.shippingPercent == old(f.shippingPercent)
    ensures f.yearMonth == MonthColumn(f.sales)
    ensures growth.Keys == set s | s in Stores(f.Rows())
    ensures forall s :: s in growth ==> growth[s] == GrowthRate(f.Rows(), s)
  {
    var s := f.sales;
    f.yearMonth := MonthColumn(s);
    var rows := f.Rows();
    growth := map st | st in Stores(rows) :: GrowthRate(rows, st);
  }
}
