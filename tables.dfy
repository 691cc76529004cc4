/**
  The sales table: the records one row of a store's CSV file turns into at each
  stage of the analysis, and the mutable data frame the stages add columns to.
  Amounts are exact reals; the analysis itself computes in binary floating point.
 */
module Tables {

  /** A purchase date, as parsed from the `Fecha de Compra` column. */
  datatype Date = Date(year: int, month: int, day: int)

  /** A calendar month: the `Año_Mes` period a date falls in. */
  datatype YearMonth = YearMonth(year: int, month: int)

  function MonthOf(d: Date): YearMonth
  {
    YearMonth(d.year, d.month)
  }

  /** Chronological order on months: `a` is strictly before `b`. */
  predicate Earlier(a: YearMonth, b: YearMonth)
  {
    a.year < b.year || (a.year == b.year && a.month < b.month)
  }

  /** One row of a store's CSV file, before it is tagged with its store. */
  datatype RawSale = RawSale(date: Date, price: real, shipping: real, rating: int)

  /** A loaded row: a raw row plus its `Tienda` label. */
  datatype Sale = Sale(store: string, date: Date, price: real, shipping: real, rating: int)

  /** A cleaned row: a loaded row plus `Total Venta` and `Porcentaje_Envio`. */
  datatype Row = Row(store: string, date: Date, price: real, shipping: real, rating: int,
                     totalSale: real, shippingPercent: real)

  /** Pairs each loaded row with the derived columns at the same position. */
  function Zip(sales: seq<Sale>, totals: seq<real>, percents: seq<real>): seq<Row>
    requires |totals| == |sales| && |percents| == |sales|
  {
    seq(|sales|, i requires 0 <= i < |sales| =>
      Row(sales[i].store, sales[i].date, sales[i].price, sales[i].shipping, sales[i].rating,
          totals[i], percents[i]))
  }

  /**
    The data frame the analysis mutates. The loaded columns are kept as a
    sequence of `Sale` records; every column the analysis adds later is a
    field of its own, empty until the stage that adds it has run.
   */
  class Frame {
    var sales: seq<Sale>
    var totalSale: seq<real>
    var shippingPercent: seq<real>
    var yearMonth: seq<YearMonth>

    constructor (loaded: seq<Sale>)
      ensures sales == loaded
      ensures totalSale == [] && shippingPercent == [] && yearMonth == []
    {
      sales := loaded;
      totalSale := [];
      shippingPercent := [];
      yearMonth := [];
    }

    /** Both columns derived by the cleaning stage are present. */
    predicate Cleaned()
      reads this`sales, this`totalSale, this`shippingPercent
    {
      |totalSale| == |sales| && |shippingPercent| == |sales|
    }

    /** The cleaned table, one `Row` per loaded row. */
    function Rows(): seq<Row>
      reads this`sales, this`totalSale, this`shippingPercent
      requires Cleaned()
    {
      Zip(sales, totalSale, shippingPercent)
    }
  }
}
