/**
  Cleaning (`limpiar_datos`): adds `Total Venta` = price + shipping cost and
  `Porcentaje_Envio` = shipping cost / price * 100 to the frame, in place. No
  row is added or dropped. The percentage has no value for a price of zero
  (the analysis gets an infinity or NaN there), so cleaning requires non-zero
  prices. Parsing the date strings is not modelled: dates arrive parsed.
 */
module Cleaning {
  import opened Tables

  /** No loaded row has price zero, so every shipping percentage is defined. */
  predicate PricesNonZero(sales: seq<Sale>)
  {
    forall k :: 0 <= k < |sales| ==> sales[k].price != 0.0
  }

  /** The cleaned form of one loaded row. */
  function CleanRow(s: Sale): (r: Row)
    requires s.price != 0.0
    ensures r.store == s.store && r.date == s.date && r.rating == s.rating
    ensures r.price == s.price && r.shipping == s.shipping
    ensures r.totalSale - r.price == r.shipping
    ensures r.shippingPercent * r.price == 100.0 * r.shipping
    ensures 0.0 < r.price && 0.0 <= r.shipping ==> 0.0 <= r.shippingPercent
  {
    Row(s.store, s.date, s.price, s.shipping, s.rating,
        s.price + s.shipping, s.shipping / s.price * 100.0)
  }

  /** The cleaned table: every loaded row cleaned, in the same order. */
  function CleanRows(sales: seq<Sale>): (rows: seq<Row>)
    requires PricesNonZero(sales)
  {
    seq(|sales|, k requires 0 <= k < |sales| => CleanRow(sales[k]))
  }

  /** Cleaning works row by row, so it distributes over concatenation. */
  lemma CleanRowsAppend(a: seq<Sale>, b: seq<Sale>)
    requires PricesNonZero(a + b)
    ensures PricesNonZero(a) && PricesNonZero(b)
    ensures CleanRows(a + b) == CleanRows(a) + CleanRows(b)
  {
    assert forall k :: 0 <= k < |a| ==> (a + b)[k] == a[k];
    assert forall k :: 0 <= k < |b| ==> (a + b)[|a| + k] == b[k];
  }

  /**
    `limpiar_datos`: assigns the two derived columns of the frame. The loaded
    columns and any month column stay as they were.
   */
  method CleanData(f: Frame)
    requires PricesNonZero(f.sales)
    modifies f
    ensures f.sales == old(f.sales) && f.yearMonth == old(f.yearMonth)
    ensures f.Cleaned()
    ensures f.Rows() == CleanRows(f.sales)
  {
    var s := f.sales;
    f.totalSale := seq(|s|, k requires 0 <= k < |s| => s[k].price + s[k].shipping);
    f.shippingPercent := seq(|s|, k requires 0 <= k < |s| => s[k].shipping / s[k].price * 100.0);
    assert f.Rows() == CleanRows(f.sales);
  }
}
