/**
  Ranking (`generar_ranking`): the metrics table gets the growth column, every
  column is min-max normalised in place, the weighted `Puntaje_Final` is
  added and the stores are sorted by it, highest first. The composed batch
  run, from the read tables to the ranking, is `AnalyzeStores`; it reports as
  a `Failure` every case in which the analysis would divide by zero or get NaN.
 */
module Ranking {
  import opened Wrappers
  import opened Tables
  import opened Loading
  import opened Cleaning
  import M = Metrics
  import G = Growth

  /** The columns of the ranking table, in the order of `ranking.columns`. */
  datatype Column = Revenue | AverageSale | AverageRating | FiveStarPercent | ShippingEfficiency | GrowthRate

  const Columns: seq<Column> := [Revenue, AverageSale, AverageRating, FiveStarPercent, ShippingEfficiency, GrowthRate]

  /** The position of a column in `Columns`. */
  function Position(c: Column): (j: nat)
    ensures j < |Columns| && Columns[j] == c
  {
    match c
    case Revenue => 0
    case AverageSale => 1
    case AverageRating => 2
    case FiveStarPercent => 3
    case ShippingEfficiency => 4
    case GrowthRate => 5
  }

  /** One row of the ranking table: a store and its six metric columns. */
  datatype StoreRow = StoreRow(store: string, revenue: real, averageSale: real, averageRating: real,
                               fiveStarPercent: real, shippingEfficiency: real, growthRate: real)

  function Get(r: StoreRow, c: Column): real
  {
    match c
    case Revenue => r.revenue
    case AverageSale => r.averageSale
    case AverageRating => r.averageRating
    case FiveStarPercent => r.fiveStarPercent
    case ShippingEfficiency => r.shippingEfficiency
    case GrowthRate => r.growthRate
  }

  /** The row with column `c` overwritten by `v` and nothing else changed. */
  function Put(r: StoreRow, c: Column, v: real): (r': StoreRow)
    ensures r'.store == r.store && Get(r', c) == v
    ensures forall d :: d != c ==> Get(r', d) == Get(r, d)
  {
    match c
    case Revenue => r.(revenue := v)
    case AverageSale => r.(averageSale := v)
    case AverageRating => r.(averageRating := v)
    case FiveStarPercent => r.(fiveStarPercent := v)
    case ShippingEfficiency => r.(shippingEfficiency := v)
    case GrowthRate => r.(growthRate := v)
  }

  /** Two rows with the same store and the same six columns are the same row. */
  lemma RowExtensionality(a: StoreRow, b: StoreRow)
    requires a.store == b.store
    requires forall j :: 0 <= j < |Columns| ==> Get(a, Columns[j]) == Get(b, Columns[j])
    ensures a == b
  {
    assert Get(a, Columns[0]) == Get(b, Columns[0]);
    assert Get(a, Columns[1]) == Get(b, Columns[1]);
    assert Get(a, Columns[2]) == Get(b, Columns[2]);
    assert Get(a, Columns[3]) == Get(b, Columns[3]);
    assert Get(a, Columns[4]) == Get(b, Columns[4]);
    assert Get(a, Columns[5]) == Get(b, Columns[5]);
  }

  /** `ranking[c].min()`: the smallest value of column `c`. */
  function ColumnMin(t: seq<StoreRow>, c: Column): real
    requires |t| > 0
  {
    if |t| == 1 then Get(t[0], c)
    else
      var m := ColumnMin(t[..|t| - 1], c);
      var v := Get(t[|t| - 1], c);
      if v < m then v else m
  }

  /** `ranking[c].max()`: the largest value of column `c`. */
  function ColumnMax(t: seq<StoreRow>, c: Column): real
    requires |t| > 0
  {
    if |t| == 1 then Get(t[0], c)
    else
      var m := ColumnMax(t[..|t| - 1], c);
      var v := Get(t[|t| - 1], c);
      if v > m then v else m
  }

  /** Every value of a column lies between its minimum and its maximum. */
  lemma {:induction false} ColumnBounds(t: seq<StoreRow>, c: Column, i: nat)
    requires i < |t|
    ensures ColumnMin(t, c) <= Get(t[i], c) <= ColumnMax(t, c)
  {
    if |t| > 1 && i < |t| - 1 {
      ColumnBounds(t[..|t| - 1], c, i);
      assert t[..|t| - 1][i] == t[i];
    }
  }

  /** The minimum and the maximum of a column are values of it: returns rows holding them. */
  lemma {:induction false} ColumnExtremesAttained(t: seq<StoreRow>, c: Column) returns (a: nat, b: nat)
    requires |t| > 0
    ensures a < |t| && Get(t[a], c) == ColumnMin(t, c)
    ensures b < |t| && Get(t[b], c) == ColumnMax(t, c)
  {
    if |t| == 1 {
      a, b := 0, 0;
    } else {
      var init := t[..|t| - 1];
      a, b := ColumnExtremesAttained(init, c);
      assert init[a] == t[a] && init[b] == t[b];
      var v := Get(t[|t| - 1], c);
      if v < ColumnMin(init, c) {
        a := |t| - 1;
      }
      if v > ColumnMax(init, c) {
        b := |t| - 1;
      }
    }
  }

  /** Tables that agree on column `c` have the same minimum and maximum in it. */
  lemma {:induction false} ColumnBoundsAgree(a: seq<StoreRow>, b: seq<StoreRow>, c: Column)
    requires |a| == |b| > 0
    requires forall i :: 0 <= i < |a| ==> Get(a[i], c) == Get(b[i], c)
    ensures ColumnMin(a, c) == ColumnMin(b, c) && ColumnMax(a, c) == ColumnMax(b, c)
  {
    if |a| > 1 {
      var a', b' := a[..|a| - 1], b[..|b| - 1];
      assert forall i :: 0 <= i < |a'| ==> a'[i] == a[i] && b'[i] == b[i];
      ColumnBoundsAgree(a', b', c);
    }
  }

  /**
    The table has a row and every column has two different values, so no
    normalisation divides by zero. This fails for a table without stores, for a
    single store, and for a column in which all stores tie.
   */
  predicate Spread(t: seq<StoreRow>)
  {
    |t| > 0 && forall j :: 0 <= j < |Columns| ==> ColumnMin(t, Columns[j]) < ColumnMax(t, Columns[j])
  }

  lemma SpreadColumn(t: seq<StoreRow>, c: Column)
    requires Spread(t)
    ensures ColumnMin(t, c) < ColumnMax(t, c)
  {
    assert ColumnMin(t, Columns[Position(c)]) < ColumnMax(t, Columns[Position(c)]);
  }

  /** Min-max normalisation of one value. */
  function Normalize(v: real, lo: real, hi: real): (n: real)
    requires lo < hi
    ensures lo <= v <= hi ==> 0.0 <= n <= 1.0
    ensures v == lo ==> n == 0.0
    ensures v == hi ==> n == 1.0
  {
    var d := hi - lo;
    var n := (v - lo) / d;
    assert n * d == v - lo;
    M.ScaleByPositive(n, d);
    n
  }

  /** Normalisation keeps the order of values, in both directions. */
  lemma NormalizeMonotone(v: real, w: real, lo: real, hi: real)
    requires lo < hi
    ensures v <= w <==> Normalize(v, lo, hi) <= Normalize(w, lo, hi)
  {
    var d := hi - lo;
    var x := Normalize(w, lo, hi) - Normalize(v, lo, hi);
    assert x * d == w - v;
    M.ScaleByPositive(x, d);
  }

  /** The normalised value of column `c` in row `i`. */
  function NormalizedCell(t: seq<StoreRow>, i: nat, c: Column): real
    requires Spread(t) && i < |t|
  {
    SpreadColumn(t, c);
    Normalize(Get(t[i], c), ColumnMin(t, c), ColumnMax(t, c))
  }

  /** Specification of the normalisation loop: every cell normalised within its column. */
  function NormalizedTable(t: seq<StoreRow>): seq<StoreRow>
    requires Spread(t)
  {
    seq(|t|, i requires 0 <= i < |t| =>
      StoreRow(t[i].store, NormalizedCell(t, i, Revenue), NormalizedCell(t, i, AverageSale),
               NormalizedCell(t, i, AverageRating), NormalizedCell(t, i, FiveStarPercent),
               NormalizedCell(t, i, ShippingEfficiency), NormalizedCell(t, i, GrowthRate)))
  }

  lemma NormalizedTableGet(t: seq<StoreRow>, i: nat, c: Column)
    requires Spread(t) && i < |t|
    ensures |NormalizedTable(t)| == |t| && NormalizedTable(t)[i].store == t[i].store
    ensures Get(NormalizedTable(t)[i], c) == NormalizedCell(t, i, c)
  {
  }

  /** Different positions of `Columns` hold different columns. */
  lemma PositionOf(j: nat)
    requires j < |Columns|
    ensures Position(Columns[j]) == j
  {
    if j == 0 {} else if j == 1 {} else if j == 2 {} else if j == 3 {} else if j == 4 {} else {}
  }

  /**
    The loop over `ranking.columns`: each column in turn is overwritten by its
    normalised values, min and max taken over the column as it stands.
   */
  method NormalizeColumns(t: seq<StoreRow>) returns (n: seq<StoreRow>)
    requires Spread(t)
    ensures n == NormalizedTable(t)
  {
    n := t;
    for k := 0 to |Columns|
      invariant |n| == |t|
      invariant forall i :: 0 <= i < |t| ==> n[i].store == t[i].store
      invariant forall i, j :: 0 <= i < |t| && 0 <= j < k ==> Get(n[i], Columns[j]) == NormalizedCell(t, i, Columns[j])
      invariant forall i, j :: 0 <= i < |t| && k <= j < |Columns| ==> Get(n[i], Columns[j]) == Get(t[i], Columns[j])
    {
      var c := Columns[k];
      ColumnBoundsAgree(n, t, c);
      SpreadColumn(t, c);
      var lo := ColumnMin(n, c);
      var hi := ColumnMax(n, c);
      var prev := n;
      n := seq(|prev|, i requires 0 <= i < |prev| => Put(prev[i], c, Normalize(Get(prev[i], c), lo, hi)));
      forall j | 0 <= j < |Columns| && j != k
        ensures Columns[j] != c
      {
        PositionOf(j);
        PositionOf(k);
      }
    }
    forall i | 0 <= i < |t|
      ensures n[i] == NormalizedTable(t)[i]
    {
      forall j | 0 <= j < |Columns|
        ensures Get(n[i], Columns[j]) == Get(NormalizedTable(t)[i], Columns[j])
      {
        NormalizedTableGet(t, i, Columns[j]);
      }
      RowExtensionality(n[i], NormalizedTable(t)[i]);
    }
  }

  /** After normalisation every cell lies in [0, 1]. */
  lemma NormalizedInUnit(t: seq<StoreRow>, i: nat, c: Column)
    requires Spread(t) && i < |t|
    ensures 0.0 <= Get(NormalizedTable(t)[i], c) <= 1.0
  {
    NormalizedTableGet(t, i, c);
    ColumnBounds(t, c, i);
  }

  /** A store holding a column's minimum gets 0 in it, one holding its maximum gets 1. */
  lemma NormalizedExtremes(t: seq<StoreRow>, i: nat, c: Column)
    requires Spread(t) && i < |t|
    ensures Get(t[i], c) == ColumnMin(t, c) ==> Get(NormalizedTable(t)[i], c) == 0.0
    ensures Get(t[i], c) == ColumnMax(t, c) ==> Get(NormalizedTable(t)[i], c) == 1.0
  {
    NormalizedTableGet(t, i, c);
  }

  /** Normalisation keeps the order of the stores within every column, in both directions. */
  lemma NormalizedOrder(t: seq<StoreRow>, i: nat, j: nat, c: Column)
    requires Spread(t) && i < |t| && j < |t|
    ensures Get(t[i], c) <= Get(t[j], c) <==> Get(NormalizedTable(t)[i], c) <= Get(NormalizedTable(t)[j], c)
  {
    NormalizedTableGet(t, i, c);
    NormalizedTableGet(t, j, c);
    SpreadColumn(t, c);
    NormalizeMonotone(Get(t[i], c), Get(t[j], c), ColumnMin(t, c), ColumnMax(t, c));
  }

  /** After normalisation every column has minimum 0 and maximum 1. */
  lemma NormalizedColumnRange(t: seq<StoreRow>, c: Column)
    requires Spread(t)
    ensures ColumnMin(NormalizedTable(t), c) == 0.0 && ColumnMax(NormalizedTable(t), c) == 1.0
  {
    var n := NormalizedTable(t);
    var a, b := ColumnExtremesAttained(t, c);
    NormalizedExtremes(t, a, c);
    NormalizedExtremes(t, b, c);
    ColumnBounds(n, c, a);
    ColumnBounds(n, c, b);
    var a', b' := ColumnExtremesAttained(n, c);
    NormalizedInUnit(t, a', c);
    NormalizedInUnit(t, b', c);
  }

  /** All six columns of the row lie in [0, 1]. */
  predicate InUnit(r: StoreRow)
  {
    forall c :: 0.0 <= Get(r, c) <= 1.0
  }

  /**
    `Puntaje_Final`: 30% revenue (total and average), 25% satisfaction (rating
    and five-star share), 25% shipping efficiency, 20% growth.
   */
  function Score(r: StoreRow): (s: real)
    ensures InUnit(r) ==> 0.0 <= s <= 1.0
  {
    assert InUnit(r) ==>
      (&& 0.0 <= Get(r, Revenue) <= 1.0 && 0.0 <= Get(r, AverageSale) <= 1.0
       && 0.0 <= Get(r, AverageRating) <= 1.0 && 0.0 <= Get(r, FiveStarPercent) <= 1.0
       && 0.0 <= Get(r, ShippingEfficiency) <= 1.0 && 0.0 <= Get(r, GrowthRate) <= 1.0);
    0.30 * (r.revenue + r.averageSale) / 2.0
    + 0.25 * (r.averageRating + r.fiveStarPercent) / 2.0
    + 0.25 * r.shippingEfficiency
    + 0.20 * r.growthRate
  }

  /** The weights sum to 1: a row whose columns all equal x scores x. */
  lemma ScoreOfUniformRow(r: StoreRow, x: real)
    requires forall c :: Get(r, c) == x
    ensures Score(r) == x
  {
    assert Get(r, Revenue) == x && Get(r, AverageSale) == x && Get(r, AverageRating) == x;
    assert Get(r, FiveStarPercent) == x && Get(r, ShippingEfficiency) == x && Get(r, GrowthRate) == x;
  }

  /** A store at least as good in every column scores at least as high. */
  lemma ScoreMonotone(a: StoreRow, b: StoreRow)
    requires forall c :: Get(a, c) <= Get(b, c)
    ensures Score(a) <= Score(b)
  {
    assert Get(a, Revenue) <= Get(b, Revenue) && Get(a, AverageSale) <= Get(b, AverageSale);
    assert Get(a, AverageRating) <= Get(b, AverageRating) && Get(a, FiveStarPercent) <= Get(b, FiveStarPercent);
    assert Get(a, ShippingEfficiency) <= Get(b, ShippingEfficiency) && Get(a, GrowthRate) <= Get(b, GrowthRate);
  }

  /** A ranking-table row together with its `Puntaje_Final`. */
  datatype Ranked = Ranked(row: StoreRow, score: real)

  /** The table with the `Puntaje_Final` column added. */
  function WithScores(n: seq<StoreRow>): seq<Ranked>
  {
    seq(|n|, i requires 0 <= i < |n| => Ranked(n[i], Score(n[i])))
  }

  /** Non-increasing by score; the order among equal scores is left open. */
  predicate SortedByScore(rs: seq<Ranked>)
  {
    forall i, j :: 0 <= i < j < |rs| ==> rs[i].score >= rs[j].score
  }

  /** Puts `x` into a list sorted by score, before the first entry with a lower score. */
  function InsertByScore(x: Ranked, rs: seq<Ranked>): (r: seq<Ranked>)
    ensures multiset(r) == multiset(rs) + multiset{x}
  {
    if |rs| == 0 then [x]
    else if x.score >= rs[0].score then [x] + rs
    else
      assert rs == [rs[0]] + rs[1..];
      [rs[0]] + InsertByScore(x, rs[1..])
  }

  /** Inserting an entry scored at most `b` into entries scored at most `b` gives entries scored at most `b`. */
  lemma {:induction false} InsertByScoreBelow(x: Ranked, rs: seq<Ranked>, b: real)
    requires x.score <= b
    requires forall j :: 0 <= j < |rs| ==> rs[j].score <= b
    ensures forall j :: 0 <= j < |InsertByScore(x, rs)| ==> InsertByScore(x, rs)[j].score <= b
  {
    if |rs| > 0 && x.score < rs[0].score {
      InsertByScoreBelow(x, rs[1..], b);
    }
  }

  lemma {:induction false} InsertByScoreSorted(x: Ranked, rs: seq<Ranked>)
    requires SortedByScore(rs)
    ensures SortedByScore(InsertByScore(x, rs))
  {
    if |rs| > 0 && x.score < rs[0].score {
      InsertByScoreSorted(x, rs[1..]);
      InsertByScoreBelow(x, rs[1..], rs[0].score);
    }
  }

  /** `sort_values('Puntaje_Final', ascending=False)`: sorted by score and a permutation of its input. */
  function SortByScore(rs: seq<Ranked>): (r: seq<Ranked>)
    ensures SortedByScore(r)
    ensures multiset(r) == multiset(rs)
  {
    if |rs| == 0 then []
    else
      assert rs == [rs[0]] + rs[1..];
      var sorted := SortByScore(rs[1..]);
      InsertByScoreSorted(rs[0], sorted);
      InsertByScore(rs[0], sorted)
  }

  /** `ranking['Tasa_Crecimiento'] = ...`: the metrics table with the growth of each store joined on its label. */
  function JoinGrowth(m: seq<M.StoreMetrics>, growth: map<string, real>): seq<StoreRow>
    requires forall i :: 0 <= i < |m| ==> m[i].fiveStarPercent.Some? && m[i].store in growth
  {
    seq(|m|, i requires 0 <= i < |m| =>
      StoreRow(m[i].store, m[i].revenue, m[i].averageSale, m[i].averageRating,
               m[i].fiveStarPercent.value, m[i].shippingEfficiency, growth[m[i].store]))
  }

  /** Every store has a five-star rating, so no `Porcentaje_5_Estrellas` is NaN. */
  predicate FiveStarEverywhere(rows: seq<Row>)
  {
    forall s :: s in M.Stores(rows) ==> M.FiveStarPercent(rows, s).Some?
  }

  /** Every store's first month has a non-zero total, so no `Tasa_Crecimiento` divides by zero. */
  predicate GrowthEverywhere(rows: seq<Row>)
  {
    forall s :: s in M.Stores(rows) ==> G.GrowthDefined(rows, s)
  }

  /** What `calcular_crecimiento` returns: the growth of every store. */
  function GrowthMap(rows: seq<Row>): map<string, real>
    requires GrowthEverywhere(rows)
  {
    map s | s in M.Stores(rows) :: G.GrowthRate(rows, s)
  }

  /** The ranking table before normalisation. */
  function BaseTable(rows: seq<Row>): (t: seq<StoreRow>)
    requires FiveStarEverywhere(rows) && GrowthEverywhere(rows)
    ensures |t| == |M.Stores(rows)|
  {
    var m := M.MetricsTable(rows);
    assert forall i :: 0 <= i < |m| ==> M.Stores(rows)[i] in M.Stores(rows);
    JoinGrowth(m, GrowthMap(rows))
  }

  /** Row `i` of the ranking table is the `i`-th store, with its metrics and growth. */
  lemma BaseTableRow(rows: seq<Row>, i: nat)
    requires FiveStarEverywhere(rows) && GrowthEverywhere(rows) && i < |M.Stores(rows)|
    ensures var s := M.Stores(rows)[i];
            && s in M.Stores(rows)
            && M.FiveStarPercent(rows, s).Some?
            && BaseTable(rows)[i] == StoreRow(s, M.Revenue(rows, s), M.AverageSale(rows, s),
                 M.AverageRating(rows, s), M.FiveStarPercent(rows, s).value,
                 M.ShippingEfficiency(rows, s), G.GrowthRate(rows, s))
  {
  }

  /** The ranking is defined: no NaN, no infinity and no division by zero on the way. */
  predicate RankingDefined(rows: seq<Row>)
  {
    FiveStarEverywhere(rows) && GrowthEverywhere(rows) && Spread(BaseTable(rows))
  }

  /** Specification of `generar_ranking`. */
  function RankingOf(rows: seq<Row>): seq<Ranked>
    requires RankingDefined(rows)
  {
    SortByScore(WithScores(NormalizedTable(BaseTable(rows))))
  }

  /**
    `generar_ranking`: builds the metrics table, joins the growth (which also
    adds the month column to the frame), normalises, scores and sorts.
   */
  method GenerateRanking(f: Frame) returns (ranking: seq<Ranked>)
    requires f.Cleaned() && RankingDefined(f.Rows())
    modifies f
    ensures f.sales == old(f.sales) && f.totalSale == old(f.totalSale)
    ensures f.shippingPercent == old(f.shippingPercent)
    ensures f.yearMonth == G.MonthColumn(f.sales)
    ensures ranking == RankingOf(f.Rows())
  {
    var rows := f.Rows();
    var metricas := M.CalcStoreMetrics(rows);
    var growth := G.CalcGrowth(f);
    assert growth == GrowthMap(rows);
    var table := JoinGrowth(metricas, growth);
    var normalized := NormalizeColumns(table);
    ranking := SortByScore(WithScores(normalized));
  }

  /** The store labels of a ranking, in ranking order. */
  function StoresOf(rs: seq<Ranked>): seq<string>
  {
    seq(|rs|, i requires 0 <= i < |rs| => rs[i].row.store)
  }

  /** The sequence with the entry at `p` taken out. */
  function Remove<T>(b: seq<T>, p: nat): (r: seq<T>)
    requires p < |b|
    ensures |r| == |b| - 1
  {
    b[..p] + b[p + 1..]
  }

  /** Taking out the entry at `p` removes one occurrence of it from the multiset. */
  lemma MultisetRemove<T>(b: seq<T>, p: nat)
    requires p < |b|
    ensures multiset(b) == multiset(Remove(b, p)) + multiset{b[p]}
  {
    assert b == b[..p] + [b[p]] + b[p + 1..];
  }

  lemma MultisetCancel<T>(m: multiset<T>, n: multiset<T>, x: T)
    requires m + multiset{x} == n + multiset{x}
    ensures m == n
  {
    forall y
      ensures m[y] == n[y]
    {
      assert (m + multiset{x})[y] == (n + multiset{x})[y];
    }
  }

  /** The labels of a ranking with one entry taken out. */
  lemma StoresOfRemove(b: seq<Ranked>, p: nat)
    requires p < |b|
    ensures multiset(StoresOf(b)) == multiset(StoresOf(Remove(b, p))) + multiset{b[p].row.store}
  {
    var ss := StoresOf(b);
    assert StoresOf(Remove(b, p)) == Remove(ss, p);
    MultisetRemove(ss, p);
  }

  /** An entry of the multiset of a sequence sits at some index of it. */
  lemma IndexOf<T>(b: seq<T>, x: T) returns (p: nat)
    requires x in multiset(b)
    ensures p < |b| && b[p] == x
  {
    assert x in b;
    p :| 0 <= p < |b| && b[p] == x;
  }

  /** Permuting rows permutes their store labels. */
  lemma {:induction false} StoresOfPermutation(a: seq<Ranked>, b: seq<Ranked>)
    requires multiset(a) == multiset(b)
    ensures multiset(StoresOf(a)) == multiset(StoresOf(b))
    decreases |a|
  {
    if |a| == 0 {
      assert |b| == |multiset(b)| == 0;
    } else {
      var p := IndexOf(b, a[0]);
      MultisetRemove(a, 0);
      MultisetRemove(b, p);
      MultisetCancel(multiset(Remove(a, 0)), multiset(Remove(b, p)), a[0]);
      StoresOfPermutation(Remove(a, 0), Remove(b, p));
      StoresOfRemove(a, 0);
      StoresOfRemove(b, p);
    }
  }

  /** Every scored row of a normalised table has its columns and its score in [0, 1]. */
  lemma ScoredInUnit(t: seq<StoreRow>, i: nat)
    requires Spread(t) && i < |t|
    ensures InUnit(WithScores(NormalizedTable(t))[i].row)
    ensures 0.0 <= WithScores(NormalizedTable(t))[i].score <= 1.0
  {
    forall c ensures 0.0 <= Get(NormalizedTable(t)[i], c) <= 1.0 {
      NormalizedInUnit(t, i, c);
    }
  }

  /** Every entry of the ranking is a normalised row, so its columns and its score lie in [0, 1]. */
  lemma RankingInUnit(rows: seq<Row>, k: nat)
    requires RankingDefined(rows) && k < |RankingOf(rows)|
    ensures InUnit(RankingOf(rows)[k].row)
    ensures 0.0 <= RankingOf(rows)[k].score <= 1.0
  {
    var t := BaseTable(rows);
    var scored := WithScores(NormalizedTable(t));
    var x := RankingOf(rows)[k];
    assert x in multiset(RankingOf(rows));
    var i := IndexOf(scored, x);
    ScoredInUnit(t, i);
  }

  /** Before sorting, the scored table lists the stores in first-appearance order. */
  lemma ScoredStores(rows: seq<Row>)
    requires RankingDefined(rows)
    ensures StoresOf(WithScores(NormalizedTable(BaseTable(rows)))) == M.Stores(rows)
  {
    var t := BaseTable(rows);
    var scored := WithScores(NormalizedTable(t));
    forall i | 0 <= i < |t|
      ensures StoresOf(scored)[i] == M.Stores(rows)[i]
    {
      BaseTableRow(rows, i);
      NormalizedTableGet(t, i, Revenue);
    }
  }

  /** Every store of the cleaned table appears in the ranking exactly once, and no other label does. */
  lemma RankingStoresOnce(rows: seq<Row>, s: string)
    requires RankingDefined(rows)
    ensures multiset(StoresOf(RankingOf(rows)))[s] == if s in M.Stores(rows) then 1 else 0
  {
    StoresOfPermutation(RankingOf(rows), WithScores(NormalizedTable(BaseTable(rows))));
    ScoredStores(rows);
    M.StoresMembers(rows);
    M.DistinctMultiplicity(M.Stores(rows), s);
  }

  /** Why a batch run produces no ranking. */
  datatype Failure =
    | NoTables          // `pd.concat` of an empty list raises
    | NoRows            // every table is empty: the growth of no store is assigned to a column
    | ZeroPrice         // a shipping percentage divides by a zero price
    | NoFiveStarRating  // a store's `Porcentaje_5_Estrellas` is NaN
    | ZeroFirstMonth    // a store's growth divides by a zero first-month total
    | FlatColumn        // a column with a single value: normalisation divides by zero

  /** The label of table `i` is a store of the cleaned table exactly when that table has rows. */
  lemma LabelPresent(tables: seq<seq<RawSale>>, i: nat)
    requires PricesNonZero(Labelled(tables)) && i < |tables|
    ensures Label(i + 1) in M.Stores(CleanRows(Labelled(tables))) <==> |tables[i]| > 0
  {
    var rows := CleanRows(Labelled(tables));
    if |tables[i]| > 0 {
      LabelledAt(tables, i, 0);
      M.StoresCover(rows);
      assert rows[TotalRows(tables[..i])].store == Label(i + 1);
    }
    if Label(i + 1) in M.Stores(rows) {
      var k := M.StoresOrigin(rows, Label(i + 1));
      var i', j := LabelledStore(tables, k);
      LabelInjective(i + 1, i' + 1);
    }
  }

  /** Every store of the cleaned table is the label of a non-empty table: returns its index. */
  lemma LabelOrigin(tables: seq<seq<RawSale>>, s: string) returns (i: nat)
    requires PricesNonZero(Labelled(tables)) && s in M.Stores(CleanRows(Labelled(tables)))
    ensures i < |tables| && |tables[i]| > 0 && s == Label(i + 1)
  {
    var rows := CleanRows(Labelled(tables));
    var k := M.StoresOrigin(rows, s);
    var j;
    i, j := LabelledStore(tables, k);
  }

  /** Cleaning a tagged table and grouping by a label gives all of it under its own label and none under any other. */
  lemma {:induction false} GroupOfTag(table: seq<RawSale>, tag: string, store: string)
    requires PricesNonZero(Tag(table, tag))
    ensures M.Group(CleanRows(Tag(table, tag)), store) == if tag == store then CleanRows(Tag(table, tag)) else []
    decreases |table|
  {
    if |table| > 0 {
      var init := table[..|table| - 1];
      var rows := CleanRows(Tag(table, tag));
      assert Tag(table, tag) == Tag(init, tag) + [Tag(table, tag)[|table| - 1]];
      CleanRowsAppend(Tag(init, tag), [Tag(table, tag)[|table| - 1]]);
      assert rows[..|rows| - 1] == CleanRows(Tag(init, tag));
      GroupOfTag(init, tag, store);
    }
  }

  /** The cleaned rows of a batch split into those of the earlier tables and those of the last one. */
  lemma CleanLabelledSnoc(tables: seq<seq<RawSale>>)
    requires |tables| > 0 && PricesNonZero(Labelled(tables))
    ensures var n := |tables|;
            && PricesNonZero(Labelled(tables[..n - 1])) && PricesNonZero(Tag(tables[n - 1], Label(n)))
            && CleanRows(Labelled(tables))
               == CleanRows(Labelled(tables[..n - 1])) + CleanRows(Tag(tables[n - 1], Label(n)))
  {
    var n := |tables|;
    CleanRowsAppend(Labelled(tables[..n - 1]), Tag(tables[n - 1], Label(n)));
  }

  /** No cleaned row carries the label of a position beyond the last table. */
  lemma {:induction false} GroupBeyond(tables: seq<seq<RawSale>>, m: nat)
    requires m > |tables| && PricesNonZero(Labelled(tables))
    ensures M.Group(CleanRows(Labelled(tables)), Label(m)) == []
  {
    if |tables| > 0 {
      var n := |tables|;
      var init := tables[..n - 1];
      CleanLabelledSnoc(tables);
      GroupBeyond(init, m);
      M.GroupAppend(CleanRows(Labelled(init)), CleanRows(Tag(tables[n - 1], Label(n))), Label(m));
      LabelInjective(n, m);
      GroupOfTag(tables[n - 1], Label(n), Label(m));
    }
  }

  /**
    The group of `Tienda i+1` in the cleaned table is input table i, cleaned,
    in order: each store's metrics and growth are computed from exactly the
    rows of its own input table.
   */
  lemma {:induction false} GroupOfLabelled(tables: seq<seq<RawSale>>, i: nat)
    requires i < |tables| && PricesNonZero(Labelled(tables))
    ensures PricesNonZero(Tag(tables[i], Label(i + 1)))
    ensures M.Group(CleanRows(Labelled(tables)), Label(i + 1)) == CleanRows(Tag(tables[i], Label(i + 1)))
  {
    var n := |tables|;
    var init := tables[..n - 1];
    CleanLabelledSnoc(tables);
    M.GroupAppend(CleanRows(Labelled(init)), CleanRows(Tag(tables[n - 1], Label(n))), Label(i + 1));
    LabelInjective(n, i + 1);
    GroupOfTag(tables[n - 1], Label(n), Label(i + 1));
    if i == n - 1 {
      GroupBeyond(init, n);
    } else {
      assert init[i] == tables[i];
      GroupOfLabelled(init, i);
    }
  }

  /** The summed `Precio` + `Costo de envío` of one input table. */
  function TableTotal(table: seq<RawSale>): real
  {
    if |table| == 0 then 0.0
    else TableTotal(table[..|table| - 1]) + (table[|table| - 1].price + table[|table| - 1].shipping)
  }

  lemma {:induction false} TotalColumnOfTag(table: seq<RawSale>, tag: string)
    requires PricesNonZero(Tag(table, tag))
    ensures M.Sum(M.TotalColumn(CleanRows(Tag(table, tag)))) == TableTotal(table)
    decreases |table|
  {
    if |table| > 0 {
      var init := table[..|table| - 1];
      assert Tag(table, tag) == Tag(init, tag) + [Tag(table, tag)[|table| - 1]];
      CleanRowsAppend(Tag(init, tag), [Tag(table, tag)[|table| - 1]]);
      var col := M.TotalColumn(CleanRows(Tag(table, tag)));
      assert col[..|col| - 1] == M.TotalColumn(CleanRows(Tag(init, tag)));
      TotalColumnOfTag(init, tag);
    }
  }

  /**
    The revenue of `Tienda i+1` is the summed price plus shipping of input
    table i, and its group has that table's row count.
   */
  lemma TableRevenue(tables: seq<seq<RawSale>>, i: nat)
    requires i < |tables| && PricesNonZero(Labelled(tables))
    ensures |M.Group(CleanRows(Labelled(tables)), Label(i + 1))| == |tables[i]|
    ensures M.Revenue(CleanRows(Labelled(tables)), Label(i + 1)) == TableTotal(tables[i])
  {
    GroupOfLabelled(tables, i);
    TotalColumnOfTag(tables[i], Label(i + 1));
  }

  /** Every score in the ranking of a batch of tables lies in [0, 1]. */
  lemma TablesRankingScores(tables: seq<seq<RawSale>>)
    requires PricesNonZero(Labelled(tables)) && RankingDefined(CleanRows(Labelled(tables)))
    ensures var ranking := RankingOf(CleanRows(Labelled(tables)));
            forall k :: 0 <= k < |ranking| ==> 0.0 <= ranking[k].score <= 1.0
  {
    var rows := CleanRows(Labelled(tables));
    forall k | 0 <= k < |RankingOf(rows)|
      ensures 0.0 <= RankingOf(rows)[k].score <= 1.0
    {
      RankingInUnit(rows, k);
    }
  }

  /** The ranking of a batch of tables lists the label of every non-empty table once, and of no empty one. */
  lemma TablesRankingLabels(tables: seq<seq<RawSale>>)
    requires PricesNonZero(Labelled(tables)) && RankingDefined(CleanRows(Labelled(tables)))
    ensures var ranking := RankingOf(CleanRows(Labelled(tables)));
            forall i :: 0 <= i < |tables| ==>
              multiset(StoresOf(ranking))[Label(i + 1)] == if |tables[i]| > 0 then 1 else 0
  {
    var rows := CleanRows(Labelled(tables));
    forall i | 0 <= i < |tables|
      ensures multiset(StoresOf(RankingOf(rows)))[Label(i + 1)] == if |tables[i]| > 0 then 1 else 0
    {
      LabelPresent(tables, i);
      RankingStoresOnce(rows, Label(i + 1));
    }
  }

  /** Every entry of the ranking of a batch of tables is labelled with a non-empty table's label. */
  lemma TablesRankingOrigin(tables: seq<seq<RawSale>>)
    requires PricesNonZero(Labelled(tables)) && RankingDefined(CleanRows(Labelled(tables)))
    ensures var ranking := RankingOf(CleanRows(Labelled(tables)));
            forall k :: 0 <= k < |ranking| ==>
              exists i :: 0 <= i < |tables| && |tables[i]| > 0 && ranking[k].row.store == Label(i + 1)
  {
    var rows := CleanRows(Labelled(tables));
    var ranking := RankingOf(rows);
    forall k | 0 <= k < |ranking|
      ensures exists i :: 0 <= i < |tables| && |tables[i]| > 0 && ranking[k].row.store == Label(i + 1)
    {
      var s := ranking[k].row.store;
      assert StoresOf(ranking)[k] == s;
      RankingStoresOnce(rows, s);
      var i := LabelOrigin(tables, s);
    }
  }

  /**
    The batch run: load the read tables, clean them and rank the stores.
    Every case the analysis leaves undefined is reported instead; otherwise
    the result is the ranking of the stores whose tables have rows, each
    listed once, sorted by score, with every score in [0, 1].
   */
  method AnalyzeStores(tables: seq<seq<RawSale>>) returns (result: Result<seq<Ranked>, Failure>)
    ensures result == Err(NoTables) <==> |tables| == 0
    ensures result == Err(NoRows) <==> |tables| > 0 && |Labelled(tables)| == 0
    ensures result == Err(ZeroPrice) <==> |Labelled(tables)| > 0 && !PricesNonZero(Labelled(tables))
    ensures result == Err(NoFiveStarRating) <==>
              |Labelled(tables)| > 0 && PricesNonZero(Labelled(tables))
              && !FiveStarEverywhere(CleanRows(Labelled(tables)))
    ensures result == Err(ZeroFirstMonth) <==>
              |Labelled(tables)| > 0 && PricesNonZero(Labelled(tables))
              && FiveStarEverywhere(CleanRows(Labelled(tables))) && !GrowthEverywhere(CleanRows(Labelled(tables)))
    ensures result == Err(FlatColumn) <==>
              |Labelled(tables)| > 0 && PricesNonZero(Labelled(tables))
              && FiveStarEverywhere(CleanRows(Labelled(tables))) && GrowthEverywhere(CleanRows(Labelled(tables)))
              && !Spread(BaseTable(CleanRows(Labelled(tables))))
    ensures result.Ok? <==> |Labelled(tables)| > 0 && PricesNonZero(Labelled(tables))
                            && RankingDefined(CleanRows(Labelled(tables)))
    ensures result.Ok? ==> result.value == RankingOf(CleanRows(Labelled(tables)))
    ensures result.Ok? ==> SortedByScore(result.value)
    ensures result.Ok? ==> forall k :: 0 <= k < |result.value| ==> 0.0 <= result.value[k].score <= 1.0
    ensures result.Ok? ==> forall i :: 0 <= i < |tables| ==>
              multiset(StoresOf(result.value))[Label(i + 1)] == if |tables[i]| > 0 then 1 else 0
    ensures result.Ok? ==> forall k :: 0 <= k < |result.value| ==>
              exists i :: 0 <= i < |tables| && |tables[i]| > 0 && result.value[k].row.store == Label(i + 1)
  {
    var loaded := Load(tables);
    if loaded.None? {
      return Err(NoTables);
    }
    if |loaded.value| == 0 {
      return Err(NoRows);
    }
    var f := new Frame(loaded.value);
    if !PricesNonZero(f.sales) {
      return Err(ZeroPrice);
    }
    CleanData(f);
    var rows := f.Rows();
    if !FiveStarEverywhere(rows) {
      return Err(NoFiveStarRating);
    }
    if !GrowthEverywhere(rows) {
      return Err(ZeroFirstMonth);
    }
    if !Spread(BaseTable(rows)) {
      return Err(FlatColumn);
    }
    var ranking := GenerateRanking(f);
    TablesRankingScores(tables);
    TablesRankingLabels(tables);
    TablesRankingOrigin(tables);
    return Ok(ranking);
  }
}
