# Store ranking of the Alura store analysis, in Dafny

This project models the store-ranking pipeline of `src/funciones_analisis.py`. That script loads the sales tables of several stores and labels each row with its store. It then derives each sale's total and shipping share, and aggregates per-store metrics: revenue, average sale, average rating, share of five-star ratings and shipping efficiency. It also computes each store's growth from its first to its last month of sales. Finally it min-max normalises every metric column, blends the columns into a weighted final score (`Puntaje_Final`) and sorts the stores by it, highest first.

All amounts are exact reals (`real`). The data frame that the stages add columns to is the class `Tables.Frame`, with one field per column group:
- `Cleaning.CleanData` assigns `Total Venta` and `Porcentaje_Envio` in place.
- `Growth.CalcGrowth` assigns `Año_Mes` in place.

Every stage has a specification function, and the lemmas are stated over those functions. `Ranking.AnalyzeStores` composes the whole batch run. Where the script would divide by zero, get NaN or raise, it returns an explicit `Failure` instead.

Modules, in pipeline order:
- `Wrappers`: the `Option` and `Result` types.
- `Tables`: the dates, months and the three row records. The record grows from the raw CSV row, to the labelled sale, to the cleaned row. Also the `Frame` class.
- `Loading` (`cargar_datos`): the store labels `"Tienda i"` and the loop that tags each table and concatenates them.
- `Cleaning` (`limpiar_datos`): the two derived columns.
- `Metrics` (`calcular_metricas_tienda`): the group-by, sums and means, and the metrics table.
- `Growth` (`calcular_crecimiento`, `calcular_tasa`): the monthly buckets and the first-to-last growth rate.
- `Ranking` (`generar_ranking`): the join with growth, the normalisation loop, the score, the sort, and the batch run.

Three facts about the source shape the model:
- Stores are labelled `Tienda i`, from the f-string `f'Tienda {i}'` at src/funciones_analisis.py:19, with `i` counting the tables from 1.
- A store whose sales all fall in one month gets growth 0 (`Growth.SingleMonthGrowth`). Its `iloc[0]` and `iloc[-1]` at line 80 are then the same monthly bucket.
- The stages change the caller's data frame in place: `df['Total Venta'] = ...` and `df['Porcentaje_Envio'] = ...` at lines 36 and 39, `df['Año_Mes'] = ...` at line 76. They do not return new tables.

## Model

| member | source | states |
|---|---|---|
| Loading.Load | src/funciones_analisis.py:16-21 | No tables gives `None` (`pd.concat([])` raises); otherwise the result is the concatenation, in input order, of every table with its rows labelled `"Tienda i"` (1-based) |
| Loading.Label | src/funciones_analisis.py:19 | Reference definition of the label `Tienda i`; its properties are in LabelInjective and ParseDecimalOfDecimal |
| Loading.Labelled | src/funciones_analisis.py:16-21 | Reference definition of the loaded table; its properties are in LabelledLength, LabelledAt and LabelledStore |
| Loading.Tag | src/funciones_analisis.py:19 | Reference definition of one table with its `Tienda` column set; its properties are in LabelledAt and GroupOfTag |
| Loading.Concat | src/funciones_analisis.py:21 | Reference definition of `pd.concat`; the invariant of Load ties the loop's concatenation to Labelled |
| Loading.LabelInjective | src/funciones_analisis.py:17-19 | Two tables get the same label exactly when they have the same position |
| Loading.ParseDecimalOfDecimal | src/funciones_analisis.py:19 | The number in a label reads back as the table's position |
| Loading.Decimal | src/funciones_analisis.py:19 | The number in a label is a non-empty string of decimal digits without leading zeros; it starts with `0` only for 0 |
| Loading.TotalRowsEmpty | src/funciones_analisis.py:16-21 | A batch has no rows exactly when every one of its tables is empty |
| Loading.LabelledLength | src/funciones_analisis.py:21 | The loaded table has as many rows as all inputs together |
| Loading.LabelledAt | src/funciones_analisis.py:17-21 | Row `j` of table `i` is at index (rows of tables before `i`) + `j`, with its fields kept and label `"Tienda i+1"` |
| Loading.LabelledStore | src/funciones_analisis.py:17-21 | Conversely, every loaded row is some row `j` of some table `i`, at that index and with that label |
| Cleaning.CleanRow | src/funciones_analisis.py:36-39 | A cleaned row keeps the loaded fields; its total minus price is the shipping cost; its shipping percentage times price is 100 times shipping; the percentage is non-negative for a positive price and non-negative shipping |
| Cleaning.CleanRows | src/funciones_analisis.py:36-39 | Reference definition of the cleaned table, every row cleaned in order; its properties are in CleanRow, CleanRowsAppend and CleanData |
| Cleaning.CleanData | src/funciones_analisis.py:36-41 | Given non-zero prices, it assigns both derived columns in place, one value per row. The loaded columns and the month column are unchanged, and the frame's rows are the cleaned rows |
| Cleaning.CleanRowsAppend | src/funciones_analisis.py:36-39 | The derived columns are computed row by row, so cleaning distributes over concatenation |
| Metrics.GroupMembers | src/funciones_analisis.py:55 | A store's group holds exactly the table rows with that label, and is no longer than the table |
| Metrics.Group | src/funciones_analisis.py:55 | Reference definition of one store's group; its properties are in GroupMembers and GroupAppend |
| Metrics.GroupAppend | src/funciones_analisis.py:55 | Grouping distributes over concatenation of tables |
| Metrics.StoresDistinct | src/funciones_analisis.py:52 | The store index has no duplicates |
| Metrics.StoresCover | src/funciones_analisis.py:52 | Every row's label is in the store index |
| Metrics.StoresOrigin | src/funciones_analisis.py:52 | Every label in the store index is some row's label |
| Metrics.StoresMembers | src/funciones_analisis.py:52 | The store index is duplicate-free and holds exactly the rows' labels |
| Metrics.Stores | src/funciones_analisis.py:52 | Reference definition of the store index in first-appearance order; its properties are in StoresDistinct, StoresCover and StoresOrigin |
| Metrics.StoreHasRows | src/funciones_analisis.py:52-56 | A store in the index has a non-empty group, so its means are defined |
| Metrics.Sum | src/funciones_analisis.py:55-63 | Reference definition of `.sum()`; its properties are in MeanTimesCount, RevenueOverCovering and RevenuePartition |
| Metrics.Mean | src/funciones_analisis.py:56-63 | Reference definition of `.mean()`; its properties are in MeanTimesCount, AverageSale, AverageRating and AverageRatingBounds |
| Metrics.Revenue | src/funciones_analisis.py:55 | Reference definition of `Ingresos_Totales`; its properties are in RevenueOverSnoc, RevenuePartition and MetricsTableEntry |
| Metrics.AverageSale | src/funciones_analisis.py:56 | `Promedio_Venta` times the store's row count is the store's revenue |
| Metrics.AverageRating | src/funciones_analisis.py:59 | `Calificacion_Promedio` times the row count is the sum of the store's ratings |
| Metrics.AverageRatingBounds | src/funciones_analisis.py:59 | With ratings from 1 to 5, the average rating lies in [1, 5] |
| Metrics.GroupFiveStarRows | src/funciones_analisis.py:60 | Filtering the five-star rows and grouping by store commute |
| Metrics.FiveStarRows | src/funciones_analisis.py:60 | Reference definition of the five-star filter; its properties are in FiveStarRowsMembers and GroupFiveStarRows |
| Metrics.FiveStarRowsMembers | src/funciones_analisis.py:60 | The five-star rows are exactly the rows rated 5 |
| Metrics.FiveStarPercent | src/funciones_analisis.py:60 | Missing (the source's NaN) exactly when the store has no five-star row. Otherwise in (0, 100], and times the row count equals 100 times the five-star count |
| Metrics.FiveStarPercentMissing | src/funciones_analisis.py:60 | The percentage is missing exactly when none of the store's rows is rated 5 |
| Metrics.ShippingEfficiency | src/funciones_analisis.py:63 | 100 minus `Eficiencia_Envio`, times the row count, is the sum of the store's shipping percentages |
| Metrics.MetricsOf | src/funciones_analisis.py:55-63 | Reference definition of one store's metrics row; its properties are in MetricsTableEntry |
| Metrics.MetricsTable | src/funciones_analisis.py:52-65 | Reference definition of the metrics table; its properties are in MetricsTableOnce and MetricsTableEntry, and CalcStoreMetrics computes it |
| Metrics.MetricsTableOnce | src/funciones_analisis.py:52-65 | A label has exactly one row in the metrics table if some sale carries it, and none otherwise |
| Metrics.MetricsTableEntry | src/funciones_analisis.py:55-63 | Each metrics row belongs to a store with sales. Its revenue is the sum of the store's `Total Venta`, and average sale times row count is that revenue. Average rating times row count is the sum of ratings. The five-star share is missing exactly when no row is rated 5, and otherwise times the row count is 100 times the five-star count. 100 minus efficiency, times the row count, is the sum of shipping percentages |
| Metrics.CalcStoreMetrics | src/funciones_analisis.py:52-65 | Filling the table column by column gives exactly the metrics table |
| Metrics.RevenueOverSnoc | src/funciones_analisis.py:55 | Adding a row adds its total to the revenue of the stores it belongs to |
| Metrics.RevenueOverCovering | src/funciones_analisis.py:55 | Over a duplicate-free list of stores covering every row, the revenues add up to the table's total |
| Metrics.RevenuePartition | src/funciones_analisis.py:52-55 | The stores' revenues add up to the sum of all `Total Venta` values |
| Growth.InsertMonths | src/funciones_analisis.py:77 | Adding a sale adds its month to the bucket months |
| Growth.InsertChronological | src/funciones_analisis.py:77 | Adding a sale keeps the buckets in strictly increasing month order |
| Growth.InsertLookup | src/funciones_analisis.py:77 | Adding a sale adds its amount to its month's total and changes no other month |
| Growth.Insert | src/funciones_analisis.py:77 | Reference definition of adding one sale to the monthly buckets; its properties are in InsertMonths, InsertChronological and InsertLookup |
| Growth.MonthlySales | src/funciones_analisis.py:77 | Reference definition of the monthly `groupby(...).sum()`; its properties are in MonthlySalesFacts |
| Growth.MonthlySalesFacts | src/funciones_analisis.py:77 | The monthly buckets are chronological, exist for exactly the months with sales, and hold each month's summed `Total Venta` |
| Growth.LookupChronological | src/funciones_analisis.py:77 | In chronological buckets, a bucket holds its month's whole total |
| Growth.FirstBucketEarliest | src/funciones_analisis.py:77-80 | No bucket month precedes the first bucket |
| Growth.LastBucketLatest | src/funciones_analisis.py:77-80 | No bucket month follows the last bucket |
| Growth.GrowthEndpoints | src/funciones_analisis.py:77-82 | A store's first bucket is its earliest month with sales and its last bucket its latest. Months without sales have no bucket |
| Growth.GrowthFromMonthTotals | src/funciones_analisis.py:79-82 | Growth is (latest month total − earliest month total) / earliest month total × 100, with a non-zero earliest total |
| Growth.Rate | src/funciones_analisis.py:79-80 | Reference definition of `calcular_tasa` on the monthly buckets; its properties are in GrowthFromMonthTotals and SingleMonthGrowth |
| Growth.GrowthRate | src/funciones_analisis.py:79-82 | Reference definition of one store's growth, defined exactly when its first month totals non-zero; its properties are in GrowthEndpoints and GrowthFromMonthTotals |
| Growth.SingleMonthGrowth | src/funciones_analisis.py:79-80 | A store whose sales all fall in one month has growth 0 |
| Growth.MonthColumn | src/funciones_analisis.py:76 | Reference definition of the `Año_Mes` column; CalcGrowth stores it in the frame |
| Growth.CalcGrowth | src/funciones_analisis.py:76-82 | Adds the month column to the frame in place and leaves the other columns unchanged. Returns each store's growth, keyed by exactly the store labels |
| Ranking.ColumnBounds | src/funciones_analisis.py:101 | Every value of a column lies between its `min()` and its `max()` |
| Ranking.ColumnExtremesAttained | src/funciones_analisis.py:101 | A column's `min()` and `max()` are values of that column |
| Ranking.ColumnBoundsAgree | src/funciones_analisis.py:100-101 | Tables agreeing on a column have the same min and max in it, so normalising earlier columns does not change later ones |
| Ranking.ColumnMin | src/funciones_analisis.py:101 | Reference definition of a column's `min()`; its properties are in ColumnBounds, ColumnExtremesAttained and ColumnBoundsAgree |
| Ranking.ColumnMax | src/funciones_analisis.py:101 | Reference definition of a column's `max()`; its properties are in ColumnBounds, ColumnExtremesAttained and ColumnBoundsAgree |
| Ranking.Normalize | src/funciones_analisis.py:101 | A value between min and max maps into [0, 1]; the min maps to 0 and the max to 1 |
| Ranking.NormalizeMonotone | src/funciones_analisis.py:101 | Normalisation preserves and reflects the order of values |
| Ranking.NormalizedTable | src/funciones_analisis.py:100-101 | Reference definition of the normalised table; its properties are in NormalizedInUnit, NormalizedExtremes, NormalizedOrder and NormalizedColumnRange, and NormalizeColumns computes it |
| Ranking.NormalizeColumns | src/funciones_analisis.py:100-101 | The loop over the columns, each min-max normalised as it stands, yields exactly the table with every cell normalised within its original column |
| Ranking.NormalizedInUnit | src/funciones_analisis.py:100-101 | Every normalised value lies in [0, 1] |
| Ranking.NormalizedExtremes | src/funciones_analisis.py:101 | A store holding a column's min gets 0 in it, and one holding its max gets 1 |
| Ranking.NormalizedOrder | src/funciones_analisis.py:101 | Within every column, the normalised stores keep their order in both directions |
| Ranking.NormalizedColumnRange | src/funciones_analisis.py:100-101 | After normalisation every column's min is 0 and its max is 1 |
| Ranking.Score | src/funciones_analisis.py:104-109 | With all six inputs in [0, 1], `Puntaje_Final` lies in [0, 1] |
| Ranking.ScoreOfUniformRow | src/funciones_analisis.py:104-109 | The weights sum to 1: a row with every column equal to `x` scores `x` |
| Ranking.ScoreMonotone | src/funciones_analisis.py:104-109 | A store at least as good in every column scores at least as high |
| Ranking.WithScores | src/funciones_analisis.py:104-109 | Reference definition of the `Puntaje_Final` column; its properties are in ScoredInUnit and ScoredStores |
| Ranking.InsertByScore | src/funciones_analisis.py:111 | Inserting an entry adds exactly that entry to the multiset |
| Ranking.InsertByScoreSorted | src/funciones_analisis.py:111 | Inserting into a list sorted by score keeps it sorted |
| Ranking.SortByScore | src/funciones_analisis.py:111 | The result is non-increasing by score and a permutation of its input |
| Ranking.JoinGrowth | src/funciones_analisis.py:97 | Reference definition of the join of the metrics with growth; its properties are in BaseTable and ScoredStores |
| Ranking.GrowthMap | src/funciones_analisis.py:82 | Reference definition of what `calcular_crecimiento` returns; CalcGrowth returns it, keyed by exactly the stores |
| Ranking.BaseTable | src/funciones_analisis.py:94-97 | Reference definition of the ranking table, with as many rows as stores; BaseTableRow gives row `i` the `i`-th store's five metrics and growth, and ScoredStores keeps the stores in index order |
| Ranking.RankingOf | src/funciones_analisis.py:94-111 | Reference definition of the ranking; its properties are in RankingInUnit, RankingStoresOnce and StoresOfPermutation, and GenerateRanking computes it |
| Ranking.GenerateRanking | src/funciones_analisis.py:94-111 | Adds the month column to the frame in place and leaves the other columns unchanged. Returns exactly the specified ranking: metrics joined with growth, normalised, scored, sorted |
| Ranking.StoresOfPermutation | src/funciones_analisis.py:111 | Permuting the ranking rows permutes their store labels |
| Ranking.ScoredInUnit | src/funciones_analisis.py:100-109 | Every scored normalised row has its columns and its score in [0, 1] |
| Ranking.RankingInUnit | src/funciones_analisis.py:100-111 | Every ranking entry has its columns and its score in [0, 1] |
| Ranking.ScoredStores | src/funciones_analisis.py:94-109 | Before sorting, the scored table lists the stores in index order |
| Ranking.RankingStoresOnce | src/funciones_analisis.py:94-111 | Every store appears in the ranking exactly once, and no other label appears |
| Ranking.LabelPresent | src/funciones_analisis.py:16-21 | The label of table `i` is a store of the cleaned table exactly when that table has rows |
| Ranking.LabelOrigin | src/funciones_analisis.py:16-21 | Every store of the cleaned table is the label of a non-empty table |
| Ranking.GroupOfTag | src/funciones_analisis.py:17-19 | The cleaned rows of a tagged table, grouped by a store, are all of them if the store is the tag and none otherwise |
| Ranking.CleanLabelledSnoc | src/funciones_analisis.py:16-21 | The cleaned batch is the cleaned earlier tables followed by the cleaned last table |
| Ranking.GroupBeyond | src/funciones_analisis.py:17-19 | No cleaned row carries the label of a position beyond the number of tables |
| Ranking.GroupOfLabelled | src/funciones_analisis.py:16-55 | The group of `Tienda i+1` is exactly table `i`, cleaned, in order |
| Ranking.TableRevenue | src/funciones_analisis.py:16-55 | The revenue of `Tienda i+1` is the summed price plus shipping of table `i`, and its group has that table's row count |
| Ranking.TablesRankingScores | src/funciones_analisis.py:104-111 | All final scores of a batch lie in [0, 1] |
| Ranking.TablesRankingLabels | src/funciones_analisis.py:16-21 | In a batch's ranking, each non-empty table's label appears once and each empty table's label does not appear |
| Ranking.TablesRankingOrigin | src/funciones_analisis.py:16-21 | Every ranking entry carries a non-empty table's label |
| Ranking.AnalyzeStores | src/funciones_analisis.py:7-111 | Each failure comes back exactly when the script fails at that step, checked in order: no tables `NoTables`, tables without any row `NoRows`, a zero price `ZeroPrice`, a store without five-star ratings `NoFiveStarRating`, a zero first-month total `ZeroFirstMonth`, a column whose min equals its max `FlatColumn`. Success exactly when every step is defined, and the result is then the specified ranking: sorted highest first, scores in [0, 1], the label of every non-empty table once and no other label |

## Left out

- Reading the CSV files (`pd.read_csv`) is I/O. The loader takes each table as an already-read sequence of rows, and the file list is not modelled.
- Parsing the purchase dates with `format='%d/%m/%Y'` is a library call. Dates arrive parsed as (year, month, day), and a malformed date is not modelled.
- Columns the ranking never reads, such as product category and installments, are not part of the row records.
- The plotting functions (`configurar_visualizacion`, every `graficar_*`) and `fix_scatter_plot.py` only draw charts and write images. They are not part of this model.
- IEEE floating point, with its rounding, infinities, NaN and NaN ordering in the sort, is left out: the model computes in exact reals. Each case where the script would produce an infinity or a NaN gets a precondition on the stage, or a `Failure` in `Ranking.AnalyzeStores`:
  - a batch without any row, where the empty growth result cannot be assigned to a column;
  - a zero price;
  - a store without five-star ratings;
  - a zero first-month total;
  - a column whose min equals its max.
- Ranking.SortByScore: the order among stores with equal scores is not stated. `sort_values` does not promise a stable order, so only the non-increasing order and the permutation are proved.
- Growth.CalcGrowth: the month column it stores in the frame is not what the buckets read. The buckets take the month of each row's date directly, which gives the same value.
- Metrics.CalcStoreMetrics: the empty metrics table starts with placeholder zero values where pandas has no column yet. Every placeholder is overwritten before the table is returned.
- The `Puntaje_Final` column is represented by pairing each row with its score (`Ranking.Ranked`), not by a seventh column of the table.
