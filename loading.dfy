/**
  Loading (`cargar_datos`): the rows of the i-th input table (counting from 1)
  are tagged with the label `Tienda i`, and the tagged tables are concatenated
  in input order. Reading the CSV files is not modelled: the tables arrive
  already read.
 */
module Loading {
  import opened Wrappers
  import opened Tables

  /** The character of a decimal digit. */
  function DigitChar(d: nat): char
    requires d < 10
  {
    (48 + d) as char
  }

  /** The value of a decimal digit character. */
  function DigitValue(c: char): nat
    requires '0' <= c <= '9'
  {
    c as nat - 48
  }

  /** The decimal numeral of `n` without leading zeros, as a Python f-string prints an int. */
  function Decimal(n: nat): (s: string)
    ensures |s| >= 1
    ensures forall k :: 0 <= k < |s| ==> '0' <= s[k] <= '9'
    ensures s[0] == '0' <==> n == 0
    ensures |s| > 1 ==> s[0] != '0'
    decreases n
  {
    if n < 10 then [DigitChar(n)] else Decimal(n / 10) + [DigitChar(n % 10)]
  }

  /** Reads a non-empty string of decimal digits back as a number. */
  function ParseDecimal(s: string): nat
    requires |s| >= 1
    requires forall k :: 0 <= k < |s| ==> '0' <= s[k] <= '9'
  {
    if |s| == 1 then DigitValue(s[0])
    else ParseDecimal(s[..|s| - 1]) * 10 + DigitValue(s[|s| - 1])
  }

  /** Reading a numeral back gives the number it was printed from. */
  lemma {:induction false} ParseDecimalOfDecimal(n: nat)
    ensures ParseDecimal(Decimal(n)) == n
    decreases n
  {
    if n >= 10 {
      var s := Decimal(n);
      assert s[..|s| - 1] == Decimal(n / 10);
      ParseDecimalOfDecimal(n / 10);
    }
  }

  /** The store label given to the i-th input table: `Tienda i`. */
  function Label(i: nat): string
  {
    "Tienda " + Decimal(i)
  }

  /** Different table positions get different labels. */
  lemma LabelInjective(i: nat, j: nat)
    ensures Label(i) == Label(j) <==> i == j
  {
    if Label(i) == Label(j) {
      assert Label(i)[7..] == Decimal(i);
      assert Label(j)[7..] == Decimal(j);
      ParseDecimalOfDecimal(i);
      ParseDecimalOfDecimal(j);
    }
  }

  /** A raw row with its `Tienda` column set. */
  function WithStore(r: RawSale, tag: string): Sale
  {
    Sale(tag, r.date, r.price, r.shipping, r.rating)
  }

  /** A whole table with its `Tienda` column set to `tag`. */
  function Tag(table: seq<RawSale>, tag: string): seq<Sale>
  {
    seq(|table|, j requires 0 <= j < |table| => WithStore(table[j], tag))
  }

  /** `pd.concat`: the tables one after the other. */
  function Concat(dfs: seq<seq<Sale>>): seq<Sale>
  {
    if |dfs| == 0 then [] else Concat(dfs[..|dfs| - 1]) + dfs[|dfs| - 1]
  }

  /** The loaded table: table i tagged `Tienda i` (from 1), in input order. */
  function Labelled(tables: seq<seq<RawSale>>): seq<Sale>
  {
    if |tables| == 0 then []
    else Labelled(tables[..|tables| - 1]) + Tag(tables[|tables| - 1], Label(|tables|))
  }

  /** The number of rows in all the tables together. */
  function TotalRows(tables: seq<seq<RawSale>>): nat
  {
    if |tables| == 0 then 0
    else TotalRows(tables[..|tables| - 1]) + |tables[|tables| - 1]|
  }

  /**
    `cargar_datos`, without the reads: builds the list of tagged tables in a
    loop and concatenates it. `pd.concat` of an empty list raises, so no
    table at all gives `None`.
   */
  method Load(tables: seq<seq<RawSale>>) returns (r: Option<seq<Sale>>)
    ensures r.None? <==> |tables| == 0
    ensures r.Some? ==> r.value == Labelled(tables)
  {
    var dfs: seq<seq<Sale>> := [];
    for i := 0 to |tables|
      invariant |dfs| == i
      invariant forall k :: 0 <= k < i ==> dfs[k] == Tag(tables[k], Label(k + 1))
      invariant Concat(dfs) == Labelled(tables[..i])
    {
      var df := Tag(tables[i], Label(i + 1));
      assert (dfs + [df])[..i] == dfs;
      assert tables[..i + 1][..i] == tables[..i];
      dfs := dfs + [df];
    }
    assert tables[..|tables|] == tables;
    if |dfs| == 0 {
      return None;
    }
    return Some(Concat(dfs));
  }

  /** A batch has no rows exactly when every table in it is empty. */
  lemma {:induction false} TotalRowsEmpty(tables: seq<seq<RawSale>>)
    ensures TotalRows(tables) == 0 <==> forall i :: 0 <= i < |tables| ==> |tables[i]| == 0
  {
    if |tables| > 0 {
      var init := tables[..|tables| - 1];
      TotalRowsEmpty(init);
      assert forall i :: 0 <= i < |init| ==> init[i] == tables[i];
    }
  }

  /** The loaded table has as many rows as the inputs together. */
  lemma {:induction false} LabelledLength(tables: seq<seq<RawSale>>)
    ensures |Labelled(tables)| == TotalRows(tables)
  {
    if |tables| > 0 {
      LabelledLength(tables[..|tables| - 1]);
    }
  }

  /**
    Row j of input table i lands at position TotalRows(tables[..i]) + j,
    labelled `Tienda i+1` and otherwise unchanged: tables keep their input
    order and rows their order within the table.
   */
  lemma {:induction false} LabelledAt(tables: seq<seq<RawSale>>, i: nat, j: nat)
    requires i < |tables| && j < |tables[i]|
    ensures TotalRows(tables[..i]) + j < |Labelled(tables)|
    ensures Labelled(tables)[TotalRows(tables[..i]) + j] == WithStore(tables[i][j], Label(i + 1))
  {
    var n := |tables|;
    var init := tables[..n - 1];
    LabelledLength(init);
    if i == n - 1 {
      assert tables[..i] == init;
    } else {
      assert init[..i] == tables[..i];
      LabelledAt(init, i, j);
    }
  }

  /**
    Every loaded row comes from some row j of some input table i, sits at the
    position `LabelledAt` gives it, and carries the label `Tienda i+1`.
   */
  lemma {:induction false} LabelledStore(tables: seq<seq<RawSale>>, k: nat) returns (i: nat, j: nat)
    requires k < |Labelled(tables)|
    ensures i < |tables| && j < |tables[i]|
    ensures k == TotalRows(tables[..i]) + j
    ensures Labelled(tables)[k] == WithStore(tables[i][j], Label(i + 1))
  {
    var n := |tables|;
    var init := tables[..n - 1];
    LabelledLength(init);
    if k < |Labelled(init)| {
      i, j := LabelledStore(init, k);
      assert init[..i] == tables[..i];
    } else {
      i, j := n - 1, k - |Labelled(init)|;
      assert tables[..i] == init;
    }
  }
}
