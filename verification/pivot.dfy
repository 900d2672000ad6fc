/** `pd.pivot_table` over tagged rows: rows keyed by (date, product), one column per
    settlement period, one aggregated value per cell. A missing cell (NaN in the dense
    frame) is a period absent from that row's map. */
module Pivot {
  import opened Common
  import opened Clock
  import opened Efa
  import opened Columns
  import opened Records

  /** The (deliveryEnd date, auctionProduct) index of a pivot table. */
  datatype RowKey = RowKey(date: Instant, product: string)

  /** A pivoted table: its period columns and, per row key, the cells that hold a value. */
  datatype Table<V> = Table(columns: set<Period>, cells: map<RowKey, map<Period, V>>)

  /** Every cell sits in one of the table's columns. */
  predicate WellFormed<V>(t: Table<V>)
  {
    forall k | k in t.cells :: t.cells[k].Keys <= t.columns
  }

  /** How colliding rows are combined: `aggfunc=np.sum`, or pandas' default mean. */
  datatype Aggregation = Sum | Mean

  function KeyOf<M>(t: Tagged<M>): RowKey
  {
    RowKey(t.raw.index, t.raw.product)
  }

  /** The rows that land in cell (k, e): same row key, and period e. A row with no period
      lands in no cell (pandas drops NaN group keys). */
  function InCell<M>(k: RowKey, e: Period): Tagged<M> -> bool
  {
    (t: Tagged<M>) => KeyOf(t) == k && t.efa == Some(e)
  }

  function Matching<M(!new)>(ts: seq<Tagged<M>>, k: RowKey, e: Period): seq<Tagged<M>>
  {
    Where(ts, InCell(k, e))
  }

  function RowKeys<M>(ts: seq<Tagged<M>>): set<RowKey>
  {
    set i | 0 <= i < |ts| && ts[i].efa.Some? :: KeyOf(ts[i])
  }

  function PeriodsOf<M>(ts: seq<Tagged<M>>): set<Period>
  {
    set i | 0 <= i < |ts| && ts[i].efa.Some? :: ts[i].efa.value
  }

  function Aggregate<M>(g: seq<Tagged<M>>, value: M -> real, agg: Aggregation): real
    requires g != []
  {
    var total := Total(g, (t: Tagged<M>) => value(t.raw.metrics));
    match agg
    case Sum => total
    case Mean => total / |g| as real
  }

  /** `pd.pivot_table(df, index=[df.index, 'auctionProduct'], columns='EFA', values=v, aggfunc=agg)`. */
  function PivotTable<M(!new)>(ts: seq<Tagged<M>>, value: M -> real, agg: Aggregation): Table<real>
  {
    Table(PeriodsOf(ts), map k | k in RowKeys(ts) :: RowCells(ts, k, value, agg))
  }

  /** The cells of one row of the pivot table. */
  function RowCells<M(!new)>(ts: seq<Tagged<M>>, k: RowKey, value: M -> real, agg: Aggregation): map<Period, real>
  {
    map e | e in PeriodsOf(ts) && Matching(ts, k, e) != [] :: Aggregate(Matching(ts, k, e), value, agg)
  }

  /** The value in cell (k, e), or `None` where the dense frame holds NaN. */
  function Lookup<V>(t: Table<V>, k: RowKey, e: Period): Option<V>
  {
    if k in t.cells && e in t.cells[k] then Some(t.cells[k][e]) else None
  }

  /** The columns of a pivot table are the periods that occur, and every cell is in one. */
  lemma PivotWellFormed<M(!new)>(ts: seq<Tagged<M>>, value: M -> real, agg: Aggregation)
    ensures WellFormed(PivotTable(ts, value, agg))
  {
  }

  /** A cell holds a value exactly when some row has its key and period, and then it holds
      the aggregate of exactly those rows. */
  lemma PivotCell<M(!new)>(ts: seq<Tagged<M>>, value: M -> real, agg: Aggregation, k: RowKey, e: Period)
    ensures Lookup(PivotTable(ts, value, agg), k, e).Some? <==> Matching(ts, k, e) != []
    ensures Matching(ts, k, e) != [] ==>
            Lookup(PivotTable(ts, value, agg), k, e) == Some(Aggregate(Matching(ts, k, e), value, agg))
  {
    var t := PivotTable(ts, value, agg);
    if Matching(ts, k, e) != [] {
      MatchedIsObserved(ts, k, e);
      assert t.cells[k] == RowCells(ts, k, value, agg);
    } else if k in t.cells {
      assert t.cells[k] == RowCells(ts, k, value, agg);
    }
  }

  /** A row that lands in a cell makes its key a row and its period a column. */
  lemma MatchedIsObserved<M(!new)>(ts: seq<Tagged<M>>, k: RowKey, e: Period)
    requires Matching(ts, k, e) != []
    ensures k in RowKeys(ts) && e in PeriodsOf(ts)
  {
    var t := Matching(ts, k, e)[0];
    WhereMembers(ts, InCell(k, e), t);
    var i :| 0 <= i < |ts| && ts[i] == t;
  }

  /** The rows of the table are exactly the row keys observed on rows that have a period,
      and a cell holds a value exactly when some row has its key and period. */
  lemma PivotShape<M(!new)>(ts: seq<Tagged<M>>, value: M -> real, agg: Aggregation, k: RowKey, e: Period)
    ensures k in PivotTable(ts, value, agg).cells <==>
            exists i :: 0 <= i < |ts| && ts[i].efa.Some? && KeyOf(ts[i]) == k
    ensures Lookup(PivotTable(ts, value, agg), k, e).Some? <==>
            exists i :: 0 <= i < |ts| && ts[i].efa == Some(e) && KeyOf(ts[i]) == k
  {
    PivotCell(ts, value, agg, k, e);
    if exists i :: 0 <= i < |ts| && ts[i].efa == Some(e) && KeyOf(ts[i]) == k {
      var i :| 0 <= i < |ts| && ts[i].efa == Some(e) && KeyOf(ts[i]) == k;
      WhereMembers(ts, InCell(k, e), ts[i]);
    }
    if Matching(ts, k, e) != [] {
      var t := Matching(ts, k, e)[0];
      WhereMembers(ts, InCell(k, e), t);
      var i :| 0 <= i < |ts| && ts[i] == t;
    }
  }

  /** The value of a sum-pivot cell, a missing cell counting as nothing. */
  function SumOr(t: Table<real>, k: RowKey, e: Period): real
  {
    match Lookup(t, k, e)
    case Some(v) => v
    case None => 0.0
  }

  /** The requirement pivot sums: the table of two batches of rows is, cell by cell, the
      sum of the tables of the batches. */
  lemma SumCellsAdd<M(!new)>(a: seq<Tagged<M>>, b: seq<Tagged<M>>, value: M -> real, k: RowKey, e: Period)
    ensures SumOr(PivotTable(a + b, value, Sum), k, e) ==
            SumOr(PivotTable(a, value, Sum), k, e) + SumOr(PivotTable(b, value, Sum), k, e)
  {
    var f := (t: Tagged<M>) => value(t.raw.metrics);
    WhereConcat(a, b, InCell(k, e));
    assert Matching(a + b, k, e) == Matching(a, k, e) + Matching(b, k, e);
    TotalConcat(Matching(a, k, e), Matching(b, k, e), f);
    PivotCell(a, value, Sum, k, e);
    PivotCell(b, value, Sum, k, e);
    PivotCell(a + b, value, Sum, k, e);
  }

  /** When exactly one row has key k and period e, the cell is that row's value, whether the
      pivot sums or takes the mean. */
  lemma SingleRowCell<M(!new)>(ts: seq<Tagged<M>>, value: M -> real, agg: Aggregation, i: int)
    requires 0 <= i < |ts| && ts[i].efa.Some?
    requires forall j :: 0 <= j < |ts| && j != i ==> KeyOf(ts[j]) != KeyOf(ts[i]) || ts[j].efa != ts[i].efa
    ensures Lookup(PivotTable(ts, value, agg), KeyOf(ts[i]), ts[i].efa.value) == Some(value(ts[i].raw.metrics))
  {
    var k, e := KeyOf(ts[i]), ts[i].efa.value;
    WhereSingle(ts, InCell(k, e), i);
    AggregateSingle(ts[i], value, agg);
    PivotCell(ts, value, agg, k, e);
  }

  lemma AggregateSingle<M>(t: Tagged<M>, value: M -> real, agg: Aggregation)
    ensures Aggregate([t], value, agg) == value(t.raw.metrics)
  {
    var f := (x: Tagged<M>) => value(x.raw.metrics);
    assert Total([t], f) == f(t) + Total([], f);
  }

  /** Row keys and periods seen in `a` are seen in `b` when every row of `a` is a row of `b`. */
  lemma KeysFromRows<M>(a: seq<Tagged<M>>, b: seq<Tagged<M>>)
    requires forall i :: 0 <= i < |a| && a[i].efa.Some? ==> exists j :: 0 <= j < |b| && b[j] == a[i]
    ensures RowKeys(a) <= RowKeys(b) && PeriodsOf(a) <= PeriodsOf(b)
  {
    forall k | k in RowKeys(a) ensures k in RowKeys(b) {
      var i :| 0 <= i < |a| && a[i].efa.Some? && KeyOf(a[i]) == k;
      var j :| 0 <= j < |b| && b[j] == a[i];
    }
    forall p | p in PeriodsOf(a) ensures p in PeriodsOf(b) {
      var i :| 0 <= i < |a| && a[i].efa.Some? && a[i].efa.value == p;
      var j :| 0 <= j < |b| && b[j] == a[i];
    }
  }

  /** Two inputs with the same observed keys and the same rows in every cell pivot alike. */
  lemma SameCellsSameTable<M(!new)>(a: seq<Tagged<M>>, b: seq<Tagged<M>>, value: M -> real, agg: Aggregation)
    requires RowKeys(a) == RowKeys(b) && PeriodsOf(a) == PeriodsOf(b)
    requires forall k: RowKey, e: Period :: Matching(a, k, e) != [] <==> Matching(b, k, e) != []
    requires forall k: RowKey, e: Period :: Matching(a, k, e) != [] ==>
               Aggregate(Matching(a, k, e), value, agg) == Aggregate(Matching(b, k, e), value, agg)
    ensures PivotTable(a, value, agg) == PivotTable(b, value, agg)
  {
    forall k | k in RowKeys(a) ensures RowCells(a, k, value, agg) == RowCells(b, k, value, agg) {
    }
  }

  /** Rows without a period contribute to no cell: appending them changes nothing. */
  lemma IgnoresUnmapped<M(!new)>(ts: seq<Tagged<M>>, us: seq<Tagged<M>>, value: M -> real, agg: Aggregation)
    requires forall j :: 0 <= j < |us| ==> us[j].efa.None?
    ensures PivotTable(ts + us, value, agg) == PivotTable(ts, value, agg)
  {
    forall i | 0 <= i < |ts + us| && (ts + us)[i].efa.Some?
      ensures exists j :: 0 <= j < |ts| && ts[j] == (ts + us)[i]
    {
      assert (ts + us)[i] == ts[i];
    }
    forall i | 0 <= i < |ts| ensures exists j :: 0 <= j < |ts + us| && (ts + us)[j] == ts[i] {
      assert (ts + us)[i] == ts[i];
    }
    KeysFromRows(ts + us, ts);
    KeysFromRows(ts, ts + us);
    forall k: RowKey, e: Period ensures Matching(ts + us, k, e) == Matching(ts, k, e) {
      WhereConcat(ts, us, InCell(k, e));
      WhereDropsAll(us, InCell(k, e));
      assert Matching(ts, k, e) + [] == Matching(ts, k, e);
    }
    SameCellsSameTable(ts + us, ts, value, agg);
  }

  /** Shuffling the input rows gives the identical table. */
  lemma OrderIndependent<M(!new)>(a: seq<Tagged<M>>, b: seq<Tagged<M>>, value: M -> real, agg: Aggregation)
    requires multiset(a) == multiset(b)
    ensures PivotTable(a, value, agg) == PivotTable(b, value, agg)
  {
    PermutedKeys(a, b);
    PermutedKeys(b, a);
    forall k: RowKey, e: Period
      ensures Matching(a, k, e) != [] <==> Matching(b, k, e) != []
      ensures Matching(a, k, e) != [] ==>
              Aggregate(Matching(a, k, e), value, agg) == Aggregate(Matching(b, k, e), value, agg)
    {
      PermutedCell(a, b, value, agg, k, e);
    }
    SameCellsSameTable(a, b, value, agg);
  }

  lemma PermutedKeys<M>(a: seq<Tagged<M>>, b: seq<Tagged<M>>)
    requires multiset(a) == multiset(b)
    ensures RowKeys(a) <= RowKeys(b) && PeriodsOf(a) <= PeriodsOf(b)
  {
    forall i | 0 <= i < |a| && a[i].efa.Some? ensures exists j :: 0 <= j < |b| && b[j] == a[i] {
      assert a[i] in multiset(b);
    }
    KeysFromRows(a, b);
  }

  lemma PermutedCell<M(!new)>(a: seq<Tagged<M>>, b: seq<Tagged<M>>, value: M -> real, agg: Aggregation, k: RowKey, e: Period)
    requires multiset(a) == multiset(b)
    ensures Matching(a, k, e) != [] <==> Matching(b, k, e) != []
    ensures Matching(a, k, e) != [] ==>
            Aggregate(Matching(a, k, e), value, agg) == Aggregate(Matching(b, k, e), value, agg)
  {
    var ma, mb := Matching(a, k, e), Matching(b, k, e);
    WherePermutation(a, b, InCell(k, e));
    assert multiset(ma) == multiset(mb);
    assert |ma| == |multiset(ma)| == |multiset(mb)| == |mb|;
    TotalPermutation(ma, mb, (t: Tagged<M>) => value(t.raw.metrics));
  }
}
