/** `reset_index()`: a pivot table becomes a row-oriented frame whose first two columns are
    the delivery date and the product, followed by one column per period. */
module Flatten {
  import opened Clock
  import opened Efa
  import opened Pivot
  import opened Ordering

  datatype Column = DeliveryEnd | AuctionProduct | PeriodColumn(period: Period)

  /** One flattened row: its index values as leading columns and its period cells. */
  datatype FlatRow<V> = FlatRow(deliveryEnd: Instant, auctionProduct: string, cells: map<Period, V>)

  datatype Frame<V> = Frame(header: seq<Column>, rows: seq<FlatRow<V>>)

  function RowKeyOf<V>(r: FlatRow<V>): RowKey
  {
    RowKey(r.deliveryEnd, r.auctionProduct)
  }

  /** The period columns of `cs` from period `from` on, in ascending order. */
  function PeriodHeader(cs: set<Period>, from: int): (h: seq<Column>)
    requires 1 <= from <= 7
    ensures forall i :: 0 <= i < |h| ==> h[i].PeriodColumn? && from <= h[i].period && h[i].period in cs
    ensures forall i, j :: 0 <= i < j < |h| ==> h[i].period < h[j].period
    ensures forall p: Period :: p in cs && from <= p ==> PeriodColumn(p) in h
    decreases 7 - from
  {
    if from == 7 then []
    else (if from in cs then [PeriodColumn(from)] else []) + PeriodHeader(cs, from + 1)
  }

  /** The rows of a table in index order: each row key once, ascending, with its cells
      unchanged. */
  ghost function OrderedRows<V>(cells: map<RowKey, map<Period, V>>): (rows: seq<FlatRow<V>>)
    ensures |rows| == |cells|
    ensures forall i :: 0 <= i < |rows| ==>
              RowKeyOf(rows[i]) in cells && rows[i].cells == cells[RowKeyOf(rows[i])]
    ensures forall k :: k in cells ==> exists i :: 0 <= i < |rows| && RowKeyOf(rows[i]) == k
    ensures forall i, j :: 0 <= i < j < |rows| ==> KeyBelow(RowKeyOf(rows[i]), RowKeyOf(rows[j]))
    decreases |cells|
  {
    if |cells| == 0 then []
    else
      var k := Least(cells.Keys);
      var rest := cells - {k};
      assert rest.Keys == cells.Keys - {k};
      var tail := OrderedRows(rest);
      LeastFirst(cells, k, tail);
      [FlatRow(k.date, k.product, cells[k])] + tail
  }

  /** Putting the least key in front of the ordered rows of the others orders them all. */
  lemma {:induction false} LeastFirst<V>(cells: map<RowKey, map<Period, V>>, k: RowKey, tail: seq<FlatRow<V>>)
    requires k in cells.Keys && forall k' :: k' in cells.Keys && k' != k ==> KeyBelow(k, k')
    requires var rest := cells - {k};
      && (forall i :: 0 <= i < |tail| ==>
            RowKeyOf(tail[i]) in rest && tail[i].cells == rest[RowKeyOf(tail[i])])
      && (forall k' :: k' in rest ==> exists i :: 0 <= i < |tail| && RowKeyOf(tail[i]) == k')
      && (forall i, j :: 0 <= i < j < |tail| ==> KeyBelow(RowKeyOf(tail[i]), RowKeyOf(tail[j])))
    ensures var rows := [FlatRow(k.date, k.product, cells[k])] + tail;
      && (forall i :: 0 <= i < |rows| ==> RowKeyOf(rows[i]) in cells && rows[i].cells == cells[RowKeyOf(rows[i])])
      && (forall k' :: k' in cells ==> exists i :: 0 <= i < |rows| && RowKeyOf(rows[i]) == k')
      && (forall i, j :: 0 <= i < j < |rows| ==> KeyBelow(RowKeyOf(rows[i]), RowKeyOf(rows[j])))
  {
    var rest := cells - {k};
    var rows := [FlatRow(k.date, k.product, cells[k])] + tail;
    forall i | 0 <= i < |rows| ensures RowKeyOf(rows[i]) in cells && rows[i].cells == cells[RowKeyOf(rows[i])] {
      if i > 0 {
        assert rows[i] == tail[i - 1];
        assert RowKeyOf(tail[i - 1]) in rest;
      }
    }
    forall k' | k' in cells ensures exists i :: 0 <= i < |rows| && RowKeyOf(rows[i]) == k' {
      if k' == k {
        assert RowKeyOf(rows[0]) == k;
      } else {
        assert k' in rest;
        var i :| 0 <= i < |tail| && RowKeyOf(tail[i]) == k';
        assert RowKeyOf(rows[i + 1]) == k';
      }
    }
    forall i, j | 0 <= i < j < |rows| ensures KeyBelow(RowKeyOf(rows[i]), RowKeyOf(rows[j])) {
      assert rows[j] == tail[j - 1];
      assert RowKeyOf(tail[j - 1]) in rest;
      if i > 0 {
        assert rows[i] == tail[i - 1];
      }
    }
  }

  /** `table.reset_index()`. */
  ghost function ResetIndex<V>(t: Table<V>): Frame<V>
  {
    Frame([DeliveryEnd, AuctionProduct] + PeriodHeader(t.columns, 1), OrderedRows(t.cells))
  }

  /** `list(frame.columns[2:])`: the period columns offered by the EFA filter. */
  function EfaOptions<V>(f: Frame<V>): seq<Column>
  {
    if |f.header| < 2 then [] else f.header[2..]
  }

  /** After flattening, the first two columns are the date and the product, and the EFA
      options are exactly the table's periods, each once, in ascending order. */
  lemma FlatHeader<V>(t: Table<V>)
    ensures ResetIndex(t).header[0] == DeliveryEnd && ResetIndex(t).header[1] == AuctionProduct
    ensures forall c :: c in EfaOptions(ResetIndex(t)) <==> c.PeriodColumn? && c.period in t.columns
    ensures forall i, j :: 0 <= i < j < |EfaOptions(ResetIndex(t))| ==>
              EfaOptions(ResetIndex(t))[i].period < EfaOptions(ResetIndex(t))[j].period
  {
    var h := PeriodHeader(t.columns, 1);
    assert EfaOptions(ResetIndex(t)) == h;
    forall c | c in h ensures c.PeriodColumn? && c.period in t.columns {
      var i :| 0 <= i < |h| && h[i] == c;
    }
  }

  /** Flattening keeps every value: a row key of the table has exactly one flattened row,
      and that row carries the table's cells for it. */
  lemma FlatRowsExact<V>(t: Table<V>, k: RowKey)
    ensures k in t.cells <==> exists i :: 0 <= i < |ResetIndex(t).rows| && RowKeyOf(ResetIndex(t).rows[i]) == k
    ensures forall i, j ::
              (0 <= i < |ResetIndex(t).rows| && 0 <= j < |ResetIndex(t).rows| &&
               RowKeyOf(ResetIndex(t).rows[i]) == RowKeyOf(ResetIndex(t).rows[j])) ==> i == j
    ensures forall i :: 0 <= i < |ResetIndex(t).rows| && RowKeyOf(ResetIndex(t).rows[i]) == k ==>
              ResetIndex(t).rows[i].cells == t.cells[k]
  {
    var rows := ResetIndex(t).rows;
    forall i, j | 0 <= i < |rows| && 0 <= j < |rows| && RowKeyOf(rows[i]) == RowKeyOf(rows[j])
      ensures i == j
    {
      if i < j || j < i {
        KeyOrder(RowKeyOf(rows[i]), RowKeyOf(rows[j]), RowKeyOf(rows[j]));
      }
    }
  }

  /** Every cell of the table can be read back from the flattened frame, in the one row that
      carries its key. */
  lemma CellInFrame<V>(t: Table<V>, k: RowKey, e: Period)
    requires Lookup(t, k, e).Some?
    ensures exists n :: 0 <= n < |ResetIndex(t).rows| && RowKeyOf(ResetIndex(t).rows[n]) == k &&
              e in ResetIndex(t).rows[n].cells && ResetIndex(t).rows[n].cells[e] == Lookup(t, k, e).value
  {
    FlatRowsExact(t, k);
    var rows := ResetIndex(t).rows;
    var n :| 0 <= n < |rows| && RowKeyOf(rows[n]) == k;
    assert rows[n].cells == t.cells[k];
  }
}
