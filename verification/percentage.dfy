/** `np.round((volume_pivot / requirement_pivot) * 100, 2)`: the procured percentage,
    aligned on the union of both tables' row keys and columns. */
module Percentage {
  import opened Common
  import opened Clock
  import opened Efa
  import opened Rounding
  import opened Pivot

  /** A present cell of the percentage table: a finite value, or the infinity that floating
      point division gives for a zero requirement. A NaN cell is an absent one. */
  datatype Pct = Finite(value: real) | PosInf | NegInf

  /** One cell: the procured percentage rounded to two decimals. Dividing by a zero
      requirement gives an infinity of the volume's sign, and 0/0 gives NaN (no cell). */
  function Ratio(v: real, r: real): (c: Option<Pct>)
    ensures r != 0.0 <==> c.Some? && c.value.Finite?
    ensures r != 0.0 ==> -0.005 <= c.value.value - v / r * 100.0 <= 0.005
    ensures r == 0.0 ==> (c == Some(PosInf) <==> v > 0.0) && (c == Some(NegInf) <==> v < 0.0)
  {
    if r != 0.0 then Some(Finite(Round2(v / r * 100.0)))
    else if v > 0.0 then Some(PosInf)
    else if v < 0.0 then Some(NegInf)
    else None
  }

  function DivideCell(vol: Table<real>, req: Table<real>, k: RowKey, e: Period): Option<Pct>
  {
    match (Lookup(vol, k, e), Lookup(req, k, e))
    case (Some(v), Some(r)) => Ratio(v, r)
    case _ => None
  }

  function DivideRow(vol: Table<real>, req: Table<real>, k: RowKey): map<Period, Pct>
  {
    map e | e in vol.columns + req.columns && DivideCell(vol, req, k, e).Some? :: DivideCell(vol, req, k, e).value
  }

  /** The percentage table: rows and columns are the unions of both tables' (outer join). */
  function PercentTable(vol: Table<real>, req: Table<real>): Table<Pct>
  {
    Table(vol.columns + req.columns,
          map k | k in vol.cells.Keys + req.cells.Keys :: DivideRow(vol, req, k))
  }

  /** The rows of the percentage table are the union of the rows of the two tables: a row
      present on one side only is kept, not dropped. */
  lemma PercentRows(vol: Table<real>, req: Table<real>)
    ensures PercentTable(vol, req).cells.Keys == vol.cells.Keys + req.cells.Keys
  {
  }

  /** A cell is the rounded percentage when both the volume and the requirement are present
      and the requirement is not zero; it is missing when either side is missing. */
  lemma PercentCell(vol: Table<real>, req: Table<real>, k: RowKey, e: Period)
    requires WellFormed(vol) && WellFormed(req)
    ensures Lookup(vol, k, e).None? || Lookup(req, k, e).None? ==> Lookup(PercentTable(vol, req), k, e).None?
    ensures Lookup(vol, k, e).Some? && Lookup(req, k, e).Some? && Lookup(req, k, e).value != 0.0 ==>
            Lookup(PercentTable(vol, req), k, e) ==
            Some(Finite(Round2(Lookup(vol, k, e).value / Lookup(req, k, e).value * 100.0)))
  {
    var t := PercentTable(vol, req);
    if k in t.cells {
      assert t.cells[k] == DivideRow(vol, req, k);
    }
  }

  /** A row key present in only one of the two tables gives a row whose cells are all
      missing. */
  lemma OneSidedRowIsEmpty(vol: Table<real>, req: Table<real>, k: RowKey)
    requires (k in vol.cells) != (k in req.cells)
    ensures k in PercentTable(vol, req).cells && PercentTable(vol, req).cells[k] == map[]
  {
    var row := DivideRow(vol, req, k);
    forall e | e in vol.columns + req.columns ensures DivideCell(vol, req, k, e).None? {
    }
    assert row.Keys == {};
  }

  /** Worked example: volumes 50 and 30 against requirements 100 and 60 in periods 1 and 2
      are both 50 percent procured. */
  lemma {:induction false} HalfProcured(k: RowKey)
    ensures PercentTable(Table({1, 2}, map[k := map[1 := 50.0, 2 := 30.0]]),
                         Table({1, 2}, map[k := map[1 := 100.0, 2 := 60.0]])).cells ==
            map[k := map[1 := Finite(50.0), 2 := Finite(50.0)]]
  {
    RoundWhole(5000);
    var vol := Table({1, 2}, map[k := map[1 := 50.0, 2 := 30.0]]);
    var req := Table({1, 2}, map[k := map[1 := 100.0, 2 := 60.0]]);
    assert DivideCell(vol, req, k, 1) == Some(Finite(50.0));
    assert DivideCell(vol, req, k, 2) == Some(Finite(50.0));
    assert DivideRow(vol, req, k) == map[1 := Finite(50.0), 2 := Finite(50.0)];
  }
}
