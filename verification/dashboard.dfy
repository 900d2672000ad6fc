/** The dashboard's rules over the three saved frames: the option lists, the default date
    window, the product and date row filter, the summary loop, the in-place rounding of the
    selected period columns and the two cell colour rules. */
module Dashboard {
  import opened Common
  import opened Clock
  import opened Efa
  import opened Columns
  import opened Rounding
  import opened Pivot
  import opened Percentage
  import opened Flatten

  // ---------------------------------------------------------------------------------------
  // Options

  /** `frame['auctionProduct'].unique()`: each product of the frame once, in order of first
      appearance. */
  function ProductOptions<V>(rows: seq<FlatRow<V>>): (r: seq<string>)
    ensures forall p :: p in r <==> exists i :: 0 <= i < |rows| && rows[i].auctionProduct == p
    ensures forall i, j :: 0 <= i < j < |r| ==> r[i] != r[j]
  {
    if rows == [] then []
    else
      var init := ProductOptions(rows[..|rows| - 1]);
      var p := rows[|rows| - 1].auctionProduct;
      assert forall i :: 0 <= i < |rows| - 1 ==> rows[..|rows| - 1][i] == rows[i];
      if p in init then init else init + [p]
  }

  /** The options appear in the order their products first occur in the frame: an option
      listed before another first occurs earlier. */
  lemma {:induction false} ProductOptionsFirstAppearance<V>(rows: seq<FlatRow<V>>, a: int, b: int)
    requires 0 <= a < b < |ProductOptions(rows)|
    ensures FirstAt(rows, ProductOptions(rows)[a]) < FirstAt(rows, ProductOptions(rows)[b])
  {
    var n := |rows|;
    var init := rows[..n - 1];
    var p := rows[n - 1].auctionProduct;
    var r := ProductOptions(rows);
    FirstAtPrefix(rows, r[a]);
    FirstAtPrefix(rows, r[b]);
    if b < |ProductOptions(init)| {
      ProductOptionsFirstAppearance(init, a, b);
    } else {
      assert r[b] == p && p !in ProductOptions(init);
      assert r[a] in ProductOptions(init);
    }
  }

  /** The position of the first row with product `p`, or the number of rows when none has it. */
  function FirstAt<V>(rows: seq<FlatRow<V>>, p: string): (n: nat)
    ensures n <= |rows|
    ensures forall i :: 0 <= i < n ==> rows[i].auctionProduct != p
    ensures n < |rows| ==> rows[n].auctionProduct == p
  {
    if rows == [] then 0
    else if rows[0].auctionProduct == p then 0
    else 1 + FirstAt(rows[1..], p)
  }

  /** Looking for a product in all rows but the last finds the same row, unless the product
      occurs only in the last row. */
  lemma FirstAtPrefix<V>(rows: seq<FlatRow<V>>, p: string)
    requires rows != []
    ensures var init := rows[..|rows| - 1];
            (FirstAt(init, p) < |init| ==> FirstAt(rows, p) == FirstAt(init, p)) &&
            (FirstAt(init, p) == |init| ==> FirstAt(rows, p) >= |init|)
  {
    var init := rows[..|rows| - 1];
    assert forall i :: 0 <= i < |init| ==> init[i] == rows[i];
  }

  // ---------------------------------------------------------------------------------------
  // Date range

  /** `frame['deliveryEnd'].min()`: `None` for an empty frame, as pandas gives `NaT`. */
  function Earliest<V>(rows: seq<FlatRow<V>>): (r: Option<Instant>)
    ensures r.None? <==> rows == []
    ensures r.Some? ==> (exists i :: 0 <= i < |rows| && rows[i].deliveryEnd == r.value) &&
                        forall i :: 0 <= i < |rows| ==> NotAfter(r.value, rows[i].deliveryEnd)
  {
    if rows == [] then None
    else
      var rest := Earliest(rows[1..]);
      if rest.None? then Some(rows[0].deliveryEnd)
      else
        var m := Earlier(rows[0].deliveryEnd, rest.value);
        assert forall i :: 1 <= i < |rows| ==> rows[i] == rows[1..][i - 1];
        Some(m)
  }

  /** `frame['deliveryEnd'].max()`: `None` for an empty frame. */
  function Latest<V>(rows: seq<FlatRow<V>>): (r: Option<Instant>)
    ensures r.None? <==> rows == []
    ensures r.Some? ==> (exists i :: 0 <= i < |rows| && rows[i].deliveryEnd == r.value) &&
                        forall i :: 0 <= i < |rows| ==> NotAfter(rows[i].deliveryEnd, r.value)
  {
    if rows == [] then None
    else
      var rest := Latest(rows[1..]);
      if rest.None? then Some(rows[0].deliveryEnd)
      else
        var m := Later(rows[0].deliveryEnd, rest.value);
        assert forall i :: 1 <= i < |rows| ==> rows[i] == rows[1..][i - 1];
        Some(m)
  }

  /** The range preselected in the date picker: from the later of the earliest delivery
      date and seven days before `today`, to the earlier of the latest delivery date and
      `today`. The picker hands back calendar dates, which `pd.to_datetime` turns into
      midnights. `None` when the frame is empty. */
  function DefaultWindow<V>(today: Instant, rows: seq<FlatRow<V>>): (w: Option<(Instant, Instant)>)
    ensures w.None? <==> rows == []
    ensures w.Some? ==> w.value.0.second == 0 && w.value.1.second == 0
  {
    if rows == [] then None
    else
      Some((Midnight(Later(Earliest(rows).value, DaysBefore(today, 7))),
            Midnight(Earlier(Latest(rows).value, today))))
  }

  /** The default window runs from the later of the first delivery day and the day a week
      before today, to the earlier of the last delivery day and today. */
  lemma DefaultWindowDays<V>(today: Instant, rows: seq<FlatRow<V>>)
    requires rows != []
    ensures var (start, end) := DefaultWindow(today, rows).value;
            var first, last := Earliest(rows).value.day, Latest(rows).value.day;
            start.day == (if first < today.day - 7 then today.day - 7 else first) &&
            end.day == (if last < today.day then last else today.day)
  {
    DateOfLaterEarlier(Earliest(rows).value, DaysBefore(today, 7));
    DateOfLaterEarlier(Latest(rows).value, today);
  }

  /** On a frame of delivery dates (every `deliveryEnd` at midnight), the default window
      contains exactly the rows dated from a week before today up to today. */
  lemma DefaultWindowIsLastWeek<V>(today: Instant, rows: seq<FlatRow<V>>, i: int)
    requires forall j :: 0 <= j < |rows| ==> rows[j].deliveryEnd.second == 0
    requires 0 <= i < |rows|
    ensures var (start, end) := DefaultWindow(today, rows).value;
            InWindow(rows[i].deliveryEnd, start, end) <==>
            today.day - 7 <= rows[i].deliveryEnd.day <= today.day
  {
    DefaultWindowDays(today, rows);
  }

  /** When the newest delivery date is more than a week old, the default window starts after
      it ends and the filter shows nothing, whatever products are selected. */
  lemma StaleDataShowsNothing<V(!new)>(today: Instant, rows: seq<FlatRow<V>>, products: seq<string>)
    requires rows != [] && Latest(rows).value.day < today.day - 7
    ensures var (start, end) := DefaultWindow(today, rows).value;
            end.day < start.day && SelectRows(rows, products, start, end) == []
  {
    var (start, end) := DefaultWindow(today, rows).value;
    DefaultWindowDays(today, rows);
    WhereDropsAll(rows, Selected(products, start, end));
  }

  // ---------------------------------------------------------------------------------------
  // Row filter

  /** `start_date <= deliveryEnd <= end_date`, both bounds inclusive. */
  predicate InWindow(d: Instant, start: Instant, end: Instant)
  {
    NotAfter(start, d) && NotAfter(d, end)
  }

  function Selected<V>(products: seq<string>, start: Instant, end: Instant): FlatRow<V> -> bool
  {
    (row: FlatRow<V>) => row.auctionProduct in products && InWindow(row.deliveryEnd, start, end)
  }

  /** The mask applied to the volume, price and percentage frames: the rows that pass
      `Selected`, in frame order and with their values. */
  function SelectRows<V>(rows: seq<FlatRow<V>>, products: seq<string>, start: Instant, end: Instant): seq<FlatRow<V>>
  {
    Where(rows, Selected(products, start, end))
  }

  /** A row is shown, as often as it occurs, exactly when its product is selected and its
      delivery date lies in the range, both ends included. */
  lemma SelectRowsCount<V(!new)>(rows: seq<FlatRow<V>>, products: seq<string>, start: Instant, end: Instant)
    ensures forall x :: multiset(SelectRows(rows, products, start, end))[x] ==
              if x.auctionProduct in products && InWindow(x.deliveryEnd, start, end) then multiset(rows)[x] else 0
  {
    WhereCount(rows, Selected(products, start, end));
  }

  /** With no product selected the filter shows no row. */
  lemma NoProductNoRows<V(!new)>(rows: seq<FlatRow<V>>, start: Instant, end: Instant)
    ensures SelectRows(rows, [], start, end) == []
  {
    WhereDropsAll(rows, Selected([], start, end));
  }

  /** Filtering the frames before or after concatenating them gives the same rows: the filter
      looks at one row at a time and keeps the frame order. */
  lemma SelectRowsConcat<V(!new)>(a: seq<FlatRow<V>>, b: seq<FlatRow<V>>, products: seq<string>, start: Instant, end: Instant)
    ensures SelectRows(a + b, products, start, end) == SelectRows(a, products, start, end) + SelectRows(b, products, start, end)
  {
    WhereConcat(a, b, Selected(products, start, end));
  }

  // ---------------------------------------------------------------------------------------
  // Summary loop

  /** What one summary line is computed from: the product, the period and the period's
      column over the shown price rows of that product (a missing cell is `None`). */
  datatype SummaryEntry = SummaryEntry(product: string, efa: Period, values: seq<Option<real>>)

  function CellOf(e: Period): FlatRow<real> -> Option<real>
  {
    (row: FlatRow<real>) => if e in row.cells then Some(row.cells[e]) else None
  }

  function HasProduct(p: string): FlatRow<real> -> bool
  {
    (row: FlatRow<real>) => row.auctionProduct == p
  }

  /** `filtered_price[filtered_price['auctionProduct'] == product][efa]`. */
  function Entry(price: seq<FlatRow<real>>, e: Period, p: string): (s: SummaryEntry)
    ensures s.product == p && s.efa == e
  {
    SummaryEntry(p, e, Apply(Where(price, HasProduct(p)), CellOf(e)))
  }

  /** The rows of product `p` whose delivery date lies in the range. */
  function ProductInWindow(p: string, start: Instant, end: Instant): FlatRow<real> -> bool
  {
    (row: FlatRow<real>) => row.auctionProduct == p && InWindow(row.deliveryEnd, start, end)
  }

  /** For a selected product, the summary line is computed from the frame's rows of that
      product inside the date range, whichever other products are selected. */
  lemma SummaryLineRows(rows: seq<FlatRow<real>>, products: seq<string>, start: Instant, end: Instant,
                        e: Period, p: string)
    requires p in products
    ensures Entry(SelectRows(rows, products, start, end), e, p).values ==
            Apply(Where(rows, ProductInWindow(p, start, end)), CellOf(e))
  {
    var sel := Selected(products, start, end);
    WhereWhere(rows, sel, HasProduct(p));
    WhereSameMask(rows, Both(sel, HasProduct(p)), ProductInWindow(p, start, end));
  }

  /** The lines the inner loop appends for period `e`, one per product in order. */
  function EntriesFor(price: seq<FlatRow<real>>, e: Period, products: seq<string>): seq<SummaryEntry>
  {
    if products == [] then []
    else EntriesFor(price, e, products[..|products| - 1]) + [Entry(price, e, products[|products| - 1])]
  }

  /** The whole `summary_data` list: for each selected period in order, the lines of
      `EntriesFor`. */
  function Summary(price: seq<FlatRow<real>>, efas: seq<Period>, products: seq<string>): seq<SummaryEntry>
  {
    if efas == [] then []
    else Summary(price, efas[..|efas| - 1], products) + EntriesFor(price, efas[|efas| - 1], products)
  }

  lemma {:induction false} EntriesForAt(price: seq<FlatRow<real>>, e: Period, products: seq<string>, j: int)
    requires 0 <= j < |products|
    ensures |EntriesFor(price, e, products)| == |products|
    ensures EntriesFor(price, e, products)[j] == Entry(price, e, products[j])
  {
    var init := products[..|products| - 1];
    if j < |init| {
      EntriesForAt(price, e, init, j);
    } else if init != [] {
      EntriesForAt(price, e, init, 0);
    }
  }

  lemma {:induction false} SummaryLength(price: seq<FlatRow<real>>, efas: seq<Period>, products: seq<string>)
    ensures |Summary(price, efas, products)| == |efas| * |products|
  {
    if efas != [] {
      var n := |efas| - 1;
      SummaryLength(price, efas[..n], products);
      SummaryStep(price, efas, products);
      MulSucc(n, |products|);
    }
  }

  /** The last selected period adds one line per product. */
  lemma SummaryStep(price: seq<FlatRow<real>>, efas: seq<Period>, products: seq<string>)
    requires efas != []
    ensures |Summary(price, efas, products)| == |Summary(price, efas[..|efas| - 1], products)| + |products|
  {
    var n := |efas| - 1;
    var last := EntriesFor(price, efas[n], products);
    if products != [] {
      EntriesForAt(price, efas[n], products, 0);
    }
    assert Summary(price, efas, products) == Summary(price, efas[..n], products) + last;
  }

  lemma MulSucc(n: int, m: int)
    ensures (n + 1) * m == n * m + m
  {
  }

  /** The summary has one line per (period, product) pair, periods in the outer position:
      line `i * |products| + j` is for period `efas[i]` and product `products[j]`. */
  lemma {:induction false} SummaryAt(price: seq<FlatRow<real>>, efas: seq<Period>, products: seq<string>, i: int, j: int)
    requires 0 <= i < |efas| && 0 <= j < |products|
    ensures |Summary(price, efas, products)| == |efas| * |products|
    ensures 0 <= i * |products| + j < |efas| * |products|
    ensures Summary(price, efas, products)[i * |products| + j] == Entry(price, efas[i], products[j])
  {
    var n, m := |efas| - 1, |products|;
    var init := efas[..n];
    var last := EntriesFor(price, efas[n], products);
    SummaryLength(price, efas, products);
    SummaryLength(price, init, products);
    EntriesForAt(price, efas[n], products, j);
    assert Summary(price, efas, products) == Summary(price, init, products) + last;
    GridIndex(i, j, n, m);
    if i < n {
      SummaryAt(price, init, products, i, j);
      assert init[i] == efas[i];
    } else {
      assert i * m + j - n * m == j;
    }
  }

  /** Index arithmetic for `SummaryAt`: cell `(i, j)` of a grid `m` wide lies in the first
      `n * m` places when `i < n` and at `n * m + j` when `i == n`. */
  lemma GridIndex(i: int, j: int, n: int, m: int)
    requires 0 <= i <= n && 0 <= j < m
    ensures 0 <= i * m + j < (n + 1) * m
    ensures i < n ==> i * m + j < n * m
    ensures i == n ==> i * m + j == n * m + j
  {
    MulSucc(i, m);
    MulSucc(n, m);
    MulMonotone(i + 1, n + 1, m);
    if i < n {
      MulMonotone(i + 1, n, m);
    }
  }

  lemma {:induction false} MulMonotone(a: int, b: int, m: int)
    requires 0 <= a <= b && 0 <= m
    ensures 0 <= a * m <= b * m
    decreases b - a
  {
    if a < b {
      MulMonotone(a, b - 1, m);
      MulSucc(b - 1, m);
    } else {
      assert a * m == b * m;
      MulNonNegative(a, m);
    }
  }

  lemma MulNonNegative(a: int, m: int)
    requires 0 <= a && 0 <= m
    ensures 0 <= a * m
  {
  }

  /** The summary loop: the outer loop over the selected periods, the inner one over the
      selected products, appending one line per pair. */
  method BuildSummary(price: seq<FlatRow<real>>, efas: seq<Period>, products: seq<string>) returns (out: seq<SummaryEntry>)
    ensures out == Summary(price, efas, products)
  {
    out := [];
    var i := 0;
    while i < |efas|
      invariant 0 <= i <= |efas|
      invariant out == Summary(price, efas[..i], products)
    {
      var e := efas[i];
      var j := 0;
      while j < |products|
        invariant 0 <= j <= |products|
        invariant out == Summary(price, efas[..i], products) + EntriesFor(price, e, products[..j])
      {
        out := out + [Entry(price, e, products[j])];
        assert products[..j + 1][..j] == products[..j];
        j := j + 1;
      }
      assert products[..j] == products;
      assert efas[..i + 1][..i] == efas[..i];
      i := i + 1;
    }
    assert efas[..i] == efas;
  }

  // ---------------------------------------------------------------------------------------
  // Clearing price display

  /** `filtered_price[selected_efas].round(2)`: every selected period cell rounded to two
      decimals; other cells and missing cells are untouched. */
  function RoundPriceRow(efas: seq<Period>): FlatRow<real> -> FlatRow<real>
  {
    (row: FlatRow<real>) => row.(cells := map e | e in row.cells :: if e in efas then Round2(row.cells[e]) else row.cells[e])
  }

  function RoundPriceColumns(rows: seq<FlatRow<real>>, efas: seq<Period>): (r: seq<FlatRow<real>>)
    ensures |r| == |rows|
  {
    Apply(rows, RoundPriceRow(efas))
  }

  /** Each shown price row keeps its date, its product and its set of cells; a selected cell
      moves by at most half a hundredth, to a whole number of hundredths, and the others
      keep their value. */
  lemma RoundPriceCell(rows: seq<FlatRow<real>>, efas: seq<Period>, i: int, e: Period)
    requires 0 <= i < |rows|
    ensures var r := RoundPriceColumns(rows, efas)[i];
            RowKeyOf(r) == RowKeyOf(rows[i]) && r.cells.Keys == rows[i].cells.Keys &&
            (e in r.cells && e in efas ==>
               -0.005 <= r.cells[e] - rows[i].cells[e] <= 0.005 &&
               (r.cells[e] * 100.0).Floor as real == r.cells[e] * 100.0) &&
            (e in r.cells && e !in efas ==> r.cells[e] == rows[i].cells[e])
  {
    ApplyAt(rows, RoundPriceRow(efas), i);
  }

  /** Rounding the shown prices a second time changes nothing. */
  lemma RoundPriceIdempotent(rows: seq<FlatRow<real>>, efas: seq<Period>)
    ensures RoundPriceColumns(RoundPriceColumns(rows, efas), efas) == RoundPriceColumns(rows, efas)
  {
    var once := RoundPriceColumns(rows, efas);
    var twice := RoundPriceColumns(once, efas);
    forall i | 0 <= i < |rows| ensures twice[i] == once[i] {
      ApplyAt(rows, RoundPriceRow(efas), i);
      ApplyAt(once, RoundPriceRow(efas), i);
      forall e | e in once[i].cells && e in efas ensures Round2(once[i].cells[e]) == once[i].cells[e] {
        Round2Idempotent(rows[i].cells[e]);
      }
    }
  }

  /** The style of a cell. `Red(n)` is `rgb(n, 0, 0)`. */
  datatype Style = NoStyle | Green | DarkRed | Red(intensity: int)

  /** `color_price`: a price below its column's median is green, above it dark red, and equal
      to it unstyled. A missing price or a missing median (an empty column) compares false
      both ways and stays unstyled. */
  function ColorPrice(val: Option<real>, median: Option<real>): (s: Style)
    ensures s != NoStyle <==> val.Some? && median.Some? && val.value != median.value
    ensures s == Green ==> val.value < median.value
    ensures s == DarkRed ==> val.value > median.value
  {
    if val.Some? && median.Some? && val.value < median.value then Green
    else if val.Some? && median.Some? && val.value > median.value then DarkRed
    else NoStyle
  }

  /** The median is taken before the prices are rounded, so rounding changes a price's
      colour only when the price lies within half a hundredth of the median. */
  lemma RoundingKeepsPriceColour(v: real, median: real)
    requires v - median > 0.005 || median - v > 0.005
    ensures ColorPrice(Some(Round2(v)), Some(median)) == ColorPrice(Some(v), Some(median))
  {
  }

  /** A price equal to its median before rounding can turn green once rounded. */
  lemma RoundedMedianPriceIsGreen()
    ensures ColorPrice(Some(1.004), Some(1.004)) == NoStyle
    ensures ColorPrice(Some(Round2(1.004)), Some(1.004)) == Green
  {
    var r := Round2(1.004);
    assert r * 100.0 <= 100.9;
    assert (r * 100.0).Floor == 100 by {
      assert 99.9 <= r * 100.0;
    }
  }

  // ---------------------------------------------------------------------------------------
  // Percentage display

  /** `int((100 - val) * 2.55)` on exact numbers: `val` below 100 makes the product
      positive, so truncation is the floor. */
  function RedIntensity(val: int): (n: int)
    requires val < 100
    ensures 0 <= n
  {
    ((100 - val) as real * 2.55).Floor
  }

  /** `color_percentage`: a whole percentage of 100 or more is green; below 100 the cell is
      red, the darker the closer it is to 100. */
  function ColorPercentage(val: int): (s: Style)
    ensures s == Green <==> val >= 100
    ensures s.Red? <==> val < 100
    ensures s.Red? ==> s.intensity == RedIntensity(val)
  {
    if val < 100 then Red(RedIntensity(val)) else Green
  }

  /** A smaller percentage never gives a lighter red. */
  lemma RedIntensityMonotone(a: int, b: int)
    requires a <= b < 100
    ensures RedIntensity(b) <= RedIntensity(a)
  {
  }

  /** For percentages from 0 to 99 the red channel is a valid colour byte: at least 2 (at
      99 percent) and at most 255 (at nothing procured). */
  lemma RedIntensityRange(val: int)
    requires 0 <= val < 100
    ensures 2 <= RedIntensity(val) <= 255
  {
    RedIntensityMonotone(val, 99);
    RedIntensityMonotone(0, val);
  }

  /** Whether a row has a finite value in period `e`. */
  predicate FiniteAt(row: FlatRow<Pct>, e: Period)
  {
    e in row.cells && row.cells[e].Finite?
  }

  /** A percentage rounded to a whole number, `np.round(x)`; the infinities stay as they are. */
  function RoundWholePct(c: Pct): (d: Pct)
    ensures d.Finite? <==> c.Finite?
    ensures c.Finite? ==> -0.5 <= d.value - c.value <= 0.5 && d.value == d.value.Floor as real
    ensures !c.Finite? ==> d == c
  {
    if c.Finite? then Finite(RoundHalfEven(c.value) as real) else c
  }

  function RoundPctRow(efas: seq<Period>): FlatRow<Pct> -> FlatRow<Pct>
  {
    (row: FlatRow<Pct>) => row.(cells := map e | e in row.cells :: if e in efas then RoundWholePct(row.cells[e]) else row.cells[e])
  }

  /** `filtered_percentage_volume[selected_efas].round().astype(int)` as written: it fails
      as soon as a shown row has a missing or infinite value in a selected period. */
  function RoundPercentColumnsAsWritten(rows: seq<FlatRow<Pct>>, efas: seq<Period>): (r: Result<seq<FlatRow<Pct>>, string>)
    ensures r.Err? <==> exists i, k :: 0 <= i < |rows| && 0 <= k < |efas| && !FiniteAt(rows[i], efas[k])
    ensures r.Ok? ==> r.value == RoundPercentColumns(rows, efas)
  {
    if exists i, k :: 0 <= i < |rows| && 0 <= k < |efas| && !FiniteAt(rows[i], efas[k])
    then Err("Cannot convert non-finite values (NA or inf) to integer")
    else Ok(Apply(rows, RoundPctRow(efas)))
  }

  /** The conversion as intended: every finite selected cell rounded to a whole percentage,
      missing and infinite cells left as they are. */
  function RoundPercentColumns(rows: seq<FlatRow<Pct>>, efas: seq<Period>): (r: seq<FlatRow<Pct>>)
    ensures |r| == |rows|
  {
    Apply(rows, RoundPctRow(efas))
  }

  /** Each row keeps its date, product and cells; every selected finite cell becomes the
      nearest whole percentage, and every other cell is unchanged. */
  lemma RoundPercentCell(rows: seq<FlatRow<Pct>>, efas: seq<Period>, i: int, e: Period)
    requires 0 <= i < |rows|
    ensures var r := RoundPercentColumns(rows, efas)[i];
            RowKeyOf(r) == RowKeyOf(rows[i]) && r.cells.Keys == rows[i].cells.Keys &&
            (e in r.cells && e in efas ==> r.cells[e] == RoundWholePct(rows[i].cells[e])) &&
            (e in r.cells && e !in efas ==> r.cells[e] == rows[i].cells[e]) &&
            (FiniteAt(rows[i], e) <==> FiniteAt(r, e))
  {
    ApplyAt(rows, RoundPctRow(efas), i);
  }

  /** A row key found in only one of the volume and requirement tables gives a percentage
      row without any value; once that row is shown with a period selected, the display
      step fails. */
  lemma OneSidedRowBreaksDisplay(vol: Table<real>, req: Table<real>, k: RowKey,
                                 products: seq<string>, start: Instant, end: Instant, efas: seq<Period>)
    requires (k in vol.cells) != (k in req.cells)
    requires k.product in products && InWindow(k.date, start, end) && efas != []
    ensures RoundPercentColumnsAsWritten(SelectRows(ResetIndex(PercentTable(vol, req)).rows, products, start, end), efas).Err?
  {
    var t := PercentTable(vol, req);
    OneSidedRowIsEmpty(vol, req, k);
    FlatRowsExact(t, k);
    var rows := ResetIndex(t).rows;
    var n :| 0 <= n < |rows| && RowKeyOf(rows[n]) == k;
    EmptyShownRowFails(rows, products, start, end, efas, n);
  }

  /** A shown row without values makes the conversion as written fail. */
  lemma EmptyShownRowFails(rows: seq<FlatRow<Pct>>, products: seq<string>, start: Instant, end: Instant,
                           efas: seq<Period>, n: int)
    requires 0 <= n < |rows| && rows[n].cells == map[] && efas != []
    requires rows[n].auctionProduct in products && InWindow(rows[n].deliveryEnd, start, end)
    ensures RoundPercentColumnsAsWritten(SelectRows(rows, products, start, end), efas).Err?
  {
    var shown := SelectRows(rows, products, start, end);
    SelectRowsCount(rows, products, start, end);
    assert multiset(rows)[rows[n]] > 0;
    assert multiset(shown)[rows[n]] > 0;
    var m :| 0 <= m < |shown| && shown[m] == rows[n];
    assert !FiniteAt(shown[m], efas[0]);
  }
}
