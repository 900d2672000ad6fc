/** The row-level stages of the pipeline: the product filter, truncating the index to its
    date, attaching the `Time` and `EFA` columns, and the requirement sentinel filter. */
module Records {
  import opened Common
  import opened Clock
  import opened Efa
  import opened Columns

  /** One row of a fetched dataset: `index` is the column read as the frame's index
      (deliveryEnd), `metrics` the numeric columns of that dataset. */
  datatype Raw<M> = Raw(index: Instant, deliveryStart: Instant, product: string, metrics: M)

  /** Metric columns of the cleared-auction results. */
  datatype Cleared = Cleared(clearedVolume: real, clearingPrice: real)

  /** Metric columns of the requirement (bid) records. */
  datatype Requirement = Requirement(quantity: real, price: real)

  /** A row after the derived `Time` and `EFA` columns have been attached. */
  datatype Tagged<M> = Tagged(raw: Raw<M>, time: string, efa: Option<Period>)

  /** The six auction products kept; every other code is test data. */
  const Products: set<string> := {"DCH", "DCL", "DMH", "DML", "DRH", "DRL"}

  predicate IsProduct<M>(r: Raw<M>)
  {
    r.product in Products
  }

  /** `df[df['auctionProduct'].isin([...])]`. */
  function KeepProducts<M>(rs: seq<Raw<M>>): seq<Raw<M>>
  {
    Where(rs, IsProduct)
  }

  /** Each row of the six products is kept as often as it occurs; every other row is
      dropped. */
  lemma KeepProductsCount<M(!new)>(rs: seq<Raw<M>>)
    ensures forall r :: multiset(KeepProducts(rs))[r] == if r.product in Products then multiset(rs)[r] else 0
  {
    WhereCount(rs, IsProduct);
  }

  /** The product filter keeps the input order: it distributes over concatenation. */
  lemma KeepProductsConcat<M(!new)>(a: seq<Raw<M>>, b: seq<Raw<M>>)
    ensures KeepProducts(a + b) == KeepProducts(a) + KeepProducts(b)
  {
    WhereConcat(a, b, IsProduct);
  }

  /** Filtering the products a second time changes nothing. */
  lemma KeepProductsIdempotent<M(!new)>(rs: seq<Raw<M>>)
    ensures KeepProducts(KeepProducts(rs)) == KeepProducts(rs)
  {
    forall r | r in KeepProducts(rs) ensures IsProduct(r) {
      WhereMembers(rs, IsProduct, r);
    }
    WhereKeepsAll(KeepProducts(rs), IsProduct);
  }

  function DateIndexed<M>(r: Raw<M>): Raw<M>
  {
    r.(index := Midnight(r.index))
  }

  /** `df.index = pd.to_datetime(df.index.strftime('%Y-%m-%d'))`: the index becomes the
      calendar date of the delivery end; nothing else in the row changes. */
  function IndexToDate<M>(rs: seq<Raw<M>>): (out: seq<Raw<M>>)
    ensures |out| == |rs|
  {
    Apply(rs, DateIndexed)
  }

  /** Row `i` keeps its delivery start, product and metrics; its index becomes midnight of
      the same day. */
  lemma IndexToDateAt<M>(rs: seq<Raw<M>>, i: int)
    requires 0 <= i < |rs|
    ensures var r := IndexToDate(rs)[i];
            r.index.day == rs[i].index.day && r.index.second == 0 &&
            r.deliveryStart == rs[i].deliveryStart && r.product == rs[i].product && r.metrics == rs[i].metrics
  {
    ApplyAt(rs, DateIndexed, i);
  }

  /** Rows that differ only in the time of day of their index are the same row once the
      index is truncated to the date: they share a row key. */
  lemma DateIndexForgetsTime<M>(r: Raw<M>, s: Raw<M>)
    requires r.deliveryStart == s.deliveryStart && r.product == s.product && r.metrics == s.metrics
    ensures DateIndexed(r) == DateIndexed(s) <==> r.index.day == s.index.day
  {
    MidnightIsDate(r.index, s.index);
  }

  /** Truncating the index and filtering products commute, so the order the two scripts use
      for the auction results (truncate first) and for the requirements (filter first) does
      not matter. */
  lemma {:induction false} DateAndProductCommute<M(!new)>(rs: seq<Raw<M>>)
    ensures IndexToDate(KeepProducts(rs)) == KeepProducts(IndexToDate(rs))
  {
    if rs != [] {
      DateAndProductCommute(rs[1..]);
      assert IndexToDate(rs) == [DateIndexed(rs[0])] + IndexToDate(rs[1..]);
      var head := if IsProduct(rs[0]) then [rs[0]] else [];
      assert KeepProducts(rs) == head + KeepProducts(rs[1..]);
      ApplyConcat(head, KeepProducts(rs[1..]), DateIndexed);
    }
  }

  /** Attaching `Time` (`deliveryStart.dt.strftime('%H:%M')`) and `EFA` (`Time.map(EfaMap)`). */
  function TagRow<M>(r: Raw<M>): Tagged<M>
  {
    var time := HourMinute(r.deliveryStart);
    Tagged(r, time, Classify(time))
  }

  function Tag<M>(rs: seq<Raw<M>>): (out: seq<Tagged<M>>)
    ensures |out| == |rs|
  {
    Apply(rs, TagRow)
  }

  /** Every tagged row carries its own delivery start's text and the table's period for it;
      a start that is not the first minute of a block-start hour carries no period. */
  lemma TagAt<M>(rs: seq<Raw<M>>, i: int)
    requires 0 <= i < |rs|
    ensures Tag(rs)[i].raw == rs[i]
    ensures Tag(rs)[i].time == HourMinute(rs[i].deliveryStart)
    ensures Tag(rs)[i].efa.Some? <==>
            rs[i].deliveryStart.second % 3600 < 60 && IsBlockStart(Hour(rs[i].deliveryStart))
    ensures Tag(rs)[i].efa ==
            if rs[i].deliveryStart.second % 3600 < 60 && IsBlockStart(Hour(rs[i].deliveryStart))
            then Some(BlockOfHour(Hour(rs[i].deliveryStart))) else None
  {
    ApplyAt(rs, TagRow, i);
    ClassifyInstant(rs[i].deliveryStart);
  }

  /** A placeholder requirement row: price 0 with quantity 100 or 20. */
  predicate IsSentinel(q: Requirement)
  {
    q.price == 0.0 && (q.quantity == 100.0 || q.quantity == 20.0)
  }

  /** The mask as the scripts write it: not (quantity 100 and price 0), and not (quantity 20
      and price 0). */
  predicate NotPlaceholder(t: Tagged<Requirement>)
  {
    var q := t.raw.metrics;
    !(q.quantity == 100.0 && q.price == 0.0) && !(q.quantity == 20.0 && q.price == 0.0)
  }

  /** The sentinel filter: the rows that pass `NotPlaceholder`, in order. */
  function DropSentinels(ts: seq<Tagged<Requirement>>): seq<Tagged<Requirement>>
  {
    Where(ts, NotPlaceholder)
  }

  /** A placeholder row is removed however often it occurs; every other row is kept as
      often as it occurs. */
  lemma DropSentinelsCount(ts: seq<Tagged<Requirement>>)
    ensures forall t :: multiset(DropSentinels(ts))[t] == if IsSentinel(t.raw.metrics) then 0 else multiset(ts)[t]
  {
    WhereCount(ts, NotPlaceholder);
  }

  /** The two negated conjunctions the scripts write select the same rows as the single
      mask "not a placeholder". */
  lemma DropSentinelsMask(ts: seq<Tagged<Requirement>>)
    ensures DropSentinels(ts) == Where(ts, (t: Tagged<Requirement>) => !IsSentinel(t.raw.metrics))
  {
    WhereSameMask(ts, NotPlaceholder, (t: Tagged<Requirement>) => !IsSentinel(t.raw.metrics));
  }

  lemma DropSentinelsConcat(a: seq<Tagged<Requirement>>, b: seq<Tagged<Requirement>>)
    ensures DropSentinels(a + b) == DropSentinels(a) + DropSentinels(b)
  {
    WhereConcat(a, b, NotPlaceholder);
  }
}
