/** The whole reshaping run, from the two fetched datasets to the three flattened tables
    (price, volume, percentage) that the scripts write out. */
module Pipeline {
  import opened Common
  import opened Clock
  import opened Efa
  import opened Columns
  import opened Records
  import opened Pivot
  import opened Percentage
  import opened Flatten
  import opened Rounding

  /** The auction results ready to pivot: index truncated to its date, the six products
      kept, `Time` and `EFA` attached. */
  function PrepareResults(dynamic: seq<Raw<Cleared>>): seq<Tagged<Cleared>>
  {
    Tag(KeepProducts(IndexToDate(dynamic)))
  }

  /** The requirement rows ready to pivot: the six products kept, index truncated to its
      date, `Time` and `EFA` attached, placeholder rows dropped. */
  function PrepareRequirements(req: seq<Raw<Requirement>>): seq<Tagged<Requirement>>
  {
    DropSentinels(Tag(IndexToDate(KeepProducts(req))))
  }

  function ClearedVolume(c: Cleared): real { c.clearedVolume }

  function ClearingPrice(c: Cleared): real { c.clearingPrice }

  function Quantity(q: Requirement): real { q.quantity }

  /** The volume and price pivots use pandas' default aggregation, the mean. */
  function VolumeTable(dynamic: seq<Raw<Cleared>>): Table<real>
  {
    PivotTable(PrepareResults(dynamic), ClearedVolume, Mean)
  }

  function PriceTable(dynamic: seq<Raw<Cleared>>): Table<real>
  {
    PivotTable(PrepareResults(dynamic), ClearingPrice, Mean)
  }

  /** The requirement pivot sums quantities. */
  function RequirementTable(req: seq<Raw<Requirement>>): Table<real>
  {
    PivotTable(PrepareRequirements(req), Quantity, Sum)
  }

  datatype Outputs = Outputs(price: Frame<real>, volume: Frame<real>, percentage: Frame<Pct>)

  /** The three flattened tables of one run. */
  ghost function Run(dynamic: seq<Raw<Cleared>>, req: seq<Raw<Requirement>>): Outputs
  {
    Outputs(ResetIndex(PriceTable(dynamic)),
            ResetIndex(VolumeTable(dynamic)),
            ResetIndex(PercentTable(VolumeTable(dynamic), RequirementTable(req))))
  }

  lemma PrepareResultsConcat(a: seq<Raw<Cleared>>, b: seq<Raw<Cleared>>)
    ensures PrepareResults(a + b) == PrepareResults(a) + PrepareResults(b)
  {
    ApplyConcat(a, b, DateIndexed);
    KeepProductsConcat(IndexToDate(a), IndexToDate(b));
    ApplyConcat(KeepProducts(IndexToDate(a)), KeepProducts(IndexToDate(b)), TagRow);
  }

  lemma PrepareRequirementsConcat(a: seq<Raw<Requirement>>, b: seq<Raw<Requirement>>)
    ensures PrepareRequirements(a + b) == PrepareRequirements(a) + PrepareRequirements(b)
  {
    KeepProductsConcat(a, b);
    ApplyConcat(KeepProducts(a), KeepProducts(b), DateIndexed);
    ApplyConcat(IndexToDate(KeepProducts(a)), IndexToDate(KeepProducts(b)), TagRow);
    DropSentinelsConcat(Tag(IndexToDate(KeepProducts(a))), Tag(IndexToDate(KeepProducts(b))));
  }

  /** A delivery start that is not the first minute of a block-start hour gets no period. */
  predicate OffBlock(start: Instant)
  {
    start.second % 3600 >= 60 || !IsBlockStart(Hour(start))
  }

  /** What one raw row becomes after preparation: nothing, or a row with no period, when
      its product is not one of the six or its start time is off the block starts. */
  lemma PreparedSingle<M(!new)>(r: Raw<M>)
    requires r.product !in Products || OffBlock(r.deliveryStart)
    ensures forall j :: 0 <= j < |Tag(KeepProducts(IndexToDate([r])))| ==>
              Tag(KeepProducts(IndexToDate([r])))[j].efa.None?
  {
    var d := IndexToDate([r]);
    assert d == [DateIndexed(r)];
    var kept := KeepProducts(d);
    assert kept == Where([DateIndexed(r)], IsProduct);
    forall j | 0 <= j < |Tag(kept)| ensures Tag(kept)[j].efa.None? {
      assert kept == [DateIndexed(r)];
      TagAt(kept, j);
    }
  }

  /** An auction result of another product, or whose delivery start is off the twelve
      block starts (05:00, say), changes none of the three tables. */
  lemma IgnoredResult(dynamic: seq<Raw<Cleared>>, req: seq<Raw<Requirement>>, r: Raw<Cleared>)
    requires r.product !in Products || OffBlock(r.deliveryStart)
    ensures Run(dynamic + [r], req) == Run(dynamic, req)
  {
    PrepareResultsConcat(dynamic, [r]);
    PreparedSingle(r);
    IgnoresUnmapped(PrepareResults(dynamic), PrepareResults([r]), ClearedVolume, Mean);
    IgnoresUnmapped(PrepareResults(dynamic), PrepareResults([r]), ClearingPrice, Mean);
  }

  /** A requirement row of another product, off the block starts, or a placeholder
      (price 0 with quantity 100 or 20) changes none of the three tables. */
  lemma IgnoredRequirement(dynamic: seq<Raw<Cleared>>, req: seq<Raw<Requirement>>, r: Raw<Requirement>)
    requires r.product !in Products || OffBlock(r.deliveryStart) || IsSentinel(r.metrics)
    ensures Run(dynamic, req + [r]) == Run(dynamic, req)
  {
    PrepareRequirementsConcat(req, [r]);
    PreparedRequirementSingle(r);
    IgnoresUnmapped(PrepareRequirements(req), PrepareRequirements([r]), Quantity, Sum);
  }

  lemma PreparedRequirementSingle(r: Raw<Requirement>)
    requires r.product !in Products || OffBlock(r.deliveryStart) || IsSentinel(r.metrics)
    ensures forall j :: 0 <= j < |PrepareRequirements([r])| ==> PrepareRequirements([r])[j].efa.None?
  {
    var tagged := Tag(IndexToDate(KeepProducts([r])));
    if IsSentinel(r.metrics) {
      forall t | t in tagged ensures !NotPlaceholder(t) {
        var j :| 0 <= j < |tagged| && tagged[j] == t;
        assert KeepProducts([r]) == Where([r], IsProduct);
        TagAt(IndexToDate(KeepProducts([r])), j);
        ApplyAt(KeepProducts([r]), DateIndexed, j);
      }
      WhereDropsAll(tagged, NotPlaceholder);
    } else {
      DateAndProductCommute([r]);
      PreparedSingle(r);
      forall j | 0 <= j < |PrepareRequirements([r])| ensures PrepareRequirements([r])[j].efa.None? {
        var t := PrepareRequirements([r])[j];
        WhereMembers(tagged, NotPlaceholder, t);
      }
    }
  }

  lemma ResultsPermuted(d1: seq<Raw<Cleared>>, d2: seq<Raw<Cleared>>)
    requires multiset(d1) == multiset(d2)
    ensures multiset(PrepareResults(d1)) == multiset(PrepareResults(d2))
  {
    ApplyPermutation(d1, d2, DateIndexed);
    WherePermutation(IndexToDate(d1), IndexToDate(d2), IsProduct);
    ApplyPermutation(KeepProducts(IndexToDate(d1)), KeepProducts(IndexToDate(d2)), TagRow);
  }

  lemma RequirementsPermuted(q1: seq<Raw<Requirement>>, q2: seq<Raw<Requirement>>)
    requires multiset(q1) == multiset(q2)
    ensures multiset(PrepareRequirements(q1)) == multiset(PrepareRequirements(q2))
  {
    WherePermutation(q1, q2, IsProduct);
    ApplyPermutation(KeepProducts(q1), KeepProducts(q2), DateIndexed);
    ApplyPermutation(IndexToDate(KeepProducts(q1)), IndexToDate(KeepProducts(q2)), TagRow);
    WherePermutation(Tag(IndexToDate(KeepProducts(q1))), Tag(IndexToDate(KeepProducts(q2))), NotPlaceholder);
  }

  /** Reordering either dataset leaves all three tables unchanged. */
  lemma OrderIndependentRun(d1: seq<Raw<Cleared>>, d2: seq<Raw<Cleared>>,
                            q1: seq<Raw<Requirement>>, q2: seq<Raw<Requirement>>)
    requires multiset(d1) == multiset(d2) && multiset(q1) == multiset(q2)
    ensures Run(d1, q1) == Run(d2, q2)
  {
    ResultsPermuted(d1, d2);
    RequirementsPermuted(q1, q2);
    OrderIndependent(PrepareResults(d1), PrepareResults(d2), ClearedVolume, Mean);
    OrderIndependent(PrepareResults(d1), PrepareResults(d2), ClearingPrice, Mean);
    OrderIndependent(PrepareRequirements(q1), PrepareRequirements(q2), Quantity, Sum);
  }

  /** A volume cell v and a non-zero requirement cell r at the same key and period give the
      percentage cell round(v / r * 100, 2) in the flattened percentage frame. */
  lemma PercentInFrame(vol: Table<real>, req: Table<real>, k: RowKey, e: Period, v: real, r: real)
    requires WellFormed(vol) && WellFormed(req)
    requires Lookup(vol, k, e) == Some(v) && Lookup(req, k, e) == Some(r) && r != 0.0
    ensures var rows := ResetIndex(PercentTable(vol, req)).rows;
            exists n :: 0 <= n < |rows| && RowKeyOf(rows[n]) == k && e in rows[n].cells &&
              rows[n].cells[e] == Finite(Round2(v / r * 100.0))
  {
    PercentCell(vol, req, k, e);
    CellInFrame(PercentTable(vol, req), k, e);
  }
}
