/** The order pandas sorts a pivot table's index in: by date, then by product text. */
module Ordering {
  import opened Clock
  import opened Pivot

  /** Python's `a < b` on strings: lexicographic by character code. */
  predicate TextBelow(a: string, b: string)
  {
    if a == [] then b != []
    else if b == [] then false
    else if a[0] != b[0] then a[0] < b[0]
    else TextBelow(a[1..], b[1..])
  }

  lemma {:induction false} TextIrreflexive(a: string)
    ensures !TextBelow(a, a)
  {
    if a != [] {
      TextIrreflexive(a[1..]);
    }
  }

  lemma {:induction false} TextTransitive(a: string, b: string, c: string)
    requires TextBelow(a, b) && TextBelow(b, c)
    ensures TextBelow(a, c)
  {
    if a != [] && b != [] && c != [] && a[0] == b[0] && b[0] == c[0] {
      TextTransitive(a[1..], b[1..], c[1..]);
    }
  }

  lemma {:induction false} TextTotal(a: string, b: string)
    ensures a == b || TextBelow(a, b) || TextBelow(b, a)
  {
    if a != [] && b != [] && a[0] == b[0] {
      TextTotal(a[1..], b[1..]);
      if a[1..] == b[1..] {
        assert a == [a[0]] + a[1..] && b == [b[0]] + b[1..];
      }
    }
  }

  /** Timestamp comparison `a < b`. */
  predicate InstantBelow(a: Instant, b: Instant)
  {
    !NotAfter(b, a)
  }

  /** The sort order of the (date, product) index. */
  predicate KeyBelow(a: RowKey, b: RowKey)
  {
    InstantBelow(a.date, b.date) || (a.date == b.date && TextBelow(a.product, b.product))
  }

  /** `KeyBelow` is a strict total order. */
  lemma KeyOrder(a: RowKey, b: RowKey, c: RowKey)
    ensures !KeyBelow(a, a)
    ensures KeyBelow(a, b) && KeyBelow(b, c) ==> KeyBelow(a, c)
    ensures a == b || KeyBelow(a, b) || KeyBelow(b, a)
  {
    TextIrreflexive(a.product);
    if KeyBelow(a, b) && KeyBelow(b, c) && a.date == b.date && b.date == c.date {
      TextTransitive(a.product, b.product, c.product);
    }
    TextTotal(a.product, b.product);
  }

  /** A finite non-empty set of row keys has a least element. */
  lemma {:induction false} LeastExists(s: set<RowKey>)
    requires s != {}
    ensures exists m :: m in s && forall k :: k in s && k != m ==> KeyBelow(m, k)
    decreases |s|
  {
    var x :| x in s;
    if s != {x} {
      var rest := s - {x};
      LeastExists(rest);
      var m :| m in rest && forall k :: k in rest && k != m ==> KeyBelow(m, k);
      KeyOrder(x, m, x);
      if KeyBelow(x, m) {
        forall k | k in s && k != x ensures KeyBelow(x, k) {
          if k != m { KeyOrder(x, m, k); }
        }
      } else {
        assert KeyBelow(m, x);
      }
    }
  }

  /** The first key of the sorted index. */
  ghost function Least(s: set<RowKey>): (m: RowKey)
    requires s != {}
    ensures m in s && forall k :: k in s && k != m ==> KeyBelow(m, k)
  {
    LeastExists(s);
    var m :| m in s && forall k :: k in s && k != m ==> KeyBelow(m, k);
    m
  }
}
