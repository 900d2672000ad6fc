/** Whole-column operations on a table held as a sequence of rows: the boolean-mask
    selection `df[mask]`, an elementwise derived column, and the sum of a column. */
module Columns {

  /** `df[mask]`: the rows for which `keep` holds, in their original order. */
  function Where<T>(s: seq<T>, keep: T -> bool): (r: seq<T>)
    ensures |r| <= |s|
  {
    if s == [] then [] else (if keep(s[0]) then [s[0]] else []) + Where(s[1..], keep)
  }

  /** The mask keeps every copy of a row it accepts and no copy of a row it rejects. */
  lemma {:induction false} WhereCount<T(!new)>(s: seq<T>, keep: T -> bool)
    ensures forall x :: multiset(Where(s, keep))[x] == if keep(x) then multiset(s)[x] else 0
  {
    if s != [] {
      WhereCount(s[1..], keep);
      assert s == [s[0]] + s[1..];
    }
  }

  /** Every row the mask keeps is in the result and nothing else is. */
  lemma WhereMembers<T(!new)>(s: seq<T>, keep: T -> bool, x: T)
    ensures x in Where(s, keep) <==> x in s && keep(x)
  {
    WhereCount(s, keep);
    assert x in Where(s, keep) <==> multiset(Where(s, keep))[x] > 0;
    assert x in s <==> multiset(s)[x] > 0;
  }

  /** The mask acts row by row, so it distributes over concatenation: the order of the
      surviving rows is the order of the input. */
  lemma {:induction false} WhereConcat<T(!new)>(a: seq<T>, b: seq<T>, keep: T -> bool)
    ensures Where(a + b, keep) == Where(a, keep) + Where(b, keep)
  {
    if a == [] {
      assert a + b == b;
    } else {
      var h := if keep(a[0]) then [a[0]] else [];
      assert (a + b)[0] == a[0] && (a + b)[1..] == a[1..] + b;
      WhereConcat(a[1..], b, keep);
      calc {
        Where(a + b, keep);
        h + Where(a[1..] + b, keep);
        h + (Where(a[1..], keep) + Where(b, keep));
        (h + Where(a[1..], keep)) + Where(b, keep);
        Where(a, keep) + Where(b, keep);
      }
    }
  }

  /** A mask that every row passes drops nothing. */
  lemma {:induction false} WhereKeepsAll<T(!new)>(s: seq<T>, keep: T -> bool)
    requires forall x :: x in s ==> keep(x)
    ensures Where(s, keep) == s
  {
    if s != [] {
      WhereKeepsAll(s[1..], keep);
    }
  }

  /** A mask that no row passes keeps nothing. */
  lemma {:induction false} WhereDropsAll<T(!new)>(s: seq<T>, keep: T -> bool)
    requires forall x :: x in s ==> !keep(x)
    ensures Where(s, keep) == []
  {
    if s != [] {
      WhereDropsAll(s[1..], keep);
    }
  }

  /** A mask that only row `i` passes selects exactly that row. */
  lemma {:induction false} WhereSingle<T>(s: seq<T>, keep: T -> bool, i: int)
    requires 0 <= i < |s| && keep(s[i])
    requires forall j :: 0 <= j < |s| && j != i ==> !keep(s[j])
    ensures Where(s, keep) == [s[i]]
  {
    if i == 0 {
      WhereNoneInRange(s, keep, 1, |s|);
      assert s[1..|s|] == s[1..];
    } else {
      var t := s[1..];
      forall j | 0 <= j < |t| && j != i - 1 ensures !keep(t[j]) {
        assert t[j] == s[j + 1];
      }
      WhereSingle(t, keep, i - 1);
      assert t[i - 1] == s[i];
    }
  }

  /** A stretch of rows that the mask rejects contributes nothing. */
  lemma {:induction false} WhereNoneInRange<T>(s: seq<T>, keep: T -> bool, lo: int, hi: int)
    requires 0 <= lo <= hi <= |s|
    requires forall j :: lo <= j < hi ==> !keep(s[j])
    ensures Where(s[lo..hi], keep) == []
    decreases hi - lo
  {
    if lo < hi {
      WhereNoneInRange(s, keep, lo + 1, hi);
      assert s[lo..hi][0] == s[lo] && s[lo..hi][1..] == s[lo + 1..hi];
    }
  }

  /** Reordering the rows reorders the selection the same way. */
  lemma WherePermutation<T(!new)>(a: seq<T>, b: seq<T>, keep: T -> bool)
    requires multiset(a) == multiset(b)
    ensures multiset(Where(a, keep)) == multiset(Where(b, keep))
  {
    WhereCount(a, keep);
    WhereCount(b, keep);
    forall x ensures multiset(Where(a, keep))[x] == multiset(Where(b, keep))[x] {
    }
  }

  /** The conjunction of two masks, `m1 & m2`. */
  function Both<T>(first: T -> bool, second: T -> bool): T -> bool
  {
    (x: T) => first(x) && second(x)
  }

  /** Applying one mask after another is applying both at once. */
  lemma {:induction false} WhereWhere<T(!new)>(s: seq<T>, first: T -> bool, second: T -> bool)
    ensures Where(Where(s, first), second) == Where(s, Both(first, second))
  {
    if s != [] {
      var head := if first(s[0]) then [s[0]] else [];
      assert Where(s, first) == head + Where(s[1..], first);
      WhereConcat(head, Where(s[1..], first), second);
      WhereWhere(s[1..], first, second);
      assert Where(head, second) == if first(s[0]) && second(s[0]) then [s[0]] else [];
    }
  }

  /** Masks that agree on every row present select the same rows. */
  lemma {:induction false} WhereSameMask<T(!new)>(s: seq<T>, k1: T -> bool, k2: T -> bool)
    requires forall x :: x in s ==> k1(x) == k2(x)
    ensures Where(s, k1) == Where(s, k2)
  {
    if s != [] {
      WhereSameMask(s[1..], k1, k2);
    }
  }

  /** An elementwise derived column: `df[c].map(f)` or `df.assign(...)`, row by row. */
  function Apply<A, B>(s: seq<A>, f: A -> B): (r: seq<B>)
    ensures |r| == |s|
  {
    if s == [] then [] else [f(s[0])] + Apply(s[1..], f)
  }

  /** Row `i` of the derived column is `f` of row `i`. */
  lemma {:induction false} ApplyAt<A, B>(s: seq<A>, f: A -> B, i: int)
    requires 0 <= i < |s|
    ensures Apply(s, f)[i] == f(s[i])
  {
    if i > 0 {
      ApplyAt(s[1..], f, i - 1);
    }
  }

  lemma {:induction false} ApplyConcat<A, B>(a: seq<A>, b: seq<A>, f: A -> B)
    ensures Apply(a + b, f) == Apply(a, f) + Apply(b, f)
  {
    if a == [] {
      assert a + b == b;
    } else {
      assert (a + b)[1..] == a[1..] + b;
      ApplyConcat(a[1..], b, f);
    }
  }

  /** Taking row `i` out of the table takes `f` of it out of the derived column. */
  lemma {:induction false} ApplyRemove<A, B>(b: seq<A>, i: int, f: A -> B)
    requires 0 <= i < |b|
    ensures multiset(Apply(b, f)) == multiset{f(b[i])} + multiset(Apply(b[..i] + b[i + 1..], f))
  {
    var left, right := b[..i], b[i + 1..];
    assert b == left + ([b[i]] + right);
    ApplyConcat(left, [b[i]] + right, f);
    ApplyConcat([b[i]], right, f);
    ApplyConcat(left, right, f);
    var fl, fr := Apply(left, f), Apply(right, f);
    assert Apply([b[i]], f) == [f(b[i])];
    assert Apply(b, f) == fl + ([f(b[i])] + fr);
    assert multiset(Apply(b, f)) == multiset(fl) + multiset{f(b[i])} + multiset(fr);
    assert multiset(Apply(left + right, f)) == multiset(fl) + multiset(fr);
  }

  /** Reordering the rows reorders the derived column the same way. */
  lemma {:induction false} ApplyPermutation<A, B>(a: seq<A>, b: seq<A>, f: A -> B)
    requires multiset(a) == multiset(b)
    ensures multiset(Apply(a, f)) == multiset(Apply(b, f))
    decreases |a|
  {
    if a == [] {
      assert |b| == |multiset(b)| == 0;
    } else {
      assert a[0] in multiset(b);
      var i :| 0 <= i < |b| && b[i] == a[0];
      var rest := b[..i] + b[i + 1..];
      assert b == b[..i] + [b[i]] + b[i + 1..];
      assert a == [a[0]] + a[1..];
      assert multiset(b) == multiset(b[..i]) + multiset{b[i]} + multiset(b[i + 1..]);
      assert multiset(rest) == multiset(b[..i]) + multiset(b[i + 1..]);
      assert multiset(a[1..]) == multiset(a) - multiset{a[0]};
      assert multiset(rest) == multiset(b) - multiset{b[i]};
      ApplyPermutation(a[1..], rest, f);
      ApplyRemove(b, i, f);
      ApplyRemove(a, 0, f);
      assert a[..0] + a[1..] == a[1..];
    }
  }

  /** The sum of a column: `df[c].sum()`, with the empty sum 0. */
  function Total<T>(s: seq<T>, value: T -> real): real
  {
    if s == [] then 0.0 else value(s[0]) + Total(s[1..], value)
  }

  lemma {:induction false} TotalConcat<T>(a: seq<T>, b: seq<T>, value: T -> real)
    ensures Total(a + b, value) == Total(a, value) + Total(b, value)
  {
    if a == [] {
      assert a + b == b;
    } else {
      assert (a + b)[1..] == a[1..] + b;
      TotalConcat(a[1..], b, value);
    }
  }

  /** The sum does not depend on the order of the rows. */
  lemma {:induction false} TotalPermutation<T>(a: seq<T>, b: seq<T>, value: T -> real)
    requires multiset(a) == multiset(b)
    ensures Total(a, value) == Total(b, value)
    decreases |a|
  {
    if a == [] {
      assert |b| == |multiset(b)| == 0;
    } else {
      assert a[0] in multiset(b);
      var i :| 0 <= i < |b| && b[i] == a[0];
      var rest := b[..i] + b[i + 1..];
      assert b == b[..i] + ([b[i]] + b[i + 1..]);
      assert a == [a[0]] + a[1..];
      assert multiset(b) == multiset(b[..i]) + multiset{b[i]} + multiset(b[i + 1..]);
      assert multiset(rest) == multiset(b[..i]) + multiset(b[i + 1..]);
      assert multiset(a) == multiset{a[0]} + multiset(a[1..]);
      assert multiset(a[1..]) == multiset(a) - multiset{a[0]};
      assert multiset(rest) == multiset(b) - multiset{b[i]};
      TotalPermutation(a[1..], rest, value);
      TotalConcat(b[..i], [b[i]] + b[i + 1..], value);
      TotalConcat([b[i]], b[i + 1..], value);
      TotalConcat(b[..i], b[i + 1..], value);
    }
  }
}
