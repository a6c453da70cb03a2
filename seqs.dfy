/**
 * Order-preserving filtering of a list: Python's
 * `[x for x in xs if keep(x)]` and JavaScript's `xs.filter(keep)`.
 */
module Seqs {

  function Filter<T>(s: seq<T>, keep: T -> bool): (r: seq<T>)
    ensures |r| <= |s|
  {
    if s == [] then [] else (if keep(s[0]) then [s[0]] else []) + Filter(s[1..], keep)
  }

  /** An element survives exactly when it was there and is kept. */
  lemma {:induction false} FilterMembership<T>(s: seq<T>, keep: T -> bool, x: T)
    ensures x in Filter(s, keep) <==> x in s && keep(x)
  {
    if s != [] {
      FilterMembership(s[1..], keep, x);
      assert s == [s[0]] + s[1..];
    }
  }

  /** Every surviving element is one that is kept. */
  lemma {:induction false} FilterAllKept<T>(s: seq<T>, keep: T -> bool)
    ensures forall i :: 0 <= i < |Filter(s, keep)| ==> keep(Filter(s, keep)[i])
  {
    forall i | 0 <= i < |Filter(s, keep)|
      ensures keep(Filter(s, keep)[i])
    {
      FilterMembership(s, keep, Filter(s, keep)[i]);
    }
  }

  /**
   * Filtering distributes over concatenation: together with the one-element
   * case this says that the survivors keep their relative order.
   */
  lemma {:induction false} FilterConcat<T>(a: seq<T>, b: seq<T>, keep: T -> bool)
    ensures Filter(a + b, keep) == Filter(a, keep) + Filter(b, keep)
  {
    if a == [] {
      assert a + b == b;
    } else {
      var head := if keep(a[0]) then [a[0]] else [];
      calc {
        Filter(a + b, keep);
        { assert (a + b)[0] == a[0]; assert (a + b)[1..] == a[1..] + b; }
        head + Filter(a[1..] + b, keep);
        { FilterConcat(a[1..], b, keep); }
        head + (Filter(a[1..], keep) + Filter(b, keep));
        (head + Filter(a[1..], keep)) + Filter(b, keep);
      }
    }
  }

  /** A list whose elements are all kept is left as it is. */
  lemma {:induction false} FilterKeepsAll<T>(s: seq<T>, keep: T -> bool)
    requires forall i :: 0 <= i < |s| ==> keep(s[i])
    ensures Filter(s, keep) == s
  {
    if s != [] {
      FilterKeepsAll(s[1..], keep);
    }
  }

  /** Filtering twice with the same test is filtering once. */
  lemma {:induction false} FilterIdempotent<T>(s: seq<T>, keep: T -> bool)
    ensures Filter(Filter(s, keep), keep) == Filter(s, keep)
  {
    FilterAllKept(s, keep);
    FilterKeepsAll(Filter(s, keep), keep);
  }

  /** A rejected element alone filters to nothing. */
  lemma {:induction false} FilterDropsRejected<T>(x: T, keep: T -> bool)
    requires !keep(x)
    ensures Filter([x], keep) == []
  {
    assert [x][1..] == [];
  }

  /**
   * When exactly one position fails the test, filtering removes that one
   * element and leaves the others in their order.
   */
  lemma {:induction false} FilterDropsOne<T>(s: seq<T>, keep: T -> bool, k: nat)
    requires k < |s| && !keep(s[k])
    requires forall i :: 0 <= i < |s| && i != k ==> keep(s[i])
    ensures Filter(s, keep) == s[..k] + s[k + 1..]
  {
    var front, back := s[..k], s[k + 1..];
    assert s == front + ([s[k]] + back);
    forall i | 0 <= i < |front|
      ensures keep(front[i])
    {
      assert front[i] == s[i];
    }
    forall i | 0 <= i < |back|
      ensures keep(back[i])
    {
      assert back[i] == s[k + 1 + i];
    }
    FilterKeepsAll(front, keep);
    FilterKeepsAll(back, keep);
    FilterConcat([s[k]], back, keep);
    FilterConcat(front, [s[k]] + back, keep);
    calc {
      Filter(s, keep);
      Filter(front, keep) + Filter([s[k]] + back, keep);
      front + (Filter([s[k]], keep) + back);
      { FilterDropsRejected(s[k], keep); }
      front + back;
    }
  }
}
