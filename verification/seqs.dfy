/**
  Order-preserving filtering of sequences. Every row-selecting operation of the
  notification pipeline (the SQL `DELETE ... WHERE`, the per-recipient filter of
  openings, the removal of a character from a string) is an instance of `Keep`.
 */
module Seqs {

  /** The elements of `s` that satisfy `p`, in their original order, duplicates included. */
  function Keep<T(==,!new)>(s: seq<T>, p: T -> bool): (r: seq<T>)
    ensures |r| <= |s|
    ensures forall x :: x in r <==> x in s && p(x)
    ensures forall x :: multiset(r)[x] == if p(x) then multiset(s)[x] else 0
  {
    if |s| == 0 then []
    else
      var rest := Keep(s[1..], p);
      assert s == [s[0]] + s[1..];
      assert multiset(s) == multiset{s[0]} + multiset(s[1..]);
      if p(s[0]) then [s[0]] + rest else rest
  }

  /** Filtering distributes over concatenation: kept elements stay in input order. */
  lemma {:induction false} KeepConcat<T(!new)>(a: seq<T>, b: seq<T>, p: T -> bool)
    ensures Keep(a + b, p) == Keep(a, p) + Keep(b, p)
  {
    if |a| == 0 {
      assert a + b == b;
    } else {
      assert (a + b)[0] == a[0];
      assert (a + b)[1..] == a[1..] + b;
      KeepConcat(a[1..], b, p);
      if p(a[0]) {
        calc {
          Keep(a + b, p);
          [a[0]] + Keep(a[1..] + b, p);
          [a[0]] + (Keep(a[1..], p) + Keep(b, p));
          ([a[0]] + Keep(a[1..], p)) + Keep(b, p);
        }
      }
    }
  }

  /** Extending the input by one element extends the result by it exactly when it passes. */
  lemma KeepSnoc<T(!new)>(s: seq<T>, i: nat, p: T -> bool)
    requires i < |s|
    ensures Keep(s[..i + 1], p) == Keep(s[..i], p) + (if p(s[i]) then [s[i]] else [])
  {
    assert s[..i + 1] == s[..i] + [s[i]];
    KeepConcat(s[..i], [s[i]], p);
    KeepSingleton(s[i], p);
  }

  /** `f` applied to each element of `s`, in order. */
  function Map<A, B>(s: seq<A>, f: A --> B): (r: seq<B>)
    requires forall i :: 0 <= i < |s| ==> f.requires(s[i])
    ensures |r| == |s|
    ensures forall i :: 0 <= i < |s| ==> r[i] == f(s[i])
  {
    if |s| == 0 then [] else [f(s[0])] + Map(s[1..], f)
  }

  /** Mapping distributes over concatenation. */
  lemma MapConcat<A, B>(a: seq<A>, b: seq<A>, f: A --> B)
    requires forall i :: 0 <= i < |a| ==> f.requires(a[i])
    requires forall i :: 0 <= i < |b| ==> f.requires(b[i])
    ensures forall i :: 0 <= i < |a + b| ==> f.requires((a + b)[i])
    ensures Map(a + b, f) == Map(a, f) + Map(b, f)
  {
    assert forall i :: 0 <= i < |a| ==> (a + b)[i] == a[i];
    assert forall i :: 0 <= i < |b| ==> (a + b)[|a| + i] == b[i];
  }

  /** Filtering a filtered sequence again changes nothing. */
  lemma {:induction false} KeepIdempotent<T(!new)>(s: seq<T>, p: T -> bool)
    ensures Keep(Keep(s, p), p) == Keep(s, p)
  {
    if |s| > 0 {
      KeepIdempotent(s[1..], p);
    }
  }

  /** Two predicates that agree on the elements of `s` keep the same elements. */
  lemma {:induction false} KeepCongruent<T(!new)>(s: seq<T>, p: T -> bool, q: T -> bool)
    requires forall i :: 0 <= i < |s| ==> p(s[i]) == q(s[i])
    ensures Keep(s, p) == Keep(s, q)
  {
    if |s| > 0 {
      KeepCongruent(s[1..], p, q);
    }
  }

  /** When every element satisfies `p`, nothing is removed. */
  lemma {:induction false} KeepAll<T(!new)>(s: seq<T>, p: T -> bool)
    requires forall i :: 0 <= i < |s| ==> p(s[i])
    ensures Keep(s, p) == s
  {
    if |s| > 0 {
      KeepAll(s[1..], p);
      assert s == [s[0]] + s[1..];
    }
  }

  /** Dropping the one element that fails `p` joins the parts around it. */
  lemma KeepDropsOne<T(!new)>(a: seq<T>, x: T, b: seq<T>, p: T -> bool)
    requires !p(x)
    requires forall i :: 0 <= i < |a| ==> p(a[i])
    requires forall i :: 0 <= i < |b| ==> p(b[i])
    ensures Keep(a + [x] + b, p) == a + b
  {
    KeepAll(a, p);
    KeepAll(b, p);
    KeepSingleton(x, p);
    KeepConcat(a, [x], p);
    assert Keep(a + [x], p) == a + [] == a;
    KeepConcat(a + [x], b, p);
  }

  /** Keeping the elements of a singleton. */
  lemma KeepSingleton<T(!new)>(x: T, p: T -> bool)
    ensures Keep([x], p) == if p(x) then [x] else []
  {
    assert [x][1..] == [];
  }
}
