/** Sequence and result helpers shared by the pipeline: the outcome of an
    operation that can raise, duplicate-free sequences, first-occurrence
    de-duplication, order-keeping filters, subsequences and concatenation. */
module Collections {

  /** The outcome of an operation that can raise: its value, or the error it raises. */
  datatype Result<+T, +E> = Ok(value: T) | Err(error: E) {
    predicate IsFailure() { Err? }
    function PropagateFailure<U>(): Result<U, E> requires Err? { Err(error) }
    function Extract(): T requires Ok? { value }
  }

  predicate NoDuplicates<T(==)>(s: seq<T>) {
    forall i, j | 0 <= i < j < |s| :: s[i] != s[j]
  }

  /** `a` is `b` with some elements deleted and the rest kept in order
      (matched greedily from the back). */
  predicate IsSubseq<T(==)>(a: seq<T>, b: seq<T>)
    decreases |b|
  {
    if a == [] then true
    else if b == [] then false
    else if a[|a| - 1] == b[|b| - 1] then IsSubseq(a[..|a| - 1], b[..|b| - 1])
    else IsSubseq(a, b[..|b| - 1])
  }

  /** Appending an element to the larger sequence keeps a subsequence a subsequence. */
  lemma {:induction false} SubseqExtend<T>(a: seq<T>, b: seq<T>, x: T)
    requires IsSubseq(a, b)
    ensures IsSubseq(a, b + [x])
    decreases |b|, 1
  {
    var c := b + [x];
    assert c[..|c| - 1] == b;
    if a != [] && a[|a| - 1] == x {
      SubseqDropLast(a, b);
    }
  }

  /** Dropping the last element of a subsequence keeps it a subsequence. */
  lemma {:induction false} SubseqDropLast<T>(a: seq<T>, b: seq<T>)
    requires a != [] && IsSubseq(a, b)
    ensures IsSubseq(a[..|a| - 1], b)
    decreases |b|, 0
  {
    var b' := b[..|b| - 1];
    assert b == b' + [b[|b| - 1]];
    if a[|a| - 1] == b[|b| - 1] {
      SubseqExtend(a[..|a| - 1], b', b[|b| - 1]);
    } else {
      SubseqDropLast(a, b');
      SubseqExtend(a[..|a| - 1], b', b[|b| - 1]);
    }
  }

  /** The elements of `s` that satisfy `p`, in their original order. */
  function Filter<T>(s: seq<T>, p: T -> bool): (r: seq<T>)
    ensures |r| <= |s|
    ensures forall i | 0 <= i < |r| :: r[i] in s && p(r[i])
    ensures forall i | 0 <= i < |s| :: p(s[i]) ==> s[i] in r
    decreases |s|
  {
    if s == [] then []
    else
      assert s == s[..|s| - 1] + [s[|s| - 1]];
      Filter(s[..|s| - 1], p) + (if p(s[|s| - 1]) then [s[|s| - 1]] else [])
  }

  /** A filter deletes elements and never reorders the ones it keeps. */
  lemma {:induction false} FilterIsSubseq<T>(s: seq<T>, p: T -> bool)
    ensures IsSubseq(Filter(s, p), s)
    decreases |s|
  {
    if s != [] {
      var init, last := s[..|s| - 1], s[|s| - 1];
      assert s == init + [last];
      var f := Filter(init, p);
      FilterIsSubseq(init, p);
      if p(last) {
        var r := f + [last];
        assert Filter(s, p) == r;
        assert r[..|r| - 1] == f && s[..|s| - 1] == init;
        assert r[|r| - 1] == s[|s| - 1];
      } else {
        assert Filter(s, p) == f;
        SubseqExtend(f, init, last);
      }
    }
  }

  /** Two filters in a row keep what satisfies both predicates. */
  lemma {:induction false} FilterFilter<T>(s: seq<T>, p: T -> bool, q: T -> bool, both: T -> bool)
    requires forall x :: both(x) == (p(x) && q(x))
    ensures Filter(Filter(s, p), q) == Filter(s, both)
    decreases |s|
  {
    if s != [] {
      var init, last := s[..|s| - 1], s[|s| - 1];
      assert s == init + [last];
      FilterFilter(init, p, q, both);
      FilterSnoc(init, last, p);
      FilterSnoc(init, last, both);
      if p(last) {
        FilterSnoc(Filter(init, p), last, q);
      } else {
        assert Filter(s, p) == Filter(init, p);
      }
    }
  }

  /** Predicates that agree on the elements of `s` filter it alike. */
  lemma {:induction false} FilterCongruent<T>(s: seq<T>, p: T -> bool, q: T -> bool)
    requires forall i | 0 <= i < |s| :: p(s[i]) == q(s[i])
    ensures Filter(s, p) == Filter(s, q)
    decreases |s|
  {
    if s != [] {
      FilterCongruent(s[..|s| - 1], p, q);
    }
  }

  lemma FilterSnoc<T>(s: seq<T>, x: T, p: T -> bool)
    ensures Filter(s + [x], p) == if p(x) then Filter(s, p) + [x] else Filter(s, p)
  {
    assert (s + [x])[..|s|] == s;
  }

  /** Filtering distributes over concatenation. */
  lemma {:induction false} FilterConcat<T>(a: seq<T>, b: seq<T>, p: T -> bool)
    ensures Filter(a + b, p) == Filter(a, p) + Filter(b, p)
    decreases |b|
  {
    if b == [] {
      assert a + b == a;
    } else {
      var b', last := b[..|b| - 1], b[|b| - 1];
      assert a + b == (a + b') + [last];
      assert (a + b)[..|a + b| - 1] == a + b';
      assert b[..|b| - 1] == b';
      var tail := if p(last) then [last] else [];
      assert Filter(a + b, p) == Filter(a + b', p) + tail;
      assert Filter(b, p) == Filter(b', p) + tail;
      FilterConcat(a, b', p);
    }
  }

  /** A filter that every element passes changes nothing. */
  lemma {:induction false} FilterAll<T>(s: seq<T>, p: T -> bool)
    requires forall i | 0 <= i < |s| :: p(s[i])
    ensures Filter(s, p) == s
    decreases |s|
  {
    if s != [] {
      FilterAll(s[..|s| - 1], p);
      assert s == s[..|s| - 1] + [s[|s| - 1]];
    }
  }

  /** A filter that no element passes gives the empty sequence. */
  lemma {:induction false} FilterNone<T>(s: seq<T>, p: T -> bool)
    requires forall i | 0 <= i < |s| :: !p(s[i])
    ensures Filter(s, p) == []
    decreases |s|
  {
    if s != [] {
      FilterNone(s[..|s| - 1], p);
    }
  }

  /** A filter keeps every occurrence of a kept value, and no occurrence of a dropped one. */
  lemma {:induction false} FilterCount<T>(s: seq<T>, p: T -> bool, x: T)
    ensures multiset(Filter(s, p))[x] == if p(x) then multiset(s)[x] else 0
    decreases |s|
  {
    if s != [] {
      var init, last := s[..|s| - 1], s[|s| - 1];
      assert s == init + [last];
      FilterCount(init, p, x);
      assert multiset(s) == multiset(init) + multiset{last};
    }
  }

  lemma FilterCountAll<T>(s: seq<T>, p: T -> bool)
    ensures forall x :: multiset(Filter(s, p))[x] == if p(x) then multiset(s)[x] else 0
  {
    forall x ensures multiset(Filter(s, p))[x] == if p(x) then multiset(s)[x] else 0 {
      FilterCount(s, p, x);
    }
  }

  /** A filter of a duplicate-free sequence is duplicate-free. */
  lemma {:induction false} FilterNoDuplicates<T>(s: seq<T>, p: T -> bool)
    requires NoDuplicates(s)
    ensures NoDuplicates(Filter(s, p))
    decreases |s|
  {
    if s != [] {
      var init, last := s[..|s| - 1], s[|s| - 1];
      assert s == init + [last];
      assert NoDuplicates(init) by {
        forall i, j | 0 <= i < j < |init| ensures init[i] != init[j] {
          assert init[i] == s[i] && init[j] == s[j];
        }
      }
      FilterNoDuplicates(init, p);
      assert last !in init;
    }
  }

  /** What filtering keeps: the members satisfying `p`, in order, each as often
      as it occurs, and no duplicates if there were none. */
  lemma FilterFacts<T>(s: seq<T>, p: T -> bool)
    ensures forall x :: x in Filter(s, p) <==> x in s && p(x)
    ensures IsSubseq(Filter(s, p), s)
    ensures forall x :: multiset(Filter(s, p))[x] == if p(x) then multiset(s)[x] else 0
    ensures NoDuplicates(s) ==> NoDuplicates(Filter(s, p))
  {
    FilterIsSubseq(s, p);
    FilterCountAll(s, p);
    if NoDuplicates(s) {
      FilterNoDuplicates(s, p);
    }
  }

  /** First-occurrence de-duplication: every value once, where it first occurs. */
  function Distinct<T(==)>(s: seq<T>): (r: seq<T>)
    ensures NoDuplicates(r)
    ensures forall i | 0 <= i < |r| :: r[i] in s
    ensures forall i | 0 <= i < |s| :: s[i] in r
    ensures |r| <= |s|
    decreases |s|
  {
    if s == [] then []
    else
      var init, last := s[..|s| - 1], s[|s| - 1];
      assert s == init + [last];
      var d := Distinct(init);
      if last in d then d else d + [last]
  }

  /** De-duplication deletes elements and never reorders the ones it keeps. */
  lemma {:induction false} DistinctIsSubseq<T>(s: seq<T>)
    ensures IsSubseq(Distinct(s), s)
    decreases |s|
  {
    if s != [] {
      var init, last := s[..|s| - 1], s[|s| - 1];
      assert s == init + [last];
      var d := Distinct(init);
      assert IsSubseq(d, init) by {
        DistinctIsSubseq(init);
      }
      if last in d {
        assert Distinct(s) == d;
        SubseqExtend(d, init, last);
      } else {
        var r := d + [last];
        assert Distinct(s) == r;
        assert r[..|r| - 1] == d && r[|r| - 1] == s[|s| - 1];
      }
    }
  }

  /** De-duplication of a sequence extended by one element. */
  lemma DistinctSnoc<T>(s: seq<T>, x: T)
    ensures Distinct(s + [x]) == if x in s then Distinct(s) else Distinct(s) + [x]
  {
    assert (s + [x])[..|s|] == s;
  }

  /** De-duplication keeps first occurrences: de-duplicating any prefix of `s`
      gives a prefix of the de-duplicated `s`, so a value stands where it
      first occurs and a later repeat never moves it. */
  lemma {:induction false} DistinctPrefix<T>(s: seq<T>, k: nat)
    requires k <= |s|
    ensures Distinct(s[..k]) <= Distinct(s)
    decreases |s|
  {
    if k < |s| {
      var init, last := s[..|s| - 1], s[|s| - 1];
      assert s == init + [last];
      assert s[..k] == init[..k];
      DistinctPrefix(init, k);
      DistinctSnoc(init, last);
    } else {
      assert s[..k] == s;
    }
  }

  /** Each sequence of `xs` extended by the same final element `v`. */
  function AppendEach<T>(xs: seq<seq<T>>, v: T): (r: seq<seq<T>>)
    ensures |r| == |xs|
    ensures forall i | 0 <= i < |xs| :: r[i] == xs[i] + [v]
  {
    seq(|xs|, i requires 0 <= i < |xs| => xs[i] + [v])
  }

  lemma AppendEachMember<T>(xs: seq<seq<T>>, x: seq<T>, v: T)
    ensures x + [v] in AppendEach(xs, v) <==> x in xs
  {
    if x + [v] in AppendEach(xs, v) {
      var i :| 0 <= i < |xs| && AppendEach(xs, v)[i] == x + [v];
      assert xs[i] == (xs[i] + [v])[..|xs[i]|];
      assert x == (x + [v])[..|x|];
    }
    if x in xs {
      var i :| 0 <= i < |xs| && xs[i] == x;
      assert AppendEach(xs, v)[i] == x + [v];
    }
  }

  /** Extending every element by the same value and de-duplicating commute. */
  lemma {:induction false} DistinctAppendEach<T>(xs: seq<seq<T>>, v: T)
    ensures Distinct(AppendEach(xs, v)) == AppendEach(Distinct(xs), v)
    decreases |xs|
  {
    if xs != [] {
      var n := |xs| - 1;
      var init, last := xs[..n], xs[n];
      var a, y := AppendEach(init, v), last + [v];
      assert xs == init + [last];
      assert AppendEach(xs, v) == a + [y];
      var d := Distinct(init);
      assert Distinct(a) == AppendEach(d, v) by {
        DistinctAppendEach(init, v);
      }
      assert Distinct(a + [y]) == if y in a then Distinct(a) else Distinct(a) + [y] by {
        DistinctSnoc(a, y);
      }
      assert Distinct(xs) == if last in init then d else d + [last] by {
        DistinctSnoc(init, last);
      }
      assert y in a <==> last in init by {
        AppendEachMember(init, last, v);
      }
      if last !in init {
        assert AppendEach(d + [last], v) == AppendEach(d, v) + [y];
      }
    }
  }

  /** `k` copies of `x`. */
  function Repeat<T>(x: T, k: nat): (r: seq<T>)
    ensures |r| == k
    ensures forall i | 0 <= i < k :: r[i] == x
  {
    seq(k, _ => x)
  }

  /** De-duplicating a block of copies of a new value after `s` adds that value
      once if the block is not empty, and nothing otherwise. */
  lemma {:induction false} DistinctAppendRepeat<T>(s: seq<T>, x: T, k: nat)
    requires x !in s
    ensures Distinct(s + Repeat(x, k)) == if k == 0 then Distinct(s) else Distinct(s) + [x]
    decreases k
  {
    if k == 0 {
      assert s + Repeat(x, k) == s;
    } else {
      var t := s + Repeat(x, k - 1);
      assert Repeat(x, k) == Repeat(x, k - 1) + [x];
      assert s + Repeat(x, k) == t + [x];
      DistinctSnoc(t, x);
      if k == 1 {
        assert t == s;
      } else {
        DistinctAppendRepeat(s, x, k - 1);
        assert t[|s|] == x;
      }
    }
  }

  /** Concatenation of a sequence of sequences, front to back. */
  function Concat<T>(ss: seq<seq<T>>): (r: seq<T>)
    decreases |ss|
  {
    if ss == [] then [] else Concat(ss[..|ss| - 1]) + ss[|ss| - 1]
  }

}
