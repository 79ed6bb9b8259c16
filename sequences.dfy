/** Row-set operations the pipeline applies to whole tables: keeping the rows a
    boolean mask selects, and keeping the first occurrence of every distinct
    row (`drop_duplicates`, and `unique` on a single column). */
module Sequences {

  predicate NoDuplicates<T(==)>(s: seq<T>) {
    forall i, j :: 0 <= i < j < |s| ==> s[i] != s[j]
  }

  /** Position of the first occurrence of `x` in `s`. */
  function IndexOf<T(==)>(s: seq<T>, x: T): (i: nat)
    requires x in s
    ensures i < |s| && s[i] == x
    ensures forall j :: 0 <= j < i ==> s[j] != x
  {
    if s[0] == x then 0 else 1 + IndexOf(s[1..], x)
  }

  // ---------------------------------------------------------------- subsequences

  /** `idx` lists, in increasing order, the positions of `s` that make up `r`. */
  ghost predicate SubsequenceWitness<T>(r: seq<T>, s: seq<T>, idx: seq<nat>) {
    && |idx| == |r|
    && (forall k :: 0 <= k < |idx| ==> idx[k] < |s| && r[k] == s[idx[k]])
    && (forall k, l :: 0 <= k < l < |idx| ==> idx[k] < idx[l])
  }

  /** `r` is `s` with some elements removed and the rest in their original order. */
  ghost predicate IsSubsequence<T>(r: seq<T>, s: seq<T>) {
    exists idx :: SubsequenceWitness(r, s, idx)
  }

  // ---------------------------------------------------------------- filtering

  /** The elements of `s` that `keep` accepts, in their original order: what
      `df[mask]` leaves of a table. */
  function Filter<T>(keep: T -> bool, s: seq<T>): (r: seq<T>)
    ensures |r| <= |s|
    ensures forall i :: 0 <= i < |r| ==> r[i] in s && keep(r[i])
    ensures forall i :: 0 <= i < |s| && keep(s[i]) ==> s[i] in r
  {
    if s == [] then []
    else
      var r' := Filter(keep, s[..|s| - 1]);
      if keep(s[|s| - 1]) then r' + [s[|s| - 1]] else r'
  }

  /** A witness into a prefix is a witness into the whole sequence. */
  lemma WidenWitness<T>(r: seq<T>, s: seq<T>, n: nat, idx: seq<nat>)
    requires n <= |s| && SubsequenceWitness(r, s[..n], idx)
    ensures SubsequenceWitness(r, s, idx)
  {
    forall k | 0 <= k < |idx| ensures idx[k] < |s| && r[k] == s[idx[k]] {
      assert s[..n][idx[k]] == s[idx[k]];
    }
  }

  /** Matching one more element at the end of `s` extends a witness. */
  lemma ExtendWitness<T>(r: seq<T>, s: seq<T>, idx: seq<nat>)
    requires |s| > 0 && SubsequenceWitness(r, s[..|s| - 1], idx)
    ensures SubsequenceWitness(r + [s[|s| - 1]], s, idx + [|s| - 1])
  {
    WidenWitness(r, s, |s| - 1, idx);
    var r', idx' := r + [s[|s| - 1]], idx + [|s| - 1];
    forall k | 0 <= k < |idx'| ensures idx'[k] < |s| && r'[k] == s[idx'[k]] {
      if k < |idx| {
        assert idx'[k] == idx[k] && r'[k] == r[k];
      }
    }
    forall k, l | 0 <= k < l < |idx'| ensures idx'[k] < idx'[l] {
      assert idx'[k] == idx[k];
      if l < |idx| {
        assert idx'[l] == idx[l];
      }
    }
  }

  /** Filtering only removes elements and keeps the order of the rest. */
  lemma {:induction false} FilterIsSubsequence<T>(keep: T -> bool, s: seq<T>)
    ensures IsSubsequence(Filter(keep, s), s)
  {
    if s == [] {
      assert SubsequenceWitness(Filter(keep, s), s, []);
    } else {
      var s' := s[..|s| - 1];
      FilterIsSubsequence(keep, s');
      var idx: seq<nat> :| SubsequenceWitness(Filter(keep, s'), s', idx);
      if keep(s[|s| - 1]) {
        ExtendWitness(Filter(keep, s'), s, idx);
        assert SubsequenceWitness(Filter(keep, s), s, idx + [|s| - 1]);
      } else {
        WidenWitness(Filter(keep, s'), s, |s| - 1, idx);
        assert SubsequenceWitness(Filter(keep, s), s, idx);
      }
    }
  }

  /** Two filters in a row select what their conjunction selects. */
  lemma {:induction false} FilterFilter<T>(p: T -> bool, q: T -> bool, both: T -> bool, s: seq<T>)
    requires forall x :: both(x) == (p(x) && q(x))
    ensures Filter(q, Filter(p, s)) == Filter(both, s)
  {
    if s != [] {
      var s' := s[..|s| - 1];
      FilterFilter(p, q, both, s');
      var fp := Filter(p, s');
      if p(s[|s| - 1]) {
        assert (fp + [s[|s| - 1]])[..|fp|] == fp;
      }
    }
  }

  /** Filtering again with the same mask removes nothing more. */
  lemma {:induction false} FilterIdempotent<T>(keep: T -> bool, s: seq<T>)
    ensures Filter(keep, Filter(keep, s)) == Filter(keep, s)
  {
    FilterFilter(keep, keep, keep, s);
  }

  /** Whatever a filter leaves of a duplicate-free sequence is duplicate-free. */
  lemma {:induction false} FilterKeepsNoDuplicates<T>(keep: T -> bool, s: seq<T>)
    requires NoDuplicates(s)
    ensures NoDuplicates(Filter(keep, s))
  {
    if s != [] {
      var s' := s[..|s| - 1];
      assert NoDuplicates(s');
      FilterKeepsNoDuplicates(keep, s');
      assert s[|s| - 1] !in s';
    }
  }

  /** A filter that no element passes leaves nothing. */
  lemma FilterNone<T>(keep: T -> bool, s: seq<T>)
    requires forall i :: 0 <= i < |s| ==> !keep(s[i])
    ensures Filter(keep, s) == []
  {
    if Filter(keep, s) != [] {
      assert false;
    }
  }

  /** `Select(rows, keep)` is `df[mask]` with `mask = rows.map(keep)`. */
  method Select<T>(rows: seq<T>, keep: T -> bool) returns (kept: seq<T>)
    ensures kept == Filter(keep, rows)
  {
    kept := [];
    var i := 0;
    while i < |rows|
      invariant 0 <= i <= |rows|
      invariant kept == Filter(keep, rows[..i])
    {
      assert rows[..i + 1][..i] == rows[..i];
      if keep(rows[i]) {
        kept := kept + [rows[i]];
      }
      i := i + 1;
    }
    assert rows[..|rows|] == rows;
  }

  // ---------------------------------------------------------------- distinct rows

  /** `s` with every element after its first occurrence removed. */
  function Distinct<T(==)>(s: seq<T>): (r: seq<T>)
    ensures |r| <= |s|
    ensures forall i :: 0 <= i < |r| ==> r[i] in s
    ensures forall i :: 0 <= i < |s| ==> s[i] in r
    ensures NoDuplicates(r)
  {
    if s == [] then []
    else
      var r' := Distinct(s[..|s| - 1]);
      if s[|s| - 1] in r' then r' else r' + [s[|s| - 1]]
  }

  /** The first occurrence of an element of a prefix is its first occurrence in
      the whole sequence. */
  lemma {:induction false} IndexOfPrefix<T>(s: seq<T>, n: nat, x: T)
    requires n <= |s| && x in s[..n]
    ensures IndexOf(s, x) == IndexOf(s[..n], x)
  {
    assert s[..n][0] == s[0];
    if s[0] != x {
      assert s[..n] == [s[0]] + s[1..][..n - 1];
      assert s[..n][1..] == s[1..][..n - 1];
      IndexOfPrefix(s[1..], n - 1, x);
    }
  }

  /** Appending an element whose first occurrence comes after those of all
      the elements of `r` keeps `r` ordered by first occurrence. */
  lemma AppendKeepsFirstOccurrenceOrder<T>(s: seq<T>, r: seq<T>, x: T)
    requires x in s
    requires forall i :: 0 <= i < |r| ==> r[i] in s && IndexOf(s, r[i]) < IndexOf(s, x)
    requires forall i, j :: 0 <= i < j < |r| ==> IndexOf(s, r[i]) < IndexOf(s, r[j])
    ensures forall i, j :: 0 <= i < j < |r + [x]| ==>
      IndexOf(s, (r + [x])[i]) < IndexOf(s, (r + [x])[j])
  {
    var r' := r + [x];
    forall i, j | 0 <= i < j < |r'|
      ensures IndexOf(s, r'[i]) < IndexOf(s, r'[j])
    {
      assert r'[i] == r[i];
      if j < |r| {
        assert r'[j] == r[j];
      }
    }
  }

  /** Distinct elements keep the relative order of their first occurrences. */
  lemma {:induction false} DistinctKeepsFirstOccurrenceOrder<T>(s: seq<T>)
    ensures forall i, j :: 0 <= i < j < |Distinct(s)| ==>
      IndexOf(s, Distinct(s)[i]) < IndexOf(s, Distinct(s)[j])
  {
    if s != [] {
      var n := |s| - 1;
      var s', x := s[..n], s[n];
      var r' := Distinct(s');
      assert Distinct(s) == if x in r' then r' else r' + [x];
      DistinctKeepsFirstOccurrenceOrder(s');
      forall i | 0 <= i < |r'|
        ensures r'[i] in s && IndexOf(s, r'[i]) == IndexOf(s', r'[i]) < n
      {
        IndexOfPrefix(s, n, r'[i]);
      }
      if x !in r' {
        forall j | 0 <= j < n ensures s[j] != x {
          assert s[j] == s'[j] && s'[j] in r';
        }
        assert IndexOf(s, x) == n;
        AppendKeepsFirstOccurrenceOrder(s, r', x);
      }
    }
  }

  /** A sequence without repeats is its own distinct sequence. */
  lemma {:induction false} DistinctOfNoDuplicates<T>(s: seq<T>)
    requires NoDuplicates(s)
    ensures Distinct(s) == s
  {
    if s != [] {
      var s' := s[..|s| - 1];
      assert NoDuplicates(s');
      DistinctOfNoDuplicates(s');
      assert s[|s| - 1] !in s';
      assert s' + [s[|s| - 1]] == s;
    }
  }

  /** Removing duplicates twice is removing them once. */
  lemma DistinctIdempotent<T>(s: seq<T>)
    ensures Distinct(Distinct(s)) == Distinct(s)
  {
    DistinctOfNoDuplicates(Distinct(s));
  }

  /** `DropDuplicates(rows)` is `drop_duplicates(keep='first')` on a table and
      `unique()` on a column: a scan that remembers the values already seen. */
  method DropDuplicates<T(==)>(rows: seq<T>) returns (kept: seq<T>)
    ensures kept == Distinct(rows)
  {
    kept := [];
    var seen: set<T> := {};
    var i := 0;
    while i < |rows|
      invariant 0 <= i <= |rows|
      invariant kept == Distinct(rows[..i])
      invariant forall x :: x in seen <==> x in kept
    {
      assert rows[..i + 1][..i] == rows[..i];
      if rows[i] !in seen {
        kept := kept + [rows[i]];
        seen := seen + {rows[i]};
      }
      i := i + 1;
    }
    assert rows[..|rows|] == rows;
  }
}
