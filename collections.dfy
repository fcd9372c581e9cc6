/**
 * The list and set operations the session engine uses: JavaScript's
 * `Array.prototype.filter` and `concat`, and the add-or-delete toggle
 * on a `Set`.
 */
module Collections {

  /** `s.filter(keep)`: the elements of `s` that `keep` accepts, in order. */
  function Filter<T>(s: seq<T>, keep: T -> bool): (r: seq<T>)
    ensures |r| <= |s|
  {
    if s == [] then [] else (if keep(s[0]) then [s[0]] else []) + Filter(s[1..], keep)
  }

  /** A filtered list holds each accepted value as often as the list does,
      and no other value. */
  lemma {:induction false} FilterCounts<T(!new)>(s: seq<T>, keep: T -> bool)
    ensures forall x :: multiset(Filter(s, keep))[x] == if keep(x) then multiset(s)[x] else 0
  {
    if s != [] {
      FilterCounts(s[1..], keep);
      assert s == [s[0]] + s[1..];
    }
  }

  /** Every element of a filtered list comes from the list and is accepted. */
  lemma FilterMembers<T(!new)>(s: seq<T>, keep: T -> bool)
    ensures forall x :: x in Filter(s, keep) <==> x in s && keep(x)
  {
    var r := Filter(s, keep);
    FilterCounts(s, keep);
    forall x ensures x in r <==> x in s && keep(x) {
      assert x in r <==> multiset(r)[x] > 0;
      assert x in s <==> multiset(s)[x] > 0;
    }
  }

  /** Filtering a concatenation filters each part. */
  lemma {:induction false} FilterAppend<T>(a: seq<T>, b: seq<T>, keep: T -> bool)
    ensures Filter(a + b, keep) == Filter(a, keep) + Filter(b, keep)
  {
    if a == [] {
      assert a + b == b;
    } else {
      var c := a + b;
      assert c[0] == a[0] && c[1..] == a[1..] + b;
      FilterAppend(a[1..], b, keep);
      var h: seq<T> := if keep(a[0]) then [a[0]] else [];
      assert h + (Filter(a[1..], keep) + Filter(b, keep)) == (h + Filter(a[1..], keep)) + Filter(b, keep);
    }
  }

  /** Filtering twice with the same test is filtering once. */
  lemma {:induction false} FilterIdempotent<T>(s: seq<T>, keep: T -> bool)
    ensures Filter(Filter(s, keep), keep) == Filter(s, keep)
  {
    if s != [] {
      var h: seq<T> := if keep(s[0]) then [s[0]] else [];
      FilterIdempotent(s[1..], keep);
      FilterAppend(h, Filter(s[1..], keep), keep);
      assert Filter(h, keep) == h;
    }
  }

  /** `s.map(f)`, for an `f` that accepts every element. */
  function Map<A, B>(s: seq<A>, f: A --> B): seq<B>
    requires forall k :: 0 <= k < |s| ==> f.requires(s[k])
  {
    if s == [] then [] else [f(s[0])] + Map(s[1..], f)
  }

  /** `results.forEach(w => all = all.concat(w))`: the lists one after the
      other. */
  function Concat<T>(results: seq<seq<T>>): seq<T> {
    if results == [] then [] else results[0] + Concat(results[1..])
  }

  /** How often `x` occurs across all the lists. */
  function CountIn<T(==)>(results: seq<seq<T>>, x: T): nat {
    if results == [] then 0 else multiset(results[0])[x] + CountIn(results[1..], x)
  }

  /** The concatenation holds each value as often as all the lists together. */
  lemma {:induction false} ConcatCounts<T(!new)>(results: seq<seq<T>>)
    ensures forall x :: multiset(Concat(results))[x] == CountIn(results, x)
  {
    if results != [] {
      ConcatCounts(results[1..]);
    }
  }

  /** Appending one more list to the concatenation. */
  lemma {:induction false} ConcatSnoc<T>(results: seq<seq<T>>, r: seq<T>)
    ensures Concat(results + [r]) == Concat(results) + r
  {
    if results == [] {
      assert results + [r] == [r];
      assert [r][1..] == [];
    } else {
      assert (results + [r])[1..] == results[1..] + [r];
      ConcatSnoc(results[1..], r);
      ConcatAssoc(results[0], Concat(results[1..]), r);
    }
  }

  /** The concatenation of the first `i + 1` lists. */
  lemma ConcatPrefix<T>(results: seq<seq<T>>, i: nat)
    requires i < |results|
    ensures Concat(results[..i + 1]) == Concat(results[..i]) + results[i]
  {
    assert results[..i + 1] == results[..i] + [results[i]];
    ConcatSnoc(results[..i], results[i]);
  }

  lemma ConcatAssoc<T>(a: seq<T>, b: seq<T>, c: seq<T>)
    ensures a + (b + c) == (a + b) + c
  {
  }

  /** The concatenation holds exactly the elements of the lists. */
  lemma {:induction false} ConcatMembers<T>(results: seq<seq<T>>, x: T)
    ensures x in Concat(results) <==> exists k :: 0 <= k < |results| && x in results[k]
  {
    if results != [] {
      ConcatMembers(results[1..], x);
      if exists k :: 1 <= k < |results| && x in results[k] {
        var k :| 1 <= k < |results| && x in results[k];
        assert results[1..][k - 1] == results[k];
      }
      if x in Concat(results[1..]) {
        var k :| 0 <= k < |results[1..]| && x in results[1..][k];
        assert results[1..][k] == results[k + 1];
      }
    }
  }

  /** Filtering the concatenation is concatenating the filtered lists. */
  lemma {:induction false} FilterConcat<T>(results: seq<seq<T>>, keep: T -> bool)
    ensures Filter(Concat(results), keep) == Concat(seq(|results|, i requires 0 <= i < |results| => Filter(results[i], keep)))
  {
    var fs := seq(|results|, i requires 0 <= i < |results| => Filter(results[i], keep));
    if results != [] {
      FilterAppend(results[0], Concat(results[1..]), keep);
      FilterConcat(results[1..], keep);
      assert fs[1..] == seq(|results[1..]|, i requires 0 <= i < |results[1..]| => Filter(results[1..][i], keep));
    }
  }

  /** `if (s.has(x)) s.delete(x); else s.add(x);` */
  function Flip<T(==,!new)>(s: set<T>, x: T): (r: set<T>)
    ensures x in r <==> x !in s
    ensures forall y :: y != x ==> (y in r <==> y in s)
  {
    if x in s then s - {x} else s + {x}
  }

  /** Toggling twice restores the set. */
  lemma FlipFlip<T(!new)>(s: set<T>, x: T)
    ensures Flip(Flip(s, x), x) == s
  {
  }
}
