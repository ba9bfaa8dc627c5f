/** Sequence operations the components are built from: `Array.prototype.filter`,
    the de-duplication done by spreading a `Set` back into an array, and the
    notion of an order-preserving subsequence used to state what they keep. */
module Seqs {

  /** `a` is obtained from `b` by deleting elements, without reordering the rest. */
  ghost predicate IsSubsequence<T>(a: seq<T>, b: seq<T>)
    decreases |b|
  {
    if a == [] then true
    else if b == [] then false
    else (a[0] == b[0] && IsSubsequence(a[1..], b[1..])) || IsSubsequence(a, b[1..])
  }

  /** No element occurs twice. */
  ghost predicate NoDuplicates<T>(s: seq<T>)
  {
    forall i, j :: 0 <= i < j < |s| ==> s[i] != s[j]
  }

  /** `Array.prototype.filter`: the elements satisfying `f`, in their original order. */
  function Filter<T>(f: T -> bool, s: seq<T>): (r: seq<T>)
    ensures |r| <= |s|
    ensures forall i :: 0 <= i < |r| ==> r[i] in s && f(r[i])
    ensures forall i :: 0 <= i < |s| && f(s[i]) ==> s[i] in r
  {
    if s == [] then []
    else
      assert s == [s[0]] + s[1..];
      if f(s[0]) then [s[0]] + Filter(f, s[1..]) else Filter(f, s[1..])
  }

  /** Filtering keeps every occurrence of a passing element and no occurrence of a failing one,
      and what it keeps is an order-preserving subsequence of its input. */
  lemma {:induction false} FilterExact<T>(f: T -> bool, s: seq<T>)
    ensures IsSubsequence(Filter(f, s), s)
    ensures forall x :: multiset(Filter(f, s))[x] == if f(x) then multiset(s)[x] else 0
  {
    if s != [] {
      FilterExact(f, s[1..]);
      assert s == [s[0]] + s[1..];
      var r := Filter(f, s);
      if f(s[0]) {
        assert r[0] == s[0] && r[1..] == Filter(f, s[1..]);
      } else {
        var r' := Filter(f, s[1..]);
        if r' != [] {
          assert IsSubsequence(r', s[1..]);
        }
      }
    }
  }

  /** Filtering a sequence all of whose elements pass returns it unchanged. */
  lemma {:induction false} FilterAllPass<T>(f: T -> bool, s: seq<T>)
    requires forall i :: 0 <= i < |s| ==> f(s[i])
    ensures Filter(f, s) == s
  {
    if s != [] {
      FilterAllPass(f, s[1..]);
      assert s == [s[0]] + s[1..];
    }
  }

  /** Filtering a sequence none of whose elements pass yields the empty sequence. */
  lemma {:induction false} FilterNonePass<T>(f: T -> bool, s: seq<T>)
    requires forall i :: 0 <= i < |s| ==> !f(s[i])
    ensures Filter(f, s) == []
  {
    if s != [] {
      FilterNonePass(f, s[1..]);
    }
  }

  /** Filtering twice by the same predicate is filtering once. */
  lemma FilterIdempotent<T>(f: T -> bool, s: seq<T>)
    ensures Filter(f, Filter(f, s)) == Filter(f, s)
  {
    var r := Filter(f, s);
    FilterAllPass(f, r);
  }

  /** Two filters may be applied in either order. */
  lemma {:induction false} FilterCommutes<T>(f: T -> bool, g: T -> bool, s: seq<T>)
    ensures Filter(g, Filter(f, s)) == Filter(f, Filter(g, s))
  {
    if s != [] {
      FilterCommutes(f, g, s[1..]);
    }
  }

  /** Filtering an already filtered sequence keeps no more than filtering the original. */
  lemma FilterAfterFilterIsShorter<T>(f: T -> bool, g: T -> bool, s: seq<T>)
    ensures |Filter(g, Filter(f, s))| <= |Filter(g, s)|
  {
    FilterCommutes(f, g, s);
  }

  /** The first element of a filtered sequence is the first passing element of the input. */
  lemma {:induction false} FilterFirst<T>(f: T -> bool, s: seq<T>, k: nat)
    requires k < |s| && f(s[k])
    requires forall j :: 0 <= j < k ==> !f(s[j])
    ensures |Filter(f, s)| > 0 && Filter(f, s)[0] == s[k]
  {
    if k > 0 {
      assert !f(s[0]);
      FilterFirst(f, s[1..], k - 1);
    }
  }

  /** When exactly one position passes, filtering yields that one element. */
  lemma {:induction false} FilterSingle<T>(f: T -> bool, s: seq<T>, k: nat)
    requires k < |s| && f(s[k])
    requires forall j :: 0 <= j < |s| && j != k ==> !f(s[j])
    ensures Filter(f, s) == [s[k]]
  {
    if k == 0 {
      FilterNonePass(f, s[1..]);
    } else {
      assert !f(s[0]);
      FilterSingle(f, s[1..], k - 1);
    }
  }

  /** The index of the first occurrence of `x` in `s`. */
  function FirstIndex<T(==)>(s: seq<T>, x: T): (i: nat)
    requires x in s
    ensures i < |s| && s[i] == x
    ensures forall j :: 0 <= j < i ==> s[j] != x
  {
    if s[0] == x then 0 else 1 + FirstIndex(s[1..], x)
  }

  /** The elements of `s` not in `seen`, each once, at its first occurrence: what
      adding the elements of `s` one by one to a JavaScript `Set` that already holds
      `seen` appends to its iteration order. */
  function DistinctFrom<T(==)>(s: seq<T>, seen: set<T>): (r: seq<T>)
    ensures forall i :: 0 <= i < |r| ==> r[i] in s && r[i] !in seen
    ensures forall i :: 0 <= i < |s| && s[i] !in seen ==> s[i] in r
    ensures NoDuplicates(r)
  {
    if s == [] then []
    else
      assert s == [s[0]] + s[1..];
      if s[0] in seen then DistinctFrom(s[1..], seen)
      else
        var rest := DistinctFrom(s[1..], seen + {s[0]});
        assert forall i :: 0 <= i < |rest| ==> rest[i] in rest && rest[i] != s[0];
        [s[0]] + rest
  }

  /** `[...new Set(s)]`. */
  function Distinct<T(==)>(s: seq<T>): (r: seq<T>)
    ensures forall i :: 0 <= i < |r| ==> r[i] in s
    ensures forall i :: 0 <= i < |s| ==> s[i] in r
    ensures NoDuplicates(r)
  {
    DistinctFrom(s, {})
  }

  /** Dropping a head that differs from `x` shifts its first index by one. */
  lemma FirstIndexTail<T>(s: seq<T>, x: T)
    requires x in s && s[0] != x
    ensures x in s[1..] && FirstIndex(s, x) == 1 + FirstIndex(s[1..], x)
  {
    assert s == [s[0]] + s[1..];
  }

  lemma {:induction false} DistinctFromOrder<T>(s: seq<T>, seen: set<T>)
    ensures forall i, j :: 0 <= i < j < |DistinctFrom(s, seen)| ==>
      FirstIndex(s, DistinctFrom(s, seen)[i]) < FirstIndex(s, DistinctFrom(s, seen)[j])
  {
    if s != [] {
      var r := DistinctFrom(s, seen);
      if s[0] in seen {
        DistinctFromOrder(s[1..], seen);
        forall i, j | 0 <= i < j < |r| ensures FirstIndex(s, r[i]) < FirstIndex(s, r[j]) {
          assert r[i] in r && r[j] in r;
          FirstIndexTail(s, r[i]);
          FirstIndexTail(s, r[j]);
        }
      } else {
        var rest := DistinctFrom(s[1..], seen + {s[0]});
        DistinctFromOrder(s[1..], seen + {s[0]});
        assert r == [s[0]] + rest;
        forall i, j | 0 <= i < j < |r| ensures FirstIndex(s, r[i]) < FirstIndex(s, r[j]) {
          assert r[j] == rest[j - 1] && rest[j - 1] in rest;
          FirstIndexTail(s, r[j]);
          if i > 0 {
            assert r[i] == rest[i - 1] && rest[i - 1] in rest;
            FirstIndexTail(s, r[i]);
          }
        }
      }
    }
  }

  /** Every element of `a` occurs in `s`, and `a` lists them in order of their
      first occurrence in `s` (which also means no element of `a` repeats). */
  ghost predicate InFirstAppearanceOrder<T>(a: seq<T>, s: seq<T>)
  {
    (forall i :: 0 <= i < |a| ==> a[i] in s) &&
    forall i, j :: 0 <= i < j < |a| ==> a[i] in s && a[j] in s && FirstIndex(s, a[i]) < FirstIndex(s, a[j])
  }

  /** The de-duplicated sequence lists its elements in order of first appearance. */
  lemma DistinctOrder<T>(s: seq<T>)
    ensures InFirstAppearanceOrder(Distinct(s), s)
  {
    DistinctFromOrder(s, {});
  }

  lemma FirstAppearanceOrderTail<T>(a: seq<T>, s: seq<T>)
    requires InFirstAppearanceOrder(a, s) && a != []
    ensures InFirstAppearanceOrder(a[1..], s)
    ensures forall i :: 0 <= i < |a| - 1 ==> a[1..][i] != a[0]
  {
    forall i | 0 <= i < |a| - 1 ensures a[1..][i] != a[0] {
      assert FirstIndex(s, a[0]) < FirstIndex(s, a[i + 1]);
    }
  }

  lemma FirstAppearanceOrderHeads<T>(a: seq<T>, b: seq<T>, s: seq<T>)
    requires InFirstAppearanceOrder(a, s) && InFirstAppearanceOrder(b, s)
    requires a != [] && b != [] && a[0] in b && b[0] in a
    ensures a[0] == b[0]
  {
    var j :| 0 <= j < |b| && b[j] == a[0];
    var i :| 0 <= i < |a| && a[i] == b[0];
  }

  lemma TailsContained<T>(a: seq<T>, b: seq<T>)
    requires a != [] && b != [] && a[0] == b[0]
    requires forall i :: 0 <= i < |a| - 1 ==> a[1..][i] != a[0]
    requires forall i :: 0 <= i < |a| ==> a[i] in b
    ensures forall i :: 0 <= i < |a| - 1 ==> a[1..][i] in b[1..]
  {
    forall i | 0 <= i < |a| - 1 ensures a[1..][i] in b[1..] {
      var x := a[1..][i];
      assert x == a[i + 1];
      var j :| 0 <= j < |b| && b[j] == x;
      assert j != 0;
      assert b[1..][j - 1] == x;
    }
  }

  lemma ContainedInEmpty<T>(a: seq<T>, b: seq<T>)
    ensures (forall i :: 0 <= i < |a| ==> a[i] in b) && b == [] ==> a == []
  {
    if a != [] {
      assert a[0] in b ==> b != [];
    }
  }

  /** Two sequences with the same elements, both in order of first appearance in `s`, are equal. */
  lemma {:induction false} FirstAppearanceOrderUnique<T>(a: seq<T>, b: seq<T>, s: seq<T>)
    requires InFirstAppearanceOrder(a, s) && InFirstAppearanceOrder(b, s)
    requires forall i :: 0 <= i < |a| ==> a[i] in b
    requires forall i :: 0 <= i < |b| ==> b[i] in a
    ensures a == b
  {
    ContainedInEmpty(a, b);
    ContainedInEmpty(b, a);
    if a != [] && b != [] {
      assert a[0] in b && b[0] in a;
      FirstAppearanceOrderHeads(a, b, s);
      FirstAppearanceOrderTail(a, s);
      FirstAppearanceOrderTail(b, s);
      TailsContained(a, b);
      TailsContained(b, a);
      var a', b' := a[1..], b[1..];
      assert forall i :: 0 <= i < |a'| ==> a'[i] in b';
      assert forall i :: 0 <= i < |b'| ==> b'[i] in a';
      FirstAppearanceOrderUnique(a', b', s);
      assert a == [a[0]] + a';
      assert b == [b[0]] + b';
    }
  }
}
