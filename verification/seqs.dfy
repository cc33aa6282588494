/** Sequence helpers shared by the table operations. */
module Seqs {

  /** No element occurs twice. */
  predicate NoDups<T(==)>(s: seq<T>) {
    forall i, j :: 0 <= i < j < |s| ==> s[i] != s[j]
  }

  /** The elements of `s` as a set. */
  function Members<T(==)>(s: seq<T>): set<T>
  {
    set x | x in s
  }

  /** `f` applied to every element, in order. */
  function Map<T, U>(s: seq<T>, f: T -> U): (r: seq<U>)
    ensures |r| == |s|
    ensures forall i :: 0 <= i < |s| ==> r[i] == f(s[i])
  {
    seq(|s|, i requires 0 <= i < |s| => f(s[i]))
  }

  /** The position where `x` first occurs in `s`. */
  function FirstIndex<T(==)>(s: seq<T>, x: T): (i: nat)
    requires x in s
    ensures i < |s| && s[i] == x
    ensures x !in s[..i]
  {
    if s[0] == x then 0
    else
      assert x in s[1..];
      var k := FirstIndex(s[1..], x);
      assert s[..k + 1] == [s[0]] + s[1..][..k];
      k + 1
  }

  /** Every value of `s` once, at the place of its first occurrence: pandas'
      `Series.unique()`. */
  function Distinct<T(==)>(s: seq<T>): (r: seq<T>)
    ensures forall i :: 0 <= i < |r| ==> r[i] in s
    ensures forall i :: 0 <= i < |s| ==> s[i] in r
    ensures NoDups(r)
    ensures forall i, j :: 0 <= i < j < |r| ==> FirstIndex(s, r[i]) < FirstIndex(s, r[j])
    decreases |s|
  {
    if s == [] then []
    else
      var init := s[..|s| - 1];
      var last := s[|s| - 1];
      var d := Distinct(init);
      assert s == init + [last];
      DistinctPrefix(init, last, d);
      if last in d then d
      else
        DistinctAppend(init, last, d);
        d + [last]
  }

  /** Appending a value keeps the first occurrences of the prefix's values. */
  lemma DistinctPrefix<T>(init: seq<T>, last: T, d: seq<T>)
    requires forall i :: 0 <= i < |d| ==> d[i] in init
    requires forall i, j :: 0 <= i < j < |d| ==> FirstIndex(init, d[i]) < FirstIndex(init, d[j])
    ensures forall i :: 0 <= i < |d| ==> d[i] in init + [last]
    ensures forall i, j :: 0 <= i < j < |d| ==> FirstIndex(init + [last], d[i]) < FirstIndex(init + [last], d[j])
  {
    forall i | 0 <= i < |d| ensures FirstIndex(init + [last], d[i]) == FirstIndex(init, d[i]) {
      FirstIndexAppend(init, last, d[i]);
    }
  }

  /** A value new to the prefix goes after all the prefix's values. */
  lemma DistinctAppend<T>(init: seq<T>, last: T, d: seq<T>)
    requires forall i :: 0 <= i < |d| ==> d[i] in init
    requires forall i :: 0 <= i < |init| ==> init[i] in d
    requires NoDups(d)
    requires forall i, j :: 0 <= i < j < |d| ==> FirstIndex(init + [last], d[i]) < FirstIndex(init + [last], d[j])
    requires last !in d
    ensures NoDups(d + [last])
    ensures forall i, j :: 0 <= i < j < |d| + 1 ==>
              FirstIndex(init + [last], (d + [last])[i]) < FirstIndex(init + [last], (d + [last])[j])
  {
    var s := init + [last];
    var r := d + [last];
    assert last !in init;
    FirstIndexAppendNew(init, last);
    forall i | 0 <= i < |d| ensures FirstIndex(s, d[i]) < |init| {
      FirstIndexAppend(init, last, d[i]);
    }
    forall i, j | 0 <= i < j < |r| ensures FirstIndex(s, r[i]) < FirstIndex(s, r[j]) {
      if j == |d| {
        assert r[i] == d[i];
      } else {
        assert r[i] == d[i] && r[j] == d[j];
      }
    }
  }

  /** `Distinct` keeps the set of elements. */
  lemma DistinctMembers<T>(s: seq<T>)
    ensures Members(Distinct(s)) == Members(s)
  {
    var d := Distinct(s);
    forall x ensures x in d <==> x in s {
      if x in s {
        var i :| 0 <= i < |s| && s[i] == x;
      }
      if x in d {
        var i :| 0 <= i < |d| && d[i] == x;
      }
    }
  }

  /** Extending a sequence at the end does not move the first occurrence of
      anything already in it. */
  lemma {:induction false} FirstIndexAppend<T>(init: seq<T>, last: T, x: T)
    requires x in init
    ensures FirstIndex(init + [last], x) == FirstIndex(init, x)
  {
    var s := init + [last];
    if init[0] != x {
      assert s[1..] == init[1..] + [last];
      FirstIndexAppend(init[1..], last, x);
    }
  }

  /** A value new to a sequence first occurs where it is appended. */
  lemma {:induction false} FirstIndexAppendNew<T>(init: seq<T>, last: T)
    requires last !in init
    ensures FirstIndex(init + [last], last) == |init|
  {
    var s := init + [last];
    if init != [] {
      assert s[1..] == init[1..] + [last];
      FirstIndexAppendNew(init[1..], last);
    }
  }

  /** A sequence without duplicates has as many elements as its set. */
  lemma {:induction false} NoDupsCard<T>(s: seq<T>)
    requires NoDups(s)
    ensures |Members(s)| == |s|
  {
    if s != [] {
      var init := s[..|s| - 1];
      var last := s[|s| - 1];
      assert NoDups(init);
      NoDupsCard(init);
      assert s == init + [last];
      assert Members(s) == Members(init) + {last};
      assert last !in Members(init);
    }
  }

  /** Taking the head off one of two permutations, and the same value off the
      other at any of its positions, leaves two permutations. */
  lemma RemoveMatching<T>(a: seq<T>, b: seq<T>, p: nat)
    requires multiset(a) == multiset(b)
    requires a != [] && p < |b| && b[p] == a[0]
    ensures b == b[..p] + [b[p]] + b[p + 1..]
    ensures multiset(a[1..]) == multiset(b[..p] + b[p + 1..])
  {
    assert b == b[..p] + [b[p]] + b[p + 1..];
    assert a == [a[0]] + a[1..];
    calc {
      multiset(a[1..]);
      multiset(a) - multiset{a[0]};
      multiset(b) - multiset{b[p]};
      multiset(b[..p] + b[p + 1..]);
    }
  }

  /** Mapping distributes over concatenation. */
  lemma MapConcat<T, U>(a: seq<T>, b: seq<T>, f: T -> U)
    ensures Map(a + b, f) == Map(a, f) + Map(b, f)
  {
  }

  /** Mapping a permutation gives a permutation. */
  lemma {:induction false} MapPermutation<T, U>(a: seq<T>, b: seq<T>, f: T -> U)
    requires multiset(a) == multiset(b)
    ensures multiset(Map(a, f)) == multiset(Map(b, f))
    decreases |a|
  {
    if a != [] {
      var x := a[0];
      assert x in multiset(b);
      var p :| 0 <= p < |b| && b[p] == x;
      RemoveMatching(a, b, p);
      var rest := b[..p] + b[p + 1..];
      MapPermutation(a[1..], rest, f);
      assert a == [x] + a[1..];
      MapConcat([x], a[1..], f);
      MapConcat(b[..p] + [x], b[p + 1..], f);
      MapConcat(b[..p], [x], f);
      MapConcat(b[..p], b[p + 1..], f);
    }
  }

  /** A permutation of a duplicate-free sequence is duplicate-free. */
  lemma {:induction false} NoDupsPermutation<T>(a: seq<T>, b: seq<T>)
    requires multiset(a) == multiset(b)
    requires NoDups(a)
    ensures NoDups(b)
    decreases |a|
  {
    if a != [] {
      var x := a[0];
      assert x in multiset(b);
      var p :| 0 <= p < |b| && b[p] == x;
      RemoveMatching(a, b, p);
      var rest := b[..p] + b[p + 1..];
      assert NoDups(a[1..]);
      NoDupsPermutation(a[1..], rest);
      assert x !in a[1..];
      assert x !in multiset(rest);
      NoDupsSplice(b, p);
    }
  }

  /** Putting a value not yet present back into a duplicate-free sequence
      keeps it duplicate-free. */
  lemma NoDupsSplice<T>(b: seq<T>, p: nat)
    requires p < |b|
    requires NoDups(b[..p] + b[p + 1..])
    requires b[p] !in b[..p] + b[p + 1..]
    ensures NoDups(b)
  {
    var rest := b[..p] + b[p + 1..];
    forall i, j | 0 <= i < j < |b|
      ensures b[i] != b[j]
    {
      var i' := if i < p then i else i - 1;
      var j' := if j < p then j else j - 1;
      if i == p {
        assert b[j] == rest[j'];
      } else if j == p {
        assert b[i] == rest[i'];
      } else {
        assert b[i] == rest[i'] && b[j] == rest[j'];
      }
    }
  }

  /** The position of the first element of `names` missing from `pool`, or
      `|names|` when all are there. */
  function FirstAbsent<T(==)>(names: seq<T>, pool: seq<T>): (i: nat)
    ensures i <= |names|
    ensures forall j :: 0 <= j < i ==> names[j] in pool
    ensures i < |names| ==> names[i] !in pool
  {
    if names == [] || names[0] !in pool then 0
    else 1 + FirstAbsent(names[1..], pool)
  }
}
