/**
 * Duplicate-free sequences used as sets that remember insertion order. Both
 * the hash-based `Set` (whose `for ... in` visits keys in creation order) and
 * `ArraySet` (whose array keeps push order) are specified against these
 * functions: adding appends each new argument, removing deletes an element in
 * place.
 */
module OrderedSets {

  predicate NoDup<T(==)>(s: seq<T>) {
    forall i, j :: 0 <= i < j < |s| ==> s[i] != s[j]
  }

  function SetOf<T>(s: seq<T>): set<T> {
    set x | x in s
  }

  /** `Array.prototype.indexOf` with strict equality: the first position of
      `x`, or -1 when `x` does not occur. */
  function IndexOf<T(==)>(s: seq<T>, x: T): (r: int)
    ensures r == -1 <==> x !in s
    ensures r != -1 ==> 0 <= r < |s| && s[r] == x && x !in s[..r]
  {
    if |s| == 0 then -1
    else if s[0] == x then 0
    else
      var k := IndexOf(s[1..], x);
      assert k != -1 ==> s[1..][..k] == s[1..k + 1];
      if k == -1 then -1 else k + 1
  }

  /** One insertion: append `x` unless it is already present. */
  function Insert<T(==)>(s: seq<T>, x: T): seq<T> {
    if x in s then s else s + [x]
  }

  /** Insert each of `xs` in turn, first to last. */
  function InsertAll<T(==)>(s: seq<T>, xs: seq<T>): seq<T>
    decreases |xs|
  {
    if |xs| == 0 then s else Insert(InsertAll(s, xs[..|xs| - 1]), xs[|xs| - 1])
  }

  /** One deletion: drop the first occurrence of `x`, if any. */
  function Delete<T(==)>(s: seq<T>, x: T): seq<T> {
    if |s| == 0 then s
    else if s[0] == x then s[1..]
    else [s[0]] + Delete(s[1..], x)
  }

  /** Delete each of `xs` in turn, first to last. */
  function DeleteAll<T(==)>(s: seq<T>, xs: seq<T>): seq<T>
    decreases |xs|
  {
    if |xs| == 0 then s else Delete(DeleteAll(s, xs[..|xs| - 1]), xs[|xs| - 1])
  }

  // ---------------------------------------------------------------------------
  // Insertion

  lemma InsertAllStep<T>(s: seq<T>, xs: seq<T>, i: nat)
    requires i < |xs|
    ensures InsertAll(s, xs[..i + 1]) == Insert(InsertAll(s, xs[..i]), xs[i])
  {
    assert xs[..i + 1][..i] == xs[..i];
  }

  /** What `add(x1, ..., xn)` leaves: the old elements, untouched and in front,
      followed by the arguments that were not yet present, each once and in
      the order of their first occurrence among the arguments. */
  lemma {:induction false} InsertAllShape<T>(s: seq<T>, xs: seq<T>)
    ensures var r := InsertAll(s, xs);
      && |s| <= |r|
      && r[..|s|] == s
      && (forall x :: x in r <==> x in s || x in xs)
      && (forall i :: |s| <= i < |r| ==> r[i] !in s && r[i] in xs)
      && (forall i, j :: |s| <= i < j < |r| ==> IndexOf(xs, r[i]) < IndexOf(xs, r[j]))
    decreases |xs|
  {
    if |xs| > 0 {
      var ys, x := xs[..|xs| - 1], xs[|xs| - 1];
      assert xs == ys + [x];
      InsertAllShape(s, ys);
      var r' := InsertAll(s, ys);
      forall y | y in ys
        ensures IndexOf(xs, y) == IndexOf(ys, y)
      {
        IndexOfAppend(ys, x, y);
      }
      if x !in r' {
        IndexOfAppend(ys, x, x);
        assert IndexOf(xs, x) == |ys|;
      }
    }
  }

  lemma {:induction false} IndexOfAppend<T>(s: seq<T>, x: T, y: T)
    ensures y in s ==> IndexOf(s + [x], y) == IndexOf(s, y)
    ensures y !in s && y == x ==> IndexOf(s + [x], y) == |s|
  {
    if |s| > 0 {
      assert (s + [x])[1..] == s[1..] + [x];
      IndexOfAppend(s[1..], x, y);
    }
  }

  /** The class invariant "no duplicates" survives `add`. */
  lemma InsertAllNoDup<T>(s: seq<T>, xs: seq<T>)
    requires NoDup(s)
    ensures NoDup(InsertAll(s, xs))
  {
    InsertAllShape(s, xs);
    var r := InsertAll(s, xs);
    forall i, j | 0 <= i < j < |r|
      ensures r[i] != r[j]
    {
      if j < |s| {
        assert r[i] == s[i] && r[j] == s[j];
      } else if i < |s| {
        assert r[i] == s[i] && r[i] in s;
      }
    }
  }

  /** Adding values that are all present already changes nothing. */
  lemma {:induction false} InsertAllPresent<T>(s: seq<T>, xs: seq<T>)
    requires forall x :: x in xs ==> x in s
    ensures InsertAll(s, xs) == s
    decreases |xs|
  {
    if |xs| > 0 {
      InsertAllPresent(s, xs[..|xs| - 1]);
      assert xs[|xs| - 1] in xs;
    }
  }

  /** Adding the same arguments twice is the same as adding them once. */
  lemma InsertAllIdempotent<T>(s: seq<T>, xs: seq<T>)
    ensures InsertAll(InsertAll(s, xs), xs) == InsertAll(s, xs)
  {
    InsertAllShape(s, xs);
    InsertAllPresent(InsertAll(s, xs), xs);
  }

  /** A duplicate-free sequence has as many elements as its set. */
  lemma {:induction false} NoDupCard<T>(s: seq<T>)
    requires NoDup(s)
    ensures |SetOf(s)| == |s|
  {
    if |s| > 0 {
      var t := s[1..];
      assert NoDup(t) by {
        forall i, j | 0 <= i < j < |t| ensures t[i] != t[j] {
          assert t[i] == s[i + 1] && t[j] == s[j + 1];
        }
      }
      NoDupCard(t);
      assert SetOf(s) == {s[0]} + SetOf(t);
      assert s[0] !in SetOf(t);
    }
  }

  /** Starting from nothing, `add(x1, ..., xn)` holds as many elements as
      there are distinct values among the arguments. */
  lemma InsertAllCountsDistinct<T>(xs: seq<T>)
    ensures |InsertAll([], xs)| == |SetOf(xs)|
  {
    var r := InsertAll([], xs);
    InsertAllShape([], xs);
    InsertAllNoDup([], xs);
    NoDupCard(r);
    assert SetOf(r) == SetOf(xs);
  }

  // ---------------------------------------------------------------------------
  // Deletion

  /** `splice(p, 1)` at `p == indexOf(x)` is the deletion of `x`; an absent
      value is left alone. */
  lemma {:induction false} DeleteIsSplice<T>(s: seq<T>, x: T)
    ensures IndexOf(s, x) == -1 ==> Delete(s, x) == s
    ensures IndexOf(s, x) != -1 ==>
      var p := IndexOf(s, x); Delete(s, x) == s[..p] + s[p + 1..]
  {
    if |s| > 0 && s[0] != x {
      DeleteIsSplice(s[1..], x);
      var k := IndexOf(s[1..], x);
      if k != -1 {
        assert s[..k + 1] == [s[0]] + s[1..][..k];
        assert s[k + 2..] == s[1..][k + 1..];
      }
    }
  }

  /** Positions before the cut keep their element; later ones take the next. */
  lemma SpliceAt<T>(s: seq<T>, p: nat, i: nat)
    requires p < |s| && i < |s| - 1
    ensures (s[..p] + s[p + 1..])[i] == if i < p then s[i] else s[i + 1]
  {
  }

  lemma DeleteAllStep<T>(s: seq<T>, xs: seq<T>, i: nat)
    requires i < |xs|
    ensures DeleteAll(s, xs[..i + 1]) == Delete(DeleteAll(s, xs[..i]), xs[i])
  {
    assert xs[..i + 1][..i] == xs[..i];
  }

  /** In a duplicate-free sequence the deleted value is gone and every other
      element stays. */
  lemma DeleteMembers<T>(s: seq<T>, x: T)
    requires NoDup(s)
    ensures NoDup(Delete(s, x))
    ensures forall y :: y in Delete(s, x) <==> y in s && y != x
    ensures |Delete(s, x)| == if x in s then |s| - 1 else |s|
  {
    DeleteIsSplice(s, x);
    var p := IndexOf(s, x);
    if p != -1 {
      var r := Delete(s, x);
      assert forall i :: 0 <= i < p ==> r[i] == s[i];
      assert forall i :: p <= i < |r| ==> r[i] == s[i + 1];
      forall y | y in s && y != x
        ensures y in r
      {
        var q :| 0 <= q < |s| && s[q] == y;
        if q < p { assert r[q] == y; } else { assert r[q - 1] == y; }
      }
    }
  }

  /** What `remove(x1, ..., xn)` leaves in a duplicate-free sequence: exactly
      the old elements that are not among the arguments, still without
      duplicates. */
  lemma {:induction false} DeleteAllMembers<T>(s: seq<T>, xs: seq<T>)
    requires NoDup(s)
    ensures NoDup(DeleteAll(s, xs))
    ensures forall y :: y in DeleteAll(s, xs) <==> y in s && y !in xs
    decreases |xs|
  {
    if |xs| > 0 {
      var ys := xs[..|xs| - 1];
      DeleteAllMembers(s, ys);
      DeleteMembers(DeleteAll(s, ys), xs[|xs| - 1]);
      assert xs == ys + [xs[|xs| - 1]];
    }
  }

  /** Removing values that are all absent changes nothing. */
  lemma {:induction false} DeleteAllAbsent<T>(s: seq<T>, xs: seq<T>)
    requires forall x :: x in xs ==> x !in s
    ensures DeleteAll(s, xs) == s
    decreases |xs|
  {
    if |xs| > 0 {
      DeleteAllAbsent(s, xs[..|xs| - 1]);
      assert xs[|xs| - 1] in xs;
      DeleteIsSplice(s, xs[|xs| - 1]);
    }
  }

  /** `r` lists elements of `s` in the order they have in `s`. */
  ghost predicate InOrderOf<T>(r: seq<T>, s: seq<T>) {
    && (forall i :: 0 <= i < |r| ==> r[i] in s)
    && (forall i, j :: 0 <= i < j < |r| ==> IndexOf(s, r[i]) < IndexOf(s, r[j]))
  }

  /** Removal keeps the remaining elements in their relative order. */
  lemma {:induction false} DeleteAllKeepsOrder<T>(s: seq<T>, xs: seq<T>)
    requires NoDup(s)
    ensures InOrderOf(DeleteAll(s, xs), s)
    decreases |xs|
  {
    if |xs| == 0 {
      forall i | 0 <= i < |s|
        ensures IndexOf(s, s[i]) == i
      {
        IndexOfNoDup(s, i);
      }
    } else {
      var ys := xs[..|xs| - 1];
      DeleteAllKeepsOrder(s, ys);
      DeleteKeepsOrder(DeleteAll(s, ys), s, xs[|xs| - 1]);
    }
  }

  lemma DeleteKeepsOrder<T>(r: seq<T>, s: seq<T>, x: T)
    requires InOrderOf(r, s)
    ensures InOrderOf(Delete(r, x), s)
  {
    DeleteIsSplice(r, x);
    var p := IndexOf(r, x);
    if p != -1 {
      var d := r[..p] + r[p + 1..];
      forall i | 0 <= i < |d|
        ensures d[i] in s
      {
        SpliceAt(r, p, i);
      }
      forall i, j | 0 <= i < j < |d|
        ensures IndexOf(s, d[i]) < IndexOf(s, d[j])
      {
        SpliceAt(r, p, i);
        SpliceAt(r, p, j);
      }
    }
  }

  /** In a duplicate-free sequence every element sits at its first
      occurrence. */
  lemma IndexOfNoDup<T>(s: seq<T>, i: nat)
    requires NoDup(s) && i < |s|
    ensures IndexOf(s, s[i]) == i
  {
  }

  /** `add(x)` and `remove(x)` with one argument. */
  lemma InsertAllOne<T>(s: seq<T>, x: T)
    ensures InsertAll(s, [x]) == Insert(s, x)
  {
    assert [x][..0] == [];
  }

  lemma DeleteAllOne<T>(s: seq<T>, x: T)
    ensures DeleteAll(s, [x]) == Delete(s, x)
  {
    assert [x][..0] == [];
  }

  // ---------------------------------------------------------------------------
  // Finite sets

  /** A subset as large as its superset is the superset. */
  lemma SubsetSameSize<T>(a: set<T>, b: set<T>)
    requires a <= b && |a| == |b|
    ensures a == b
  {
    var d := b - a;
    assert a * d == {};
    assert b == a + d;
    assert |b| == |a| + |d|;
    assert d == {};
  }

  /** Two duplicate-free sequences of the same length, one included in the
      other, hold the same elements; and conversely. */
  lemma SameSizeInclusion<T>(xs: seq<T>, ys: seq<T>)
    requires NoDup(xs) && NoDup(ys)
    ensures (|xs| == |ys| && forall v :: v in xs ==> v in ys) <==> SetOf(xs) == SetOf(ys)
  {
    NoDupCard(xs);
    NoDupCard(ys);
    if |xs| == |ys| && forall v :: v in xs ==> v in ys {
      SubsetSameSize(SetOf(xs), SetOf(ys));
    }
    if SetOf(xs) == SetOf(ys) {
      forall v | v in xs
        ensures v in ys
      {
        assert v in SetOf(xs);
      }
    }
  }
}
