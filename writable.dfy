/**
 * The operations `AbstractWritableSet` derives from `add`, `remove`,
 * `foreach` and `contains` (JS-Practice/SubclassTest.js:405-432): `union`,
 * `intersection` and `difference`. `ArraySet` is the one concrete writable
 * class, so `self` is an `ArraySet`; the argument may be a set of any class.
 * Each returns `this`.
 */
module WritableSets {
  import opened Values
  import opened Outcomes
  import opened OrderedSets
  import opened Singletons
  import opened ArraySets
  import opened SetRefs

  // ---------------------------------------------------------------------------
  // union

  /** `union(that)`: `that.foreach` adds each of its members to `self`. A
      `NotSet` has no `foreach`, so the call throws before anything changes.
      Afterwards `self` holds every old member and every member of `that`,
      the new ones appended in the order `that` visits them. */
  method Union(self: ArraySet, that: SetRef) returns (r: Result<ArraySet>)
    requires self.Valid() && Valid(that)
    modifies self
    ensures that.NotRef? ==> r == Err(TypeError("foreach")) && unchanged(self)
    ensures CanEnumerate(that) ==> r == Ok(self) && self.Valid()
    ensures CanEnumerate(that) ==> self.values == InsertAll(old(self.values), old(Members(that)))
    ensures CanEnumerate(that) ==>
      forall v :: v in self.values <==> v in old(self.values) || v in old(Members(that))
  {
    var visited := Foreach(that);
    if visited.Err? {
      return Err(visited.error);
    }
    var vs := visited.value;
    var i := 0;
    while i < |vs|
      invariant 0 <= i <= |vs| && self.Valid()
      invariant self.values == InsertAll(old(self.values), vs[..i])
    {
      InsertAllOne(self.values, vs[i]);
      var _ := self.Add([vs[i]]);
      InsertAllStep(old(self.values), vs, i);
      i := i + 1;
    }
    assert vs[..i] == vs;
    InsertAllShape(old(self.values), vs);
    r := Ok(self);
  }

  // ---------------------------------------------------------------------------
  // difference

  /** `difference(that)`: `that.foreach` removes each of its members from
      `self`. What remains is exactly the old members `that` does not visit,
      in their old order. `that` must not be `self` itself (see the README). */
  method Difference(self: ArraySet, that: SetRef) returns (r: Result<ArraySet>)
    requires self.Valid() && Valid(that) && that != ArrayRef(self)
    modifies self
    ensures that.NotRef? ==> r == Err(TypeError("foreach")) && unchanged(self)
    ensures CanEnumerate(that) ==> r == Ok(self) && self.Valid()
    ensures CanEnumerate(that) ==> self.values == DeleteAll(old(self.values), old(Members(that)))
    ensures CanEnumerate(that) ==>
      forall v :: v in self.values <==> v in old(self.values) && v !in old(Members(that))
    ensures InOrderOf(self.values, old(self.values))
  {
    DeleteAllKeepsOrder(self.values, []);
    var visited := Foreach(that);
    if visited.Err? {
      return Err(visited.error);
    }
    var vs := visited.value;
    var i := 0;
    while i < |vs|
      invariant 0 <= i <= |vs| && self.Valid()
      invariant self.values == DeleteAll(old(self.values), vs[..i])
    {
      DeleteAllOne(self.values, vs[i]);
      var _ := self.Remove([vs[i]]);
      DeleteAllStep(old(self.values), vs, i);
      i := i + 1;
    }
    assert vs[..i] == vs;
    DeleteAllMembers(old(self.values), vs);
    DeleteAllKeepsOrder(old(self.values), vs);
    r := Ok(self);
  }

  // ---------------------------------------------------------------------------
  // intersection

  /** The values of `vals` that `that` contains. */
  ghost function Kept(vals: seq<Value>, that: SetRef): set<Value>
    reads Footprint(that)
    requires Valid(that)
  {
    set v | v in vals && Contains(that, v)
  }

  /** The values of `vals` outside `keep`, in order: the ones `intersection`
      is meant to remove. */
  function Dropped(vals: seq<Value>, keep: set<Value>): (d: seq<Value>)
    decreases |vals|
  {
    if |vals| == 0 then []
    else
      var last := vals[|vals| - 1];
      Dropped(vals[..|vals| - 1], keep) + if last in keep then [] else [last]
  }

  lemma {:induction false} DroppedMembers(vals: seq<Value>, keep: set<Value>)
    ensures forall v :: v in Dropped(vals, keep) <==> v in vals && v !in keep
    decreases |vals|
  {
    if |vals| > 0 {
      var init := vals[..|vals| - 1];
      DroppedMembers(init, keep);
      assert vals == init + [vals[|vals| - 1]];
    }
  }

  lemma DroppedStep(vals: seq<Value>, i: nat, keep: set<Value>)
    requires i < |vals|
    ensures Dropped(vals[..i + 1], keep)
         == Dropped(vals[..i], keep) + if vals[i] in keep then [] else [vals[i]]
  {
    assert vals[..i + 1][..i] == vals[..i];
  }

  lemma DeleteAllSnoc(s: seq<Value>, xs: seq<Value>, x: Value)
    ensures DeleteAll(s, xs + [x]) == Delete(DeleteAll(s, xs), x)
  {
    assert (xs + [x])[..|xs|] == xs;
  }

  /** `intersection(that)` as intended: remove every member of `self` that
      `that` does not contain, walking a copy of the array so that no member
      is passed over. Afterwards `self` holds exactly the old members `that`
      contains, in their old order. `that` must not be reached from `self`
      (see the README). */
  method Intersection(self: ArraySet, that: SetRef) returns (r: ArraySet)
    requires self.Valid() && Valid(that) && self !in Footprint(that)
    modifies self
    ensures r == self && self.Valid()
    ensures self.values == DeleteAll(old(self.values), Dropped(old(self.values), old(Kept(self.values, that))))
    ensures forall v :: v in self.values <==> v in old(self.values) && old(Contains(that, v))
    ensures InOrderOf(self.values, old(self.values))
  {
    FootprintAllocated(that);
    var snapshot := self.values;
    ghost var keep := Kept(snapshot, that);
    var i := 0;
    while i < |snapshot|
      invariant 0 <= i <= |snapshot| && self.Valid() && Valid(that)
      invariant forall v :: v in snapshot ==> (Contains(that, v) <==> v in keep)
      invariant self.values == DeleteAll(snapshot, Dropped(snapshot[..i], keep))
    {
      var v := snapshot[i];
      assert Contains(that, v) <==> v in keep;
      DroppedStep(snapshot, i, keep);
      DeleteAllSnoc(snapshot, Dropped(snapshot[..i], keep), v);
      assert Dropped(snapshot[..i], keep) + [] == Dropped(snapshot[..i], keep);
      RemoveUnlessContained(self, that, v);
      i := i + 1;
    }
    assert snapshot[..i] == snapshot;
    DroppedLeavesKept(snapshot, keep);
    r := self;
  }

  /** Deleting the dropped values leaves exactly the kept ones, in order. */
  lemma DroppedLeavesKept(s: seq<Value>, keep: set<Value>)
    requires NoDup(s)
    ensures NoDup(DeleteAll(s, Dropped(s, keep)))
    ensures forall v :: v in DeleteAll(s, Dropped(s, keep)) <==> v in s && v in keep
    ensures InOrderOf(DeleteAll(s, Dropped(s, keep)), s)
  {
    DroppedMembers(s, keep);
    DeleteAllMembers(s, Dropped(s, keep));
    DeleteAllKeepsOrder(s, Dropped(s, keep));
  }

  /** The callback `intersection` passes to `foreach`: remove `v` from `self`
      unless `that` contains it. */
  method RemoveUnlessContained(self: ArraySet, that: SetRef, v: Value)
    requires self.Valid() && Valid(that) && self !in Footprint(that)
    modifies self
    ensures self.Valid()
    ensures self.values == if old(Contains(that, v)) then old(self.values) else Delete(old(self.values), v)
  {
    if !Contains(that, v) {
      DeleteAllOne(self.values, v);
      var _ := self.Remove([v]);
    }
  }

  /** What `this.values.forEach` does while the callback splices out each
      value outside `keep` it is handed: `forEach` reads position `k` of the
      live array, a removal shifts the next value down into position `k`, and
      `forEach` moves on to `k + 1`, so that value is never looked at. It
      stops at the current length. */
  function LiveSweep(vals: seq<Value>, k: nat, keep: set<Value>): (r: seq<Value>)
    decreases |vals| - k
  {
    if k >= |vals| then vals
    else if vals[k] in keep then LiveSweep(vals, k + 1, keep)
    else LiveSweep(vals[..k] + vals[k + 1..], k + 1, keep)
  }

  /** Splicing out position `k` of a duplicate-free sequence removes that
      value and no other. */
  lemma SpliceMembers(vals: seq<Value>, k: nat)
    requires NoDup(vals) && k < |vals|
    ensures NoDup(vals[..k] + vals[k + 1..])
    ensures forall v :: v in vals[..k] + vals[k + 1..] <==> v in vals && v != vals[k]
  {
    IndexOfNoDup(vals, k);
    DeleteIsSplice(vals, vals[k]);
    DeleteMembers(vals, vals[k]);
  }

  /** What the sweep still guarantees: it adds nothing, keeps every value in
      `keep`, and keeps the array free of duplicates. */
  lemma {:induction false} LiveSweepBounds(vals: seq<Value>, k: nat, keep: set<Value>)
    requires NoDup(vals)
    ensures NoDup(LiveSweep(vals, k, keep))
    ensures forall v :: v in LiveSweep(vals, k, keep) ==> v in vals
    ensures forall v :: v in vals && v in keep ==> v in LiveSweep(vals, k, keep)
    decreases |vals| - k
  {
    if k < |vals| {
      if vals[k] in keep {
        LiveSweepBounds(vals, k + 1, keep);
      } else {
        SpliceMembers(vals, k);
        LiveSweepBounds(vals[..k] + vals[k + 1..], k + 1, keep);
      }
    }
  }

  /** `intersection(that)` as written: `this.foreach`, which for an
      `ArraySet` is `values.forEach`, calls `self.remove(v)` for each visited
      `v` that `that` lacks. `remove` finds `v` at the position `forEach` is
      at, as no value is stored twice, and splices it out there. */
  method IntersectionAsWritten(self: ArraySet, that: SetRef) returns (r: ArraySet)
    requires self.Valid() && Valid(that) && self !in Footprint(that)
    modifies self
    ensures r == self && self.Valid()
    ensures self.values == LiveSweep(old(self.values), 0, old(Kept(self.values, that)))
    ensures forall v :: v in self.values ==> v in old(self.values)
    ensures forall v :: v in old(self.values) && old(Contains(that, v)) ==> v in self.values
  {
    FootprintAllocated(that);
    ghost var start := self.values;
    ghost var keep := Kept(start, that);
    LiveSweepBounds(start, 0, keep);
    var k := 0;
    while k < |self.values|
      invariant self.Valid() && Valid(that)
      invariant forall v :: v in self.values ==> v in start
      invariant forall v :: v in start ==> (Contains(that, v) <==> v in keep)
      invariant LiveSweep(self.values, k, keep) == LiveSweep(start, 0, keep)
      decreases |self.values| - k
    {
      var v := self.values[k];
      IndexOfNoDup(self.values, k);
      DeleteIsSplice(self.values, v);
      SpliceMembers(self.values, k);
      RemoveUnlessContained(self, that, v);
      k := k + 1;
    }
    r := self;
  }

  /** The sweep passes over a value. `self` holds 1 then 2 and `that` contains
      neither: `forEach` removes 1, which moves 2 into the slot it has just
      visited, so 2 stays although `that` does not contain it. The corrected
      `Intersection` leaves nothing. */
  lemma IntersectionSkipsAValue()
    ensures var that := Singleton1Ref(SingletonSet1(Num(3)));
      var vals := [Num(1), Num(2)];
      && Kept(vals, that) == {}
      && LiveSweep(vals, 0, Kept(vals, that)) == [Num(2)]
      && DeleteAll(vals, Dropped(vals, Kept(vals, that))) == []
  {
    var that := Singleton1Ref(SingletonSet1(Num(3)));
    var vals := [Num(1), Num(2)];
    assert Kept(vals, that) == {};
    assert vals[..0] + vals[1..] == [Num(2)];
    assert vals[..1] == [Num(1)];
    assert Dropped([Num(1)], {}) == [Num(1)] by {
      assert [Num(1)][..0] == [];
    }
    assert Dropped(vals, {}) == vals;
    DeleteAllSnoc(vals, [Num(1)], Num(2));
    DeleteAllOne(vals, Num(1));
  }

  // `A = {1, 2, 3}` and `B = {2, 3, 4}`: `A.union(B)` holds 1, 2, 3, 4;
  // `A.intersection(B)` holds 2, 3 (as written too: the value it passes over
  // is one `B` contains); `A.difference(B)` holds 1.

  lemma UnionExample()
    ensures InsertAll([Num(1), Num(2), Num(3)], [Num(2), Num(3), Num(4)])
         == [Num(1), Num(2), Num(3), Num(4)]
  {
    var a, b := [Num(1), Num(2), Num(3)], [Num(2), Num(3), Num(4)];
    assert b[..2][..1] == [Num(2)] && b[..2] == [Num(2), Num(3)];
    InsertAllOne(a, Num(2));
  }

  lemma IntersectionExample(b: ArraySet)
    requires b.values == [Num(2), Num(3), Num(4)]
    ensures var a := [Num(1), Num(2), Num(3)];
      && Kept(a, ArrayRef(b)) == {Num(2), Num(3)}
      && DeleteAll(a, Dropped(a, {Num(2), Num(3)})) == [Num(2), Num(3)]
      && LiveSweep(a, 0, {Num(2), Num(3)}) == [Num(2), Num(3)]
  {
    var a := [Num(1), Num(2), Num(3)];
    var keep := {Num(2), Num(3)};
    assert Kept(a, ArrayRef(b)) == keep;
    assert a[..0] + a[1..] == [Num(2), Num(3)];
    assert a[..2][..1] == [Num(1)] && a[..2] == [Num(1), Num(2)];
    assert Dropped([Num(1)], keep) == [Num(1)] by {
      assert [Num(1)][..0] == [];
    }
    assert Dropped(a, keep) == [Num(1)];
    DeleteAllOne(a, Num(1));
  }

  lemma DifferenceExample()
    ensures DeleteAll([Num(1), Num(2), Num(3)], [Num(2), Num(3), Num(4)]) == [Num(1)]
  {
    var a, b := [Num(1), Num(2), Num(3)], [Num(2), Num(3), Num(4)];
    assert b[..2][..1] == [Num(2)] && b[..2] == [Num(2), Num(3)];
    assert a[1..] == [Num(2), Num(3)] && [Num(2), Num(3)][1..] == [Num(3)];
    assert Delete(a, Num(2)) == [Num(1), Num(3)];
    DeleteAllOne(a, Num(2));
    assert [Num(1), Num(3)][1..] == [Num(3)];
    assert Delete([Num(1), Num(3)], Num(3)) == [Num(1)];
    assert DeleteAll(a, b[..2]) == [Num(1)];
    assert [Num(1)][1..] == [];
    assert Delete([Num(1)], Num(4)) == [Num(1)];
  }
}
