/**
 * The operations `AbstractEnumerableSet` derives from `size`, `foreach` and
 * `contains` (JS-Practice/SubclassTest.js:324-379): `isEmpty`, `toString`,
 * `toArray` and `equals`. `SingletonSet1` and `ArraySet` inherit them. The
 * `toString` and `equals` of `NotSet` (:309-314), which call the wrapped
 * set's own, are here too.
 */
module EnumerableSets {
  import opened Values
  import opened Outcomes
  import opened OrderedSets
  import opened Singletons
  import opened ArraySets
  import opened SetRefs

  // ---------------------------------------------------------------------------
  // isEmpty, toArray

  /** `isEmpty()`: `size() == 0`, which holds exactly when `foreach` visits
      nothing and `contains` holds of no value. */
  function IsEmpty(r: SetRef): (b: bool)
    reads Footprint(r)
    requires Valid(r) && IsEnumerableSet(r)
    ensures b <==> Members(r) == []
    ensures b <==> forall v :: !Contains(r, v)
  {
    CapabilitiesAgree(r);
    if Size(r) != 0 then
      var m := Members(r)[0];
      assert Contains(r, m);
      assert exists v :: Contains(r, v);
      false
    else true
  }

  /** `toArray()`: the callback pushes each visited value onto `a`, so the
      array lists the members in `foreach` order, once each. */
  method ToArray(r: SetRef) returns (a: seq<Value>)
    requires Valid(r) && IsEnumerableSet(r)
    ensures a == Members(r)
    ensures |a| == Size(r) && NoDup(a)
  {
    var visited := Foreach(r);
    var vs := visited.value;
    a := [];
    var k := 0;
    while k < |vs|
      invariant 0 <= k <= |vs|
      invariant a == vs[..k]
    {
      a := a + [vs[k]];
      k := k + 1;
    }
    assert vs[..k] == vs;
    CapabilitiesAgree(r);
  }

  /** `r.isEmpty()` for any set: only the `AbstractEnumerableSet` family
      has it; on `Set`, its subclasses and `NotSet` the call is a
      TypeError. */
  method IsEmptyOf(r: SetRef) returns (b: Result<bool>)
    requires Valid(r)
    ensures !IsEnumerableSet(r) ==> b == Err(TypeError("isEmpty"))
    ensures IsEnumerableSet(r) ==> b.Ok? && (b.value <==> Members(r) == [])
  {
    if IsEnumerableSet(r) {
      b := Ok(IsEmpty(r));
    } else {
      b := Err(TypeError("isEmpty"));
    }
  }

  /** `r.toArray()` for any set: a TypeError outside the
      `AbstractEnumerableSet` family. */
  method ToArrayOf(r: SetRef) returns (a: Result<seq<Value>>)
    requires Valid(r)
    ensures !IsEnumerableSet(r) ==> a == Err(TypeError("toArray"))
    ensures IsEnumerableSet(r) ==> a == Ok(Members(r))
  {
    if IsEnumerableSet(r) {
      var vs := ToArray(r);
      a := Ok(vs);
    } else {
      a := Err(TypeError("toArray"));
    }
  }

  // ---------------------------------------------------------------------------
  // toString

  /** The string forms of the values, in order. */
  function Displays(vs: seq<Value>): (ds: seq<string>)
    ensures |ds| == |vs|
    ensures forall i :: 0 <= i < |vs| ==> ds[i] == Display(vs[i])
  {
    seq(|vs|, i requires 0 <= i < |vs| => Display(vs[i]))
  }

  /** The parts separated by ", ". */
  function Join(parts: seq<string>): string
    decreases |parts|
  {
    if |parts| == 0 then ""
    else if |parts| == 1 then parts[0]
    else Join(parts[..|parts| - 1]) + ", " + parts[|parts| - 1]
  }

  /** What `toString()` returns for each kind of set: `{v1, v2, ...}` for an
      enumerable set, `~` before the wrapped set's text for a `NotSet`, and the
      default `[object Object]` for the `Set` family, which has no
      `toString` of its own. */
  ghost function Rendered(r: SetRef): string
    reads Footprint(r)
    requires Valid(r)
  {
    if r.NotRef? then "~" + Rendered(r.n.inner)
    else if IsEnumerableSet(r) then "{" + Join(Displays(Members(r))) + "}"
    else "[object Object]"
  }

  lemma JoinStep(vs: seq<Value>, i: nat)
    requires i < |vs|
    ensures Join(Displays(vs[..i + 1]))
         == if i == 0 then Display(vs[0]) else Join(Displays(vs[..i])) + ", " + Display(vs[i])
  {
    var ds := Displays(vs[..i + 1]);
    assert ds[..i] == Displays(vs[..i]);
  }

  /** `AbstractEnumerableSet.toString()`: the text of the values `foreach`
      visits, in braces. */
  method EnumerableToString(r: SetRef) returns (s: string)
    requires Valid(r) && IsEnumerableSet(r)
    ensures s == Rendered(r)
    ensures s == "{" + Join(Displays(Members(r))) + "}"
  {
    var visited := Foreach(r);
    s := BraceList(visited.value);
  }

  /** The callback of `toString()` over the visited values: start with "{",
      append ", " before every value but the first (the counter `i`) and the
      value's string form, then close with "}". */
  method BraceList(vs: seq<Value>) returns (s: string)
    ensures s == "{" + Join(Displays(vs)) + "}"
  {
    s := "{";
    var i := 0;
    while i < |vs|
      invariant 0 <= i <= |vs|
      invariant s == "{" + Join(Displays(vs[..i]))
    {
      ghost var before := Join(Displays(vs[..i]));
      JoinStep(vs, i);
      if i > 0 {
        s := s + ", ";
      }
      s := s + Display(vs[i]);
      assert s == "{" + Join(Displays(vs[..i + 1])) by {
        if i > 0 {
          assert s == "{" + before + ", " + Display(vs[i]);
        }
      }
      i := i + 1;
    }
    assert vs[..i] == vs;
    s := s + "}";
  }

  /** `r.toString()` for any set: `NotSet.toString` puts "~" before the
      wrapped set's `toString()`. */
  method ToString(r: SetRef) returns (s: string)
    requires Valid(r)
    ensures s == old(Rendered(r))
    decreases r
  {
    match r
    case NotRef(n) =>
      var inner := ToString(n.inner);
      s := "~" + inner;
    case Singleton1Ref(_) =>
      s := EnumerableToString(r);
    case ArrayRef(_) =>
      s := EnumerableToString(r);
    case _ =>
      s := "[object Object]";
  }

  /** A set holding 1, 2 and 3 in that order prints as "{1, 2, 3}"; a
      complement of it as "~{1, 2, 3}". */
  lemma RenderedExample(a: ArraySet)
    requires a.Valid() && a.values == [Num(1), Num(2), Num(3)]
    ensures Rendered(ArrayRef(a)) == "{1, 2, 3}"
    ensures Rendered(NotRef(NotSet(ArrayRef(a)))) == "~{1, 2, 3}"
  {
    var ds := Displays(a.values);
    assert ds == ["1", "2", "3"];
    assert ds[..2][..1] == ["1"];
    assert Join(ds[..2]) == "1, 2";
  }

  // ---------------------------------------------------------------------------
  // equals

  /** What `a.equals(b)` returns, or throws.
      - An enumerable set: `b` must be enumerable too, have the same size,
        and contain every value `a` visits.
      - `SingletonSet`: see `SingletonEquals`.
      - `NotSet`: `b` must be a `NotSet` whose wrapped set the wrapped set of
        `a` equals; `&&` skips the inner call when `b` is not one.
      - `Set` and `FilteredSet` have no `equals`: a TypeError. */
  ghost function EqualsResult(a: SetRef, b: SetRef): Result<bool>
    reads Footprint(a), Footprint(b)
    requires Valid(a) && Valid(b)
  {
    match a
    case NotRef(n) =>
      if b.NotRef? then EqualsResult(n.inner, b.n.inner) else Ok(false)
    case SingletonRef(s) => Ok(SingletonEquals(s, b))
    case Singleton1Ref(_) => EnumerableEqualsResult(a, b)
    case ArrayRef(_) => EnumerableEqualsResult(a, b)
    case _ => Err(TypeError("equals"))
  }

  ghost function EnumerableEqualsResult(a: SetRef, b: SetRef): Result<bool>
    reads Footprint(a), Footprint(b)
    requires Valid(a) && Valid(b) && IsEnumerableSet(a)
  {
    Ok(IsEnumerableSet(b) && Size(a) == Size(b) && forall v :: v in Members(a) ==> Contains(b, v))
  }

  /** `AbstractEnumerableSet.equals(that)`: false for a set that is not
      enumerable or not of the same size; otherwise the callback throws
      `false` at the first visited value `that` lacks, which ends the scan and
      is caught as the answer. */
  method EnumerableEquals(a: SetRef, b: SetRef) returns (r: bool)
    requires Valid(a) && Valid(b) && IsEnumerableSet(a)
    ensures Ok(r) == old(EqualsResult(a, b))
  {
    if !IsEnumerableSet(b) {
      return false;
    }
    if Size(a) != Size(b) {
      return false;
    }
    FootprintAllocated(b);
    var visited := Foreach(a);
    var vs := visited.value;
    var i := 0;
    while i < |vs|
      invariant 0 <= i <= |vs|
      invariant forall j :: 0 <= j < i ==> Contains(b, vs[j])
    {
      if !Contains(b, vs[i]) {
        return false;
      }
      i := i + 1;
    }
    return true;
  }

  /** `a.equals(b)` for any set. */
  method Equals(a: SetRef, b: SetRef) returns (r: Result<bool>)
    requires Valid(a) && Valid(b)
    ensures r == old(EqualsResult(a, b))
    decreases a
  {
    match a
    case NotRef(n) =>
      if b.NotRef? {
        r := Equals(n.inner, b.n.inner);
      } else {
        r := Ok(false);
      }
    case SingletonRef(s) =>
      r := Ok(SingletonEquals(s, b));
    case Singleton1Ref(_) =>
      var e := EnumerableEquals(a, b);
      r := Ok(e);
    case ArrayRef(_) =>
      var e := EnumerableEquals(a, b);
      r := Ok(e);
    case _ =>
      r := Err(TypeError("equals"));
  }

  /** For enumerable sets, equal size plus inclusion is equality of the
      member sets: the order `foreach` visits them in does not matter. */
  lemma EnumerableEqualsIffSameMembers(a: SetRef, b: SetRef)
    requires Valid(a) && Valid(b) && IsEnumerableSet(a)
    ensures EqualsResult(a, b) == Ok(IsEnumerableSet(b) && SetOf(Members(a)) == SetOf(Members(b)))
  {
    if IsEnumerableSet(b) {
      CapabilitiesAgree(a);
      CapabilitiesAgree(b);
      SameSizeInclusion(Members(a), Members(b));
    }
  }

  /** Hence `equals` between enumerable sets is symmetric. */
  lemma EnumerableEqualsSymmetric(a: SetRef, b: SetRef)
    requires Valid(a) && Valid(b) && IsEnumerableSet(a) && IsEnumerableSet(b)
    ensures EqualsResult(a, b) == EqualsResult(b, a)
  {
    EnumerableEqualsIffSameMembers(a, b);
    EnumerableEqualsIffSameMembers(b, a);
  }

  /** Whenever `equals` answers true, the two sets agree on every `contains`
      question, through any number of `NotSet` layers. */
  lemma {:induction false} EqualsSound(a: SetRef, b: SetRef, v: Value)
    requires Valid(a) && Valid(b)
    requires EqualsResult(a, b) == Ok(true)
    ensures Contains(a, v) == Contains(b, v)
    decreases a
  {
    match a
    case NotRef(n) =>
      EqualsSound(n.inner, b.n.inner, v);
    case SingletonRef(s) =>
      CapabilitiesAgree(b);
    case Singleton1Ref(_) =>
      EnumerableEqualsIffSameMembers(a, b);
      CapabilitiesAgree(a);
      CapabilitiesAgree(b);
      assert v in Members(a) <==> v in SetOf(Members(a));
    case ArrayRef(_) =>
      EnumerableEqualsIffSameMembers(a, b);
      CapabilitiesAgree(a);
      CapabilitiesAgree(b);
      assert v in Members(a) <==> v in SetOf(Members(a));
    case _ =>
  }

  /** `new ArraySet(1, 2, 3)` equals `new ArraySet(3, 2, 1)`, but
      `new ArraySet(1, 2)` does not equal `new ArraySet(1, 2, 3)`. */
  lemma EqualsExamples(a: ArraySet, b: ArraySet, c: ArraySet)
    requires a.values == InsertAll([], [Num(1), Num(2), Num(3)])
    requires b.values == InsertAll([], [Num(3), Num(2), Num(1)])
    requires c.values == InsertAll([], [Num(1), Num(2)])
    ensures a.Valid() && b.Valid() && c.Valid()
    ensures EqualsResult(ArrayRef(a), ArrayRef(b)) == Ok(true)
    ensures EqualsResult(ArrayRef(c), ArrayRef(a)) == Ok(false)
  {
    InsertAllNoDup([], [Num(1), Num(2), Num(3)]);
    InsertAllNoDup([], [Num(3), Num(2), Num(1)]);
    InsertAllNoDup([], [Num(1), Num(2)]);
    InsertAllShape([], [Num(1), Num(2), Num(3)]);
    InsertAllShape([], [Num(3), Num(2), Num(1)]);
    InsertAllShape([], [Num(1), Num(2)]);
    EnumerableEqualsIffSameMembers(ArrayRef(a), ArrayRef(b));
    EnumerableEqualsIffSameMembers(ArrayRef(c), ArrayRef(a));
    assert Num(3) in SetOf(a.values) && Num(3) !in SetOf(c.values);
  }
}
