/**
 * The capability layers (JS-Practice/SubclassTest.js:281-432). `AbstractSet`
 * promises `contains`; `AbstractEnumerableSet` adds `size` and `foreach`;
 * `AbstractWritableSet` adds `add` and `remove`. In the source each concrete
 * class finds its methods along its prototype chain; here a `SetRef` names
 * the object and its class, and each call goes to that class's definition.
 * `instanceof` tests become tests on the variant.
 *
 * `NotSet` (:303-315), the complement of another set, lives here because it
 * may wrap any set, including another `NotSet`.
 */
module SetRefs {
  import opened Values
  import opened Outcomes
  import opened OrderedSets
  import opened HashSets
  import opened FilteredSets
  import opened Singletons
  import opened ArraySets

  /** A reference to a set object of any class. */
  datatype SetRef =
    | HashRef(h: Set)
    | SingletonRef(s: SingletonSet)
    | FilteredRef(f: FilteredSet)
    | NotRef(n: NotSet)
    | Singleton1Ref(s1: SingletonSet1)
    | ArrayRef(a: ArraySet)

  /** `NotSet`: the members are all values that the wrapped set does not
      contain. It has no `size`, `foreach`, `add` or `remove`. */
  datatype NotSet = NotSet(inner: SetRef)

  /** `x instanceof Set`: `Set` and its subclasses (`FilteredSet` is made by
      `Set.extend`). */
  predicate IsSetInstance(r: SetRef) {
    r.HashRef? || r.SingletonRef? || r.FilteredRef?
  }

  /** `x instanceof AbstractEnumerableSet`. The source spells the class
      `AbstarctEnumerableSet` where it defines and tests it (:324, :361) and
      `AbstractEnumerableSet` where `AbstractWritableSet` extends it (:405);
      they are taken to be one class. */
  predicate IsEnumerableSet(r: SetRef) {
    r.Singleton1Ref? || r.ArrayRef?
  }

  /** Whether the object has `size` and `foreach`: every class but
      `NotSet`. */
  predicate CanEnumerate(r: SetRef) {
    !r.NotRef?
  }

  /** The objects whose fields the set's answers depend on. */
  function Footprint(r: SetRef): set<object> {
    match r
    case HashRef(h) => {h}
    case SingletonRef(_) => {}
    case FilteredRef(f) => {f.wrapped}
    case NotRef(n) => Footprint(n.inner)
    case Singleton1Ref(_) => {}
    case ArrayRef(a) => {a}
  }

  /** Every object a reference reaches is allocated, so a call that changes
      only new objects leaves the set's answers as they were. */
  lemma {:induction false} FootprintAllocated(r: SetRef)
    ensures forall o :: o in Footprint(r) ==> allocated(o)
  {
    if r.NotRef? {
      FootprintAllocated(r.n.inner);
    }
  }

  ghost predicate Valid(r: SetRef)
    reads Footprint(r)
  {
    match r
    case HashRef(h) => h.Valid()
    case SingletonRef(_) => true
    case FilteredRef(f) => f.Valid()
    case NotRef(n) => Valid(n.inner)
    case Singleton1Ref(_) => true
    case ArrayRef(a) => a.Valid()
  }

  /** `r.contains(v)`, dispatched to the class of `r`. */
  function Contains(r: SetRef, v: Value): bool
    reads Footprint(r)
    requires Valid(r)
  {
    match r
    case HashRef(h) => h.Contains(v)
    case SingletonRef(s) => s.Contains(v)
    case FilteredRef(f) => f.Contains(v)
    case NotRef(n) => !Contains(n.inner, v)
    case Singleton1Ref(s1) => s1.Contains(v)
    case ArrayRef(a) => a.Contains(v)
  }

  /** `r.size()`. */
  function Size(r: SetRef): int
    reads Footprint(r)
    requires Valid(r) && CanEnumerate(r)
  {
    match r
    case HashRef(h) => h.Size()
    case SingletonRef(s) => s.Size()
    case FilteredRef(f) => f.Size()
    case Singleton1Ref(s1) => s1.Size()
    case ArrayRef(a) => a.Size()
  }

  /** The values `r.foreach` passes to its callback, in order. */
  ghost function Members(r: SetRef): seq<Value>
    reads Footprint(r)
    requires Valid(r) && CanEnumerate(r)
  {
    match r
    case HashRef(h) => h.Elements
    case SingletonRef(s) => s.Foreach()
    case FilteredRef(f) => f.wrapped.Elements
    case Singleton1Ref(s1) => s1.Foreach()
    case ArrayRef(a) => a.values
  }

  /** For every enumerable class, `contains`, `size` and `foreach` agree:
      `foreach` visits each member once, `size` counts them, and `contains`
      holds of exactly the visited values. */
  lemma CapabilitiesAgree(r: SetRef)
    requires Valid(r) && CanEnumerate(r)
    ensures NoDup(Members(r))
    ensures Size(r) == |Members(r)|
    ensures forall v :: Contains(r, v) <==> v in Members(r)
  {
  }

  /** `r.foreach(f)`: the values visited, or the TypeError of a `NotSet`,
      which has no `foreach`. */
  method Foreach(r: SetRef) returns (visited: Result<seq<Value>>)
    requires Valid(r)
    ensures r.NotRef? ==> visited == Err(TypeError("foreach"))
    ensures CanEnumerate(r) ==> visited == Ok(Members(r))
  {
    match r
    case HashRef(h) =>
      var vs := h.Foreach();
      visited := Ok(vs);
    case SingletonRef(s) =>
      visited := Ok(s.Foreach());
    case FilteredRef(f) =>
      var vs := f.Foreach();
      visited := Ok(vs);
    case NotRef(_) =>
      visited := Err(TypeError("foreach"));
    case Singleton1Ref(s1) =>
      visited := Ok(s1.Foreach());
    case ArrayRef(a) =>
      var vs := a.Foreach();
      visited := Ok(vs);
  }

  /** `NotSet.contains(x)`: the negation of the wrapped set's answer; when the
      wrapped set can be enumerated, exactly the values it does not visit. */
  function NotContains(n: NotSet, x: Value): (r: bool)
    reads Footprint(n.inner)
    requires Valid(n.inner)
    ensures r == Contains(NotRef(n), x)
    ensures CanEnumerate(n.inner) ==> (r <==> x !in Members(n.inner))
  {
    if CanEnumerate(n.inner) then CapabilitiesAgree(n.inner); !Contains(n.inner, x)
    else !Contains(n.inner, x)
  }

  /** Wrapping a set in two `NotSet`s gives back its membership. */
  lemma DoubleComplement(r: SetRef, x: Value)
    requires Valid(r)
    ensures Contains(NotRef(NotSet(NotRef(NotSet(r)))), x) == Contains(r, x)
  {
  }

  /** `SingletonSet.equals(that)`: `that` is a `Set` of size 1 containing the
      member. The source attaches it to the constructor rather than the
      prototype (:165), so instances never see it; it is taken as the
      prototype method it was meant to be. It holds exactly when `that`
      enumerates the member alone. */
  function SingletonEquals(s: SingletonSet, that: SetRef): (r: bool)
    reads Footprint(that)
    requires Valid(that)
    ensures r <==> IsSetInstance(that) && Members(that) == [s.member]
  {
    if IsSetInstance(that) then
      CapabilitiesAgree(that);
      var ms := Members(that);
      assert |ms| == 1 && ms[0] == s.member ==> ms == [s.member];
      Size(that) == 1 && Contains(that, s.member)
    else false
  }
}
