/**
 * `FilteredSet` (JS-Practice/SubclassTest.js:240-272): a wrapper that owns
 * no elements. It vets the arguments of `add` with its filter and forwards
 * every call to the wrapped `Set`, which other code may also hold and change.
 */
module FilteredSets {
  import opened Values
  import opened Outcomes
  import opened OrderedSets
  import opened HashSets

  class FilteredSet {
    /** `this.set`: the wrapped set (`set` is a Dafny keyword). */
    const wrapped: Set
    /** `this.filter`; when it is missing (falsy) `add` checks nothing. */
    const filter: Option<Value -> bool>

    constructor (wrapped: Set, filter: Option<Value -> bool>)
      ensures this.wrapped == wrapped && this.filter == filter
    {
      this.wrapped := wrapped;
      this.filter := filter;
    }

    ghost predicate Valid()
      reads wrapped
    {
      wrapped.Valid()
    }

    /** Whether the filter lets `v` through. */
    predicate Passes(v: Value) {
      filter.None? || filter.value(v)
    }

    /** The invariant the wrapper is meant to keep: every member passes the
        filter. The wrapper cannot enforce it, since the wrapped set may be
        changed directly. */
    ghost predicate Filtered()
      reads wrapped
    {
      forall v :: v in wrapped.Elements ==> Passes(v)
    }

    /** `add(...)`: apply the filter to every argument before adding any, then
        forward to the wrapped set's own `add` (which runs its own checks);
        either everything is added or, on a refusal, nothing is. A refusal by
        the wrapped set is passed on as it was thrown (:255). Returns the
        wrapper. The source calls the global `filter` rather than
        `this.filter` (:250); the field is used here. */
    method Add(args: seq<Value>) returns (r: Result<FilteredSet>)
      requires Valid()
      modifies wrapped
      ensures Valid()
      ensures r.Ok? <==> forall v :: v in args ==> Passes(v) && Accepts(wrapped.kind, v)
      ensures r.Ok? ==> r.value == this && wrapped.Elements == InsertAll(old(wrapped.Elements), args)
      ensures r.Err? ==> unchanged(wrapped)
      ensures r.Err? && filter.Some? && FirstFailure(args, filter.value) < |args| ==>
        r.error == Rejected(args[FirstFailure(args, filter.value)])
      ensures r.Err? && (filter.None? || FirstFailure(args, filter.value) == |args|) ==>
        Admit(wrapped.kind, args) == Fail(r.error)
      ensures old(Filtered()) && r.Ok? ==> Filtered()
    {
      if filter.Some? {
        var k := FindFailure(args, filter.value);
        if k < |args| {
          assert args[k] in args;
          return Err(Rejected(args[k]));
        }
      }
      var inner := wrapped.Add(args);
      if inner.Err? {
        return Err(inner.error);
      }
      InsertAllShape(old(wrapped.Elements), args);
      return Ok(this);
    }

    /** `remove(...)`: forwarded unchanged; returns the wrapper. */
    method Remove(args: seq<Value>) returns (r: FilteredSet)
      requires Valid()
      modifies wrapped
      ensures Valid() && r == this
      ensures wrapped.Elements == DeleteAll(old(wrapped.Elements), args)
      ensures old(Filtered()) ==> Filtered()
    {
      var _ := wrapped.Remove(args);
      DeleteAllMembers(old(wrapped.Elements), args);
      r := this;
    }

    /** `contains(v)`: exactly what the wrapped set answers. */
    function Contains(v: Value): (r: bool)
      reads wrapped
      requires Valid()
      ensures r == wrapped.Contains(v) && (r <==> v in wrapped.Elements)
    {
      wrapped.Contains(v)
    }

    /** `size()`: exactly what the wrapped set answers. */
    function Size(): (r: int)
      reads wrapped
      requires Valid()
      ensures r == wrapped.Size() && r == |wrapped.Elements|
    {
      wrapped.Size()
    }

    /** `foreach(f, c)`: the wrapped set's visit, in its order. */
    method Foreach() returns (visited: seq<Value>)
      requires Valid()
      ensures visited == wrapped.Elements
    {
      visited := wrapped.Foreach();
    }
  }
}
