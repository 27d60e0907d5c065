/**
 * `Set`, the hash-based set (JS-Practice/SubclassTest.js:56-130), and the
 * subclasses that only override `add` to vet its arguments: `NonNullSet`,
 * `NoNullSet` and the classes made by `filterSetSubclass`.
 *
 * A `Set` object keeps a table `values` from the key `Set._v2s(v)` to `v`
 * and a counter `n`. The table is a JavaScript object, whose `for ... in`
 * visits keys in the order they were created (no key here looks like an array
 * index, since each starts with a tag character); that order is the field
 * `order`. The ghost field `Elements` is the set as the caller sees it: its
 * values, in `foreach` order.
 */
module HashSets {
  import opened Values
  import opened Outcomes
  import opened OrderedSets

  /** The class of a set object, which decides the `add` it inherits. */
  datatype SetClass =
    /** `Set` itself: `add` accepts everything. */
    | Plain
    /** `NonNullSet`: `add` refuses null and undefined. */
    | NonNull
    /** `NoNullSet`, the same class written with `extend`. */
    | NoNull
    /** `filterSetSubclass(superclass, filter)`: `add` runs `filter` on every
        argument, then the superclass's `add`. */
    | FilterSubclass(filter: Value -> bool, superclass: SetClass)

  /** The position of the first argument that fails `ok`, or `|args|`. */
  function FirstFailure(args: seq<Value>, ok: Value -> bool): (k: nat)
    ensures k <= |args|
    ensures forall i :: 0 <= i < k ==> ok(args[i])
    ensures k < |args| ==> !ok(args[k])
    decreases |args|
  {
    if |args| == 0 then 0
    else if !ok(args[0]) then 0
    else 1 + FirstFailure(args[1..], ok)
  }

  /** The message of the `Error` a null-refusing `add` throws. */
  function NullMessage(kind: SetClass): string
    requires kind.NonNull? || kind.NoNull?
  {
    if kind.NonNull? then "Can't add null or undefined to a NonNullSet"
    else "Can't add null or undefined"
  }

  /** What the overriding `add` methods decide before any insertion: pass, or
      the exception raised for the first offending argument. */
  function Admit(kind: SetClass, args: seq<Value>): Outcome {
    match kind
    case Plain => Pass
    case NonNull =>
      if FirstFailure(args, v => !IsNullish(v)) < |args| then Fail(ErrorObject(NullMessage(kind))) else Pass
    case NoNull =>
      if FirstFailure(args, v => !IsNullish(v)) < |args| then Fail(ErrorObject(NullMessage(kind))) else Pass
    case FilterSubclass(filter, superclass) =>
      var k := FirstFailure(args, filter);
      if k < |args| then Fail(Rejected(args[k])) else Admit(superclass, args)
  }

  /** Whether one value gets past every check of the class and its
      superclasses. */
  predicate Accepts(kind: SetClass, v: Value) {
    match kind
    case Plain => true
    case NonNull => !IsNullish(v)
    case NoNull => !IsNullish(v)
    case FilterSubclass(filter, superclass) => filter(v) && Accepts(superclass, v)
  }

  /** A call to `add` gets past the checks exactly when every argument is
      acceptable on its own; the checks never depend on the set's contents. */
  lemma {:induction false} AdmitIffAllAccepted(kind: SetClass, args: seq<Value>)
    ensures Admit(kind, args).Pass? <==> forall v :: v in args ==> Accepts(kind, v)
  {
    match kind
    case Plain =>
    case NonNull =>
      var k := FirstFailure(args, v => !IsNullish(v));
      if k < |args| { assert args[k] in args; }
    case NoNull =>
      var k := FirstFailure(args, v => !IsNullish(v));
      if k < |args| { assert args[k] in args; }
    case FilterSubclass(filter, superclass) =>
      AdmitIffAllAccepted(superclass, args);
      var k := FirstFailure(args, filter);
      if k < |args| { assert args[k] in args; }
  }

  /** The checking loop of an overriding `add`: the index of the first
      argument that `ok` refuses, or `|args|` when there is none. */
  method FindFailure(args: seq<Value>, ok: Value -> bool) returns (k: nat)
    ensures k == FirstFailure(args, ok)
  {
    k := 0;
    while k < |args|
      invariant k <= |args|
      invariant forall i :: 0 <= i < k ==> ok(args[i])
    {
      if !ok(args[k]) {
        return;
      }
      k := k + 1;
    }
  }

  /** Runs the checks of `NonNullSet.add`, `NoNullSet`'s `add` and the `add`
      of `filterSetSubclass`, outermost class first, down to `Set`. */
  method Validate(kind: SetClass, args: seq<Value>) returns (o: Outcome)
    ensures o == Admit(kind, args)
    ensures o.Pass? <==> forall v :: v in args ==> Accepts(kind, v)
    decreases kind
  {
    AdmitIffAllAccepted(kind, args);
    match kind
    case Plain =>
      o := Pass;
    case NonNull =>
      var k := FindFailure(args, v => !IsNullish(v));
      o := if k < |args| then Fail(ErrorObject(NullMessage(kind))) else Pass;
    case NoNull =>
      var k := FindFailure(args, v => !IsNullish(v));
      o := if k < |args| then Fail(ErrorObject(NullMessage(kind))) else Pass;
    case FilterSubclass(filter, superclass) =>
      var k := FindFailure(args, filter);
      if k < |args| {
        o := Fail(Rejected(args[k]));
      } else {
        o := Validate(superclass, args);
      }
  }

  /** How the fields of a `Set` hang together: `n` counts the keys, every
      member is stored under its own key, and `order` lists the keys once each
      in the order of the members. */
  ghost predicate Table(values: map<string, Value>, n: int, order: seq<string>, elems: seq<Value>) {
    && n == |values|
    && n == |elems|
    && NoDup(elems)
    && |order| == |elems|
    && (forall i :: 0 <= i < |order| ==>
          order[i] == Key(elems[i]) && order[i] in values && values[order[i]] == elems[i])
    && values.Keys == SetOf(order)
  }

  /** The key of `v` is in the table exactly when `v` is a member. */
  lemma TableMembership(values: map<string, Value>, n: int, order: seq<string>, elems: seq<Value>, v: Value)
    requires Table(values, n, order, elems)
    ensures Key(v) in values <==> v in elems
  {
    if Key(v) in values {
      assert Key(v) in SetOf(order);
      var i :| 0 <= i < |order| && order[i] == Key(v);
      KeyInjective(v, elems[i]);
    }
  }

  /** Storing a value whose key is absent extends the table by one entry. */
  lemma TableInsert(values: map<string, Value>, n: int, order: seq<string>, elems: seq<Value>, v: Value)
    requires Table(values, n, order, elems) && Key(v) !in values
    ensures v !in elems
    ensures Table(values[Key(v) := v], n + 1, order + [Key(v)], elems + [v])
  {
    TableMembership(values, n, order, elems, v);
  }

  /** Deleting a present key removes its member from the same position of
      `order` and of the members. */
  lemma TableDelete(values: map<string, Value>, n: int, order: seq<string>, elems: seq<Value>, v: Value)
    requires Table(values, n, order, elems) && v in elems
    ensures Key(v) in values
    ensures Table(values - {Key(v)}, n - 1, Delete(order, Key(v)), Delete(elems, v))
  {
    TableMembership(values, n, order, elems, v);
    var str := Key(v);
    var p := IndexOf(elems, v);
    KeyInjective(v, elems[IndexOf(order, str)]);
    DeleteIsSplice(elems, v);
    DeleteIsSplice(order, str);
    DeleteMembers(elems, v);
    TableDeleteAt(values, order, elems, p);
  }

  /** The same splice on `order` and on the members keeps them matched. */
  lemma TableDeleteAt(values: map<string, Value>, order: seq<string>, elems: seq<Value>, p: nat)
    requires Table(values, |values|, order, elems) && p < |elems|
    requires NoDup(elems[..p] + elems[p + 1..])
    ensures Table(values - {order[p]}, |values| - 1, order[..p] + order[p + 1..], elems[..p] + elems[p + 1..])
  {
    var order', values' := order[..p] + order[p + 1..], values - {order[p]};
    forall i | 0 <= i < |order'|
      ensures order'[i] == Key((elems[..p] + elems[p + 1..])[i]) && order'[i] in values'
      ensures values'[order'[i]] == (elems[..p] + elems[p + 1..])[i]
    {
      SplicedEntry(values, order, elems, p, i);
    }
    forall k | k in values'
      ensures k in SetOf(order')
    {
      SplicedKey(order, p, k);
    }
    assert values'.Keys == SetOf(order');
  }

  /** Entry `i` of the spliced `order` is a key other than the deleted one,
      stored with the member at the same spliced position. */
  lemma SplicedEntry(values: map<string, Value>, order: seq<string>, elems: seq<Value>, p: nat, i: nat)
    requires Table(values, |values|, order, elems) && p < |elems| && i < |elems| - 1
    ensures (order[..p] + order[p + 1..])[i] == Key((elems[..p] + elems[p + 1..])[i])
    ensures (order[..p] + order[p + 1..])[i] != order[p]
    ensures (order[..p] + order[p + 1..])[i] in values
    ensures values[(order[..p] + order[p + 1..])[i]] == (elems[..p] + elems[p + 1..])[i]
  {
    var j := if i < p then i else i + 1;
    SpliceAt(order, p, i);
    SpliceAt(elems, p, i);
    if Key(elems[j]) == Key(elems[p]) {
      KeyInjective(elems[j], elems[p]);
    }
  }

  /** Every key but the deleted one is still listed in the spliced `order`. */
  lemma SplicedKey(order: seq<string>, p: nat, k: string)
    requires p < |order| && k in SetOf(order) && k != order[p]
    ensures k in SetOf(order[..p] + order[p + 1..])
  {
    var j :| 0 <= j < |order| && order[j] == k;
    if j < p {
      SpliceAt(order, p, j);
    } else {
      SpliceAt(order, p, j - 1);
    }
  }

  class Set {
    const kind: SetClass
    /** The object `this.values`: key to value. */
    var values: map<string, Value>
    /** The counter `this.n`. */
    var n: int
    /** The creation order of the keys of `values`. */
    var order: seq<string>
    /** The members, in `foreach` order. */
    ghost var Elements: seq<Value>

    ghost predicate Valid()
      reads this
    {
      Table(values, n, order, Elements)
    }

    /** An empty set of the given class; `Create` adds the constructor's
        arguments. */
    constructor (kind: SetClass)
      ensures Valid() && this.kind == kind && Elements == []
    {
      this.kind := kind;
      values := map[];
      n := 0;
      order := [];
      Elements := [];
    }

    /** `new Set(...)`, `new NonNullSet(...)`, ...: the constructor passes its
        arguments to the class's own `add`, which may throw. */
    static method Create(kind: SetClass, args: seq<Value>) returns (r: Result<Set>)
      ensures Admit(kind, args).Fail? ==> r == Err(Admit(kind, args).error)
      ensures Admit(kind, args).Pass? ==>
        && r.Ok? && fresh(r.value) && r.value.Valid() && r.value.kind == kind
        && r.value.Elements == InsertAll([], args)
    {
      AdmitIffAllAccepted(kind, args);
      var s := new Set(kind);
      var added := s.Add(args);
      if added.Err? {
        return Err(added.error);
      }
      return Ok(s);
    }

    /** `Set.prototype.add` (the loop every subclass chains to): store each
        argument whose key is not yet present and count it. */
    method AddValues(args: seq<Value>)
      requires Valid()
      modifies this
      ensures Valid()
      ensures Elements == InsertAll(old(Elements), args)
    {
      var i := 0;
      while i < |args|
        invariant 0 <= i <= |args|
        invariant Valid()
        invariant Elements == InsertAll(old(Elements), args[..i])
      {
        AddOne(args[i]);
        InsertAllStep(old(Elements), args, i);
        i := i + 1;
      }
      assert args[..i] == args;
    }

    /** One turn of that loop. */
    method AddOne(val: Value)
      requires Valid()
      modifies this
      ensures Valid()
      ensures Elements == Insert(old(Elements), val)
    {
      var str := Key(val);
      TableMembership(values, n, order, Elements, val);
      if str !in values {
        TableInsert(values, n, order, Elements, val);
        values := values[str := val];
        n := n + 1;
        order := order + [str];
        Elements := Elements + [val];
      }
    }

    /** The `add` of this object's class: all checks first, then the
        insertion; on a refusal nothing is inserted. Returns the set itself. */
    method Add(args: seq<Value>) returns (r: Result<Set>)
      requires Valid()
      modifies this
      ensures Valid()
      ensures r.Ok? <==> forall v :: v in args ==> Accepts(kind, v)
      ensures r.Ok? ==> r.value == this && Elements == InsertAll(old(Elements), args)
      ensures r.Ok? ==> forall v :: Contains(v) <==> v in old(Elements) || v in args
      ensures r.Err? ==> Admit(kind, args) == Fail(r.error) && unchanged(this)
    {
      var o := Validate(kind, args);
      if o.Fail? {
        return Err(o.error);
      }
      AddValues(args);
      InsertAllShape(old(Elements), args);
      // A filterSetSubclass `add` returns nothing (:205-214); the set itself
      // is returned here, as the other classes do.
      return Ok(this);
    }

    /** `Set.prototype.remove`: delete each argument's key if present and
        count it down. Returns the set itself. */
    method Remove(args: seq<Value>) returns (r: Set)
      requires Valid()
      modifies this
      ensures Valid() && r == this
      ensures Elements == DeleteAll(old(Elements), args)
    {
      var i := 0;
      while i < |args|
        invariant 0 <= i <= |args|
        invariant Valid()
        invariant Elements == DeleteAll(old(Elements), args[..i])
      {
        var str := Key(args[i]);
        TableMembership(values, n, order, Elements, args[i]);
        if str in values {
          RemoveOne(args[i]);
        } else {
          DeleteIsSplice(Elements, args[i]);
        }
        DeleteAllStep(old(Elements), args, i);
        i := i + 1;
      }
      assert args[..i] == args;
      r := this;
    }

    /** `delete this.values[str]; this.n--;` for a present value. */
    method RemoveOne(v: Value)
      requires Valid() && v in Elements
      modifies this
      ensures Valid()
      ensures Elements == Delete(old(Elements), v)
    {
      var str := Key(v);
      TableDelete(values, n, order, Elements, v);
      values := values - {str};
      n := n - 1;
      order := Delete(order, str);
      Elements := Delete(Elements, v);
    }

    /** `contains`: look the key up in the table. */
    function Contains(v: Value): (r: bool)
      reads this
      requires Valid()
      ensures r <==> v in Elements
    {
      TableMembership(values, n, order, Elements, v);
      Key(v) in values
    }

    /** `size`: the counter, which equals both the number of keys and the
        number of members. */
    function Size(): (r: int)
      reads this
      requires Valid()
      ensures r == |values| && r == |Elements|
    {
      n
    }

    /** `foreach`: the values passed to the callback, in `for ... in` order. */
    method Foreach() returns (visited: seq<Value>)
      requires Valid()
      ensures visited == Elements
    {
      visited := [];
      var i := 0;
      while i < |order|
        invariant 0 <= i <= |order|
        invariant visited == Elements[..i]
      {
        visited := visited + [values[order[i]]];
        i := i + 1;
      }
    }
  }
}
