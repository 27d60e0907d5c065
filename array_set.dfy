/**
 * `ArraySet` (JS-Practice/SubclassTest.js:440-470): the concrete writable set
 * that keeps its members in a plain array, searched linearly with
 * `indexOf` and shortened with `splice`.
 */
module ArraySets {
  import opened Values
  import opened OrderedSets

  class ArraySet {
    /** The array `this.values`, in push order. */
    var values: seq<Value>

    /** No value is stored twice. */
    ghost predicate Valid()
      reads this
    {
      NoDup(values)
    }

    /** `new ArraySet(...)`: start empty and `add` the arguments. */
    constructor (args: seq<Value>)
      ensures Valid() && values == InsertAll([], args)
    {
      values := [];
      new;
      var _ := Add(args);
    }

    /** `contains(v)`: `indexOf(v) != -1`, a strict-equality search. */
    function Contains(v: Value): (r: bool)
      reads this
      ensures r <==> v in values
    {
      IndexOf(values, v) != -1
    }

    /** `size()`: the array length, which is the number of distinct
        members. */
    function Size(): (r: int)
      reads this
      requires Valid()
      ensures r == |values| && r == |SetOf(values)|
    {
      NoDupCard(values);
      |values|
    }

    /** `foreach(f, c)`: `values.forEach`, in array order. */
    method Foreach() returns (visited: seq<Value>)
      ensures visited == values
    {
      visited := values;
    }

    /** `add(...)`: push each argument that `contains` does not find yet.
        Returns the set itself. */
    method Add(args: seq<Value>) returns (r: ArraySet)
      requires Valid()
      modifies this
      ensures Valid() && r == this
      ensures values == InsertAll(old(values), args)
    {
      var i := 0;
      while i < |args|
        invariant 0 <= i <= |args|
        invariant values == InsertAll(old(values), args[..i])
      {
        var arg := args[i];
        if !Contains(arg) {
          values := values + [arg];
        }
        InsertAllStep(old(values), args, i);
        i := i + 1;
      }
      assert args[..i] == args;
      InsertAllNoDup(old(values), args);
      r := this;
    }

    /** `remove(...)`: for each argument, `splice` it out at `indexOf`, or
        skip it when absent. Returns the set itself. */
    method Remove(args: seq<Value>) returns (r: ArraySet)
      requires Valid()
      modifies this
      ensures Valid() && r == this
      ensures values == DeleteAll(old(values), args)
    {
      var i := 0;
      while i < |args|
        invariant 0 <= i <= |args|
        invariant values == DeleteAll(old(values), args[..i])
      {
        var p := IndexOf(values, args[i]);
        DeleteIsSplice(values, args[i]);
        DeleteAllStep(old(values), args, i);
        i := i + 1;
        if p == -1 {
          continue;
        }
        values := values[..p] + values[p + 1..];
      }
      assert args[..i] == args;
      DeleteAllMembers(old(values), args);
      r := this;
    }
  }
}
