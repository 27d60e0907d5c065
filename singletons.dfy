/**
 * The two read-only one-element sets: `SingletonSet`, a subclass of `Set`
 * (JS-Practice/SubclassTest.js:133-168), and `SingletonSet1`, a subclass of
 * `AbstractEnumerableSet` (:385-398). Their only field is never reassigned,
 * so both are values here.
 */
module Singletons {
  import opened Values
  import opened Outcomes

  datatype SingletonSet = SingletonSet(member: Value) {

    /** `foreach(f)`: the callback runs once, on the member. */
    function Foreach(): (visited: seq<Value>)
      ensures |visited| == 1 && visited[0] == member
    {
      [member]
    }

    /** `contains(x)`: `x === this.member`. As written the method takes no
        parameter and reads an undeclared `x` (:161-163); the parameter is
        restored here. Membership agrees with what `foreach` visits. */
    function Contains(x: Value): (r: bool)
      ensures r <==> x in Foreach()
    {
      x == member
    }

    /** `size()`: always 1, the number of values `foreach` visits. */
    function Size(): (r: int)
      ensures r == |Foreach()| && r == 1
    {
      1
    }

    /** `add(...)`: the set is read-only; whatever the arguments, it throws
        "read-only set" and the member stays as it was. */
    function Add(args: seq<Value>): (r: Result<SingletonSet>)
      ensures r.Err? && r.error == Thrown("read-only set")
    {
      Err(ReadOnly)
    }

    /** `remove(...)`: throws "read-only set" as `add` does. */
    function Remove(args: seq<Value>): (r: Result<SingletonSet>)
      ensures r.Err? && r.error == Thrown("read-only set")
    {
      Err(ReadOnly)
    }
  }

  datatype SingletonSet1 = SingletonSet1(member: Value) {

    /** `foreach(f, ctx)`: the callback runs exactly once, on the member. */
    function Foreach(): (visited: seq<Value>)
      ensures |visited| == 1 && visited[0] == member
    {
      [member]
    }

    /** `contains(x)`: `x === this.member`, i.e. `x` is what `foreach`
        visits. */
    function Contains(x: Value): (r: bool)
      ensures r <==> x in Foreach()
    {
      x == member
    }

    /** `size()`: always 1. */
    function Size(): (r: int)
      ensures r == |Foreach()| && r == 1
    {
      1
    }
  }
}
