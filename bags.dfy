/**
 * A bag of a tree decomposition: a named set of vertices.  It is a hash
 * set, so two bags are equal when they hold the same vertices, whatever
 * their names; the name is a separate mutable label.
 */
module Bags {

  class Bag<V(==)> {
    var name: string
    var contents: set<V>

    /** An empty bag called `name`. */
    constructor Named(name: string)
      ensures this.name == name && contents == {}
    {
      this.name := name;
      contents := {};
    }

    /** A bag called `name` holding exactly the elements of `c`. */
    constructor (name: string, c: seq<V>)
      ensures this.name == name && contents == set x | x in c
    {
      this.name := name;
      contents := set x | x in c;
    }

    function GetName(): string
      reads this
    {
      name
    }

    /** Relabels the bag; its vertices are untouched. */
    method SetName(name: string)
      modifies this
      ensures this.name == name && contents == old(contents)
    {
      this.name := name;
    }

    /** The hash set's `add`: true exactly when `x` was not yet a member. */
    method Add(x: V) returns (added: bool)
      modifies this
      ensures added <==> x !in old(contents)
      ensures contents == old(contents) + {x} && name == old(name)
    {
      added := x !in contents;
      contents := contents + {x};
    }

    predicate Contains(x: V)
      reads this
    {
      x in contents
    }

    /** The hash set's `containsAll`. */
    predicate ContainsAll(xs: seq<V>)
      reads this
    {
      forall x | x in xs :: x in contents
    }

    function Size(): nat
      reads this
    {
      |contents|
    }

    /** The hash set's `equals`: the same members, names aside. */
    predicate Equals(other: Bag<V>)
      reads this, other
    {
      contents == other.contents
    }
  }
}
