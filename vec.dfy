/**
 * The `PushExt` extension on `Vec<T>`: both operations push into the vector in
 * place and hand back a mutable reference to one element, modelled here as the
 * index of that element.
 */
module VecExt {

  /** The contents after `ensure_first_or_default`: a default element is added only to an empty vector. */
  function WithFirst<T>(s: seq<T>, default: T): (r: seq<T>)
    ensures |r| == if |s| == 0 then 1 else |s|
    ensures s != [] ==> r == s
    ensures s == [] ==> r[0] == default
  {
    if s == [] then [default] else s
  }

  /** A `Vec<T>` whose elements the methods below change in place. */
  class Vector<T> {
    var elems: seq<T>

    constructor (elems: seq<T>)
      ensures this.elems == elems
    {
      this.elems := elems;
    }

    /**
     * Pushes `default` (`T::default()`) when the vector is empty, then designates
     * the first element; the elements already present are never changed.
     */
    method EnsureFirstOrDefault(default: T) returns (i: nat)
      modifies this
      ensures elems == WithFirst(old(elems), default)
      ensures old(elems) <= elems
      ensures i == 0 && i < |elems|
    {
      if elems == [] {
        elems := elems + [default];
      }
      i := 0;
    }

    /** Pushes `value` and designates it: the new last element. */
    method PushAndBorrow(value: T) returns (i: nat)
      modifies this
      ensures elems == old(elems) + [value]
      ensures i == |elems| - 1 && elems[i] == value
    {
      elems := elems + [value];
      i := |elems| - 1;
    }
  }
}
