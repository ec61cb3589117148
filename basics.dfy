/** Small value types shared by the editor model. */
module Basics {

  datatype Option<+T> = None | Some(value: T)

  /** A half-open range `[start, end)` of character offsets in the buffer. */
  datatype Span = Span(start: nat, end: nat)

  /** The offsets of the half-open range `[a, b)`. */
  function Range(a: nat, b: nat): (r: set<nat>)
    ensures forall i: nat :: i in r <==> a <= i < b
    decreases b - a
  {
    if b <= a then {} else {a} + Range(a + 1, b)
  }

  /** Moving `x` from the still-to-visit part `rest` of `all` to the visited part. */
  lemma VisitOne<T>(all: set<T>, rest: set<T>, x: T)
    requires x in rest && rest <= all
    ensures (all - rest) + {x} == all - (rest - {x})
  {
  }

  lemma UnionAssoc<T>(a: set<T>, b: set<T>, c: set<T>)
    ensures (a + b) + c == a + (b + c)
  {
  }
}
