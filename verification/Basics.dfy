/** Failure-carrying results shared by every component of the model. */
module Basics {

  datatype Option<+T> = None | Some(value: T)

  /** Ok, or one of the exceptions the program throws. */
  datatype Result<+T, +E> = Ok(value: T) | Err(error: E)

  lemma Middle<T>(s: seq<T>, a: seq<T>, b: seq<T>, c: seq<T>)
    requires s == a + b + c
    ensures s[|a|..|a| + |b|] == b
  {
  }

  /** Concatenation of a list of sequences, first to last. */
  function Concat<T>(parts: seq<seq<T>>): (r: seq<T>)
  {
    if parts == [] then [] else parts[0] + Concat(parts[1..])
  }

  lemma {:induction false} ConcatAppend<T>(parts: seq<seq<T>>, more: seq<seq<T>>)
    ensures Concat(parts + more) == Concat(parts) + Concat(more)
  {
    if parts == [] {
      assert parts + more == more;
    } else {
      ConcatAppend(parts[1..], more);
      assert (parts + more)[1..] == parts[1..] + more;
      assert parts[0] + (Concat(parts[1..]) + Concat(more)) == parts[0] + Concat(parts[1..]) + Concat(more);
    }
  }

  lemma ConcatSnoc<T>(parts: seq<seq<T>>, last: seq<T>)
    ensures Concat(parts + [last]) == Concat(parts) + last
  {
    ConcatAppend(parts, [last]);
    assert Concat([last]) == last + Concat([]);
    assert last + [] == last;
  }
}
