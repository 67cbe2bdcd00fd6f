module Wrappers {
  datatype Option<+T> = None | Some(value: T)

  /** What a decoder has read so far, put before what it reads from here on. */
  function Prepend<T>(xs: seq<T>, r: Option<(seq<T>, nat)>): Option<(seq<T>, nat)> {
    if r.None? then None else Some((xs + r.value.0, r.value.1))
  }

  lemma PrependNone<T>(r: Option<(seq<T>, nat)>)
    ensures Prepend([], r) == r
  {
    if r.Some? {
      assert [] + r.value.0 == r.value.0;
    }
  }

  lemma PrependOne<T>(xs: seq<T>, x: T, r: Option<(seq<T>, nat)>)
    ensures Prepend(xs, Prepend([x], r)) == Prepend(xs + [x], r)
  {
    if r.Some? {
      assert xs + ([x] + r.value.0) == xs + [x] + r.value.0;
    }
  }
}
