/**
 * Output assembled element by element: every element of a list contributes
 * a run, possibly empty, and the runs follow one another in the list's
 * order. The transcript and the boxes of a recognition, and what the
 * command line prints and writes, are all built this way.
 */
module Joins {

  /** The runs that `part` gives for the elements of `xs`, one after the other. */
  function Joined<E, T>(xs: seq<E>, part: E -> seq<T>): seq<T>
    decreases |xs|
  {
    if xs == [] then [] else Joined(xs[..|xs| - 1], part) + part(xs[|xs| - 1])
  }

  /** The output for consecutive lists is the two outputs one after the other. */
  lemma {:induction false} JoinedAppend<E, T>(a: seq<E>, b: seq<E>, part: E -> seq<T>)
    ensures Joined(a + b, part) == Joined(a, part) + Joined(b, part)
    decreases |b|
  {
    if b == [] {
      assert a + b == a;
    } else {
      var init := b[..|b| - 1];
      JoinedAppend(a, init, part);
      assert (a + b)[..|a + b| - 1] == a + init;
    }
  }

  /** One element contributes its own run. */
  lemma JoinedSingle<E, T>(x: E, part: E -> seq<T>)
    ensures Joined([x], part) == part(x)
  {
    assert [x][..0] == [];
  }

  /** An element that contributes nothing can be dropped, wherever it stands. */
  lemma JoinedSkip<E, T>(a: seq<E>, x: E, b: seq<E>, part: E -> seq<T>)
    requires part(x) == []
    ensures Joined(a + [x] + b, part) == Joined(a + b, part)
  {
    JoinedAppend(a, [x], part);
    JoinedSingle(x, part);
    JoinedAppend(a + [x], b, part);
    JoinedAppend(a, b, part);
  }
}
