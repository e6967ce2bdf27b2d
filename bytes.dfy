/**
 * Byte buffers and the joining of a list of buffers into one (Python's `b"".join`).
 * `Join` is written generically: the segmenter also joins lists of frames.
 */
module Bytes {

  type Byte = bv8
  type Bytes = seq<Byte>

  /** The concatenation of `parts` in order, peeled from the back. */
  function Join<T>(parts: seq<seq<T>>): seq<T>
  {
    if parts == [] then [] else Join(parts[..|parts| - 1]) + parts[|parts| - 1]
  }

  lemma JoinSnoc<T>(parts: seq<seq<T>>, part: seq<T>)
    ensures Join(parts + [part]) == Join(parts) + part
  {
    assert (parts + [part])[..|parts|] == parts;
  }

  /** Joining distributes over concatenation of part lists. */
  lemma {:induction false} JoinAppend<T>(a: seq<seq<T>>, b: seq<seq<T>>)
    ensures Join(a + b) == Join(a) + Join(b)
  {
    if b == [] {
      assert a + b == a;
    } else {
      var b' := b[..|b| - 1];
      assert (a + b)[..|a + b| - 1] == a + b';
      JoinAppend(a, b');
    }
  }

  /** Joining the joins of a list of lists is joining everything at once. */
  lemma {:induction false} JoinOfJoins<T>(xss: seq<seq<seq<T>>>)
    ensures Join(seq(|xss|, i requires 0 <= i < |xss| => Join(xss[i]))) == Join(Join(xss))
  {
    if xss != [] {
      var init := xss[..|xss| - 1];
      var joined := seq(|xss|, i requires 0 <= i < |xss| => Join(xss[i]));
      var joinedInit := seq(|init|, i requires 0 <= i < |init| => Join(init[i]));
      assert joined[..|joined| - 1] == joinedInit;
      JoinOfJoins(init);
      JoinAppend(Join(init), xss[|xss| - 1]);
    }
  }
}
