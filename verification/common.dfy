/**
 Shared vocabulary for the model of the `fds` command-line tool: optional
 values standing for Python's `None`, results standing for raised exceptions,
 Python truthiness of optional strings, and byte streams split into chunks.
 */
module Common {

  /** A Python value that may be `None`. */
  datatype Option<+T> = None | Some(value: T)

  /** The outcome of a call that may raise: `Err` carries what was raised. */
  datatype Result<+T, +E> = Ok(value: T) | Err(error: E)

  /** One octet of object data. */
  newtype byte = b: int | 0 <= b < 256

  /** Python truthiness of a string that may be `None`: present and non-empty. */
  predicate Truthy(s: Option<string>)
  {
    s.Some? && |s.value| > 0
  }

  /** `s.startswith(p)`. */
  predicate StartsWith(s: string, p: string)
  {
    |p| <= |s| && s[..|p|] == p
  }

  /** `s.endswith(c)` for a one-character suffix. */
  predicate EndsWith(s: string, c: char)
  {
    |s| > 0 && s[|s| - 1] == c
  }

  /** The concatenation of a sequence of chunks, in order. */
  function Flatten<T>(chunks: seq<seq<T>>): seq<T>
  {
    if |chunks| == 0 then [] else Flatten(chunks[..|chunks| - 1]) + chunks[|chunks| - 1]
  }

  /** Flattening distributes over concatenation of chunk lists. */
  lemma {:induction false} FlattenAppend<T>(a: seq<seq<T>>, b: seq<seq<T>>)
    ensures Flatten(a + b) == Flatten(a) + Flatten(b)
    decreases |b|
  {
    if |b| == 0 {
      assert a + b == a;
    } else {
      var b' := b[..|b| - 1];
      assert (a + b)[..|a + b| - 1] == a + b';
      FlattenAppend(a, b');
    }
  }
}
