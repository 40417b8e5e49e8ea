/** Failure-carrying wrappers shared by every module of the model. */
module Base {

  /** A value that may be absent; JavaScript's `undefined` is `None`. */
  datatype Option<+T> = None | Some(value: T)

  /** The outcome of an operation that can fail with an error of type `E`. */
  datatype Result<+T, +E> = Ok(value: T) | Err(error: E)

  /** JavaScript truthiness of an optional string: `undefined` and `""` are falsy. */
  predicate Truthy(v: Option<string>) {
    v.Some? && v.value != ""
  }

  /** How JavaScript renders an optional string inside a template literal. */
  function Show(v: Option<string>): string {
    match v
    case Some(s) => s
    case None => "undefined"
  }

  /** Sum of the lengths of a sequence of chunks. */
  function TotalLength<T>(chunks: seq<seq<T>>): nat {
    if |chunks| == 0 then 0 else |chunks[0]| + TotalLength(chunks[1..])
  }

  /** The in-order concatenation of a sequence of chunks. */
  function Flatten<T>(chunks: seq<seq<T>>): seq<T> {
    if |chunks| == 0 then [] else chunks[0] + Flatten(chunks[1..])
  }

  lemma {:induction false} FlattenLength<T>(chunks: seq<seq<T>>)
    ensures |Flatten(chunks)| == TotalLength(chunks)
  {
    if |chunks| > 0 {
      FlattenLength(chunks[1..]);
    }
  }

  lemma {:induction false} FlattenAppend<T>(chunks: seq<seq<T>>, c: seq<T>)
    ensures Flatten(chunks + [c]) == Flatten(chunks) + c
    ensures TotalLength(chunks + [c]) == TotalLength(chunks) + |c|
  {
    if |chunks| == 0 {
      assert chunks + [c] == [c];
    } else {
      assert (chunks + [c])[1..] == chunks[1..] + [c];
      FlattenAppend(chunks[1..], c);
    }
  }
}
