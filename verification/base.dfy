/**
 * Shared vocabulary of the model: optional values, the Python exceptions the
 * modelled code can raise, Python truthiness of optional strings, and the
 * order-preserving filter that every filtering list comprehension (map each
 * element, keep those passing a test) amounts to.
 */
module Base {

  /** Python's `Optional[T]`. */
  datatype Option<T> = None | Some(value: T)

  /** The exceptions the modelled code lets escape. */
  datatype Error =
    | IndexError       // `lst[i]` out of range
    | KeyError         // `d[k]` with `k` absent
    | ValidationError  // pydantic `model_validate` rejected its input

  /** A value or the exception raised instead of producing it. */
  datatype Result<T> = Ok(value: T) | Err(error: Error)

  /** Python truthiness of an `Optional[str]`: both `None` and `""` are falsy. */
  predicate Truthy(s: Option<string>)
  {
    s.Some? && |s.value| > 0
  }

  /**
   * The values `f` yields, in the order of `s`, one per element on which it
   * yields (no deduplication).
   */
  function FilterMap<T, U(!new)>(s: seq<T>, f: T -> Option<U>): (r: seq<U>)
    ensures |r| <= |s|
    ensures forall u :: u in r <==> exists i :: 0 <= i < |s| && f(s[i]) == Some(u)
  {
    if |s| == 0 then []
    else
      (match f(s[0]) case Some(u) => [u] case None => []) + FilterMap(s[1..], f)
  }

  /** Filtering a concatenation filters each part in turn: order is preserved. */
  lemma {:induction false} FilterMapAppend<T, U(!new)>(a: seq<T>, b: seq<T>, f: T -> Option<U>)
    ensures FilterMap(a + b, f) == FilterMap(a, f) + FilterMap(b, f)
  {
    if |a| == 0 {
      assert a + b == b;
    } else {
      assert (a + b)[1..] == a[1..] + b;
      FilterMapAppend(a[1..], b, f);
    }
  }

  /**
   * When `f` yields on every element nothing is dropped, not even repeated
   * values: output `i` is what `f` yields on input `i`.
   */
  lemma {:induction false} FilterMapKeepsAll<T, U(!new)>(s: seq<T>, f: T -> Option<U>)
    requires forall i :: 0 <= i < |s| ==> f(s[i]).Some?
    ensures |FilterMap(s, f)| == |s|
    ensures forall i :: 0 <= i < |s| ==> FilterMap(s, f)[i] == f(s[i]).value
  {
    if |s| > 0 {
      FilterMapKeepsAll(s[1..], f);
    }
  }

  /** Python's `list.reverse()`. */
  function Reverse<T>(s: seq<T>): (r: seq<T>)
    ensures |r| == |s|
    ensures forall i :: 0 <= i < |s| ==> r[i] == s[|s| - 1 - i]
  {
    if |s| == 0 then [] else Reverse(s[1..]) + [s[0]]
  }
}
