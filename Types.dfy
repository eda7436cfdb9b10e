/** Value types shared by the map: optional results (Java's null), the
    error kinds the map raises, map entries, and the injected key order. */
module Types {

  /** A Java reference that may be null: `None` stands for null. */
  datatype Option<T> = None | Some(value: T)

  /** The exceptions the map operations can end with. */
  datatype Error =
    | InvalidKey        // InvalidKeyException: a null key given to put
    | InvalidOperation  // InvalidOperationException: putAll across comparators
    | NullPointer       // NullPointerException: a null reference dereferenced
    | EmptyStack        // EmptyStackException: next() on an exhausted iterator

  datatype Result<T> = Success(value: T) | Failure(error: Error)

  /** Map.Entry: a (non-null) key and its value. */
  datatype Entry<K, V> = Entry(key: K, value: V)

  /** The contract of a key comparator: compare(a, b) is zero exactly when
      a and b are the same key, negative when a orders first, positive when
      b does, and ordering before is transitive. */
  ghost predicate TotalOrder<K(!new)>(cmp: (K, K) -> int) {
    && (forall a, b :: cmp(a, b) == 0 <==> a == b)
    && (forall a, b :: cmp(a, b) < 0 <==> cmp(b, a) > 0)
    && (forall a, b, c :: cmp(a, b) < 0 && cmp(b, c) < 0 ==> cmp(a, c) < 0)
  }

  /** A Comparator object. Trees compare comparators by identity (putAll),
      so it is a class; its ordering never changes. */
  class Comparator<K(!new)> {
    const compare: (K, K) -> int

    ghost predicate Valid() {
      TotalOrder(compare)
    }

    constructor (f: (K, K) -> int)
      requires TotalOrder(f)
      ensures compare == f && Valid()
    {
      compare := f;
    }
  }
}
