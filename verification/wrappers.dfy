/** Failure-carrying values shared by every module of the model. */
module Wrappers {

  /** A value that may be absent; `None` stands for a C# `null` / `default(T)` result. */
  datatype Option<+T> = None | Some(value: T)

  /** Either a value or the exception the modelled code throws instead of returning one. */
  datatype Result<+R, +E> = Success(value: R) | Failure(error: E)
}

/** The .NET exceptions the modelled code can throw. */
module Exceptions {

  datatype Exception =
    | InvalidOperation    // InvalidOperationException
    | DuplicateKey        // ArgumentException from Dictionary<K, V>.Add on a key already present
    | KeyNotFound         // KeyNotFoundException from the Dictionary<K, V> indexer
    | ArgumentOutOfRange  // ArgumentOutOfRangeException from the List<T> indexer

  /** How a call that returns nothing ended. */
  datatype Outcome = Completed | Threw(exception: Exception)
}
