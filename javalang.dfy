/**
 * The few pieces of the Java runtime that the library's behaviour depends on:
 * references that may be null, and the exceptions an operation can throw.
 */
module JavaLang {

  /** A reference that may be null. */
  datatype Ref<T> = Null | NonNull(value: T)

  /** The exceptions thrown by the modelled operations. */
  datatype Exception = UnsupportedOperation

  /** The outcome of a call that either returns a value or throws. */
  datatype Result<T> = Ok(value: T) | Throws(exception: Exception)

  /** Java's string conversion in `a + b`: a null reference becomes the text "null". */
  function ToJavaString(s: Ref<string>): (r: string)
    ensures s.NonNull? ==> r == s.value
    ensures s.Null? ==> r == "null"
  {
    match s
    case Null => "null"
    case NonNull(v) => v
  }
}
