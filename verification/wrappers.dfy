/** Failure-carrying datatypes shared by every module of the model, and the
    byte type that all text is made of. */
module Wrappers {

  /** One byte of a Rust `&[u8]` / `&str`. */
  type Byte = b: int | 0 <= b < 256

  type Bytes = seq<Byte>

  datatype Option<+T> = None | Some(value: T)

  /** Rust's `Result<T, E>`; `anyhow` errors become a per-module error datatype. */
  datatype Result<+T, +E> = Ok(value: T) | Err(error: E)

  /** Rust's `Result<(), E>`. */
  datatype Outcome<+E> = Pass | Fail(error: E)

  /** The `anyhow` errors that the codec and the two parsers raise, one case
      per message. */
  datatype SyntaxError =
    | InvalidMethodName        // a method-name byte outside 0x61 - 0x7a
    | MissingMethodNameAndId   // DID text without the `did:` prefix
    | MissingMethodId          // DID text without a `:` after the method name
    | NotDidScheme             // DID URL text without the `did:` prefix
    | MissingMethodSpecificId  // DID URL text without a `:` after the method name
    | InvalidVersionTime       // a `versionTime` query value the date parser refuses

  /** The `either` crate's two-armed sum type, used by the document fields. */
  datatype Sum<+L, +R> = Left(left: L) | Right(right: R)

  /** Rust's `Option::map`. */
  function MapOption<T, U>(o: Option<T>, f: T -> U): Option<U>
  {
    match o
    case None => None
    case Some(v) => Some(f(v))
  }
}
